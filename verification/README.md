# YTScribe transcript core, in Dafny

This project models the pure logic of `server.mjs`, the YTScribe transcript API,
which answers `GET /api/transcript?v=<id or URL>&lang=<code>`:

- **`toId`** turns the raw `v` into a video id.
- **`extractJSON`** is an ordered fallback over extraction attempts.
- **`pickTrack`** chooses a caption track by fixed priority.
- **`makeParamsFromTrack`** builds the `params` token of the transcript RPC. The token
  is a two-field protobuf payload with varint lengths, encoded as URL-safe base64
  (section 5 of RFC 4648) with the padding removed (section 3.2).
- **The three caption parsers** are `mapYoutubeiTranscript`, `mapJson3` and `parseVTT`.
- **The handler's strategy chain** is a pure function of the upstream responses. It
  covers the 400 guard, the consent wall (451), the no-tracks reply, the transcript RPC
  and its preconditions, and the three timedtext candidates tried in order.

Modules:

| module | file | models |
|---|---|---|
| `Wrappers` | wrappers.dfy | `Option` |
| `Text` | text.dfy | JavaScript whitespace (`\s`), `trim`, `replace(/\s+/g, " ")`, ASCII `toLowerCase`, `includes`, `startsWith`, `split(c)[0]` |
| `Seqs` | seqs.dfy | `find`, and the map-then-drop loop shape of the parsers |
| `Urls` | urls.dfy | a parsed URL as host, path and decoded query; `searchParams.get` / `set` |
| `VideoId` | video_id.dfy | `toId` |
| `Extract` | extract.dfy | `extractJSON` |
| `Tracks` | tracks.dfy | caption tracks, `pickTrack` |
| `Bytes` | bytes.dfy | `TextEncoder` (UTF-8) and a decoder to state the round trip |
| `Varint` | varint.dfy | the base-128 `varint` helper, including `n >>> 0` |
| `Base64` | base64.dfy | base64, the URL-safe rewrite, padding removal and restoration |
| `Params` | params.dfy | `field`, the payload, `makeParamsFromTrack` |
| `Items` | items.dfy | the `{ text, offset, duration }` item and the clean-up step all parsers share |
| `Youtubei` | youtubei.dfy | `mapYoutubeiTranscript` |
| `Json3` | json3.dfy | `mapJson3` |
| `Vtt` | vtt.dfy | `parseVTT`: timestamps, tag stripping, cue blocks |
| `Handler` | handler.dfy | the `/api/transcript` route |

The network, the page scraper, `JSON.parse` and the URL parser are inputs. The handler
gets them as an `Upstream` value of functions, and each parser takes its parsed JSON as
a datatype with optional fields. `Handler.Handle` returns the reply together with the
trace of upstream requests. That lets the ordering promises ("before any caption fetch",
"as-is, then json3, then vtt") be stated as properties.

The model follows the code as written:

- A network failure of the transcript RPC or of a timedtext request throws into the
  route's `catch` and gives a 500. It does not fall through to the next strategy.
- The watch page's HTTP status is never checked; its body is used as it is.
- `toId` can return the empty string, for example for `https://youtu.be/`. The route
  then answers 400.
- `makeParamsFromTrack` returns `null` whenever the track's `baseUrl` does not parse,
  even when the track has its own `vssId`.
- A body that starts with `{` once trimmed is only ever read as json3, even on the
  as-is candidate, and is then labelled `timedtext-json3`. It is never read as WebVTT.
- A `null` entry in an event's `segs` makes `mapJson3` throw. The route catches that,
  and the candidate is skipped.

## Model

| member | source | states |
|---|---|---|
| Text.Trim | server.mjs:25 | `trim()` leaves no whitespace at either end and keeps every non-whitespace character in order |
| Text.TrimSlice | server.mjs:25 | `trim()` removes whitespace from the ends and nothing else: the result is the slice of the input between an all-whitespace prefix and an all-whitespace suffix |
| Text.SqueezeShape | server.mjs:102 | `replace(/\s+/g, " ")` leaves only single plain spaces, keeps the non-whitespace characters in order, is empty only for empty input, and starts and ends with whitespace exactly where the input does |
| Text.SqueezeJoin | server.mjs:102 | a whitespace run between two stretches of text becomes exactly one space, each side squeezed on its own |
| Text.Normalize | server.mjs:102 | `replace(/\s+/g, " ").trim()` gives single-spaced, trimmed text that keeps every non-whitespace character in order; it is empty exactly when the input is all whitespace |
| Text.NormalizeFixed | server.mjs:102 | the clean-up leaves a string unchanged if and only if it is already single-spaced and trimmed |
| Text.NormalizeIdempotent | server.mjs:102 | cleaning up twice is the same as once |
| Text.NormalizeJoin | server.mjs:102 | around an interior whitespace run of any length and kind, the clean-up is the cleaned left side, one space, and the cleaned right side |
| Text.NormalizePadded | server.mjs:102 | whitespace added around the text does not change its clean-up |
| Text.LowerChar | server.mjs:47 | an ASCII capital becomes the small letter 32 code points on; every other character stays; no capital is left |
| Text.Lower | server.mjs:47 | lower-casing keeps the length, maps each character on its own, leaves no ASCII capital and leaves every other character unchanged |
| Text.LowerIdempotent | server.mjs:47 | lower-casing twice is lower-casing once |
| Text.LowerEqualIff | server.mjs:47-49 | two strings lower-case to the same string exactly when they have the same length and agree position by position up to ASCII case |
| Text.Before | server.mjs:28 | `split(c)[0]` is the longest prefix free of `c`, ending at the first `c` when there is one |
| Seqs.FindIndex | server.mjs:49-51 | `find` returns the first position whose element satisfies the test, and nothing when none does |
| Seqs.FilterMapAppend | server.mjs:96-108 | the map-then-drop loop distributes over concatenation, so output order follows input order |
| Seqs.FilterMapTotal | server.mjs:96-108 | when nothing is dropped, the k-th output is the image of the k-th input |
| Urls.Get | server.mjs:30 | `searchParams.get(k)` is absent exactly when no pair has key `k`, and otherwise is the value of the first such pair |
| Urls.SetGet | server.mjs:226 | after `searchParams.set(k, v)`, `get(k)` gives `v` and every other key reads as before |
| Urls.SetUnique | server.mjs:226 | after `set(k, v)`, exactly one pair has key `k` |
| VideoId.ToId | server.mjs:23-34 | a trimmed input matching `^[\w-]{10,}$` is returned as is; a failed URL parse gives no id; a URL-derived id needs a parsed URL |
| VideoId.ToIdShortLink | server.mjs:28 | `https://youtu.be/SEG[/...]` names `SEG`, for any `/`-free segment, whether or not it looks like a video id |
| VideoId.ToIdEmptyShortLink | server.mjs:28 | `https://youtu.be/` names the empty id |
| VideoId.ToIdShorts | server.mjs:29 | a path whose first `/shorts/`, wherever it occurs, is followed by `SEG[/...]` names `SEG`, for any `/`-free segment |
| VideoId.ToIdWatch | server.mjs:30 | any other URL names its `v` query value, or no id when the URL has no `v` parameter |
| VideoId.ShortsSegment | server.mjs:29 | the segment is the text after the first `/shorts/` up to the next `/` or the end: a prefix of that text with no `/`, followed by `/` unless it runs to the end |
| VideoId.ShortLinkSegment | server.mjs:28 | the segment is the path after its first character up to the next `/` or the end, and empty for an empty path |
| Extract.ExtractJson | server.mjs:36-44 | the result is absent exactly when no attempt both matched and parsed; otherwise it is the parse of the first attempt that did |
| Extract.ExtractJsonAppend | server.mjs:37-42 | later patterns are consulted only when every earlier one failed to match or to parse |
| Tracks.PickIndex | server.mjs:46-54 | picks the first exact case-insensitive language match for a non-empty wish, else the first default track, else the first track whose un-lowered code starts with `en`, else the first track |
| Tracks.PickTrack | server.mjs:46-54 | the chosen track is one of the listed tracks |
| Bytes.EncodeChar | server.mjs:65-67 | a character encodes to 1 to 4 bytes, to one byte exactly when it is ASCII, with continuation bytes after the first |
| Bytes.DecodeEncode | server.mjs:65-67 | the UTF-8 encoding of a string decodes back to the string |
| Bytes.EncodeAscii | server.mjs:65-67 | an ASCII string encodes to its own character codes |
| Varint.EncodeShape | server.mjs:72-73 | every varint byte but the last has bit 7 set, and the last is below 128 |
| Varint.EncodeLength | server.mjs:69-75 | the loop emits the varint of `n >>> 0`, and for lengths below 2^32 that varint decodes back to the length |
| Varint.DecodeEncode | server.mjs:69-75 | a varint followed by any bytes decodes to its value and its own length |
| Params.ReadFieldOfField | server.mjs:76 | reading a `field(tag, bytes)` with the same tag gives back the bytes and the rest of the input |
| Params.PayloadRoundTrip | server.mjs:77-80 | the payload `0x0A varint(v) v 0x12 varint(l) l` decodes back to `v` and `l` |
| Params.VssIdOf | server.mjs:61 | the track's `vssId` wins, then a non-empty `vssId` query value, then `vssids`, and the result always comes from one of them |
| Params.LangOf | server.mjs:62 | the language is the track's code, or `en` when that is empty |
| Params.MakeParams | server.mjs:58-87 | no token when the base URL does not parse or no vssId is found; otherwise a non-empty token of `[A-Za-z0-9_-]` only |
| Params.MakeParamsRoundTrip | server.mjs:58-83 | restoring and base64-decoding the token gives the payload, which decodes back to the UTF-8 of the vssId and the language, which decode back to the strings |
| Base64.DecodeEncode | server.mjs:82 | standard base64 decodes back to the bytes it encodes |
| Base64.DigitsNoPadding | server.mjs:82 | the unpadded digits contain no `=`, `-` or `_` |
| Base64.DigitsLength | server.mjs:82 | there are `4*(n/3)` unpadded digits, plus 0, 2 or 3 for a final group of 0, 1 or 2 bytes |
| Base64.StripPadding | server.mjs:83 | `replace(/=+$/, "")` removes only a run of trailing `=` and leaves no `=` at the end |
| Base64.TokenAlphabet | server.mjs:82-83 | the token uses only the URL-safe alphabet, with no `=` |
| Base64.TokenLength | server.mjs:82-83 | the token is exactly as long as the unpadded encoding, so it is non-empty for a non-empty payload |
| Base64.RestoreToken | server.mjs:82-83 | putting `+`, `/` and the padding back turns the token into the standard encoding |
| Base64.TokenRoundTrip | server.mjs:82-83 | restoring and decoding the token gives back the payload bytes |
| Items.MakeItem | server.mjs:102-106 | an entry whose text is all whitespace is dropped; otherwise its item's text is the cleaned-up input, which is non-empty, with the given offset and the duration clamped at zero |
| Items.MakeItemCanonical | server.mjs:102-106 | text that is already clean is kept verbatim |
| Youtubei.CueText | server.mjs:101 | the cue's `cue.simpleText` when present, else its `simpleText` when present, else the empty string |
| Youtubei.MapGroups | server.mjs:95-108 | at most one item per cue, every item well formed |
| Youtubei.MapTranscript | server.mjs:89-110 | a missing or non-array cue-group path gives no items; otherwise at most one well-formed item per cue |
| Youtubei.MapGroupsFlat | server.mjs:96-106 | the output is the flattened cue list, mapped and filtered in order, whatever the grouping |
| Youtubei.MapGroupsKeepsAll | server.mjs:101-106 | when every cue has text, the k-th item has the cleaned-up text of the k-th cue, `offset = startOffsetMs/1000` and `duration = max(0, durationMs/1000)` |
| Youtubei.MapGroupsDrops | server.mjs:99-106 | cues without a renderer or without text add nothing |
| Json3.JoinSegs | server.mjs:119 | joining the segments throws exactly when a segment is `null`; otherwise it is the segments' `utf8` texts one after another in order, a missing one counting as empty |
| Json3.DurationMs | server.mjs:121-124 | a non-zero `dDurationMs` is kept; a zero or absent one becomes the next raw event's start minus this start, or stays 0 when there is none |
| Json3.MapFrom | server.mjs:115-127 | the loop throws exactly when some event with `segs` has a `null` segment; otherwise at most one well-formed item per event |
| Json3.MapJson3 | server.mjs:112-129 | a missing `events` array gives no items; the parse throws exactly when some event is poisoned by a `null` segment |
| Json3.EventStepEmit | server.mjs:117-126 | an emitted item has the joined, cleaned text, `offset = tStartMs/1000` and the duration clamped at zero |
| Json3.MapFromSteps | server.mjs:115-127 | when nothing throws, the output is exactly the emitted events in order |
| Json3.GapFromDroppedEvent | server.mjs:122-124 | a cue at 0 ms followed by a text-less event at 1000 ms lasts 1 s, although that next event is dropped |
| Json3.NullSegmentThrows | server.mjs:118 | a `null` segment after a good event still makes the whole parse throw |
| Vtt.ParseStamp | server.mjs:132-133 | a timestamp is read exactly when it has the `HH:MM:SS.mmm` shape, and its fields are in range |
| Vtt.ParseFormat | server.mjs:132-133 | formatting a timestamp and reading it back gives the same timestamp |
| Vtt.FormatParse | server.mjs:132-133 | reading a timestamp and formatting it back gives the same text |
| Vtt.ExampleStamps | server.mjs:132-133 | `00:00:01.000` and `00:00:03.500` read as 1000 ms and 3500 ms |
| Vtt.TagAt | server.mjs:137 | a tag is `<`, at least one character other than `>`, then the first `>` |
| Vtt.StripTagsTagFree | server.mjs:137 | after stripping, no position starts a tag |
| Vtt.StripTagsFixed | server.mjs:137 | text without tags passes through unchanged |
| Vtt.StripTagsIdempotent | server.mjs:137 | stripping twice is stripping once, and stripping changes nothing exactly when there are no tags |
| Vtt.StripTagsChars | server.mjs:137 | every character left by stripping occurs in the input |
| Vtt.StripTagsInOrder | server.mjs:137 | stripping only deletes characters: the result embeds in the input by strictly increasing positions |
| Vtt.StripWrapped | server.mjs:137 | `<tag>body</tag>tail` becomes `body` followed by `tail` |
| Vtt.BlockOf | server.mjs:132-133 | a match exists exactly when both timestamps have the `HH:MM:SS.mmm` shape; the block carries the cue text and timestamps whose zero-padded form is the captured text |
| Vtt.BlockOfFormatted | server.mjs:132-133 | a block written out with zero-padded timestamps is read back as itself |
| Vtt.ParseVtt | server.mjs:131-143 | at most one item per block, every item well formed |
| Vtt.ParseVttKeepsAll | server.mjs:139-140 | when every block has text, the k-th item has the k-th block's start as offset, `max(0, end - start)` as duration and its cleaned, tag-free text |
| Vtt.BlankBlockDropped | server.mjs:138 | a block that is only tags and whitespace yields nothing |
| Vtt.OneToThreeAndAHalf | server.mjs:139-140 | a cue from 1 s to 3.5 s over clean text gives one item at offset 1.0 with duration 2.5 |
| Vtt.HelloWorldCue | server.mjs:131-143 | `00:00:01.000 --> 00:00:03.500` over `Hello world` gives exactly one item: `Hello world` at 1.0 for 2.5 |
| Handler.ServerError | server.mjs:252-255 | the `catch` answers 500 with the error's message, or `Server error` when it is empty |
| Handler.WatchUrl | server.mjs:167-169 | the watch page URL carries the id as its `v` parameter |
| Handler.ParamsOf | server.mjs:193 | the track's own params win; otherwise the token `makeParamsFromTrack` builds, or empty exactly when it builds none |
| Handler.ReadTranscript | server.mjs:212-221 | a network failure settles the request with the `catch`'s 500; a response settles it exactly when it is ok, is JSON and maps to items, and then with those items labelled `youtubei`; anything else falls through |
| Handler.WithLang | server.mjs:225-226 | the base URL gets `lang` set to the wanted language when there is one and is unchanged otherwise; every other query parameter, host and path are kept |
| Handler.WithFormat | server.mjs:230-231 | a candidate gets its `fmt`; every other query parameter (including `lang`), host and path are kept |
| Handler.Candidates | server.mjs:224-231 | three candidates: the language-set base URL, then that URL with only `fmt` set to `json3`, then to `vtt` |
| Handler.ReadTimedtext | server.mjs:236-247 | non-ok or empty bodies are skipped; a body starting with `{` once trimmed is answered exactly by its non-empty json3 items, labelled `timedtext-json3`; any other body mentioning `WEBVTT` is answered exactly by its non-empty WebVTT items, labelled `timedtext-vtt` |
| Handler.TryCandidates | server.mjs:233-251 | candidates are requested in order, stopping at the first that settles the request; the reply is captions, a 500, or the no-captions failure |
| Handler.EarlierCandidatesPass | server.mjs:233-248 | every candidate before the last one requested answered without captions |
| Handler.LastCandidateAnswers | server.mjs:233-248 | captions come from the last candidate requested, and a 500 from a network failure on it |
| Handler.CandidatesExhausted | server.mjs:248-251 | `ok: false` with the fixed message exactly when every candidate answered without captions |
| Handler.FromTracks | server.mjs:192-251 | with tracks listed the reply is captions, a 500 or the no-captions failure; only a 500 for an unparseable base URL comes with no request |
| Handler.FromPage | server.mjs:172-190 | the reply is 451 exactly at the consent wall; the 451 and the no-tracks reply make no further request |
| Handler.Handle | server.mjs:158-255 | no request is made exactly when the reply is the 400; otherwise the watch page is fetched first; the status is 200, 400, 451 or 500; captions are never empty |
| Handler.HandleFromPage | server.mjs:170-190 | once the page is fetched, the rest of the route depends only on the page and the id |
| Handler.BadRequestIff | server.mjs:162-163 | the reply is 400 exactly when `toId` yields nothing usable, and then nothing is fetched |
| Handler.ConsentGuard | server.mjs:173-175 | the reply is 451 exactly when the page mentions consent (ASCII case-insensitive) and lacks `ytInitialPlayerResponse` |
| Handler.ConsentStops | server.mjs:173-175 | behind the consent wall nothing but the page is fetched |
| Handler.NoTracksIff | server.mjs:189-190 | the no-tracks reply comes exactly when the page is past the wall and lists no tracks, and no caption endpoint is contacted |
| Handler.TranscriptCalledIff | server.mjs:196-212 | the RPC is called first, with the id and the chosen track's params, when key, client version and params are present; otherwise only timedtext requests follow |
| Handler.FallsThrough | server.mjs:214-233 | when the RPC is skipped or yields nothing, the reply is the timedtext loop's over the chosen track's candidates |
| Handler.TranscriptWins | server.mjs:214-218 | RPC items settle the request with no timedtext request |

## Left out

- Express, CORS, logging, the `/` and `/api/health` routes and the server start are left out: they are plumbing.
- `fetch`, `JSON.parse`, the `URL` parser and the page-scraping regular expressions are inputs. They appear as the `Upstream` functions and the parsed datatypes, because they are foreign code.
- Request headers and the fixed RPC body fields (`hl`, `gl`, the user agent, cookies) are left out. Only the fields that depend on the request are kept, in `TranscriptCall`.
- URL serialisation (`toString` and `new URL(string)` on it) is left out. A URL is kept in parsed form, with its query decoded.
- The WebVTT block pattern is left out. `Vtt.Block` is one of its matches, holding the two timestamps and the raw cue text.
- Floating point is left out. Times are exact `real` seconds computed from integer milliseconds, and `Number` coercions of strings are not modelled.
- Text.LowerChar: only the ASCII capitals `A`-`Z` are lowered; every other character, including a non-ASCII capital, is kept, whereas `toLowerCase` lowers it.
- Text.Lower: `toLowerCase` is modelled for ASCII letters only. The requested `lang` is free text that the code lower-cases by full Unicode rules (server.mjs:160 and 47); the model lower-cases it by ASCII rules only, so a non-ASCII `lang` (`É`, or U+212A KELVIN SIGN, which `toLowerCase` turns into `k`) is not modelled: it is compared with track codes and sent as `lang` un-lowered. For the `/consent/i` test the ASCII fold is exact, since the pattern has no `u` flag.
- Youtubei.CueText: `.toString()` on a non-string `simpleText` is not modelled; cue texts are strings.
- Ill-typed upstream JSON is left out. The datatypes hold an array or nothing for a cue group's `cues` and an event's `segs`, which the code does not check with `Array.isArray`, so a truthy value of another type there cannot be expressed. The code usually throws on such a value, and the parser's `try` swallows the throw, so that strategy or candidate falls through.
- Bytes.Encode: lone surrogates, which `TextEncoder` replaces with U+FFFD, cannot occur, because Dafny characters are Unicode scalar values.
- Params.PayloadRoundTrip: holds for field lengths below 2^32. `n >>> 0` wraps longer lengths, as `Varint.EncodeLength` states.
- Offsets are not clamped by the code, so no non-negativity is claimed for them.
- A repeated `v` query parameter, which Express turns into an array, is left out. `v` is an optional string, and a missing one becomes `"undefined"` as `String(undefined)` does.
