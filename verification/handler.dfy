/** The `/api/transcript` handler: its decisions, with every network exchange, the
    page scraping and `JSON.parse` supplied from outside. The handler returns the
    reply together with the trace of upstream requests it made, in order. */
module Handler {
  import opened Wrappers
  import opened Text
  import opened Urls
  import opened Items
  import opened Tracks
  import Extract
  import VideoId
  import Params
  import Youtubei
  import Json3
  import Vtt

  // ---------- what the page and the network supply ----------

  /** The `ytcfg` fields the handler reads; `""` stands for a missing or falsy value. */
  datatype Config = Config(apiKey: string, clientVersion: string, clientName: string, visitorData: string)

  /** `player?.captions?.playerCaptionsTracklistRenderer?.captionTracks || []`. */
  datatype Player = Player(captionTracks: seq<Track>)

  /** The outcomes of the two `extractJSON` pattern lists on a watch page. */
  datatype Scan = Scan(config: seq<Extract.Attempt<Config>>, player: seq<Extract.Attempt<Player>>)

  /** A `fetch` followed by `r.text()`: either it throws, or a status flag and a body. */
  datatype Fetched<T> = NetworkError(message: string) | Response(ok: bool, body: T)

  /** A timedtext body: its text, `JSON.parse` of it (`None` when that throws) and the
      cue blocks the WebVTT pattern matches in it. */
  datatype TimedText = TimedText(text: string, json: Option<Json3.Doc>, cues: seq<Vtt.Block>)

  /** The fields of the `get_transcript` call that depend on the request. */
  datatype TranscriptCall = TranscriptCall(
    key: string, clientName: string, clientVersion: string, visitorData: string,
    videoId: string, params: string)

  datatype Request = WatchPage(url: Url) | Transcript(call: TranscriptCall) | Timedtext(url: Url)

  /** Everything the handler cannot see: the URL parser, the three endpoints, the page
      scraper. `transcript` answers `None` as body when it is not JSON. */
  datatype Upstream = Upstream(
    parseUrl: string -> Option<Url>,
    watch: Url -> Fetched<string>,
    scan: string -> Scan,
    transcript: TranscriptCall -> Fetched<Option<Youtubei.Response>>,
    timedtext: Url -> Fetched<TimedText>)

  // ---------- replies ----------

  /** `{ ok: false, error }` with a status, `{ ok: true, items: [], note }`, or
      `{ ok: true, items, source }`. */
  datatype Reply = Failure(status: nat, error: string) | NoTracks | Captions(items: seq<Item>, source: string)

  const InvalidIdMessage := "Missing or invalid ?v=<videoId or YouTube URL>"
  const ConsentMessage := "Region/consent gating. Try again or different region."
  const NoCaptionsMessage := "No captions available for this video/language."
  const InvalidUrlMessage := "Invalid URL"

  const BadRequest := Failure(400, InvalidIdMessage)
  const Gated := Failure(451, ConsentMessage)
  const NoCaptions := Failure(200, NoCaptionsMessage)

  /** The `catch` at the end: `e?.message || "Server error"`. */
  function ServerError(message: string): (r: Reply)
    ensures r.Failure? && r.status == 500 && r.error != ""
    ensures message != "" ==> r.error == message
  {
    Failure(500, if message == "" then "Server error" else message)
  }

  /** The HTTP status of a reply. */
  function Status(r: Reply): nat {
    if r.Failure? then r.status else 200
  }

  // ---------- step 1: the watch page ----------

  /** `String(undefined)`, what a missing `v` becomes. */
  const Undefined := "undefined"

  /** `https://www.youtube.com/watch?v=ID&hl=en&gl=US&bpctr=9999999999&has_verified=1`,
      with the query held decoded. */
  function WatchUrl(id: string): (u: Url)
    ensures Get(u.query, "v") == Some(id)
  {
    Url("www.youtube.com", "/watch",
        [("v", id), ("hl", "en"), ("gl", "US"), ("bpctr", "9999999999"), ("has_verified", "1")])
  }

  /** `/consent/i.test(html)`: without the `u` flag the case folding is ASCII only. */
  predicate MentionsConsent(html: string) {
    Contains(Lower(html), "consent")
  }

  /** The consent-wall guard: the page mentions consent but carries no player data. */
  predicate ConsentWall(html: string) {
    MentionsConsent(html) && !Contains(html, "ytInitialPlayerResponse")
  }

  // ---------- step 2: the transcript RPC ----------

  /** `track?.params || makeParamsFromTrack(track)`, `""` when both are falsy. */
  function ParamsOf(t: Track): (r: string)
    ensures t.params != "" ==> r == t.params
    ensures t.params == "" ==> (r == "" <==> Params.MakeParams(t).None?)
    ensures t.params == "" && Params.MakeParams(t).Some? ==> r == Params.MakeParams(t).value
  {
    if t.params != "" then t.params
    else
      match Params.MakeParams(t)
      case None => ""
      case Some(p) => p
  }

  /** `if (key && clientVersion && params)`. */
  predicate UsesTranscript(cfg: Config, params: string) {
    cfg.apiKey != "" && cfg.clientVersion != "" && params != ""
  }

  function TranscriptCallFor(id: string, cfg: Config, params: string): TranscriptCall {
    TranscriptCall(cfg.apiKey, if cfg.clientName != "" then cfg.clientName else "WEB",
                   cfg.clientVersion, cfg.visitorData, id, params)
  }

  /** The RPC's verdict: `Some` when the handler answers from it (items, or the
      `catch` for a network failure), `None` when it falls through to timedtext. */
  function ReadTranscript(f: Fetched<Option<Youtubei.Response>>): (r: Option<Reply>)
    ensures r.Some? && r.value.Captions? ==> r.value.items != [] && AllWellFormed(r.value.items)
    ensures r.Some? ==> r.value.Captions? || f.NetworkError?
    ensures r.Some? && r.value.Failure? ==> r.value.status == 500
    ensures f.NetworkError? ==> r == Some(ServerError(f.message))
    ensures f.Response? ==>
      (r.Some? <==> f.ok && f.body.Some? && Youtubei.MapTranscript(f.body.value) != [])
    ensures f.Response? && r.Some? ==> r.value == Captions(Youtubei.MapTranscript(f.body.value), "youtubei")
  {
    match f
    case NetworkError(m) => Some(ServerError(m))
    case Response(ok, body) =>
      if !ok || body.None? then None
      else
        var items := Youtubei.MapTranscript(body.value);
        if items == [] then None else Some(Captions(items, "youtubei"))
  }

  // ---------- step 3: timedtext ----------

  /** `base` with `lang` set to the wanted language when there is one. */
  function WithLang(base: Url, want: string): (b: Url)
    ensures b.host == base.host && b.path == base.path
    ensures Get(b.query, "lang") == if want != "" then Some(want) else Get(base.query, "lang")
    ensures forall k :: k != "lang" ==> Get(b.query, k) == Get(base.query, k)
    ensures want == "" ==> b == base
  {
    SetGet(base.query, "lang", want, "lang");
    SetKeeps(base.query, "lang", want);
    if want != "" then WithParam(base, "lang", want) else base
  }

  /** `b` with `fmt` set; every other parameter keeps its value. */
  function WithFormat(b: Url, fmt: string): (u: Url)
    ensures u.host == b.host && u.path == b.path
    ensures Get(u.query, "fmt") == Some(fmt)
    ensures Get(u.query, "lang") == Get(b.query, "lang")
    ensures forall k :: k != "fmt" ==> Get(u.query, k) == Get(b.query, k)
  {
    SetGet(b.query, "fmt", fmt, "fmt");
    SetKeeps(b.query, "fmt", fmt);
    WithParam(b, "fmt", fmt)
  }

  /** The three candidate URLs: the track's base URL with the wanted language, then
      the same with `fmt=json3`, then with `fmt=vtt`. */
  function Candidates(base: Url, want: string): (r: seq<Url>)
    ensures |r| == 3
    ensures r[0] == WithLang(base, want)
    ensures Get(r[1].query, "fmt") == Some("json3") && Get(r[2].query, "fmt") == Some("vtt")
    ensures Get(r[1].query, "lang") == Get(r[0].query, "lang") == Get(r[2].query, "lang")
    ensures r[1] == WithFormat(r[0], "json3") && r[2] == WithFormat(r[0], "vtt")
  {
    var b := WithLang(base, want);
    [b, WithFormat(b, "json3"), WithFormat(b, "vtt")]
  }

  /** One candidate's answer: `Some` with the captions it yields, `None` to try the
      next. A body that starts with `{` once trimmed is read as json3 only; anything
      else is read as WebVTT when it mentions `WEBVTT`. */
  function ReadTimedtext(ok: bool, body: TimedText): (r: Option<Reply>)
    ensures r.Some? ==> r.value.Captions? && r.value.items != [] && AllWellFormed(r.value.items)
    ensures r.Some? ==> ok && body.text != []
    ensures r.Some? && r.value.source == "timedtext-json3" ==> StartsWith(Trim(body.text), "{")
    ensures r.Some? && r.value.source == "timedtext-vtt" ==>
      !StartsWith(Trim(body.text), "{") && Contains(body.text, "WEBVTT")
    ensures r.Some? ==> r.value.source == "timedtext-json3" || r.value.source == "timedtext-vtt"
    ensures r.Some? && r.value.source == "timedtext-json3" ==>
      body.json.Some? && Json3.MapJson3(body.json.value) == Some(r.value.items)
    ensures r.Some? && r.value.source == "timedtext-vtt" ==> r.value.items == Vtt.ParseVtt(body.cues)
    ensures ok && body.text != [] && StartsWith(Trim(body.text), "{") && body.json.Some?
            && Json3.MapJson3(body.json.value).Some? && Json3.MapJson3(body.json.value).value != []
            ==> r == Some(Captions(Json3.MapJson3(body.json.value).value, "timedtext-json3"))
    ensures ok && body.text != [] && !StartsWith(Trim(body.text), "{") && Contains(body.text, "WEBVTT")
            && Vtt.ParseVtt(body.cues) != []
            ==> r == Some(Captions(Vtt.ParseVtt(body.cues), "timedtext-vtt"))
  {
    if !ok || body.text == [] then None
    else if StartsWith(Trim(body.text), "{") then
      match body.json
      case None => None
      case Some(doc) =>
        match Json3.MapJson3(doc)
        case None => None
        case Some(items) => if items == [] then None else Some(Captions(items, "timedtext-json3"))
    else if Contains(body.text, "WEBVTT") then
      var items := Vtt.ParseVtt(body.cues);
      if items == [] then None else Some(Captions(items, "timedtext-vtt"))
    else None
  }

  /** The candidate loop: one request per candidate, in order, stopping at the first
      that yields captions or at a network failure; `NoCaptions` when all are spent. */
  function TryCandidates(cands: seq<Url>, fetch: Url -> Fetched<TimedText>): (r: (Reply, seq<Request>))
    ensures 1 <= |r.1| <= |cands| || (cands == [] && r.1 == [])
    ensures forall i :: 0 <= i < |r.1| ==> r.1[i] == Timedtext(cands[i])
    ensures r.0 == NoCaptions || r.0.Captions? || (r.0.Failure? && r.0.status == 500)
    ensures r.0.Captions? ==> r.0.items != [] && AllWellFormed(r.0.items)
    decreases |cands|
  {
    if cands == [] then (NoCaptions, [])
    else
      var u := cands[0];
      match fetch(u)
      case NetworkError(m) => (ServerError(m), [Timedtext(u)])
      case Response(ok, body) =>
        match ReadTimedtext(ok, body)
        case Some(reply) => (reply, [Timedtext(u)])
        case None =>
          var rest := TryCandidates(cands[1..], fetch);
          (rest.0, [Timedtext(u)] + rest.1)
  }

  /** A candidate that neither fails on the network nor yields captions. */
  predicate Passes(u: Url, fetch: Url -> Fetched<TimedText>) {
    fetch(u).Response? && ReadTimedtext(fetch(u).ok, fetch(u).body).None?
  }

  // ---------- the handler ----------

  /** `extractJSON(html, [ytcfg pattern]) || {}`. */
  function ConfigOf(up: Upstream, html: string): Config {
    Extract.ExtractOr(up.scan(html).config, Config("", "", "", ""))
  }

  /** The caption tracks of `extractJSON(html, [player patterns]) || {}`. */
  function TracksOf(up: Upstream, html: string): seq<Track> {
    Extract.ExtractOr(up.scan(html).player, Player([])).captionTracks
  }

  /** Steps 2 and 3 for a page that lists caption tracks. */
  function FromTracks(id: string, want: string, cfg: Config, tracks: seq<Track>, up: Upstream): (r: (Reply, seq<Request>))
    requires tracks != []
    ensures r.0.Failure? ==> r.0.status == 500 || r.0 == NoCaptions
    ensures r.0.Captions? ==> r.0.items != [] && AllWellFormed(r.0.items)
    ensures r.1 == [] ==> r.0 == ServerError(InvalidUrlMessage)
  {
    var track := PickTrack(tracks, want);
    var params := ParamsOf(track);
    var call := TranscriptCallFor(id, cfg, params);
    var viaRpc := if UsesTranscript(cfg, params) then ReadTranscript(up.transcript(call)) else None;
    var rpcTrace := if UsesTranscript(cfg, params) then [Transcript(call)] else [];
    if viaRpc.Some? then (viaRpc.value, rpcTrace)
    else
      match track.baseUrl
      case None => (ServerError(InvalidUrlMessage), rpcTrace)
      case Some(base) =>
        var tt := TryCandidates(Candidates(base, want), up.timedtext);
        (tt.0, rpcTrace + tt.1)
  }

  /** Everything after the watch page has been fetched. */
  function FromPage(id: string, want: string, html: string, up: Upstream): (r: (Reply, seq<Request>))
    ensures r.0 == Gated <==> ConsentWall(html)
    ensures r.0.Failure? ==> r.0.status in {451, 500} || r.0 == NoCaptions
    ensures r.0.Captions? ==> r.0.items != [] && AllWellFormed(r.0.items)
    ensures r.0 == Gated || r.0 == NoTracks ==> r.1 == []
  {
    if ConsentWall(html) then (Gated, [])
    else
      var tracks := TracksOf(up, html);
      if tracks == [] then (NoTracks, [])
      else FromTracks(id, want, ConfigOf(up, html), tracks, up)
  }

  /** The route once `toId` has run: `id` is its result, `want` the lower-cased
      `lang`. Only an unusable id is answered without touching the network;
      otherwise the watch page is always the first request. */
  function Respond(id: Option<string>, want: string, up: Upstream): (r: (Reply, seq<Request>))
    ensures r.1 == [] <==> r.0 == BadRequest
    ensures r.1 != [] ==> r.1[0].WatchPage?
    ensures Status(r.0) in {200, 400, 451, 500}
    ensures r.0.Captions? ==> r.0.items != [] && AllWellFormed(r.0.items)
  {
    if id.None? || id.value == "" then (BadRequest, [])
    else
      var url := WatchUrl(id.value);
      match up.watch(url)
      case NetworkError(m) => (ServerError(m), [WatchPage(url)])
      case Response(_, html) =>
        var rest := FromPage(id.value, want, html, up);
        (rest.0, [WatchPage(url)] + rest.1)
  }

  /** `GET /api/transcript?v=…&lang=…`: the reply and the upstream requests made.
      A missing `v` reads as `String(undefined)`, a missing `lang` as empty. */
  function Handle(v: Option<string>, lang: Option<string>, up: Upstream): (r: (Reply, seq<Request>))
    ensures r.1 == [] <==> r.0 == BadRequest
    ensures r.1 != [] ==> r.1[0].WatchPage?
    ensures Status(r.0) in {200, 400, 451, 500}
    ensures r.0.Captions? ==> r.0.items != [] && AllWellFormed(r.0.items)
  {
    var id := VideoId.ToId(v.GetOr(Undefined), up.parseUrl);
    var want := Lower(lang.GetOr(""));
    Respond(id, want, up)
  }

  // ---------- properties ----------

  /** The id is usable when `toId` returned a non-empty string. */
  predicate Usable(id: Option<string>) {
    id.Some? && id.value != ""
  }

  /** A 400 exactly when `toId` yields nothing usable, and then nothing is fetched;
      otherwise the first request is the watch page of that id. */
  lemma BadRequestIff(id: Option<string>, want: string, up: Upstream)
    ensures Status(Respond(id, want, up).0) == 400 <==> !Usable(id)
    ensures !Usable(id) ==> Respond(id, want, up) == (BadRequest, [])
    ensures Usable(id) ==> Respond(id, want, up).1[0] == WatchPage(WatchUrl(id.value))
  {
  }

  /** Once the watch page is in, the rest is `FromPage`'s. */
  lemma HandleFromPage(id: string, want: string, up: Upstream, ok: bool, html: string)
    requires id != "" && up.watch(WatchUrl(id)) == Response(ok, html)
    ensures var rest := FromPage(id, want, html, up);
      Respond(Some(id), want, up) == (rest.0, [WatchPage(WatchUrl(id))] + rest.1)
  {
  }

  /** Only a page that mentions consent and lacks player data is answered 451. */
  lemma ConsentGuard(id: string, want: string, up: Upstream, ok: bool, html: string)
    requires id != "" && up.watch(WatchUrl(id)) == Response(ok, html)
    ensures Status(Respond(Some(id), want, up).0) == 451 <==> ConsentWall(html)
  {
    HandleFromPage(id, want, up, ok, html);
    var rest := FromPage(id, want, html, up);
    assert Status(rest.0) == 451 <==> rest.0 == Gated;
  }

  /** Behind the consent wall nothing but the page is fetched. */
  lemma ConsentStops(id: string, want: string, up: Upstream, ok: bool, html: string)
    requires id != "" && up.watch(WatchUrl(id)) == Response(ok, html)
    requires ConsentWall(html)
    ensures Respond(Some(id), want, up) == (Gated, [WatchPage(WatchUrl(id))])
  {
    HandleFromPage(id, want, up, ok, html);
    assert FromPage(id, want, html, up) == (Gated, []);
    assert [WatchPage(WatchUrl(id))] + [] == [WatchPage(WatchUrl(id))];
  }

  /** No tracks: an empty item list with a note, and no caption endpoint is
      contacted. The note is given for no other reason. */
  lemma NoTracksIff(id: string, want: string, up: Upstream, ok: bool, html: string)
    requires id != "" && up.watch(WatchUrl(id)) == Response(ok, html)
    ensures Respond(Some(id), want, up).0 == NoTracks <==> !ConsentWall(html) && TracksOf(up, html) == []
    ensures Respond(Some(id), want, up).0 == NoTracks ==> Respond(Some(id), want, up).1 == [WatchPage(WatchUrl(id))]
  {
    HandleFromPage(id, want, up, ok, html);
    var rest := FromPage(id, want, html, up);
    if rest.0 == NoTracks {
      assert rest.1 == [];
      assert [WatchPage(WatchUrl(id))] + [] == [WatchPage(WatchUrl(id))];
    }
  }

  /** With tracks listed, the transcript RPC is called when key, client version and
      params are all present, as the very first request after the page, carrying the
      video id and the chosen track's params; otherwise it is not called at all. It
      is never called twice. */
  lemma TranscriptCalledIff(id: string, want: string, cfg: Config, tracks: seq<Track>, up: Upstream)
    requires tracks != []
    ensures var params := ParamsOf(PickTrack(tracks, want));
      UsesTranscript(cfg, params) ==> FromTracks(id, want, cfg, tracks, up).1[0] == Transcript(TranscriptCallFor(id, cfg, params))
    ensures var params := ParamsOf(PickTrack(tracks, want));
      var trace := FromTracks(id, want, cfg, tracks, up).1;
      forall i :: 0 <= i < |trace| && (i > 0 || !UsesTranscript(cfg, params)) ==> trace[i].Timedtext?
  {
    var params := ParamsOf(PickTrack(tracks, want));
    var rpcTrace := if UsesTranscript(cfg, params) then [Transcript(TranscriptCallFor(id, cfg, params))] else [];
    var rest := FromTracksTrace(id, want, cfg, tracks, up);
    assert FromTracks(id, want, cfg, tracks, up).1 == rpcTrace + rest;
    ThenTimedtext(rpcTrace, rest);
  }

  /** The trace of `FromTracks`: the RPC request when it is made, then timedtext
      requests only. */
  lemma FromTracksTrace(id: string, want: string, cfg: Config, tracks: seq<Track>, up: Upstream)
    returns (rest: seq<Request>)
    requires tracks != []
    ensures var params := ParamsOf(PickTrack(tracks, want));
      var rpcTrace := if UsesTranscript(cfg, params) then [Transcript(TranscriptCallFor(id, cfg, params))] else [];
      FromTracks(id, want, cfg, tracks, up).1 == rpcTrace + rest
    ensures forall i :: 0 <= i < |rest| ==> rest[i].Timedtext?
  {
    var track := PickTrack(tracks, want);
    var params := ParamsOf(track);
    var rpcTrace := if UsesTranscript(cfg, params) then [Transcript(TranscriptCallFor(id, cfg, params))] else [];
    var r := FromTracks(id, want, cfg, tracks, up);
    rest := [];
    if r.1 == rpcTrace {
      assert r.1 == rpcTrace + [];
    } else {
      var base := track.baseUrl.value;
      var tt := TryCandidates(Candidates(base, want), up.timedtext);
      rest := tt.1;
      forall i | 0 <= i < |rest| ensures rest[i].Timedtext? {
        assert rest[i] == Timedtext(Candidates(base, want)[i]);
      }
    }
  }

  /** At most one leading request, then only timedtext requests. */
  lemma ThenTimedtext(first: seq<Request>, rest: seq<Request>)
    requires |first| <= 1
    requires forall i :: 0 <= i < |rest| ==> rest[i].Timedtext?
    ensures forall i :: 0 <= i < |first + rest| && (i > 0 || first == []) ==> (first + rest)[i].Timedtext?
  {
    forall i | 0 <= i < |first + rest| && (i > 0 || first == []) ensures (first + rest)[i].Timedtext? {
      assert (first + rest)[i] == rest[i - |first|];
    }
  }

  /** When the RPC is skipped or does not answer with items, the reply is the
      timedtext loop's over the candidates for the chosen track. */
  lemma FallsThrough(id: string, want: string, cfg: Config, tracks: seq<Track>, up: Upstream, base: Url)
    requires tracks != []
    requires PickTrack(tracks, want).baseUrl == Some(base)
    requires var params := ParamsOf(PickTrack(tracks, want));
      !UsesTranscript(cfg, params) || ReadTranscript(up.transcript(TranscriptCallFor(id, cfg, params))).None?
    ensures FromTracks(id, want, cfg, tracks, up).0 == TryCandidates(Candidates(base, want), up.timedtext).0
  {
  }

  /** A usable RPC answer settles the request: no timedtext URL is fetched. */
  lemma TranscriptWins(id: string, want: string, cfg: Config, tracks: seq<Track>, up: Upstream)
    requires tracks != []
    requires var params := ParamsOf(PickTrack(tracks, want));
      UsesTranscript(cfg, params) && ReadTranscript(up.transcript(TranscriptCallFor(id, cfg, params))).Some?
    ensures var params := ParamsOf(PickTrack(tracks, want));
      FromTracks(id, want, cfg, tracks, up)
        == (ReadTranscript(up.transcript(TranscriptCallFor(id, cfg, params))).value,
            [Transcript(TranscriptCallFor(id, cfg, params))])
  {
  }

  /** Every candidate before the last one requested passed. */
  lemma {:induction false} EarlierCandidatesPass(cands: seq<Url>, fetch: Url -> Fetched<TimedText>)
    ensures var r := TryCandidates(cands, fetch);
      forall i :: 0 <= i < |r.1| - 1 ==> Passes(cands[i], fetch)
    decreases |cands|
  {
    if cands != [] && Passes(cands[0], fetch) {
      EarlierCandidatesPass(cands[1..], fetch);
      forall i | 1 <= i < |cands| ensures cands[i] == cands[1..][i - 1] {}
    }
  }

  /** The loop answers from the last candidate it requested: with that candidate's
      captions, or with a 500 when its request failed. */
  lemma {:induction false} LastCandidateAnswers(cands: seq<Url>, fetch: Url -> Fetched<TimedText>)
    ensures var r := TryCandidates(cands, fetch);
      r.0.Captions? ==> var u := cands[|r.1| - 1];
        fetch(u).Response? && ReadTimedtext(fetch(u).ok, fetch(u).body) == Some(r.0)
    ensures var r := TryCandidates(cands, fetch);
      r.0.Failure? && r.0.status == 500 ==> fetch(cands[|r.1| - 1]).NetworkError?
    decreases |cands|
  {
    if cands != [] {
      if Passes(cands[0], fetch) {
        LastCandidateAnswers(cands[1..], fetch);
        var rest := TryCandidates(cands[1..], fetch);
        TryPassing(cands, fetch);
        if rest.1 != [] {
          assert cands[|rest.1|] == cands[1..][|rest.1| - 1];
        }
      } else {
        TryAnswering(cands, fetch);
      }
    }
  }

  /** A first candidate that passes adds its request and hands over to the rest. */
  lemma TryPassing(cands: seq<Url>, fetch: Url -> Fetched<TimedText>)
    requires cands != [] && Passes(cands[0], fetch)
    ensures var rest := TryCandidates(cands[1..], fetch);
      TryCandidates(cands, fetch) == (rest.0, [Timedtext(cands[0])] + rest.1)
  {
  }

  /** A first candidate that does not pass settles the loop with one request. */
  lemma TryAnswering(cands: seq<Url>, fetch: Url -> Fetched<TimedText>)
    requires cands != [] && !Passes(cands[0], fetch)
    ensures var r := TryCandidates(cands, fetch);
      && r.1 == [Timedtext(cands[0])]
      && (fetch(cands[0]).NetworkError? ==> r.0 == ServerError(fetch(cands[0]).message))
      && (fetch(cands[0]).Response? ==> ReadTimedtext(fetch(cands[0]).ok, fetch(cands[0]).body) == Some(r.0))
  {
  }

  /** `NoCaptions` exactly when every candidate passed. */
  lemma {:induction false} CandidatesExhausted(cands: seq<Url>, fetch: Url -> Fetched<TimedText>)
    ensures TryCandidates(cands, fetch).0 == NoCaptions <==> forall i :: 0 <= i < |cands| ==> Passes(cands[i], fetch)
    decreases |cands|
  {
    if cands != [] {
      CandidatesExhausted(cands[1..], fetch);
      if Passes(cands[0], fetch) {
        forall i | 1 <= i < |cands| ensures cands[i] == cands[1..][i - 1] {}
      }
    }
  }
}
