/** The identifier normaliser `toId`: a bare video id is accepted as is, and a URL
    yields the id from a short link, a `/shorts/` path or the `v` query parameter. */
module VideoId {
  import opened Wrappers
  import opened Text
  import opened Urls

  /** `[\w-]`: without the `u` flag, `\w` is the ASCII letters, digits and `_`. */
  predicate IsIdChar(c: char) {
    'A' <= c <= 'Z' || 'a' <= c <= 'z' || '0' <= c <= '9' || c == '_' || c == '-'
  }

  /** `/^[\w-]{10,}$/`. */
  predicate IsBareId(s: string) {
    |s| >= 10 && forall i :: 0 <= i < |s| ==> IsIdChar(s[i])
  }

  const ShortLinkHost := "youtu.be"
  const ShortsMarker := "/shorts/"

  /** `pathname.slice(1).split("/")[0]`. */
  function ShortLinkSegment(path: string): (r: string)
    ensures '/' !in r
    ensures path == [] ==> r == []
    ensures path != [] ==> StartsWith(path[1..], r) && (|r| == |path| - 1 || path[1 + |r|] == '/')
  {
    Before(if path == [] then [] else path[1..], '/')
  }

  /** `pathname.split("/shorts/")[1].split("/")[0]`: the text after the first
      `/shorts/` up to the next `/` (the next `/shorts/`, if any, starts with `/`). */
  function ShortsSegment(path: string): (r: string)
    requires Contains(path, ShortsMarker)
    ensures '/' !in r
    ensures Contains(path, ShortsMarker + r)
    ensures var rest := path[Find(path, ShortsMarker).value + |ShortsMarker|..];
      StartsWith(rest, r) && (|r| == |rest| || rest[|r|] == '/')
  {
    var i := Find(path, ShortsMarker).value;
    var r := Before(path[i + |ShortsMarker|..], '/');
    assert path[i..][|ShortsMarker|..] == path[i + |ShortsMarker|..];
    StartsWithJoin(path[i..], ShortsMarker, r);
    r
  }

  /** `toId`. The URL parser is the parameter `parse`, applied to the trimmed input;
      every failure is an absence, never an exception. */
  function ToId(raw: string, parse: string -> Option<Url>): (r: Option<string>)
    ensures IsBareId(Trim(raw)) ==> r == Some(Trim(raw))
    ensures !IsBareId(Trim(raw)) && parse(Trim(raw)).None? ==> r.None?
    ensures !IsBareId(Trim(raw)) && r.Some? ==> parse(Trim(raw)).Some?
  {
    var s := Trim(raw);
    if IsBareId(s) then Some(s)
    else
      match parse(s)
      case None => None
      case Some(u) =>
        if Contains(u.host, ShortLinkHost) then Some(ShortLinkSegment(u.path))
        else if Contains(u.path, ShortsMarker) then Some(ShortsSegment(u.path))
        else Get(u.query, "v")
  }

  /** The segment up to the first `/` of `id + tail` is `id` when `id` has no `/`
      and `tail` is empty or starts a new segment. */
  lemma BeforeSegment(id: string, tail: string)
    requires '/' !in id && (tail == [] || tail[0] == '/')
    ensures Before(id + tail, '/') == id
  {
    var p := id + tail;
    assert forall i :: 0 <= i < |id| ==> p[i] == id[i];
    if tail != [] {
      assert p[|id|] == tail[0];
    }
    match IndexOf(p, '/')
    case None =>
    case Some(k) =>
      assert k >= |id|;
  }

  lemma DropPrefix(p: string, a: string, b: string)
    ensures (p + a + b)[|p|..] == a + b
  {
    assert p + a + b == p + (a + b);
  }

  /** `https://youtu.be/ID` (with any further path) names `ID`, whatever `/`-free
      text it is: `toId` does not check the segment's shape. */
  lemma ToIdShortLink(raw: string, parse: string -> Option<Url>, u: Url, id: string, tail: string)
    requires !IsBareId(Trim(raw)) && parse(Trim(raw)) == Some(u)
    requires Contains(u.host, ShortLinkHost)
    requires '/' !in id && u.path == "/" + id + tail && (tail == [] || tail[0] == '/')
    ensures ToId(raw, parse) == Some(id)
  {
    ShortLinkPath(u.path, id, tail);
  }

  lemma ShortLinkPath(path: string, id: string, tail: string)
    requires '/' !in id && path == "/" + id + tail && (tail == [] || tail[0] == '/')
    ensures ShortLinkSegment(path) == id
  {
    DropPrefix("/", id, tail);
    BeforeSegment(id, tail);
  }

  /** A path whose first `/shorts/` is followed by the `/`-free text `ID` names `ID`:
      `https://www.youtube.com/shorts/ID`, and also a `/shorts/` further along. */
  lemma ToIdShorts(raw: string, parse: string -> Option<Url>, u: Url, pre: string, id: string, tail: string)
    requires !IsBareId(Trim(raw)) && parse(Trim(raw)) == Some(u)
    requires !Contains(u.host, ShortLinkHost)
    requires '/' !in id && u.path == pre + ShortsMarker + id + tail && (tail == [] || tail[0] == '/')
    requires Find(u.path, ShortsMarker) == Some(|pre|)
    ensures ToId(raw, parse) == Some(id)
  {
    ShortsPath(u.path, pre, id, tail);
  }

  lemma ShortsPath(path: string, pre: string, id: string, tail: string)
    requires '/' !in id && path == pre + ShortsMarker + id + tail && (tail == [] || tail[0] == '/')
    requires Find(path, ShortsMarker) == Some(|pre|)
    ensures ShortsSegment(path) == id
  {
    assert path[|pre| + |ShortsMarker|..] == id + tail;
    BeforeSegment(id, tail);
  }

  /** `https://youtu.be/` names the empty id, which the route then rejects. */
  lemma ToIdEmptyShortLink(raw: string, parse: string -> Option<Url>, u: Url)
    requires !IsBareId(Trim(raw)) && parse(Trim(raw)) == Some(u)
    requires Contains(u.host, ShortLinkHost) && u.path == "/"
    ensures ToId(raw, parse) == Some("")
  {
    ShortLinkPath(u.path, "", "");
  }

  /** In a path that starts with `/shorts/`, that is the first occurrence. */
  lemma ShortsAtStart(path: string, rest: string)
    requires path == ShortsMarker + rest
    ensures Find(path, ShortsMarker) == Some(0)
  {
    assert StartsWith(path, ShortsMarker);
  }

  /** Any other URL names its `v` query value, and no video when it has none:
      `https://www.youtube.com/watch?v=ID` names `ID`. */
  lemma ToIdWatch(raw: string, parse: string -> Option<Url>, u: Url)
    requires !IsBareId(Trim(raw)) && parse(Trim(raw)) == Some(u)
    requires !Contains(u.host, ShortLinkHost) && !Contains(u.path, ShortsMarker)
    ensures ToId(raw, parse) == Get(u.query, "v")
    ensures ToId(raw, parse).None? <==> forall i :: 0 <= i < |u.query| ==> u.query[i].0 != "v"
  {
  }
}
