/** Caption tracks and `pickTrack`, the fixed-priority track selector. */
module Tracks {
  import opened Wrappers
  import opened Text
  import opened Urls
  import Seqs

  /** One entry of `captionTracks`. A string field the JSON omits is the empty string:
      the code reads every one of them through `||`, which treats both alike.
      `baseUrl` is `None` when `new URL(track.baseUrl)` would throw. */
  datatype Track = Track(
    languageCode: string,
    isDefault: bool,
    params: string,
    vssId: string,
    baseUrl: Option<Url>)

  /** Rule 1: a case-insensitive exact language match with a non-empty wish. */
  predicate Wanted(t: Track, w: string) {
    w != "" && Lower(t.languageCode) == w
  }

  /** Rule 2: the platform's default track. */
  predicate IsDefault(t: Track) {
    t.isDefault
  }

  /** Rule 3: the code as written tests the language code without lower-casing it. */
  predicate English(t: Track) {
    StartsWith(t.languageCode, "en")
  }

  ghost predicate Any(ts: seq<Track>, p: Track -> bool) {
    exists i :: 0 <= i < |ts| && p(ts[i])
  }

  ghost predicate FirstWith(ts: seq<Track>, k: nat, p: Track -> bool) {
    k < |ts| && p(ts[k]) && forall j :: 0 <= j < k ==> !p(ts[j])
  }

  /** The position `pickTrack(tracks, want)` chooses: the first wanted track, else the
      first default track, else the first English track, else the first track. */
  function PickIndex(ts: seq<Track>, want: string): (k: nat)
    requires |ts| > 0
    ensures k < |ts|
    ensures var w := Lower(want);
      if Any(ts, t => Wanted(t, w)) then FirstWith(ts, k, t => Wanted(t, w))
      else if Any(ts, IsDefault) then FirstWith(ts, k, IsDefault)
      else if Any(ts, English) then FirstWith(ts, k, English)
      else k == 0
  {
    var w := Lower(want);
    var byLang := if w != "" then Seqs.FindIndex(ts, t => Wanted(t, w)) else None;
    if byLang.Some? then byLang.value
    else
      match Seqs.FindIndex(ts, IsDefault)
      case Some(k) => k
      case None =>
        match Seqs.FindIndex(ts, English)
        case Some(k) => k
        case None => 0
  }

  /** `pickTrack`: always one of the listed tracks. */
  function PickTrack(ts: seq<Track>, want: string): (t: Track)
    requires |ts| > 0
    ensures t in ts
  {
    ts[PickIndex(ts, want)]
  }
}
