/** `mapYoutubeiTranscript`: the cue groups of the transcript RPC's engagement panel,
    flattened into items. */
module Youtubei {
  import opened Wrappers
  import opened Items
  import Seqs
  import Text

  /** `transcriptCueRenderer`: the two places the text may sit and the two times, in
      milliseconds (`startOffsetMs || 0`, `durationMs || 0`). */
  datatype Cue = Cue(cueSimpleText: Option<string>, simpleText: Option<string>, startOffsetMs: int, durationMs: int)

  /** One cue group; `cues` is `None` when `g?.transcriptCueGroupRenderer?.cues` is
      missing. Each entry is `None` when it has no `transcriptCueRenderer`. */
  datatype CueGroup = CueGroup(cues: Option<seq<Option<Cue>>>)

  /** The RPC body as the parser sees it: the list at
      `actions[0].updateEngagementPanelAction.content.transcriptRenderer.body.transcriptBodyRenderer.cueGroups`,
      `None` when any link of that path is missing or the value is not an array. */
  datatype Response = Response(cueGroups: Option<seq<CueGroup>>)

  /** `cue.cue?.simpleText ?? cue.simpleText ?? ""`. */
  function CueText(c: Cue): (r: string)
    ensures c.cueSimpleText.Some? ==> r == c.cueSimpleText.value
    ensures c.cueSimpleText.None? && c.simpleText.Some? ==> r == c.simpleText.value
    ensures c.cueSimpleText.None? && c.simpleText.None? ==> r == ""
  {
    c.cueSimpleText.GetOr(c.simpleText.GetOr(""))
  }

  function CueItem(e: Option<Cue>): Option<Item> {
    match e
    case None => None
    case Some(c) => MakeItem(CueText(c), Seconds(c.startOffsetMs), Seconds(c.durationMs))
  }

  /** `g?.transcriptCueGroupRenderer?.cues || []`. */
  function GroupCues(g: CueGroup): seq<Option<Cue>> {
    g.cues.GetOr([])
  }

  function AllCues(gs: seq<CueGroup>): seq<Option<Cue>>
    decreases |gs|
  {
    if gs == [] then [] else GroupCues(gs[0]) + AllCues(gs[1..])
  }

  /** The two nested loops: groups in order, cues in order within a group. */
  function MapGroups(gs: seq<CueGroup>): (r: seq<Item>)
    ensures |r| <= |AllCues(gs)|
    ensures AllWellFormed(r)
    decreases |gs|
  {
    if gs == [] then []
    else
      var here := Seqs.FilterMap(GroupCues(gs[0]), CueItem);
      var rest := MapGroups(gs[1..]);
      assert AllWellFormed(here) by {
        forall k | 0 <= k < |here| ensures WellFormed(here[k]) {
          var i :| 0 <= i < |GroupCues(gs[0])| && CueItem(GroupCues(gs[0])[i]) == Some(here[k]);
        }
      }
      AllWellFormedAppend(here, rest);
      here + rest
  }

  /** `mapYoutubeiTranscript(json)`. */
  function MapTranscript(resp: Response): (r: seq<Item>)
    ensures resp.cueGroups.None? ==> r == []
    ensures resp.cueGroups.Some? ==> |r| <= |AllCues(resp.cueGroups.value)|
    ensures AllWellFormed(r)
  {
    match resp.cueGroups
    case None => []
    case Some(gs) => MapGroups(gs)
  }

  /** Group boundaries do not matter: the output is the flattened cue list, mapped and
      filtered in order. */
  lemma {:induction false} MapGroupsFlat(gs: seq<CueGroup>)
    ensures MapGroups(gs) == Seqs.FilterMap(AllCues(gs), CueItem)
    decreases |gs|
  {
    if gs != [] {
      MapGroupsFlat(gs[1..]);
      Seqs.FilterMapAppend(GroupCues(gs[0]), AllCues(gs[1..]), CueItem);
    }
  }

  /** When every cue has a renderer and some text, nothing is dropped: the k-th item
      comes from the k-th cue, with its text cleaned up, `offset = startOffsetMs / 1000`
      and `duration = max(0, durationMs / 1000)`. */
  lemma MapGroupsKeepsAll(gs: seq<CueGroup>, k: nat)
    requires forall i :: 0 <= i < |AllCues(gs)| ==> CueItem(AllCues(gs)[i]).Some?
    requires k < |AllCues(gs)|
    ensures |MapGroups(gs)| == |AllCues(gs)| && AllCues(gs)[k].Some?
    ensures MapGroups(gs)[k].text == Text.Normalize(CueText(AllCues(gs)[k].value))
    ensures MapGroups(gs)[k].offset == Seconds(AllCues(gs)[k].value.startOffsetMs)
    ensures MapGroups(gs)[k].duration == Max0(Seconds(AllCues(gs)[k].value.durationMs))
  {
    var cues := AllCues(gs);
    var r := MapGroups(gs);
    assert r == Seqs.FilterMap(cues, CueItem) && |r| == |cues| && Some(r[k]) == CueItem(cues[k]) by {
      MapGroupsFlat(gs);
      Seqs.FilterMapTotal(cues, CueItem);
    }
    assert cues[k].Some?;
    var c := cues[k].value;
    assert r[k] == MakeItem(CueText(c), Seconds(c.startOffsetMs), Seconds(c.durationMs)).value;
  }

  /** A group without cues, or a cue without a renderer or without text, adds no item. */
  lemma MapGroupsDrops(gs: seq<CueGroup>)
    requires forall i :: 0 <= i < |AllCues(gs)| ==> CueItem(AllCues(gs)[i]).None?
    ensures MapGroups(gs) == []
  {
    MapGroupsFlat(gs);
  }
}
