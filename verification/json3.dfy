/** `mapJson3`: the timedtext `fmt=json3` document. */
module Json3 {
  import opened Wrappers
  import opened Text
  import opened Items
  import Seqs

  /** One entry of an event's `segs`. `NullSeg` is a `null` entry, on which reading
      `s.utf8` throws; an entry without `utf8` joins as the empty string. */
  datatype Seg = NullSeg | Seg(utf8: Option<string>)

  /** One event, times in milliseconds. `segs` is `None` when missing or `null`. */
  datatype Event = Event(tStartMs: Option<int>, dDurationMs: Option<int>, segs: Option<seq<Seg>>)

  /** `data.events`: `None` when missing or not an array; an entry is `None` when it
      is `null`. */
  datatype Doc = Doc(events: Option<seq<Option<Event>>>)

  /** What one pass of the loop body does with an event. */
  datatype Step = Throw | Skip | Emit(item: Item)

  /** What `join` makes of one entry's `utf8`: a missing value joins as `""`. */
  function SegText(s: Seg): string {
    if s.Seg? then s.utf8.GetOr([]) else []
  }

  function SegTexts(segs: seq<Seg>): seq<string> {
    seq(|segs|, i requires 0 <= i < |segs| => SegText(segs[i]))
  }

  /** `segs.map(s => s.utf8).join("")`: `None` exactly when a `null` entry makes it
      throw, and otherwise the entries' texts one after another, in order. */
  function JoinSegs(segs: seq<Seg>): (r: Option<string>)
    ensures r.None? <==> NullSeg in segs
    ensures r.Some? ==> r.value == Seqs.Flatten(SegTexts(segs))
    decreases |segs|
  {
    if segs == [] then Some([])
    else
      var rest := JoinSegs(segs[1..]);
      assert segs == [segs[0]] + segs[1..];
      SegTextsTail(segs);
      match segs[0]
      case NullSeg => None
      case Seg(u) => if rest.None? then None else Some(u.GetOr([]) + rest.value)
  }

  lemma SegTextsTail(segs: seq<Seg>)
    requires segs != []
    ensures SegTexts(segs) == [SegText(segs[0])] + SegTexts(segs[1..])
  {
  }

  /** `ev[i + 1]?.tStartMs`, when that is neither `null` nor `undefined`. The next
      event is read raw, whether or not it yields an item itself. */
  function NextStart(ev: seq<Option<Event>>, i: nat): Option<int> {
    if i + 1 < |ev| && ev[i + 1].Some? then ev[i + 1].value.tStartMs else None
  }

  /** `dDurationMs ?? 0`, replaced by the gap to the next start when it is zero. */
  function DurationMs(e: Event, next: Option<int>): (r: int)
    ensures e.dDurationMs.GetOr(0) != 0 ==> r == e.dDurationMs.value
    ensures e.dDurationMs.GetOr(0) == 0 && next.Some? ==> r == next.value - e.tStartMs.GetOr(0)
    ensures e.dDurationMs.GetOr(0) == 0 && next.None? ==> r == 0
  {
    var start := e.tStartMs.GetOr(0);
    var dur := e.dDurationMs.GetOr(0);
    if dur == 0 && next.Some? then next.value - start else dur
  }

  function EventStep(e: Option<Event>, next: Option<int>): Step {
    if e.None? || e.value.segs.None? then Skip
    else
      match JoinSegs(e.value.segs.value)
      case None => Throw
      case Some(raw) =>
        match MakeItem(raw, Seconds(e.value.tStartMs.GetOr(0)), Seconds(DurationMs(e.value, next)))
        case None => Skip
        case Some(it) => Emit(it)
  }

  /** A `null` segment inside an event that has `segs` makes the whole parse throw. */
  ghost predicate Poisoned(e: Option<Event>) {
    e.Some? && e.value.segs.Some? && NullSeg in e.value.segs.value
  }

  /** Some event at index `i` or later is poisoned. */
  ghost predicate PoisonedFrom(ev: seq<Option<Event>>, i: nat)
    decreases |ev| - i
  {
    i < |ev| && (Poisoned(ev[i]) || PoisonedFrom(ev, i + 1))
  }

  /** One turn of the loop: a throw aborts, a skip adds nothing, an emitted item
      goes in front of what the rest of the loop produces. */
  function Prepend(step: Step, rest: Option<seq<Item>>): (r: Option<seq<Item>>)
    requires step.Emit? ==> WellFormed(step.item)
    requires rest.Some? ==> AllWellFormed(rest.value)
    ensures r.None? <==> step.Throw? || rest.None?
    ensures r.Some? ==> |r.value| <= |rest.value| + 1 && AllWellFormed(r.value)
  {
    if step.Throw? || rest.None? then None
    else if step.Skip? then rest
    else
      AllWellFormedAppend([step.item], rest.value);
      Some([step.item] + rest.value)
  }

  /** The loop from index `i` on; `None` when it throws. */
  function MapFrom(ev: seq<Option<Event>>, i: nat): (r: Option<seq<Item>>)
    requires i <= |ev|
    ensures r.None? <==> PoisonedFrom(ev, i)
    ensures r.Some? ==> |r.value| <= |ev| - i && AllWellFormed(r.value)
    decreases |ev| - i
  {
    if i == |ev| then Some([])
    else
      var step := EventStep(ev[i], NextStart(ev, i));
      ThrowIffPoisoned(ev[i], NextStart(ev, i));
      if step.Emit? then EmitWellFormed(ev[i], NextStart(ev, i)); Prepend(step, MapFrom(ev, i + 1))
      else Prepend(step, MapFrom(ev, i + 1))
  }

  lemma ThrowIffPoisoned(e: Option<Event>, next: Option<int>)
    ensures EventStep(e, next).Throw? <==> Poisoned(e)
  {
  }

  lemma EmitWellFormed(e: Option<Event>, next: Option<int>)
    requires EventStep(e, next).Emit?
    ensures WellFormed(EventStep(e, next).item)
  {
  }

  /** `PoisonedFrom` is the existential it abbreviates. */
  lemma {:induction false} PoisonedFromIff(ev: seq<Option<Event>>, i: nat)
    requires i <= |ev|
    ensures PoisonedFrom(ev, i) <==> exists j :: i <= j < |ev| && Poisoned(ev[j])
    decreases |ev| - i
  {
    if i < |ev| {
      PoisonedFromIff(ev, i + 1);
      if PoisonedFrom(ev, i + 1) {
        var j :| i + 1 <= j < |ev| && Poisoned(ev[j]);
        assert i <= j < |ev| && Poisoned(ev[j]);
      }
      if !Poisoned(ev[i]) && exists j :: i <= j < |ev| && Poisoned(ev[j]) {
        var j :| i <= j < |ev| && Poisoned(ev[j]);
        assert j != i;
      }
    }
  }

  /** `mapJson3(data)`: `None` when it throws. */
  function MapJson3(doc: Doc): (r: Option<seq<Item>>)
    ensures doc.events.None? ==> r == Some([])
    ensures r.None? <==> doc.events.Some? && exists j :: 0 <= j < |doc.events.value| && Poisoned(doc.events.value[j])
    ensures r.Some? ==> AllWellFormed(r.value)
  {
    match doc.events
    case None => Some([])
    case Some(ev) =>
      PoisonedFromIff(ev, 0);
      MapFrom(ev, 0)
  }

  /** The loop body in isolation: `Emit` carries the cleaned text, the start in
      seconds, and the duration clamped at zero, with a zero duration replaced by the
      gap to the next event's start when that is known. */
  lemma EventStepEmit(e: Event, next: Option<int>, it: Item)
    requires EventStep(Some(e), next) == Emit(it)
    ensures e.segs.Some? && JoinSegs(e.segs.value).Some?
    ensures it.text == Normalize(JoinSegs(e.segs.value).value)
    ensures it.offset == Seconds(e.tStartMs.GetOr(0))
    ensures it.duration == Max0(Seconds(DurationMs(e, next)))
  {
  }

  /** When no event throws, the output is exactly the emitted steps, in order. */
  lemma {:induction false} MapFromSteps(ev: seq<Option<Event>>, i: nat)
    requires i <= |ev|
    requires forall j :: i <= j < |ev| ==> !Poisoned(ev[j])
    ensures MapFrom(ev, i) == Some(Seqs.FilterMap(Steps(ev)[i..], Emitted))
    decreases |ev| - i
  {
    var steps := Steps(ev);
    if i < |ev| {
      MapFromSteps(ev, i + 1);
      assert steps[i..][1..] == steps[i + 1..];
      assert steps[i..][0] == steps[i];
    } else {
      assert steps[i..] == [];
    }
  }

  /** Each event paired with the start of its raw successor. */
  function Steps(ev: seq<Option<Event>>): (r: seq<Step>)
    ensures |r| == |ev|
    ensures forall i :: 0 <= i < |ev| ==> r[i] == EventStep(ev[i], NextStart(ev, i))
  {
    seq(|ev|, i requires 0 <= i < |ev| => EventStep(ev[i], NextStart(ev, i)))
  }

  function Emitted(s: Step): Option<Item> {
    if s.Emit? then Some(s.item) else None
  }

  /** A zero-duration cue takes its length from the next event even when that event
      has no text and is itself dropped: a cue at 0 ms followed by a bare event at
      1000 ms lasts one second. */
  lemma GapFromDroppedEvent()
    ensures MapJson3(Doc(Some([
      Some(Event(Some(0), None, Some([Seg(Some("hi"))]))),
      Some(Event(Some(1000), None, None))]))) == Some([Item("hi", 0.0, 1.0)])
  {
    var ev := [Some(Event(Some(0), None, Some([Seg(Some("hi"))]))), Some(Event(Some(1000), None, None))];
    assert NextStart(ev, 0) == Some(1000);
    HiStep();
    EmitThenSkip(ev, Item("hi", 0.0, 1.0));
  }

  /** Two events, the first emitting `it` and the second skipped, give `[it]`. */
  lemma EmitThenSkip(ev: seq<Option<Event>>, it: Item)
    requires |ev| == 2
    requires EventStep(ev[0], NextStart(ev, 0)) == Emit(it)
    requires EventStep(ev[1], NextStart(ev, 1)) == Skip
    ensures MapFrom(ev, 0) == Some([it])
  {
    assert MapFrom(ev, 1) == Some([]) by {
      MapFromUnfold(ev, 1);
    }
    MapFromUnfold(ev, 0);
    assert [it] + [] == [it];
  }

  /** One turn of the loop. */
  lemma MapFromUnfold(ev: seq<Option<Event>>, i: nat)
    requires i < |ev|
    ensures MapFrom(ev, i) == Prepend(EventStep(ev[i], NextStart(ev, i)), MapFrom(ev, i + 1))
  {
  }

  /** An event with text emits the item `MakeItem` builds from it. */
  lemma EmitOf(e: Event, next: Option<int>, raw: string, it: Item)
    requires e.segs.Some? && JoinSegs(e.segs.value) == Some(raw)
    requires MakeItem(raw, Seconds(e.tStartMs.GetOr(0)), Seconds(DurationMs(e, next))) == Some(it)
    ensures EventStep(Some(e), next) == Emit(it)
  {
  }

  lemma HiStep()
    ensures EventStep(Some(Event(Some(0), None, Some([Seg(Some("hi"))]))), Some(1000)) == Emit(Item("hi", 0.0, 1.0))
  {
    HiJoin();
    HiTimes();
    HiItem();
    EmitOf(Event(Some(0), None, Some([Seg(Some("hi"))])), Some(1000), "hi", Item("hi", 0.0, 1.0));
  }

  lemma HiJoin()
    ensures JoinSegs([Seg(Some("hi"))]) == Some("hi")
  {
    assert [Seg(Some("hi"))][1..] == [];
    assert JoinSegs([]) == Some([]);
    assert "hi" + [] == "hi";
  }

  lemma HiTimes()
    ensures var e := Event(Some(0), None, Some([Seg(Some("hi"))]));
      Seconds(e.tStartMs.GetOr(0)) == 0.0 && Seconds(DurationMs(e, Some(1000))) == 1.0
  {
    assert DurationMs(Event(Some(0), None, Some([Seg(Some("hi"))])), Some(1000)) == 1000;
  }

  lemma HiItem()
    ensures MakeItem("hi", 0.0, 1.0) == Some(Item("hi", 0.0, 1.0))
  {
    WordCanonical("hi");
    MakeItemCanonical("hi", 0.0, 1.0);
    assert Max0(1.0) == 1.0;
  }

  /** A `null` segment anywhere poisons the whole document, even after good events. */
  lemma NullSegmentThrows()
    ensures MapJson3(Doc(Some([
      Some(Event(Some(0), Some(500), Some([Seg(Some("ok"))]))),
      Some(Event(Some(500), Some(500), Some([NullSeg])))]))) == None
  {
    var ev := [Some(Event(Some(0), Some(500), Some([Seg(Some("ok"))]))), Some(Event(Some(500), Some(500), Some([NullSeg])))];
    assert Poisoned(ev[1]);
  }
}
