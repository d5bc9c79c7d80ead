/** The normalised output unit shared by the three caption parsers. */
module Items {
  import opened Wrappers
  import opened Text

  /** `{ text, offset, duration }`, times in seconds. */
  datatype Item = Item(text: string, offset: real, duration: real)

  /** `ms / 1000`. */
  function Seconds(ms: int): real {
    ms as real / 1000.0
  }

  /** `Math.max(0, x)`. */
  function Max0(x: real): (r: real)
    ensures r >= 0.0 && r >= x
    ensures r == x || r == 0.0
  {
    if x < 0.0 then 0.0 else x
  }

  /** What every parser promises of an item: non-empty, cleaned-up text and a
      non-negative duration. Offsets are not clamped. */
  ghost predicate WellFormed(it: Item) {
    it.text != [] && Canonical(it.text) && it.duration >= 0.0
  }

  ghost predicate AllWellFormed(items: seq<Item>) {
    forall i :: 0 <= i < |items| ==> WellFormed(items[i])
  }

  /** The step all three parsers share: clean the text, drop the entry when nothing
      is left, clamp the duration at zero. */
  function MakeItem(raw: string, offset: real, duration: real): (r: Option<Item>)
    ensures r.None? <==> AllSpace(raw)
    ensures r.Some? ==> WellFormed(r.value)
    ensures r.Some? ==> r.value.offset == offset && r.value.duration == Max0(duration)
    ensures r.Some? ==> NonSpace(r.value.text) == NonSpace(raw)
    ensures r.Some? ==> r.value.text == Normalize(raw)
  {
    var text := Normalize(raw);
    if text == [] then None else Some(Item(text, offset, Max0(duration)))
  }

  /** Text that is already clean passes through unchanged. */
  lemma MakeItemCanonical(raw: string, offset: real, duration: real)
    requires raw != [] && Canonical(raw)
    ensures MakeItem(raw, offset, duration) == Some(Item(raw, offset, Max0(duration)))
  {
    NormalizeFixed(raw);
  }

  lemma AllWellFormedAppend(a: seq<Item>, b: seq<Item>)
    requires AllWellFormed(a) && AllWellFormed(b)
    ensures AllWellFormed(a + b)
  {
    forall i | 0 <= i < |a + b| ensures WellFormed((a + b)[i]) {
      if i >= |a| { assert (a + b)[i] == b[i - |a|]; }
    }
  }
}
