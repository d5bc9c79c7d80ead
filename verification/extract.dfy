/** `extractJSON`: an ordered list of extraction patterns, each of which may fail to
    match or may capture text that does not parse; the first parsed capture wins. */
module Extract {
  import opened Wrappers

  /** One pattern applied to the page: no match, or a capture and the outcome of
      `JSON.parse` on it (`None` when the parse throws). */
  datatype Attempt<T> = NoMatch | Matched(parsed: Option<T>)

  predicate Succeeded<T>(a: Attempt<T>) {
    a.Matched? && a.parsed.Some?
  }

  /** The position of the attempt whose value `extractJSON` returns. */
  function Winner<T>(attempts: seq<Attempt<T>>): (r: Option<nat>)
    ensures r.Some? ==> r.value < |attempts| && Succeeded(attempts[r.value])
    ensures r.Some? ==> forall j :: 0 <= j < r.value ==> !Succeeded(attempts[j])
    ensures r.None? <==> forall j :: 0 <= j < |attempts| ==> !Succeeded(attempts[j])
    decreases |attempts|
  {
    if attempts == [] then None
    else if Succeeded(attempts[0]) then Some(0)
    else
      match Winner(attempts[1..])
      case None => None
      case Some(k) => Some(k + 1)
  }

  /** `extractJSON(html, patterns)`: `null` when no attempt both matched and parsed. */
  function ExtractJson<T>(attempts: seq<Attempt<T>>): (r: Option<T>)
    ensures r.None? <==> forall j :: 0 <= j < |attempts| ==> !Succeeded(attempts[j])
    ensures r.Some? ==> exists i :: 0 <= i < |attempts| && attempts[i] == Matched(r)
                                    && forall j :: 0 <= j < i ==> !Succeeded(attempts[j])
  {
    match Winner(attempts)
    case None => None
    case Some(k) => attempts[k].parsed
  }

  /** Patterns are tried strictly in order: later patterns are consulted only when
      every earlier one failed to match or to parse. */
  lemma {:induction false} ExtractJsonAppend<T>(xs: seq<Attempt<T>>, ys: seq<Attempt<T>>)
    ensures ExtractJson(xs + ys) == if ExtractJson(xs).Some? then ExtractJson(xs) else ExtractJson(ys)
    decreases |xs|
  {
    if xs == [] {
      assert xs + ys == ys;
    } else {
      assert (xs + ys)[0] == xs[0];
      assert (xs + ys)[1..] == xs[1..] + ys;
      ExtractJsonAppend(xs[1..], ys);
      if !Succeeded(xs[0]) {
        assert ExtractJson(xs) == ExtractJson(xs[1..]) by {
          match Winner(xs[1..])
          case None =>
          case Some(k) => assert xs[k + 1] == xs[1..][k];
        }
        assert ExtractJson(xs + ys) == ExtractJson(xs[1..] + ys) by {
          match Winner(xs[1..] + ys)
          case None =>
          case Some(k) => assert (xs + ys)[k + 1] == (xs[1..] + ys)[k];
        }
      }
    }
  }

  /** `extractJSON(...) || {}`: a missing object reads as the empty object `empty`. */
  function ExtractOr<T>(attempts: seq<Attempt<T>>, empty: T): (r: T)
  {
    ExtractJson(attempts).GetOr(empty)
  }
}
