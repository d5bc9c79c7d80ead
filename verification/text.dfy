/** String helpers shared by the identifier normaliser and the three caption parsers:
    JavaScript's whitespace class, `trim`, the `replace(/\s+/g, " ")` idiom, ASCII
    lower-casing, and prefix / substring / index search. */
module Text {
  import opened Wrappers

  /** JavaScript's `\s` class, which is also the set `String.prototype.trim` removes:
      the WhiteSpace and LineTerminator code points of ECMAScript (U+0009 to U+000D,
      the space, U+00A0, U+1680, U+2000 to U+200A, U+2028, U+2029, U+202F, U+205F,
      U+3000 and U+FEFF). */
  predicate IsSpace(c: char) {
    || ('\t' <= c <= '\r') || c == ' ' || c == '\U{00A0}' || c == '\U{1680}'
    || ('\U{2000}' <= c <= '\U{200A}') || ('\U{2028}' <= c <= '\U{2029}')
    || c == '\U{202F}' || c == '\U{205F}' || c == '\U{3000}' || c == '\U{FEFF}'
  }

  predicate AllSpace(s: string) {
    forall i :: 0 <= i < |s| ==> IsSpace(s[i])
  }

  /** The characters of `s` that are not whitespace, in order. */
  function NonSpace(s: string): string
    decreases |s|
  {
    if s == [] then [] else (if IsSpace(s[0]) then [] else [s[0]]) + NonSpace(s[1..])
  }

  lemma {:induction false} NonSpaceAppend(a: string, b: string)
    ensures NonSpace(a + b) == NonSpace(a) + NonSpace(b)
    decreases |a|
  {
    if a == [] {
      assert a + b == b;
    } else {
      assert (a + b)[0] == a[0];
      assert (a + b)[1..] == a[1..] + b;
      NonSpaceAppend(a[1..], b);
    }
  }

  lemma NonSpaceCons(c: char, s: string)
    ensures NonSpace([c] + s) == (if IsSpace(c) then [] else [c]) + NonSpace(s)
  {
    assert ([c] + s)[1..] == s;
  }

  lemma {:induction false} NonSpaceEmpty(s: string)
    ensures NonSpace(s) == [] <==> AllSpace(s)
    decreases |s|
  {
    if s != [] {
      NonSpaceEmpty(s[1..]);
      assert AllSpace(s) <==> IsSpace(s[0]) && AllSpace(s[1..]) by {
        if IsSpace(s[0]) && AllSpace(s[1..]) {
          forall i | 0 <= i < |s| ensures IsSpace(s[i]) {
            if i > 0 { assert s[i] == s[1..][i - 1]; }
          }
        }
      }
    }
  }

  /** `trimStart`: drops the maximal leading run of whitespace and nothing else. */
  function TrimStart(s: string): (r: string)
    ensures |r| <= |s|
    ensures r == [] || !IsSpace(r[0])
    decreases |s|
  {
    if s != [] && IsSpace(s[0]) then TrimStart(s[1..]) else s
  }

  /** What `trimStart` keeps is a suffix of `s`, and what it drops is whitespace. */
  lemma {:induction false} TrimStartSuffix(s: string)
    ensures var r := TrimStart(s); r == s[|s| - |r|..] && AllSpace(s[..|s| - |r|])
    decreases |s|
  {
    if s != [] && IsSpace(s[0]) {
      TrimStartSuffix(s[1..]);
      LeadingRunStep(s, TrimStart(s[1..]));
    } else {
      assert s[0..] == s;
    }
  }

  /** A whitespace character in front of a whitespace run lengthens the run. */
  lemma LeadingRunStep(s: string, r: string)
    requires s != [] && IsSpace(s[0])
    requires |r| <= |s| - 1 && r == s[1..][|s| - 1 - |r|..] && AllSpace(s[1..][..|s| - 1 - |r|])
    ensures |r| <= |s| && r == s[|s| - |r|..] && AllSpace(s[..|s| - |r|])
  {
    var k := |s| - |r|;
    forall i | 0 <= i < k ensures IsSpace(s[..k][i]) {
      if i > 0 {
        assert s[..k][i] == s[1..][..k - 1][i - 1];
      }
    }
  }

  /** `trimEnd`: drops the maximal trailing run of whitespace and nothing else. */
  function TrimEnd(s: string): (r: string)
    ensures |r| <= |s| && r == s[..|r|]
    ensures AllSpace(s[|r|..])
    ensures r == [] || !IsSpace(r[|r| - 1])
    decreases |s|
  {
    if s != [] && IsSpace(s[|s| - 1]) then
      var r := TrimEnd(s[..|s| - 1]);
      TrailingRunStep(s, r);
      r
    else s
  }

  /** A whitespace character after a whitespace run lengthens the run. */
  lemma TrailingRunStep(s: string, r: string)
    requires s != [] && IsSpace(s[|s| - 1])
    requires |r| <= |s| - 1 && r == s[..|s| - 1][..|r|] && AllSpace(s[..|s| - 1][|r|..])
    ensures |r| <= |s| && r == s[..|r|] && AllSpace(s[|r|..])
  {
    forall j | 0 <= j < |s| - |r| ensures IsSpace(s[|r|..][j]) {
      if j < |s| - 1 - |r| {
        assert s[|r|..][j] == s[..|s| - 1][|r|..][j];
      }
    }
  }

  /** `String.prototype.trim`: the slice of `s` left after removing whitespace from
      both ends, which starts and ends with a non-whitespace character. */
  function Trim(s: string): (r: string)
    ensures r == [] || (!IsSpace(r[0]) && !IsSpace(r[|r| - 1]))
    ensures NonSpace(r) == NonSpace(s)
  {
    var t := TrimStart(s);
    SpaceRunNonSpace(s, t);
    var r := TrimEnd(t);
    TrailingRunNonSpace(t, r);
    r
  }

  /** `trim` removes whitespace from the two ends and nothing else: its result is the
      slice of `s` between a whitespace prefix and a whitespace suffix. */
  lemma TrimSlice(s: string)
    ensures exists i, j :: 0 <= i <= j <= |s| && Trim(s) == s[i..j] && AllSpace(s[..i]) && AllSpace(s[j..])
  {
    var t := TrimStart(s);
    var r := TrimEnd(t);
    TrimStartSuffix(s);
    NestedSlice(s, t, r);
    assert Trim(s) == r;
    var i := |s| - |t|;
    assert 0 <= i <= i + |r| <= |s| && r == s[i..i + |r|];
  }

  /** A prefix `r` of a suffix `t` of `s`, each cut off by whitespace, sits in `s`
      between a whitespace prefix and a whitespace suffix. */
  lemma NestedSlice(s: string, t: string, r: string)
    requires |t| <= |s| && t == s[|s| - |t|..] && AllSpace(s[..|s| - |t|])
    requires |r| <= |t| && r == t[..|r|] && AllSpace(t[|r|..])
    ensures var i := |s| - |t|;
      && i + |r| <= |s| && r == s[i..i + |r|]
      && AllSpace(s[..i]) && AllSpace(s[i + |r|..])
  {
    PrefixOfSuffix(s, t, r);
    SuffixOfSuffix(s, t, |r|);
  }

  /** A suffix of a suffix is a suffix. */
  lemma SuffixOfSuffix(q: string, t: string, n: nat)
    requires |t| <= |q| && t == q[|q| - |t|..] && n <= |t|
    ensures q[|q| - |t| + n..] == t[n..]
  {
  }

  /** Dropping a trailing whitespace run keeps the non-whitespace characters. */
  lemma TrailingRunNonSpace(t: string, r: string)
    requires r == TrimEnd(t)
    ensures NonSpace(r) == NonSpace(t)
  {
    var q := t[|r|..];
    assert t == r + q;
    NonSpaceAppend(r, q);
    NonSpaceEmpty(q);
  }

  /** The shape of a string after `replace(/\s+/g, " ")`: the only whitespace is a
      plain space, and no two whitespace characters are adjacent. */
  ghost predicate SingleSpaced(r: string) {
    && (forall i :: !OddSpaceAt(r, i))
    && (forall i :: !SpacePairAt(r, i))
  }

  /** Position `i` of `r` holds whitespace other than a plain space. */
  ghost predicate OddSpaceAt(r: string, i: int) {
    0 <= i < |r| && IsSpace(r[i]) && r[i] != ' '
  }

  /** Positions `i` and `i + 1` of `r` both hold whitespace. */
  ghost predicate SpacePairAt(r: string, i: int) {
    0 <= i && i + 1 < |r| && IsSpace(r[i]) && IsSpace(r[i + 1])
  }

  /** `s.replace(/\s+/g, " ")`: each maximal run of whitespace becomes one space.
      `SqueezeShape` states what the result looks like and `SqueezeJoin` how a run is
      replaced. */
  function Squeeze(s: string): string
    decreases |s|
  {
    if s == [] then []
    else if IsSpace(s[0]) then [' '] + Squeeze(TrimStart(s))
    else [s[0]] + Squeeze(s[1..])
  }

  /** `r` has the shape `Squeeze` gives `s`: single-spaced, with the non-whitespace
      characters of `s` in order, empty only for empty `s`, and starting and ending
      with whitespace exactly when `s` does. */
  ghost predicate SqueezedFrom(s: string, r: string) {
    && SingleSpaced(r)
    && NonSpace(r) == NonSpace(s)
    && (r == [] <==> s == [])
    && (r != [] && s != [] ==> (IsSpace(r[0]) <==> IsSpace(s[0])))
    && (r != [] && s != [] ==> (IsSpace(r[|r| - 1]) <==> IsSpace(s[|s| - 1])))
  }

  lemma {:induction false} SqueezeShape(s: string)
    ensures SqueezedFrom(s, Squeeze(s))
    decreases |s|
  {
    if s == [] {
    } else if IsSpace(s[0]) {
      var t := TrimStart(s);
      SqueezeShape(t);
      SqueezeShapeSpace(s, t, Squeeze(t));
    } else {
      SqueezeShape(s[1..]);
      SqueezeShapeKeep(s, Squeeze(s[1..]));
    }
  }

  /** The ends of a squeezed string: whitespace exactly where `s` has it. */
  lemma SqueezeEnds(s: string)
    requires s != []
    ensures Squeeze(s) != []
    ensures IsSpace(Squeeze(s)[0]) <==> IsSpace(s[0])
    ensures IsSpace(Squeeze(s)[|Squeeze(s)| - 1]) <==> IsSpace(s[|s| - 1])
  {
    SqueezeShape(s);
  }

  lemma SqueezeShapeSpace(s: string, t: string, rest: string)
    requires s != [] && IsSpace(s[0]) && t == TrimStart(s)
    requires SqueezedFrom(t, rest)
    ensures SqueezedFrom(s, [' '] + rest)
  {
    SpaceRun(s, t);
    SingleSpacedCons(' ', rest);
    NonSpaceCons(' ', rest);
  }

  lemma SqueezeShapeKeep(s: string, rest: string)
    requires s != [] && !IsSpace(s[0])
    requires SqueezedFrom(s[1..], rest)
    ensures SqueezedFrom(s, [s[0]] + rest)
  {
    SingleSpacedCons(s[0], rest);
    NonSpaceCons(s[0], rest);
    assert s == [s[0]] + s[1..];
    NonSpaceCons(s[0], s[1..]);
  }

  /** Splitting `s` at the end of its leading whitespace run. */
  lemma SpaceRun(s: string, t: string)
    requires t == TrimStart(s)
    ensures NonSpace(t) == NonSpace(s)
    ensures t == [] ==> AllSpace(s)
    ensures t != [] ==> s != [] && t[|t| - 1] == s[|s| - 1]
  {
    SpaceRunNonSpace(s, t);
    SpaceRunAll(s, t);
    SuffixLast(s, t);
  }

  lemma SpaceRunNonSpace(s: string, t: string)
    requires t == TrimStart(s)
    ensures NonSpace(t) == NonSpace(s)
  {
    var k := |s| - |t|;
    TrimStartSuffix(s);
    SplitAt(s, k);
    SpacePrefixNonSpace(s[..k], t);
  }

  lemma SplitAt(s: string, k: nat)
    requires k <= |s|
    ensures s[..k] + s[k..] == s
  {
  }

  /** A whitespace prefix contributes no non-whitespace characters. */
  lemma SpacePrefixNonSpace(p: string, t: string)
    requires AllSpace(p)
    ensures NonSpace(p + t) == NonSpace(t)
  {
    NonSpaceAppend(p, t);
    NonSpaceEmpty(p);
  }

  lemma SpaceRunAll(s: string, t: string)
    requires t == TrimStart(s)
    ensures t == [] ==> AllSpace(s)
  {
    if t == [] {
      TrimStartSuffix(s);
      assert s[..|s| - |t|] == s;
    }
  }

  /** What is left after the run ends where `s` ends. */
  lemma SuffixLast(s: string, t: string)
    requires t == TrimStart(s)
    ensures t != [] ==> s != [] && t[|t| - 1] == s[|s| - 1]
  {
    if t != [] {
      TrimStartSuffix(s);
      assert t == s[|s| - |t|..];
    }
  }

  lemma SingleSpacedCons(c: char, rest: string)
    requires SingleSpaced(rest)
    requires IsSpace(c) ==> c == ' ' && (rest == [] || !IsSpace(rest[0]))
    ensures SingleSpaced([c] + rest)
  {
    var r := [c] + rest;
    forall i ensures !OddSpaceAt(r, i) {
      if 0 < i < |r| {
        assert r[i] == rest[i - 1];
        assert !OddSpaceAt(rest, i - 1);
      }
    }
    forall i ensures !SpacePairAt(r, i) {
      if 0 < i && i + 1 < |r| {
        assert r[i] == rest[i - 1] && r[i + 1] == rest[i];
        assert !SpacePairAt(rest, i - 1);
      } else if i == 0 && 1 < |r| {
        assert r[1] == rest[0];
      }
    }
  }

  /** A string as the parsers leave it: single-spaced and trimmed. */
  ghost predicate Canonical(r: string) {
    SingleSpaced(r) && (r == [] || (!IsSpace(r[0]) && !IsSpace(r[|r| - 1])))
  }

  /** Two canonical words joined by one space stay canonical. */
  lemma CanonicalJoin(a: string, b: string)
    requires a != [] && b != [] && Canonical(a) && Canonical(b)
    ensures Canonical(a + " " + b)
  {
    var r := a + " " + b;
    forall i ensures !OddSpaceAt(r, i) {
      if 0 <= i < |a| {
        assert r[i] == a[i];
        assert !OddSpaceAt(a, i);
      } else if |a| < i < |r| {
        assert r[i] == b[i - |a| - 1];
        assert !OddSpaceAt(b, i - |a| - 1);
      }
    }
    forall i ensures !SpacePairAt(r, i) {
      if 0 <= i && i + 1 < |a| {
        assert r[i] == a[i] && r[i + 1] == a[i + 1];
        assert !SpacePairAt(a, i);
      } else if i + 1 == |a| {
        assert r[i] == a[|a| - 1];
      } else if i == |a| {
        assert r[i + 1] == b[0];
      } else if |a| < i && i + 1 < |r| {
        assert r[i] == b[i - |a| - 1] && r[i + 1] == b[i - |a|];
        assert !SpacePairAt(b, i - |a| - 1);
      }
    }
    assert r[0] == a[0];
    assert r[|r| - 1] == b[|b| - 1];
  }

  /** A non-empty string without whitespace is canonical. */
  lemma WordCanonical(w: string)
    requires forall i :: 0 <= i < |w| ==> !IsSpace(w[i])
    ensures Canonical(w)
  {
    forall i ensures !OddSpaceAt(w, i) {
    }
    forall i ensures !SpacePairAt(w, i) {
    }
  }

  /** `s.replace(/\s+/g, " ").trim()`, the text clean-up all three parsers apply.
      The result is canonical, keeps every non-whitespace character of `s` in order,
      and is empty exactly when `s` is all whitespace. */
  function Normalize(s: string): (r: string)
    ensures Canonical(r)
    ensures NonSpace(r) == NonSpace(s)
    ensures r == [] <==> AllSpace(s)
  {
    TrimSqueezed(s);
    Trim(Squeeze(s))
  }

  lemma TrimSqueezed(s: string)
    ensures Canonical(Trim(Squeeze(s)))
    ensures NonSpace(Trim(Squeeze(s))) == NonSpace(s)
    ensures Trim(Squeeze(s)) == [] <==> AllSpace(s)
  {
    SqueezeShape(s);
    TrimSingleSpaced(Squeeze(s));
    TrimEmpty(s);
  }

  lemma TrimSingleSpaced(q: string)
    requires SingleSpaced(q)
    ensures Canonical(Trim(q))
  {
    var t := TrimStart(q);
    assert SingleSpaced(t) by {
      TrimStartSuffix(q);
      SingleSpacedSlice(q, |q| - |t|, |q|);
      assert q[|q| - |t|..|q|] == t;
    }
    var r := TrimEnd(t);
    assert SingleSpaced(r) by {
      SingleSpacedSlice(t, 0, |r|);
    }
    assert Trim(q) == r;
  }

  /** A prefix of a suffix is a slice. */
  lemma PrefixOfSuffix(q: string, t: string, r: string)
    requires |t| <= |q| && t == q[|q| - |t|..]
    requires |r| <= |t| && r == t[..|r|]
    ensures r == q[|q| - |t|..|q| - |t| + |r|]
  {
  }

  /** Any slice of a single-spaced string is single-spaced. */
  lemma SingleSpacedSlice(q: string, a: nat, b: nat)
    requires SingleSpaced(q) && a <= b <= |q|
    ensures SingleSpaced(q[a..b])
  {
    var r := q[a..b];
    forall i ensures !OddSpaceAt(r, i) {
      if 0 <= i < |r| {
        assert r[i] == q[a + i];
        assert !OddSpaceAt(q, a + i);
      }
    }
    forall i ensures !SpacePairAt(r, i) {
      if 0 <= i && i + 1 < |r| {
        assert r[i] == q[a + i] && r[i + 1] == q[a + i + 1];
        assert !SpacePairAt(q, a + i);
      }
    }
  }

  lemma TrimEmpty(s: string)
    ensures Trim(Squeeze(s)) == [] <==> AllSpace(s)
  {
    var r := Trim(Squeeze(s));
    SqueezeShape(s);
    NonSpaceEmpty(s);
    NonSpaceEmpty(r);
    assert r != [] ==> !IsSpace(r[0]);
  }

  lemma {:induction false} SqueezeFixed(s: string)
    requires SingleSpaced(s)
    ensures Squeeze(s) == s
    decreases |s|
  {
    if s != [] {
      SingleSpacedTail(s);
      SqueezeFixed(s[1..]);
      if IsSpace(s[0]) {
        SqueezeFixedSpace(s);
      } else {
        SqueezeFixedKeep(s);
      }
    }
  }

  /** A single space in front of a fixed point stays. */
  lemma SqueezeFixedSpace(s: string)
    requires SingleSpaced(s) && s != [] && IsSpace(s[0])
    requires Squeeze(s[1..]) == s[1..]
    ensures Squeeze(s) == s
  {
    SingleSpaceRun(s);
    SqueezeSpace(s);
    assert s == [' '] + s[1..];
  }

  /** A non-whitespace character in front of a fixed point stays. */
  lemma SqueezeFixedKeep(s: string)
    requires s != [] && !IsSpace(s[0])
    requires Squeeze(s[1..]) == s[1..]
    ensures Squeeze(s) == s
  {
    SqueezeKeep(s);
    assert s == [s[0]] + s[1..];
  }

  /** A leading whitespace run becomes one space. */
  lemma SqueezeSpace(s: string)
    requires s != [] && IsSpace(s[0])
    ensures Squeeze(s) == [' '] + Squeeze(TrimStart(s))
  {
  }

  /** A leading non-whitespace character is kept. */
  lemma SqueezeKeep(s: string)
    requires s != [] && !IsSpace(s[0])
    ensures Squeeze(s) == [s[0]] + Squeeze(s[1..])
  {
  }

  lemma SingleSpacedTail(s: string)
    requires SingleSpaced(s) && s != []
    ensures SingleSpaced(s[1..])
  {
    SingleSpacedSlice(s, 1, |s|);
    assert s[1..|s|] == s[1..];
  }

  /** In a single-spaced string a whitespace run is one character long. */
  lemma SingleSpaceRun(s: string)
    requires SingleSpaced(s) && s != [] && IsSpace(s[0])
    ensures s[0] == ' ' && TrimStart(s) == s[1..]
  {
    assert !OddSpaceAt(s, 0);
    assert !SpacePairAt(s, 0);
    assert |s| > 1 ==> !IsSpace(s[1]);
    assert TrimStart(s[1..]) == s[1..];
  }

  /** Canonical strings are exactly the fixed points of `Normalize`; in particular the
      clean-up is idempotent. */
  lemma NormalizeFixed(s: string)
    ensures Normalize(s) == s <==> Canonical(s)
  {
    if Canonical(s) {
      assert SingleSpaced(s);
      SqueezeFixed(s);
      assert TrimStart(s) == s;
      assert TrimEnd(s) == s;
    }
  }

  lemma NormalizeIdempotent(s: string)
    ensures Normalize(Normalize(s)) == Normalize(s)
  {
    NormalizeFixed(Normalize(s));
  }

  // ---------- how the clean-up treats a whitespace run ----------

  /** Leading whitespace in front of text that starts with a non-whitespace
      character is exactly what `trimStart` removes. */
  lemma {:induction false} TrimStartSpaces(w: string, b: string)
    requires AllSpace(w) && (b == [] || !IsSpace(b[0]))
    ensures TrimStart(w + b) == b
    decreases |w|
  {
    if w == [] {
      assert w + b == b;
    } else {
      assert (w + b)[1..] == w[1..] + b;
      assert AllSpace(w[1..]) by {
        forall i | 0 <= i < |w| - 1 ensures IsSpace(w[1..][i]) {
          assert w[1..][i] == w[i + 1];
        }
      }
      TrimStartSpaces(w[1..], b);
    }
  }

  /** Once `trimStart` reaches a non-whitespace character, what follows is kept. */
  lemma {:induction false} TrimStartAppend(a: string, b: string)
    requires TrimStart(a) != []
    ensures TrimStart(a + b) == TrimStart(a) + b
    decreases |a|
  {
    assert a != [];
    assert (a + b)[0] == a[0];
    if IsSpace(a[0]) {
      assert (a + b)[1..] == a[1..] + b;
      TrimStartAppend(a[1..], b);
    }
  }

  /** Trailing whitespace after text that ends with a non-whitespace character is
      exactly what `trimEnd` removes. */
  lemma {:induction false} TrimEndSpaces(a: string, w: string)
    requires AllSpace(w) && (a == [] || !IsSpace(a[|a| - 1]))
    ensures TrimEnd(a + w) == a
    decreases |w|
  {
    if w == [] {
      assert a + w == a;
    } else {
      var v := w[..|w| - 1];
      assert (a + w)[..|a + w| - 1] == a + v;
      assert AllSpace(v) by {
        forall i | 0 <= i < |v| ensures IsSpace(v[i]) {
          assert v[i] == w[i];
        }
      }
      TrimEndSpaces(a, v);
    }
  }

  /** Once `trimEnd` reaches a non-whitespace character, what precedes is kept. */
  lemma {:induction false} TrimEndAppend(a: string, b: string)
    requires TrimEnd(b) != []
    ensures TrimEnd(a + b) == a + TrimEnd(b)
    decreases |b|
  {
    assert b != [];
    assert (a + b)[|a + b| - 1] == b[|b| - 1];
    if IsSpace(b[|b| - 1]) {
      assert (a + b)[..|a + b| - 1] == a + b[..|b| - 1];
      TrimEndAppend(a, b[..|b| - 1]);
    }
  }

  /** A string with a non-whitespace character keeps some of it after either trim. */
  lemma TrimStartKeepsWord(s: string)
    requires !AllSpace(s)
    ensures TrimStart(s) != []
  {
    var k :| 0 <= k < |s| && !IsSpace(s[k]);
    TrimStartStopsAt(s, k);
  }

  /** `trimStart` stops at or before the first non-whitespace character. */
  lemma {:induction false} TrimStartStopsAt(s: string, k: nat)
    requires k < |s| && !IsSpace(s[k])
    ensures |TrimStart(s)| >= |s| - k
    decreases k
  {
    if k > 0 && IsSpace(s[0]) {
      assert s[1..][k - 1] == s[k];
      TrimStartStopsAt(s[1..], k - 1);
    }
  }

  lemma TrimEndKeepsWord(s: string)
    requires !AllSpace(s)
    ensures TrimEnd(s) != []
  {
    assert s[0..] == s;
  }

  /** A non-empty whitespace run squeezes to one space. */
  lemma SqueezeRun(w: string)
    requires w != [] && AllSpace(w)
    ensures Squeeze(w) == " "
  {
    TrimStartSpaces(w, []);
    assert w + [] == w;
    SqueezeSpace(w);
  }

  /** Squeezing distributes over a split that does not fall inside a whitespace run:
      each run is replaced on its own. */
  lemma {:induction false} SqueezeAppend(a: string, b: string)
    requires a == [] || b == [] || !IsSpace(a[|a| - 1]) || !IsSpace(b[0])
    ensures Squeeze(a + b) == Squeeze(a) + Squeeze(b)
    decreases |a|
  {
    if a == [] {
      assert a + b == b;
    } else if !IsSpace(a[0]) {
      assert a[1..] != [] ==> a[1..][|a[1..]| - 1] == a[|a| - 1];
      SqueezeAppend(a[1..], b);
      SqueezeAppendKeep(a[0], a[1..], b);
      assert a == [a[0]] + a[1..];
    } else if TrimStart(a) == [] {
      SpaceRunAll(a, []);
      SqueezeAppendRun(a, b);
    } else {
      var t := TrimStart(a);
      SuffixLast(a, t);
      SqueezeAppend(t, b);
      SqueezeAppendSpace(a, b);
    }
  }

  lemma SqueezeAppendKeep(c: char, rest: string, b: string)
    requires !IsSpace(c)
    requires Squeeze(rest + b) == Squeeze(rest) + Squeeze(b)
    ensures Squeeze([c] + rest + b) == Squeeze([c] + rest) + Squeeze(b)
  {
    SqueezeConsKeep(c, rest);
    SqueezeConsKeep(c, rest + b);
    Assoc([c], rest, b);
    Assoc([c], Squeeze(rest), Squeeze(b));
  }

  /** A non-whitespace character in front is kept as it is. */
  lemma SqueezeConsKeep(c: char, rest: string)
    requires !IsSpace(c)
    ensures Squeeze([c] + rest) == [c] + Squeeze(rest)
  {
    assert ([c] + rest)[0] == c && ([c] + rest)[1..] == rest;
  }

  lemma SqueezeAppendRun(a: string, b: string)
    requires a != [] && AllSpace(a) && (b == [] || !IsSpace(b[0]))
    ensures Squeeze(a + b) == Squeeze(a) + Squeeze(b)
  {
    assert (a + b)[0] == a[0];
    SqueezeRun(a);
    TrimStartSpaces(a, b);
    SqueezeSpace(a + b);
  }

  lemma SqueezeAppendSpace(a: string, b: string)
    requires a != [] && IsSpace(a[0]) && TrimStart(a) != []
    requires Squeeze(TrimStart(a) + b) == Squeeze(TrimStart(a)) + Squeeze(b)
    ensures Squeeze(a + b) == Squeeze(a) + Squeeze(b)
  {
    var x, y := Squeeze(TrimStart(a)), Squeeze(b);
    assert Squeeze(a) == [' '] + x by {
      SqueezeSpace(a);
    }
    assert Squeeze(a + b) == [' '] + (x + y) by {
      assert (a + b)[0] == a[0];
      TrimStartAppend(a, b);
      SqueezeSpace(a + b);
    }
    Assoc([' '], x, y);
  }

  lemma Assoc(a: string, b: string, c: string)
    ensures a + b + c == a + (b + c)
  {
  }

  lemma AppendEmpty(a: string)
    ensures a + [] == a && [] + a == a
  {
  }

  /** The first character of a concatenation with a non-empty left side, and the last
      one with a non-empty right side. */
  lemma AppendEnds(a: string, b: string)
    ensures a != [] ==> (a + b)[0] == a[0]
    ensures b != [] ==> (a + b)[|a + b| - 1] == b[|b| - 1]
  {
  }

  /** The heart of `replace(/\s+/g, " ")`: a whitespace run between two stretches of
      text becomes exactly one space, and the text on either side is squeezed on its
      own. */
  lemma SqueezeJoin(a: string, w: string, b: string)
    requires a == [] || !IsSpace(a[|a| - 1])
    requires w != [] && AllSpace(w)
    requires b == [] || !IsSpace(b[0])
    ensures Squeeze(a + w + b) == Squeeze(a) + " " + Squeeze(b)
  {
    Assoc(a, w, b);
    SqueezeAppend(w, b);
    SqueezeAppend(a, w + b);
    SqueezeRun(w);
    Assoc(Squeeze(a), " ", Squeeze(b));
  }

  lemma AllSpaceJoin(a: string, b: string, c: string)
    requires AllSpace(a) && AllSpace(b) && AllSpace(c)
    ensures AllSpace(a + b + c)
  {
    var s := a + b + c;
    forall i | 0 <= i < |s| ensures IsSpace(s[i]) {
      if i < |a| { assert s[i] == a[i]; }
      else if i < |a| + |b| { assert s[i] == b[i - |a|]; }
      else { assert s[i] == c[i - |a| - |b|]; }
    }
  }

  /** Trimming two words joined by one space trims each of them. */
  lemma TrimJoin(x: string, y: string)
    requires x != [] && !IsSpace(x[|x| - 1])
    requires y != [] && !IsSpace(y[0])
    ensures Trim(x + " " + y) == Trim(x) + " " + Trim(y)
  {
    var t := TrimStartJoin(x, y);
    TrimEndAppend(t + " ", y);
    assert Trim(x) == t by {
      TrimEndSpaces(t, []);
      AppendEmpty(t);
    }
    assert TrimStart(y) == y by {
      TrimStartSpaces([], y);
      AppendEmpty(y);
    }
    TrimEndKeepsWord(y);
  }

  /** `trimStart` of two words joined by one space only touches the first. */
  lemma TrimStartJoin(x: string, y: string) returns (t: string)
    requires x != [] && !IsSpace(x[|x| - 1])
    ensures t == TrimStart(x) && t != [] && !IsSpace(t[|t| - 1])
    ensures TrimStart(x + " " + y) == t + " " + y
  {
    assert !AllSpace(x);
    TrimStartKeepsWord(x);
    t := TrimStart(x);
    SuffixLast(x, t);
    Assoc(x, " ", y);
    TrimStartAppend(x, " " + y);
    Assoc(t, " ", y);
  }

  /** Squeezed text that ends with a non-whitespace character loses a trailing
      whitespace run to the trim. */
  lemma CleanTrailing(a: string, w: string)
    requires a != [] && !IsSpace(a[|a| - 1]) && AllSpace(w)
    ensures Trim(Squeeze(a + w)) == Trim(Squeeze(a))
  {
    SqueezeAppend(a, w);
    SqueezeEnds(a);
    var x := Squeeze(a);
    var tail := Squeeze(w);
    assert AllSpace(tail) by {
      if w != [] { SqueezeRun(w); }
    }
    TrimSpaceAfter(x, tail);
  }

  /** Trimming ignores whitespace after a string that ends with a non-whitespace
      character. */
  lemma TrimSpaceAfter(x: string, tail: string)
    requires x != [] && !IsSpace(x[|x| - 1]) && AllSpace(tail)
    ensures Trim(x + tail) == Trim(x)
  {
    assert !AllSpace(x);
    TrimStartKeepsWord(x);
    var t := TrimStart(x);
    TrimStartAppend(x, tail);
    SuffixLast(x, t);
    TrimEndSpaces(t, tail);
    TrimEndSpaces(t, []);
    assert t + [] == t;
  }

  /** A leading whitespace run in front of text that starts with a non-whitespace
      character is dropped by the trim. */
  lemma CleanLeading(w: string, b: string)
    requires AllSpace(w) && b != [] && !IsSpace(b[0])
    ensures Trim(Squeeze(w + b)) == Trim(Squeeze(b))
  {
    SqueezeAppend(w, b);
    SqueezeEnds(b);
    var y := Squeeze(b);
    var head := Squeeze(w);
    assert AllSpace(head) by {
      if w != [] { SqueezeRun(w); }
    }
    TrimStartSpaces(head, y);
    TrimStartSpaces([], y);
    assert [] + y == y;
  }

  /** Text with a non-whitespace character, cut at the ends of its whitespace
      padding. */
  lemma SplitPadding(s: string) returns (lead: string, core: string, trail: string)
    requires !AllSpace(s)
    ensures s == lead + core + trail
    ensures AllSpace(lead) && AllSpace(trail)
    ensures core != [] && !IsSpace(core[0]) && !IsSpace(core[|core| - 1])
  {
    var body;
    body, trail := SplitEnd(s);
    lead, core := SplitStart(body);
  }

  lemma SplitEnd(s: string) returns (body: string, trail: string)
    requires !AllSpace(s)
    ensures s == body + trail && AllSpace(trail)
    ensures body != [] && !IsSpace(body[|body| - 1])
  {
    TrimEndKeepsWord(s);
    body := TrimEnd(s);
    trail := s[|body|..];
    SplitAt(s, |body|);
  }

  lemma SplitStart(s: string) returns (lead: string, core: string)
    requires s != [] && !IsSpace(s[|s| - 1])
    ensures s == lead + core && AllSpace(lead)
    ensures core != [] && !IsSpace(core[0]) && core[|core| - 1] == s[|s| - 1]
  {
    assert !AllSpace(s);
    TrimStartKeepsWord(s);
    core := TrimStart(s);
    TrimStartSuffix(s);
    lead := s[..|s| - |core|];
    SplitAt(s, |lead|);
    SuffixLast(s, core);
  }

  /** The clean-up around an interior whitespace run. */
  lemma CleanJoin(a: string, w: string, b: string)
    requires !AllSpace(a) && !AllSpace(b)
    requires w != [] && AllSpace(w)
    ensures Trim(Squeeze(a + w + b)) == Trim(Squeeze(a)) + " " + Trim(Squeeze(b))
  {
    var a0, a1, a2 := SplitPadding(a);
    var b0, b1, b2 := SplitPadding(b);
    Assoc(b0, b1, b2);
    CleanJoinParts(a0 + a1, a2, w, b0, b1 + b2);
  }

  /** `CleanJoin` with each side cut where its text ends: `x` ends and `y` starts with
      a non-whitespace character, and `p`, `w` and `q` are whitespace. */
  lemma CleanJoinParts(x: string, p: string, w: string, q: string, y: string)
    requires x != [] && !IsSpace(x[|x| - 1]) && y != [] && !IsSpace(y[0])
    requires AllSpace(p) && AllSpace(q) && w != [] && AllSpace(w)
    ensures Trim(Squeeze(x + p + w + (q + y))) == Trim(Squeeze(x + p)) + " " + Trim(Squeeze(q + y))
  {
    AllSpaceJoin(p, w, q);
    Regroup(x, p, w, q, y);
    CleanAround(x, p + w + q, y);
    CleanTrailing(x, p);
    CleanLeading(q, y);
  }

  lemma Regroup(x: string, p: string, w: string, q: string, y: string)
    ensures x + p + w + (q + y) == x + (p + w + q) + y
  {
  }

  /** The clean-up of a whitespace run between a word end and a word start. */
  lemma CleanAround(x: string, run: string, y: string)
    requires x != [] && !IsSpace(x[|x| - 1])
    requires run != [] && AllSpace(run)
    requires y != [] && !IsSpace(y[0])
    ensures Trim(Squeeze(x + run + y)) == Trim(Squeeze(x)) + " " + Trim(Squeeze(y))
  {
    SqueezeJoin(x, run, y);
    SqueezeEnds(x);
    SqueezeEnds(y);
    TrimJoin(Squeeze(x), Squeeze(y));
  }

  /** `Normalize` on text around an interior whitespace run: the run becomes one
      space between the two cleaned-up sides, whatever whitespace it was made of and
      however long it was. */
  lemma NormalizeJoin(a: string, w: string, b: string)
    requires !AllSpace(a) && !AllSpace(b)
    requires w != [] && AllSpace(w)
    ensures Normalize(a + w + b) == Normalize(a) + " " + Normalize(b)
  {
    CleanJoin(a, w, b);
  }

  /** Whitespace around the text changes nothing: `Normalize` depends only on what
      lies between the first and last non-whitespace characters. */
  lemma NormalizePadded(v: string, s: string, w: string)
    requires AllSpace(v) && AllSpace(w)
    ensures Normalize(v + s + w) == Normalize(s)
  {
    if AllSpace(s) {
      AllSpaceJoin(v, s, w);
    } else {
      CleanPadded(v, s, w);
    }
  }

  lemma CleanPadded(v: string, s: string, w: string)
    requires AllSpace(v) && AllSpace(w) && !AllSpace(s)
    ensures Trim(Squeeze(v + s + w)) == Trim(Squeeze(s))
  {
    var lead, core, trail := SplitPadding(s);
    var outer, inner := v + lead, trail + w;
    AllSpaceJoin(v, lead, []);
    AllSpaceJoin(trail, w, []);
    AppendEmpty(outer);
    AppendEmpty(inner);
    Regroup2(v, lead, core, trail, w);
    Assoc(lead, core, trail);
    AppendEnds(core, inner);
    AppendEnds(core, trail);
    CleanLeading(outer, core + inner);
    CleanLeading(lead, core + trail);
    CleanTrailing(core, inner);
    CleanTrailing(core, trail);
  }

  lemma Regroup2(v: string, l: string, c: string, t: string, w: string)
    ensures v + (l + c + t) + w == v + l + (c + (t + w))
  {
  }

  predicate IsUpper(c: char) {
    'A' <= c <= 'Z'
  }

  /** ASCII lower-casing: an upper-case letter becomes its lower-case partner, 32
      code points on; every other character stays. */
  function LowerChar(c: char): (r: char)
    ensures !IsUpper(r)
    ensures !IsUpper(c) ==> r == c
    ensures IsUpper(c) ==> 'a' <= r <= 'z' && r as int == c as int + 32
  {
    if IsUpper(c) then (c as int + 32) as char else c
  }

  /** `s.toLowerCase()` restricted to ASCII: no upper-case letter is left, and each
      position holds its own character lower-cased. */
  function Lower(s: string): (r: string)
    ensures |r| == |s|
    ensures forall i :: 0 <= i < |s| ==> r[i] == LowerChar(s[i])
    ensures forall i :: 0 <= i < |r| ==> !IsUpper(r[i])
    ensures forall i :: 0 <= i < |s| && !IsUpper(s[i]) ==> r[i] == s[i]
  {
    seq(|s|, i requires 0 <= i < |s| => LowerChar(s[i]))
  }

  lemma LowerIdempotent(s: string)
    ensures Lower(Lower(s)) == Lower(s)
  {
  }

  /** Two characters a case-insensitive ASCII match accepts as equal: the same
      character, or the two cases of one letter. */
  predicate SameLetter(x: char, y: char) {
    || x == y
    || (IsUpper(x) && y as int == x as int + 32)
    || (IsUpper(y) && x as int == y as int + 32)
  }

  lemma LowerCharSame(x: char, y: char)
    ensures LowerChar(x) == LowerChar(y) <==> SameLetter(x, y)
  {
  }

  /** Lower-casing both sides compares two strings ignoring ASCII case. */
  lemma LowerEqualIff(a: string, b: string)
    ensures Lower(a) == Lower(b) <==> |a| == |b| && forall i :: 0 <= i < |a| ==> SameLetter(a[i], b[i])
  {
    if Lower(a) == Lower(b) {
      forall i | 0 <= i < |a| ensures SameLetter(a[i], b[i]) {
        LowerCharSame(a[i], b[i]);
      }
    }
    if |a| == |b| && forall i :: 0 <= i < |a| ==> SameLetter(a[i], b[i]) {
      forall i | 0 <= i < |a| ensures Lower(a)[i] == Lower(b)[i] {
        LowerCharSame(a[i], b[i]);
      }
    }
  }

  predicate StartsWith(s: string, p: string) {
    |p| <= |s| && s[..|p|] == p
  }

  /** `s.indexOf(p)` as an option: the first position at which `p` occurs. */
  function Find(s: string, p: string): (r: Option<nat>)
    ensures r.Some? ==> r.value <= |s| && StartsWith(s[r.value..], p)
    ensures r.Some? ==> forall i :: 0 <= i < r.value ==> !StartsWith(s[i..], p)
    ensures r.None? <==> forall i :: 0 <= i <= |s| ==> !StartsWith(s[i..], p)
    decreases |s|
  {
    if StartsWith(s, p) then Some(0)
    else if s == [] then None
    else
      var rest := Find(s[1..], p);
      FindStep(s, p, rest);
      match rest
      case None => None
      case Some(k) => Some(k + 1)
  }

  /** Searching `s[1..]` finds what searching `s` finds, one position later, when
      `s` itself does not start with `p`. */
  lemma FindStep(s: string, p: string, rest: Option<nat>)
    requires s != [] && !StartsWith(s, p)
    requires rest.Some? ==> rest.value <= |s| - 1 && StartsWith(s[1..][rest.value..], p)
    requires rest.Some? ==> forall i :: 0 <= i < rest.value ==> !StartsWith(s[1..][i..], p)
    requires rest.None? <==> forall i :: 0 <= i <= |s| - 1 ==> !StartsWith(s[1..][i..], p)
    ensures rest.Some? ==> StartsWith(s[rest.value + 1..], p)
    ensures rest.Some? ==> forall i :: 0 <= i < rest.value + 1 ==> !StartsWith(s[i..], p)
    ensures rest.None? <==> forall i :: 0 <= i <= |s| ==> !StartsWith(s[i..], p)
  {
    forall i | 1 <= i <= |s| ensures s[i..] == s[1..][i - 1..] {}
  }

  /** `s.includes(p)`. */
  predicate Contains(s: string, p: string) {
    Find(s, p).Some?
  }

  /** A prefix followed, in what remains, by a second prefix: the two joined are a
      prefix. */
  lemma StartsWithJoin(s: string, a: string, b: string)
    requires StartsWith(s, a) && StartsWith(s[|a|..], b)
    ensures StartsWith(s, a + b)
  {
    assert s[..|a| + |b|] == s[..|a|] + s[|a|..][..|b|];
  }

  /** `s.indexOf(c)` as an option: the first position holding `c`. */
  function IndexOf(s: string, c: char): (r: Option<nat>)
    ensures r.Some? ==> r.value < |s| && s[r.value] == c
    ensures r.Some? ==> forall i :: 0 <= i < r.value ==> s[i] != c
    ensures r.None? <==> forall i :: 0 <= i < |s| ==> s[i] != c
    decreases |s|
  {
    if s == [] then None
    else if s[0] == c then Some(0)
    else
      match IndexOf(s[1..], c)
      case None => None
      case Some(k) => Some(k + 1)
  }

  /** `s.split(c)[0]`: everything before the first `c`, or all of `s`. */
  function Before(s: string, c: char): (r: string)
    ensures StartsWith(s, r)
    ensures forall i :: 0 <= i < |r| ==> r[i] != c
    ensures |r| < |s| ==> s[|r|] == c
  {
    match IndexOf(s, c)
    case None => s
    case Some(k) => s[..k]
  }
}
