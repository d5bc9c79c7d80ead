/** `parseVTT`: WebVTT cue blocks to items. The regular expression that cuts the
    document into blocks is not modelled; a `Block` is one of its matches. */
module Vtt {
  import opened Wrappers
  import opened Text
  import opened Items
  import Seqs

  // ---------- timestamps ----------

  /** `HH:MM:SS.mmm`; `millis` holds `SS.mmm` in milliseconds. */
  datatype Stamp = Stamp(hours: nat, minutes: nat, millis: nat)

  /** Two digits each for hours and minutes, `\d{2}\.\d{3}` for the seconds. */
  predicate ValidStamp(t: Stamp) {
    t.hours < 100 && t.minutes < 100 && t.millis < 100000
  }

  /** `toSec(h, m, s) = h * 3600 + m * 60 + s`, counted in milliseconds; the
      seconds are `Seconds(StampMillis(t))`. */
  function StampMillis(t: Stamp): int {
    (t.hours * 3600 + t.minutes * 60) * 1000 + t.millis
  }

  predicate IsDigit(c: char) {
    '0' <= c <= '9'
  }

  function DigitValue(c: char): nat
    requires IsDigit(c)
  {
    c as int - '0' as int
  }

  function DigitChar(d: nat): (c: char)
    requires d < 10
    ensures IsDigit(c) && DigitValue(c) == d
  {
    ('0' as int + d) as char
  }

  predicate StampShape(s: string) {
    && |s| == 12
    && IsDigit(s[0]) && IsDigit(s[1]) && s[2] == ':'
    && IsDigit(s[3]) && IsDigit(s[4]) && s[5] == ':'
    && IsDigit(s[6]) && IsDigit(s[7]) && s[8] == '.'
    && IsDigit(s[9]) && IsDigit(s[10]) && IsDigit(s[11])
  }

  /** Reads one timestamp as the pattern `(\d{2}):(\d{2}):(\d{2}\.\d{3})` captures it. */
  function ParseStamp(s: string): (r: Option<Stamp>)
    ensures r.Some? <==> StampShape(s)
    ensures r.Some? ==> ValidStamp(r.value)
  {
    if !StampShape(s) then None
    else
      Some(Stamp(
        10 * DigitValue(s[0]) + DigitValue(s[1]),
        10 * DigitValue(s[3]) + DigitValue(s[4]),
        (10 * DigitValue(s[6]) + DigitValue(s[7])) * 1000
          + 100 * DigitValue(s[9]) + 10 * DigitValue(s[10]) + DigitValue(s[11])))
  }

  /** The zero-padded rendering of a timestamp. */
  function FormatStamp(t: Stamp): (r: string)
    requires ValidStamp(t)
    ensures StampShape(r)
  {
    var sec := t.millis / 1000;
    var ms := t.millis % 1000;
    [DigitChar(t.hours / 10), DigitChar(t.hours % 10), ':',
     DigitChar(t.minutes / 10), DigitChar(t.minutes % 10), ':',
     DigitChar(sec / 10), DigitChar(sec % 10), '.',
     DigitChar(ms / 100), DigitChar(ms / 10 % 10), DigitChar(ms % 10)]
  }

  lemma ParseFormat(t: Stamp)
    requires ValidStamp(t)
    ensures ParseStamp(FormatStamp(t)) == Some(t)
  {
    var r := FormatStamp(t);
    TwoDigitsBack(t.hours, r[0], r[1]);
    TwoDigitsBack(t.minutes, r[3], r[4]);
    MillisBack(t.millis, r[6], r[7], r[9], r[10], r[11]);
  }

  /** The two digits written for `x` read back as `x`. */
  lemma TwoDigitsBack(x: nat, c0: char, c1: char)
    requires x < 100 && c0 == DigitChar(x / 10) && c1 == DigitChar(x % 10)
    ensures 10 * DigitValue(c0) + DigitValue(c1) == x
  {
  }

  /** The five digits written for `SS.mmm` read back as the same milliseconds. */
  lemma MillisBack(m: nat, c6: char, c7: char, c9: char, c10: char, c11: char)
    requires m < 100000
    requires c6 == DigitChar(m / 1000 / 10) && c7 == DigitChar(m / 1000 % 10)
    requires c9 == DigitChar(m % 1000 / 100) && c10 == DigitChar(m % 1000 / 10 % 10)
    requires c11 == DigitChar(m % 1000 % 10)
    ensures (10 * DigitValue(c6) + DigitValue(c7)) * 1000
      + 100 * DigitValue(c9) + 10 * DigitValue(c10) + DigitValue(c11) == m
  {
    var sec, ms := m / 1000, m % 1000;
    assert DigitValue(c6) == sec / 10 && DigitValue(c7) == sec % 10;
    assert DigitValue(c9) == ms / 100 && DigitValue(c10) == ms / 10 % 10 && DigitValue(c11) == ms % 10;
    JoinThree(ms);
    assert 10 * (sec / 10) + sec % 10 == sec;
  }

  lemma JoinThree(x: nat)
    requires x < 1000
    ensures 100 * (x / 100) + 10 * (x / 10 % 10) + x % 10 == x
  {
    assert x / 10 == 10 * (x / 100) + x / 10 % 10;
  }

  lemma FormatParse(s: string)
    requires ParseStamp(s).Some?
    ensures FormatStamp(ParseStamp(s).value) == s
  {
    var t := ParseStamp(s).value;
    var r := FormatStamp(t);
    DigitsBack(s[0], s[1]);
    DigitsBack(s[3], s[4]);
    SecondsBack(s[6], s[7], s[9], s[10], s[11]);
    assert r == s;
  }

  lemma DigitRoundTrip(c: char)
    requires IsDigit(c)
    ensures DigitChar(DigitValue(c)) == c
  {
  }

  /** Two digits read as a number and written again are the same two digits. */
  lemma DigitsBack(c0: char, c1: char)
    requires IsDigit(c0) && IsDigit(c1)
    ensures var x := 10 * DigitValue(c0) + DigitValue(c1);
      x < 100 && DigitChar(x / 10) == c0 && DigitChar(x % 10) == c1
  {
    TwoDigits(DigitValue(c0), DigitValue(c1));
    DigitRoundTrip(c0);
    DigitRoundTrip(c1);
  }

  /** `SS.mmm` read as milliseconds and written again is the same five digits. */
  lemma SecondsBack(c6: char, c7: char, c9: char, c10: char, c11: char)
    requires IsDigit(c6) && IsDigit(c7) && IsDigit(c9) && IsDigit(c10) && IsDigit(c11)
    ensures var m := (10 * DigitValue(c6) + DigitValue(c7)) * 1000
      + 100 * DigitValue(c9) + 10 * DigitValue(c10) + DigitValue(c11);
      && DigitChar(m / 1000 / 10) == c6 && DigitChar(m / 1000 % 10) == c7
      && DigitChar(m % 1000 / 100) == c9 && DigitChar(m % 1000 / 10 % 10) == c10
      && DigitChar(m % 1000 % 10) == c11
  {
    var sec := 10 * DigitValue(c6) + DigitValue(c7);
    var ms := 100 * DigitValue(c9) + 10 * DigitValue(c10) + DigitValue(c11);
    DigitsBack(c6, c7);
    ThreeDigits(DigitValue(c9), DigitValue(c10), DigitValue(c11));
    SplitMillis(sec, ms);
    DigitRoundTrip(c9);
    DigitRoundTrip(c10);
    DigitRoundTrip(c11);
  }

  lemma TwoDigits(a: nat, b: nat)
    requires b < 10
    ensures (10 * a + b) / 10 == a && (10 * a + b) % 10 == b
  {
  }

  lemma ThreeDigits(a: nat, b: nat, c: nat)
    requires b < 10 && c < 10
    ensures (100 * a + 10 * b + c) / 100 == a
    ensures (100 * a + 10 * b + c) / 10 % 10 == b
    ensures (100 * a + 10 * b + c) % 10 == c
  {
    assert 100 * a + 10 * b + c == 10 * (10 * a + b) + c;
    TwoDigits(10 * a + b, c);
    TwoDigits(a, b);
    assert 100 * a + 10 * b + c == 100 * a + (10 * b + c);
  }

  lemma SplitMillis(sec: nat, ms: nat)
    requires ms < 1000
    ensures (sec * 1000 + ms) / 1000 == sec && (sec * 1000 + ms) % 1000 == ms
  {
  }

  // ---------- tags ----------

  /** Length of the tag `/<\/?[^>]+>/` at the very start of `s`: a `<`, at least one
      character other than `>`, then the first `>`. */
  function TagAt(s: string): (r: Option<nat>)
    ensures r.Some? ==> 3 <= r.value <= |s| && s[0] == '<' && s[r.value - 1] == '>'
    ensures r.Some? ==> forall j :: 1 <= j < r.value - 1 ==> s[j] != '>'
    ensures r.None? && |s| >= 2 && s[0] == '<' && s[1] != '>' ==> forall j :: 1 <= j < |s| ==> s[j] != '>'
  {
    if |s| == 0 || s[0] != '<' then None
    else
      match IndexOf(s[1..], '>')
      case None => None
      case Some(k) => if k == 0 then None else Some(k + 2)
  }

  /** `replace(/<\/?[^>]+>/g, "")`: scans left to right, dropping each tag it meets. */
  function StripTags(s: string): (r: string)
    ensures |r| <= |s|
    decreases |s|
  {
    if s == [] then []
    else
      match TagAt(s)
      case Some(n) => StripTags(s[n..])
      case None => [s[0]] + StripTags(s[1..])
  }

  /** A tag at the front is dropped. */
  lemma StripTagsDrop(s: string, n: nat)
    requires s != [] && TagAt(s) == Some(n)
    ensures StripTags(s) == StripTags(s[n..])
  {
  }

  /** A character that does not open a tag is kept. */
  lemma StripTagsKeep(s: string)
    requires s != [] && TagAt(s).None?
    ensures StripTags(s) == [s[0]] + StripTags(s[1..])
  {
  }

  /** Every character left by stripping occurs in the input. */
  lemma {:induction false} StripTagsChars(s: string)
    ensures forall i :: 0 <= i < |StripTags(s)| ==> StripTags(s)[i] in s
    decreases |s|
  {
    if s != [] {
      match TagAt(s)
      case Some(n) =>
        var rest := StripTags(s[n..]);
        StripTagsChars(s[n..]);
        forall i | 0 <= i < |rest| ensures rest[i] in s {
          var j :| 0 <= j < |s[n..]| && s[n..][j] == rest[i];
          assert s[n + j] == rest[i];
        }
      case None =>
        var rest := StripTags(s[1..]);
        StripTagsChars(s[1..]);
        forall i | 0 <= i < |rest| ensures rest[i] in s {
          var j :| 0 <= j < |s[1..]| && s[1..][j] == rest[i];
          assert s[1 + j] == rest[i];
        }
        assert StripTags(s) == [s[0]] + rest;
    }
  }

  /** `idx` places each character of `r` at a position of `s` holding it, with the
      positions strictly increasing: `r` is `s` with some characters deleted. */
  ghost predicate Embeds(r: string, s: string, idx: seq<nat>) {
    && |idx| == |r|
    && (forall k :: 0 <= k < |idx| ==> idx[k] < |s| && s[idx[k]] == r[k])
    && (forall k, l :: 0 <= k < l < |idx| ==> idx[k] < idx[l])
  }

  function Shift(idx: seq<nat>, n: nat): seq<nat> {
    seq(|idx|, k requires 0 <= k < |idx| => idx[k] + n)
  }

  /** An embedding into a suffix is an embedding into the whole string. */
  lemma EmbedsShift(r: string, s: string, n: nat, idx: seq<nat>)
    requires n <= |s| && Embeds(r, s[n..], idx)
    ensures Embeds(r, s, Shift(idx, n))
  {
    forall k | 0 <= k < |idx| ensures s[idx[k] + n] == r[k] {
      assert s[n..][idx[k]] == s[idx[k] + n];
    }
  }

  /** A kept first character goes to position 0, in front of the shifted rest. */
  lemma EmbedsCons(r: string, s: string, idx: seq<nat>)
    requires s != [] && Embeds(r, s[1..], idx)
    ensures Embeds([s[0]] + r, s, [0] + Shift(idx, 1))
  {
    EmbedsShift(r, s, 1, idx);
    var r2, idx2 := [s[0]] + r, [0] + Shift(idx, 1);
    forall k | 1 <= k < |idx2| ensures idx2[k] == Shift(idx, 1)[k - 1] && r2[k] == r[k - 1] {}
  }

  /** Stripping only deletes: what is left is the input with characters removed, the
      survivors in their original order. */
  lemma {:induction false} StripTagsInOrder(s: string)
    ensures exists idx :: Embeds(StripTags(s), s, idx)
    decreases |s|
  {
    if s == [] {
      assert StripTags(s) == [];
      assert Embeds(StripTags(s), s, []);
    } else {
      match TagAt(s)
      case Some(n) =>
        StripTagsInOrder(s[n..]);
        var idx :| Embeds(StripTags(s[n..]), s[n..], idx);
        EmbedsShift(StripTags(s[n..]), s, n, idx);
        StripTagsDrop(s, n);
        assert Embeds(StripTags(s), s, Shift(idx, n));
      case None =>
        StripTagsInOrder(s[1..]);
        var idx :| Embeds(StripTags(s[1..]), s[1..], idx);
        EmbedsCons(StripTags(s[1..]), s, idx);
        StripTagsKeep(s);
        assert Embeds(StripTags(s), s, [0] + Shift(idx, 1));
    }
  }

  /** No position of `s` starts a tag: the pattern finds nothing to remove. */
  ghost predicate TagFree(s: string) {
    forall i :: 0 <= i < |s| ==> TagAt(s[i..]).None?
  }

  lemma TagFreeTail(s: string)
    requires s != [] && TagFree(s)
    ensures TagAt(s).None? && TagFree(s[1..])
  {
    assert s[0..] == s;
    forall i | 0 <= i < |s[1..]| ensures TagAt(s[1..][i..]).None? {
      assert s[1..][i..] == s[i + 1..];
    }
  }

  /** A character kept in front of the stripped rest never opens a tag there. */
  lemma KeptHeadNoTag(s: string)
    requires s != [] && TagAt(s).None?
    ensures TagAt([s[0]] + StripTags(s[1..])).None?
  {
    var rest := StripTags(s[1..]);
    var r := [s[0]] + rest;
    if s[0] == '<' && |rest| > 0 {
      assert r[1..] == rest;
      if s[1] == '>' {
        assert TagAt(s[1..]).None?;
        assert rest[0] == '>';
      } else {
        StripTagsChars(s[1..]);
        forall i | 0 <= i < |rest| ensures rest[i] != '>' {
          var j :| 0 <= j < |s[1..]| && s[1..][j] == rest[i];
          assert s[1 + j] == rest[i];
        }
      }
    }
  }

  /** Stripping leaves nothing that looks like a tag. */
  lemma {:induction false} StripTagsTagFree(s: string)
    ensures TagFree(StripTags(s))
    decreases |s|
  {
    if s != [] {
      match TagAt(s)
      case Some(n) =>
        StripTagsTagFree(s[n..]);
        StripTagsDrop(s, n);
      case None =>
        StripTagsTagFree(s[1..]);
        StripTagsKeep(s);
        KeptHeadNoTag(s);
        TagFreeCons(s[0], StripTags(s[1..]));
    }
  }

  /** A character in front of tag-free text that does not open a tag there keeps it
      tag-free. */
  lemma TagFreeCons(c: char, rest: string)
    requires TagFree(rest) && TagAt([c] + rest).None?
    ensures TagFree([c] + rest)
  {
    var r := [c] + rest;
    forall i | 0 <= i < |r| ensures TagAt(r[i..]).None? {
      if i == 0 { assert r[0..] == r; } else { assert r[i..] == rest[i - 1..]; }
    }
  }

  /** Text without tags passes through unchanged. */
  lemma {:induction false} StripTagsFixed(s: string)
    requires TagFree(s)
    ensures StripTags(s) == s
    decreases |s|
  {
    if s != [] {
      TagFreeTail(s);
      StripTagsFixed(s[1..]);
    }
  }

  lemma StripTagsIdempotent(s: string)
    ensures StripTags(StripTags(s)) == StripTags(s)
    ensures StripTags(s) == s <==> TagFree(s)
  {
    StripTagsTagFree(s);
    StripTagsFixed(StripTags(s));
    if TagFree(s) { StripTagsFixed(s); }
  }

  lemma NoAngleTagFree(s: string)
    requires '<' !in s
    ensures TagFree(s)
  {
    forall i | 0 <= i < |s| ensures TagAt(s[i..]).None? {
      assert s[i..][0] == s[i];
    }
  }

  // ---------- cues ----------

  /** One match of the cue pattern: the two timestamps and the raw text up to the
      blank line, the next timestamp line, or the end. */
  datatype Block = Block(start: Stamp, end: Stamp, text: string)

  /** A match from its captures: the two timestamp texts and the cue text. `None`
      when a timestamp lacks the shape the pattern requires, so that nothing matches. */
  function BlockOf(start: string, end: string, text: string): (r: Option<Block>)
    ensures r.Some? <==> StampShape(start) && StampShape(end)
    ensures r.Some? ==> r.value.text == text && ValidStamp(r.value.start) && ValidStamp(r.value.end)
    ensures r.Some? ==> FormatStamp(r.value.start) == start && FormatStamp(r.value.end) == end
  {
    match (ParseStamp(start), ParseStamp(end))
    case (Some(a), Some(z)) =>
      FormatParse(start);
      FormatParse(end);
      Some(Block(a, z, text))
    case _ => None
  }

  /** A block written out with zero-padded timestamps is read back as itself. */
  lemma BlockOfFormatted(b: Block)
    requires ValidStamp(b.start) && ValidStamp(b.end)
    ensures BlockOf(FormatStamp(b.start), FormatStamp(b.end), b.text) == Some(b)
  {
    ParseFormat(b.start);
    ParseFormat(b.end);
  }

  /** Tags stripped, whitespace collapsed, `duration = max(0, end - start)`. */
  function BlockItem(b: Block): Option<Item> {
    MakeItem(StripTags(b.text), Offset(b), Span(b))
  }

  /** The block's start in seconds. */
  function Offset(b: Block): real {
    Seconds(StampMillis(b.start))
  }

  /** `end - start` in seconds, before clamping. */
  function Span(b: Block): real {
    Seconds(StampMillis(b.end) - StampMillis(b.start))
  }

  /** `parseVTT(vtt)` over the pattern's matches, in document order. */
  function ParseVtt(blocks: seq<Block>): (r: seq<Item>)
    ensures |r| <= |blocks|
    ensures AllWellFormed(r)
  {
    var r := Seqs.FilterMap(blocks, BlockItem);
    assert AllWellFormed(r) by {
      forall k | 0 <= k < |r| ensures WellFormed(r[k]) {
        var i :| 0 <= i < |blocks| && BlockItem(blocks[i]) == Some(r[k]);
      }
    }
    r
  }

  /** When every block has text, the k-th item is the k-th block: it starts at the
      block's start and lasts until its end, never less than zero, and its text is
      free of tags. */
  lemma ParseVttKeepsAll(blocks: seq<Block>, k: nat)
    requires forall i :: 0 <= i < |blocks| ==> BlockItem(blocks[i]).Some?
    requires k < |blocks|
    ensures |ParseVtt(blocks)| == |blocks|
    ensures ParseVtt(blocks)[k].offset == Offset(blocks[k])
    ensures ParseVtt(blocks)[k].duration == Max0(Span(blocks[k]))
    ensures ParseVtt(blocks)[k].text == Normalize(StripTags(blocks[k].text))
  {
    var r := ParseVtt(blocks);
    assert |r| == |blocks| && Some(r[k]) == BlockItem(blocks[k]) by {
      Seqs.FilterMapTotal(blocks, BlockItem);
    }
  }

  /** A block whose text is only tags and whitespace yields nothing. */
  lemma BlankBlockDropped(b: Block)
    requires AllSpace(StripTags(b.text))
    ensures ParseVtt([b]) == []
  {
  }

  /** A tag at the front is dropped whole. */
  lemma StripLeadingTag(name: string, rest: string)
    requires name != [] && '>' !in name
    ensures StripTags("<" + name + ">" + rest) == StripTags(rest)
  {
    var s := "<" + name + ">" + rest;
    assert s[1..] == name + ">" + rest;
    assert s[1..][|name|] == '>';
    assert TagAt(s) == Some(|name| + 2);
    assert s[|name| + 2..] == rest;
  }

  /** Text before the first `<` is kept as it is. */
  lemma {:induction false} StripPlainPrefix(a: string, rest: string)
    requires '<' !in a
    ensures StripTags(a + rest) == a + StripTags(rest)
    decreases |a|
  {
    if a != [] {
      var s := a + rest;
      assert s[0] == a[0] && s[1..] == a[1..] + rest;
      StripTagsKeep(s);
      StripPlainPrefix(a[1..], rest);
      assert [a[0]] + (a[1..] + StripTags(rest)) == a + StripTags(rest);
    } else {
      assert a + rest == rest;
    }
  }

  /** A cue like `<c>word</c> more` loses its markup and keeps its words. */
  lemma StripWrapped(tag: string, body: string, tail: string)
    requires tag != [] && '>' !in tag && '<' !in body && '<' !in tail
    ensures StripTags("<" + tag + ">" + body + "</" + tag + ">" + tail) == body + tail
  {
    var rest := "<" + ("/" + tag) + ">" + tail;
    WrappedShape(tag, body, tail);
    ClosingTag(tag, tail);
    StripPlainPrefix(body, rest);
    StripLeadingTag(tag, body + rest);
  }

  lemma WrappedShape(tag: string, body: string, tail: string)
    ensures "<" + tag + ">" + body + "</" + tag + ">" + tail
         == "<" + tag + ">" + (body + ("<" + ("/" + tag) + ">" + tail))
  {
    assert "</" + tag == "<" + ("/" + tag);
  }

  /** A closing tag followed by plain text leaves the text. */
  lemma ClosingTag(tag: string, tail: string)
    requires tag != [] && '>' !in tag && '<' !in tail
    ensures StripTags("<" + ("/" + tag) + ">" + tail) == tail
  {
    NoAngleTagFree(tail);
    StripTagsFixed(tail);
    assert '>' !in "/" + tag;
    StripLeadingTag("/" + tag, tail);
  }

  /** A single block yields its item, or nothing. */
  lemma ParseVttOne(b: Block)
    ensures ParseVtt([b]) == if BlockItem(b).Some? then [BlockItem(b).value] else []
  {
    assert [b][1..] == [];
  }

  /** One block whose text is already clean yields exactly one item with that text,
      starting at the block's start and lasting until its end (or zero). */
  lemma CleanBlock(b: Block, text: string)
    requires StripTags(b.text) == text && text != [] && Canonical(text)
    ensures ParseVtt([b]) == [Item(text, Offset(b), Max0(Span(b)))]
  {
    CleanBlockItem(b, text);
    ParseVttSingle(b, Item(text, Offset(b), Max0(Span(b))));
  }

  lemma CleanBlockItem(b: Block, text: string)
    requires StripTags(b.text) == text && text != [] && Canonical(text)
    ensures BlockItem(b) == Some(Item(text, Offset(b), Max0(Span(b))))
  {
    BlockItemOf(b, text);
    MakeItemCanonical(text, Offset(b), Span(b));
  }

  lemma BlockItemOf(b: Block, text: string)
    requires StripTags(b.text) == text
    ensures BlockItem(b) == MakeItem(text, Offset(b), Span(b))
  {
  }

  lemma ParseVttSingle(b: Block, it: Item)
    requires BlockItem(b) == Some(it)
    ensures ParseVtt([b]) == [it]
  {
    ParseVttOne(b);
  }

  /** A cue from 1 s to 3.5 s over clean text without tags yields exactly that text
      at offset 1.0 with duration 2.5. */
  lemma OneToThreeAndAHalf(text: string)
    requires '<' !in text && text != [] && Canonical(text)
    ensures ParseVtt([Block(Stamp(0, 0, 1000), Stamp(0, 0, 3500), text)]) == [Item(text, 1.0, 2.5)]
  {
    NoAngleTagFree(text);
    StripTagsFixed(text);
    CleanBlock(Block(Stamp(0, 0, 1000), Stamp(0, 0, 3500), text), text);
    ExampleSeconds(text);
  }

  /** 1 s and 3.5 s, 2.5 s apart. */
  lemma ExampleSeconds(text: string)
    ensures Offset(Block(Stamp(0, 0, 1000), Stamp(0, 0, 3500), text)) == 1.0
    ensures Max0(Span(Block(Stamp(0, 0, 1000), Stamp(0, 0, 3500), text))) == 2.5
  {
    assert StampMillis(Stamp(0, 0, 1000)) == 1000 && StampMillis(Stamp(0, 0, 3500)) == 3500;
    assert Seconds(1000) == 1.0 && Seconds(2500) == 2.5;
  }

  /** `00:00:01.000 --> 00:00:03.500` over `Hello world`: one item at 1 s lasting
      2.5 s. */
  lemma HelloWorldCue()
    ensures ParseVtt([Block(Stamp(0, 0, 1000), Stamp(0, 0, 3500), "Hello world")]) == [Item("Hello world", 1.0, 2.5)]
  {
    HelloWorldCanonical();
    OneToThreeAndAHalf("Hello world");
  }

  lemma HelloWorldCanonical()
    ensures Canonical("Hello world")
  {
    WordCanonical("Hello");
    WordCanonical("world");
    CanonicalJoin("Hello", "world");
    assert "Hello" + " " + "world" == "Hello world";
  }

  /** The two timestamps of the example read as 1 s and 3.5 s. */
  lemma ExampleStamps()
    ensures ParseStamp("00:00:01.000") == Some(Stamp(0, 0, 1000))
    ensures ParseStamp("00:00:03.500") == Some(Stamp(0, 0, 3500))
  {
  }
}
