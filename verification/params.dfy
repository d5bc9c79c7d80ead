/** `makeParamsFromTrack`: the opaque `params` token of the transcript RPC, synthesised
    when the chosen track carries none. The token is a two-field Protocol Buffers
    message (field 1 the track's vssId, field 2 its language, both wire type 2, each
    length a base-128 varint), encoded as unpadded URL-safe base64. */
module Params {
  import opened Wrappers
  import opened Bytes
  import opened Urls
  import opened Tracks
  import Varint
  import Base64

  /** Field 1, wire type 2 (length-delimited): `(1 << 3) | 2`. */
  const VssIdTag: byte := 0x0A
  /** Field 2, wire type 2 (length-delimited): `(2 << 3) | 2`. */
  const LangTag: byte := 0x12

  /** `field(tag, bytes)`: the tag, the varint of `bytes.length >>> 0`, the bytes. */
  function Field(tag: byte, bs: seq<byte>): seq<byte> {
    [tag] + Varint.Encode(|bs| % Varint.Uint32Modulus) + bs
  }

  function Payload(v: seq<byte>, l: seq<byte>): seq<byte> {
    Field(VssIdTag, v) + Field(LangTag, l)
  }

  /** Reads one length-delimited field with tag `tag` from the front of `p`:
      its contents and what follows. */
  function ReadField(tag: byte, p: seq<byte>): Option<(seq<byte>, seq<byte>)> {
    if p == [] || p[0] != tag then None
    else
      match Varint.Decode(p[1..])
      case None => None
      case Some((n, k)) =>
        if 1 + k + n <= |p| then Some((p[1 + k..1 + k + n], p[1 + k + n..])) else None
  }

  /** Reads a payload back: field 1, then field 2, then nothing. */
  function DecodePayload(p: seq<byte>): Option<(seq<byte>, seq<byte>)> {
    match ReadField(VssIdTag, p)
    case None => None
    case Some((v, rest)) =>
      match ReadField(LangTag, rest)
      case None => None
      case Some((l, tail)) => if tail == [] then Some((v, l)) else None
  }

  lemma ReadFieldOfField(tag: byte, bs: seq<byte>, rest: seq<byte>)
    requires |bs| < Varint.Uint32Modulus
    ensures ReadField(tag, Field(tag, bs) + rest) == Some((bs, rest))
  {
    var n := |bs|;
    assert n % Varint.Uint32Modulus == n;
    var e := Varint.Encode(n);
    var p := Field(tag, bs) + rest;
    assert p == [tag] + (e + (bs + rest));
    assert p[1..] == e + (bs + rest);
    Varint.DecodeEncode(n, bs + rest);
    assert p[1 + |e|..1 + |e| + n] == bs;
    assert p[1 + |e| + n..] == rest;
  }

  /** The two fields decode back to exactly the bytes that went in. */
  lemma PayloadRoundTrip(v: seq<byte>, l: seq<byte>)
    requires |v| < Varint.Uint32Modulus && |l| < Varint.Uint32Modulus
    ensures DecodePayload(Payload(v, l)) == Some((v, l))
  {
    ReadFieldOfField(VssIdTag, v, Field(LangTag, l));
    ReadFieldOfField(LangTag, l, []);
    assert Field(LangTag, l) + [] == Field(LangTag, l);
  }

  /** `track?.vssId || base.searchParams.get("vssId") || base.searchParams.get("vssids")`,
      with the empty string standing for `null`. */
  function VssIdOf(t: Track, base: Url): (r: string)
    ensures t.vssId != "" ==> r == t.vssId
    ensures t.vssId == "" && Get(base.query, "vssId").Some? && Get(base.query, "vssId").value != ""
            ==> r == Get(base.query, "vssId").value
    ensures t.vssId == "" && Get(base.query, "vssId").GetOr("") == ""
            ==> r == Get(base.query, "vssids").GetOr("")
    ensures r != "" ==> r == t.vssId || Some(r) == Get(base.query, "vssId") || Some(r) == Get(base.query, "vssids")
  {
    if t.vssId != "" then t.vssId
    else
      var fromQuery := Get(base.query, "vssId").GetOr("");
      if fromQuery != "" then fromQuery else Get(base.query, "vssids").GetOr("")
  }

  /** `track?.languageCode || "en"`. */
  function LangOf(t: Track): (r: string)
    ensures r != ""
    ensures t.languageCode != "" ==> r == t.languageCode
    ensures t.languageCode == "" ==> r == "en"
  {
    if t.languageCode != "" then t.languageCode else "en"
  }

  /** `makeParamsFromTrack(track)`. `null` when the base URL does not parse (even if
      the track has a vssId) or when no vssId is found; otherwise a URL-safe token. */
  function MakeParams(t: Track): (r: Option<string>)
    ensures t.baseUrl.None? ==> r.None?
    ensures t.baseUrl.Some? ==> (r.None? <==> VssIdOf(t, t.baseUrl.value) == "")
    ensures r.Some? ==> r.value != [] && forall i :: 0 <= i < |r.value| ==> Base64.IsUrlSafeChar(r.value[i])
  {
    match t.baseUrl
    case None => None
    case Some(base) =>
      var vss := VssIdOf(t, base);
      if vss == "" then None
      else
        var payload := Payload(Encode(vss), Encode(LangOf(t)));
        Base64.TokenAlphabet(payload);
        Base64.TokenLength(payload);
        Some(Base64.Token(payload))
  }

  /** The server's token carries the track's vssId and language: restoring and
      decoding it, then reading both fields as UTF-8, gives them back. */
  lemma MakeParamsRoundTrip(t: Track)
    requires MakeParams(t).Some?
    requires |Encode(VssIdOf(t, t.baseUrl.value))| < Varint.Uint32Modulus
    requires |Encode(LangOf(t))| < Varint.Uint32Modulus
    ensures var vss, lang := VssIdOf(t, t.baseUrl.value), LangOf(t);
      && Base64.Decode(Base64.Restore(MakeParams(t).value)) == Some(Payload(Encode(vss), Encode(lang)))
      && DecodePayload(Payload(Encode(vss), Encode(lang))) == Some((Encode(vss), Encode(lang)))
      && Bytes.Decode(Encode(vss)) == Some(vss)
      && Bytes.Decode(Encode(lang)) == Some(lang)
  {
    var vss, lang := VssIdOf(t, t.baseUrl.value), LangOf(t);
    Base64.TokenRoundTrip(Payload(Encode(vss), Encode(lang)));
    PayloadRoundTrip(Encode(vss), Encode(lang));
    DecodeEncode(vss);
    DecodeEncode(lang);
  }
}
