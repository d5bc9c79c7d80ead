/** The base-128 varint that prefixes each length-delimited field of the synthesised
    parameter: seven bits per byte, least significant group first, bit 7 set on
    every byte but the last. */
module Varint {
  import opened Wrappers
  import opened Bytes

  /** `n >>> 0` reduces a length to an unsigned 32-bit value before encoding. */
  const Uint32Modulus: nat := 0x1_0000_0000

  /** The varint of `x`, seven bits per byte, least significant group first. */
  function Encode(x: nat): (r: seq<byte>)
    ensures 1 <= |r|
    decreases x
  {
    if x <= 127 then [x] else [x % 128 + 128] + Encode(x / 128)
  }

  /** Every byte but the last has bit 7 set; the last is below 128. */
  lemma {:induction false} EncodeShape(x: nat)
    ensures Encode(x)[|Encode(x)| - 1] < 128
    ensures forall i :: 0 <= i < |Encode(x)| - 1 ==> Encode(x)[i] >= 128
    decreases x
  {
    if x > 127 {
      EncodeShape(x / 128);
      var r := Encode(x);
      assert r == [x % 128 + 128] + Encode(x / 128);
      forall i | 0 <= i < |r| - 1 ensures r[i] >= 128 {
        if i > 0 { assert r[i] == Encode(x / 128)[i - 1]; }
      }
    }
  }

  /** The JavaScript `varint` helper: the `while (x > 127)` loop over `n >>> 0`. */
  method EncodeLength(n: nat) returns (out: seq<byte>)
    ensures out == Encode(n % Uint32Modulus)
    ensures n < Uint32Modulus ==> Decode(out) == Some((n, |out|))
  {
    var x: nat := n % Uint32Modulus;
    ghost var target := Encode(x);
    out := [];
    while x > 127
      invariant out + Encode(x) == target
      decreases x
    {
      var b: byte := x % 128 + 128;
      assert Encode(x) == [b] + Encode(x / 128);
      out := out + [b];
      x := x / 128;
    }
    out := out + [x];
    if n < Uint32Modulus {
      LengthFits(n);
      DecodeEncode(n, []);
      assert target + [] == target;
    }
  }

  lemma LengthFits(n: nat)
    requires n < Uint32Modulus
    ensures n % Uint32Modulus == n
  {
  }

  /** Reads one varint from the front of `bs`: its value and its length in bytes. */
  function Decode(bs: seq<byte>): (r: Option<(nat, nat)>)
    ensures r.Some? ==> 1 <= r.value.1 <= |bs|
    decreases |bs|
  {
    if bs == [] then None
    else if bs[0] < 128 then Some((bs[0], 1))
    else
      match Decode(bs[1..])
      case None => None
      case Some((v, k)) => Some((bs[0] - 128 + 128 * v, k + 1))
  }

  /** Decoding an encoded varint, whatever follows it, recovers the value and stops
      exactly at its last byte. */
  lemma {:induction false} DecodeEncode(x: nat, rest: seq<byte>)
    ensures Decode(Encode(x) + rest) == Some((x, |Encode(x)|))
    decreases x
  {
    if x > 127 {
      var e := Encode(x);
      assert e == [x % 128 + 128] + Encode(x / 128);
      assert (e + rest)[1..] == Encode(x / 128) + rest;
      DecodeEncode(x / 128, rest);
    }
  }
}
