/**
 * Octets and the little-endian unsigned integers that Node's Buffer reads
 * with readUInt8, readUInt16LE and readUInt32LE.
 */
module Bytes {

  /** One octet of a Buffer. */
  type Byte = x: int | 0 <= x < 256

  /** 256 to the power n: one past the largest value n bytes can hold. */
  function Pow256(n: nat): (p: nat)
    ensures p >= 1
  {
    if n == 0 then 1 else 256 * Pow256(n - 1)
  }

  /** One past the largest unsigned 32-bit value. */
  const U32Limit: nat := 0x1_0000_0000

  lemma Pow256Small()
    ensures Pow256(2) == 0x1_0000 && Pow256(4) == U32Limit
  {
  }

  /** The unsigned value of `s` read least significant byte first. */
  function FromLE(s: seq<Byte>): (v: nat)
    ensures v < Pow256(|s|)
  {
    if s == [] then 0 else s[0] + 256 * FromLE(s[1..])
  }

  /** The n-byte little-endian form of v, keeping v modulo 256^n. */
  function ToLE(v: nat, n: nat): (s: seq<Byte>)
    ensures |s| == n
  {
    if n == 0 then [] else [v % 256] + ToLE(v / 256, n - 1)
  }

  /** Writing a value that fits and reading it back gives the value. */
  lemma {:induction false} FromToLE(v: nat, n: nat)
    requires v < Pow256(n)
    ensures FromLE(ToLE(v, n)) == v
  {
    if n > 0 {
      FromToLE(v / 256, n - 1);
      assert ToLE(v, n)[1..] == ToLE(v / 256, n - 1);
    }
  }

  /** Reading bytes and writing the value back at the same width gives the bytes. */
  lemma {:induction false} ToFromLE(s: seq<Byte>)
    ensures ToLE(FromLE(s), |s|) == s
  {
    if s != [] {
      ToFromLE(s[1..]);
      var v := FromLE(s);
      assert v % 256 == s[0] && v / 256 == FromLE(s[1..]);
    }
  }

  /** The parity of a little-endian value is the parity of its first byte: bit 0 lives there. */
  lemma LowBitInFirstByte(s: seq<Byte>)
    requires s != []
    ensures FromLE(s) % 2 == s[0] % 2
  {
  }

  /** The little-endian u16 at offset `off`, as readUInt16LE(off) returns it. */
  function U16At(msg: seq<Byte>, off: nat): (v: nat)
    requires off + 2 <= |msg|
    ensures v < 0x1_0000
  {
    Pow256Small();
    FromLE(msg[off..off + 2])
  }

  /** The little-endian u32 at offset `off`, as readUInt32LE(off) returns it. */
  function U32At(msg: seq<Byte>, off: nat): (v: nat)
    requires off + 4 <= |msg|
    ensures v < U32Limit
  {
    Pow256Small();
    FromLE(msg[off..off + 4])
  }

  /** The 4-byte little-endian forms of `ws`, one after another. */
  function LE32s(ws: seq<nat>): (s: seq<Byte>)
    ensures |s| == 4 * |ws|
  {
    if ws == [] then [] else ToLE(ws[0], 4) + LE32s(ws[1..])
  }

  /** Word i of a run of little-endian words starts at byte 4 * i. */
  lemma {:induction false} LE32sAt(ws: seq<nat>, i: nat)
    requires i < |ws|
    ensures LE32s(ws)[4 * i..4 * i + 4] == ToLE(ws[i], 4)
  {
    if i > 0 {
      LE32sAt(ws[1..], i - 1);
      assert LE32s(ws)[4 * i..4 * i + 4] == LE32s(ws[1..])[4 * (i - 1)..4 * (i - 1) + 4];
    }
  }

  /**
   * Words read one after another from offset `base` of `msg`, written back as
   * a run of little-endian words, reproduce the bytes they were read from.
   */
  lemma {:induction false} LE32sOfRead(msg: seq<Byte>, ws: seq<nat>, base: nat)
    requires base + 4 * |ws| <= |msg|
    requires forall i :: 0 <= i < |ws| ==> ws[i] == U32At(msg, base + 4 * i)
    ensures LE32s(ws) == msg[base..base + 4 * |ws|]
  {
    if ws != [] {
      var rest := ws[1..];
      forall i | 0 <= i < |rest|
        ensures rest[i] == U32At(msg, base + 4 + 4 * i)
      {
        assert rest[i] == ws[i + 1] && base + 4 * (i + 1) == base + 4 + 4 * i;
      }
      LE32sOfRead(msg, rest, base + 4);
      var w := msg[base..base + 4];
      assert ws[0] == FromLE(w);
      ToFromLE(w);
      assert LE32s(ws) == w + LE32s(rest);
      assert msg[base..base + 4 * |ws|] == w + msg[base + 4..base + 4 * |ws|];
    }
  }

  /** Runs of 32-bit words with the same bytes are the same words. */
  lemma {:induction false} LE32sInjective(a: seq<nat>, b: seq<nat>)
    requires |a| == |b| && LE32s(a) == LE32s(b)
    requires forall k :: 0 <= k < |a| ==> a[k] < U32Limit && b[k] < U32Limit
    ensures a == b
  {
    if a != [] {
      assert ToLE(a[0], 4) == LE32s(a)[..4] == LE32s(b)[..4] == ToLE(b[0], 4);
      assert LE32s(a[1..]) == LE32s(a)[4..] == LE32s(b)[4..] == LE32s(b[1..]);
      Pow256Small();
      FromToLE(a[0], 4);
      FromToLE(b[0], 4);
      LE32sInjective(a[1..], b[1..]);
      assert a == [a[0]] + a[1..] && b == [b[0]] + b[1..];
    }
  }

  /** Reading the u32 at |head| + 4 * i of `head + LE32s(ws) + tail` gives back ws[i]. */
  lemma WordAt(head: seq<Byte>, ws: seq<nat>, tail: seq<Byte>, i: nat)
    requires i < |ws| && ws[i] < U32Limit
    ensures |head| + 4 * i + 4 <= |head + LE32s(ws) + tail|
    ensures U32At(head + LE32s(ws) + tail, |head| + 4 * i) == ws[i]
  {
    var msg := head + LE32s(ws) + tail;
    var off := |head| + 4 * i;
    var w := ToLE(ws[i], 4);
    LE32sAt(ws, i);
    assert msg[off..off + 4] == w;
    Pow256Small();
    FromToLE(ws[i], 4);
    assert U32At(msg, off) == FromLE(w);
  }
}
