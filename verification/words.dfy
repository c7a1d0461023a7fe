/**
 * 32-bit integers as the WebAssembly module and Kotlin/JS see them: Kotlin `Int`
 * arithmetic wraps modulo 2^32, and the module's linear memory stores an `Int`
 * as four little-endian bytes in two's complement.
 */
module Int32Words {

  const TWO_32: int := 0x1_0000_0000
  const INT32_MIN: int := -0x8000_0000
  const INT32_MAX: int := 0x7fff_ffff

  type byte = x: int | 0 <= x < 256
  type i32 = x: int | -0x8000_0000 <= x <= 0x7fff_ffff

  predicate IsInt32(x: int) {
    INT32_MIN <= x <= INT32_MAX
  }

  /** The value a Kotlin `Int` expression yields when the exact result is `x`. */
  function Wrap32(x: int): (r: i32)
    ensures (x - r) % TWO_32 == 0
    ensures IsInt32(x) ==> r == x
  {
    var u := x % TWO_32;
    if u <= INT32_MAX then u else u - TWO_32
  }

  /** Four bytes, least significant first, of the two's complement form of `v`. */
  function EncodeWord(v: i32): (b: seq<byte>)
    ensures |b| == 4
  {
    var u0 := if v < 0 then v + TWO_32 else v;
    var u1 := u0 / 256;
    var u2 := u1 / 256;
    [u0 % 256, u1 % 256, u2 % 256, u2 / 256]
  }

  /** The `Int` stored little-endian in four bytes. */
  function DecodeWord(b: seq<byte>): i32
    requires |b| == 4
  {
    var u: int := b[0] as int + 256 * (b[1] as int + 256 * (b[2] as int + 256 * b[3] as int));
    if u <= INT32_MAX then u else u - TWO_32
  }

  lemma DecodeEncodeWord(v: i32)
    ensures DecodeWord(EncodeWord(v)) == v
  {
    var u0 := if v < 0 then v + TWO_32 else v;
    var u1 := u0 / 256;
    var u2 := u1 / 256;
    assert u0 == u0 % 256 + 256 * u1;
    assert u1 == u1 % 256 + 256 * u2;
    assert u2 == u2 % 256 + 256 * (u2 / 256);
    assert u0 == u0 % 256 + 256 * (u1 % 256 + 256 * (u2 % 256 + 256 * (u2 / 256)));
  }

  /** The bytes `allocInts` writes for a sequence of `Int`s: one word after the other. */
  function EncodeWords(vs: seq<i32>): (b: seq<byte>)
    ensures |b| == 4 * |vs|
  {
    if vs == [] then [] else EncodeWord(vs[0]) + EncodeWords(vs[1..])
  }

  /** The `Int`s `readInts` returns for a run of whole words. */
  function DecodeWords(b: seq<byte>): (vs: seq<i32>)
    requires |b| % 4 == 0
    ensures |vs| == |b| / 4
    ensures forall i :: 0 <= i < |vs| ==> vs[i] == DecodeWord(b[4 * i .. 4 * i + 4])
  {
    if b == [] then []
    else
      var rest := DecodeWords(b[4..]);
      forall i | 0 <= i < |rest|
        ensures b[4..][4 * i .. 4 * i + 4] == b[4 * (i + 1) .. 4 * (i + 1) + 4]
      {
        assert 4 * (i + 1) == 4 + 4 * i;
      }
      [DecodeWord(b[..4])] + rest
  }

  /** Word `i` of an encoding is the encoding of element `i`. */
  lemma {:induction false} EncodeWordsAt(vs: seq<i32>, i: nat)
    requires i < |vs|
    ensures EncodeWords(vs)[4 * i .. 4 * i + 4] == EncodeWord(vs[i])
  {
    if i > 0 {
      EncodeWordsAt(vs[1..], i - 1);
      assert EncodeWords(vs)[4 * i .. 4 * i + 4] == EncodeWords(vs[1..])[4 * (i - 1) .. 4 * (i - 1) + 4];
    }
  }

  /** Reading back what was written gives the written values (readInts after allocInts). */
  lemma {:induction false} DecodeEncodeWords(vs: seq<i32>)
    ensures DecodeWords(EncodeWords(vs)) == vs
  {
    var r := DecodeWords(EncodeWords(vs));
    forall i | 0 <= i < |vs|
      ensures r[i] == vs[i]
    {
      EncodeWordsAt(vs, i);
      DecodeEncodeWord(vs[i]);
    }
  }

  /** The first `k` words of an encoding encode the first `k` values. */
  lemma {:induction false} EncodeWordsPrefix(vs: seq<i32>, k: nat)
    requires k <= |vs|
    ensures EncodeWords(vs)[..4 * k] == EncodeWords(vs[..k])
  {
    if k > 0 {
      EncodeWordsPrefix(vs[1..], k - 1);
      assert vs[..k] == [vs[0]] + vs[1..][..k - 1];
      assert vs[..k][1..] == vs[1..][..k - 1];
    }
  }

  /** Reading back the first `k` words of an encoding gives the first `k` values. */
  lemma {:induction false} DecodeEncodedPrefix(vs: seq<i32>, k: nat)
    requires k <= |vs|
    ensures DecodeWords(EncodeWords(vs)[..4 * k]) == vs[..k]
  {
    EncodeWordsPrefix(vs, k);
    DecodeEncodeWords(vs[..k]);
  }
}
