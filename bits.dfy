/**
 * Bit strings as the codec builds and reads them: `format(n, '0Nb')` turns a
 * number into a most-significant-bit-first numeral, `int(s, 2)` reads one back,
 * and a byte string becomes the concatenation of its 8-bit groups.
 * A bit string is a sequence of 0/1 integers rather than a string of '0'/'1'
 * characters.
 */
module Bits {

  type Bit = b: int | 0 <= b < 2
  type Byte = b: int | 0 <= b < 256

  datatype Option<T> = None | Some(value: T)

  function Min(a: int, b: int): int { if a <= b then a else b }
  function Max(a: int, b: int): int { if a >= b then a else b }

  lemma SliceOfSlice<T>(s: seq<T>, a: nat, b: nat, i: nat, j: nat)
    requires a <= b <= |s| && i <= j <= b - a
    ensures s[a..b][i..j] == s[a + i..a + j]
  {
    forall k | 0 <= k < j - i
      ensures s[a..b][i..j][k] == s[a + i..a + j][k]
    {
      assert s[a..b][i..j][k] == s[a..b][i + k];
    }
  }

  lemma SliceOfSuffix<T>(s: seq<T>, a: nat, i: nat, j: nat)
    requires a <= |s| && i <= j <= |s| - a
    ensures s[a..][i..j] == s[a + i..a + j]
  {
    forall k | 0 <= k < j - i
      ensures s[a..][i..j][k] == s[a + i..a + j][k]
    {
      assert s[a..][i..j][k] == s[a..][i + k];
    }
  }

  function Pow2(n: nat): (r: nat)
    ensures r >= 1
  {
    if n == 0 then 1 else 2 * Pow2(n - 1)
  }

  lemma Pow2Values()
    ensures Pow2(8) == 256 && Pow2(32) == 0x1_0000_0000
  {
    assert Pow2(8) == 256;
    assert Pow2(16) == 0x1_0000;
    assert Pow2(24) == 0x100_0000;
  }

  /** The unsigned number a bit string denotes, most significant bit first (`int(s, 2)`). */
  function Value(s: seq<Bit>): (r: nat)
    ensures r < Pow2(|s|)
  {
    if s == [] then 0 else 2 * Value(s[..|s| - 1]) + s[|s| - 1]
  }

  /** Eight bits hold a byte. */
  lemma ByteValue(s: seq<Bit>)
    requires |s| == 8
    ensures Value(s) < 256
  {
    assert Pow2(8) == 256;
  }

  function Zeros(k: nat): seq<Bit>
  {
    seq(k, _ => 0)
  }

  lemma {:induction false} ValueOfZeros(k: nat)
    ensures Value(Zeros(k)) == 0
  {
    if k > 0 {
      assert Zeros(k)[..k - 1] == Zeros(k - 1);
      ValueOfZeros(k - 1);
    }
  }

  /** Leading zeros do not change the number a bit string denotes. */
  lemma {:induction false} ValueIgnoresLeadingZeros(k: nat, s: seq<Bit>)
    ensures Value(Zeros(k) + s) == Value(s)
  {
    if s == [] {
      assert Zeros(k) + s == Zeros(k);
      ValueOfZeros(k);
    } else {
      var z := Zeros(k) + s;
      assert z[..|z| - 1] == Zeros(k) + s[..|s| - 1];
      ValueIgnoresLeadingZeros(k, s[..|s| - 1]);
    }
  }

  /** The shortest binary numeral of n (`bin(n)` without its prefix): no leading zero unless n is 0. */
  function Binary(n: nat): (r: seq<Bit>)
    ensures 1 <= |r| && Value(r) == n
    ensures n >= 1 ==> r[0] == 1
  {
    if n < 2 then [n] else
      var hi := Binary(n / 2);
      assert (hi + [n % 2])[..|hi|] == hi;
      hi + [n % 2]
  }

  /** A number below 2^w has a numeral of at most w digits. */
  lemma {:induction false} BinaryFits(n: nat, w: nat)
    requires w >= 1 && n < Pow2(w)
    ensures |Binary(n)| <= w
  {
    if n >= 2 {
      assert w >= 2;
      BinaryFits(n / 2, w - 1);
    }
  }

  /**
   * `format(n, '0{width}b')`: the numeral of n left-padded with zeros to
   * width digits; a number that needs more digits keeps all of them.
   */
  function Format(n: nat, width: nat): (r: seq<Bit>)
    ensures Value(r) == n
    ensures |r| >= width
    ensures width >= 1 ==> (|r| == width <==> n < Pow2(width))
    ensures n >= Pow2(width) ==> r[0] == 1
  {
    var b := Binary(n);
    if |b| < width then
      ValueIgnoresLeadingZeros(width - |b|, b);
      Zeros(width - |b|) + b
    else
      if width >= 1 && n < Pow2(width) then BinaryFits(n, width); b else b
  }

  /** Every byte below 256 takes exactly eight digits. */
  lemma ByteFormat(v: Byte)
    ensures |Format(v, 8)| == 8 && Value(Format(v, 8)) == v
  {
    Pow2Values();
  }

  /** The 8-bit, most-significant-bit-first groups of a byte string, concatenated. */
  function Octets(vals: seq<Byte>): (r: seq<Bit>)
    ensures |r| == 8 * |vals|
  {
    if vals == [] then [] else
      ByteFormat(vals[0]);
      Format(vals[0], 8) + Octets(vals[1..])
  }

  /** Group i of Octets(vals) reads back as vals[i]. */
  lemma {:induction false} OctetsGroup(vals: seq<Byte>, i: nat)
    requires i < |vals|
    ensures Value(Octets(vals)[8 * i..8 * i + 8]) == vals[i]
  {
    ByteFormat(vals[0]);
    var head := Format(vals[0], 8);
    if i == 0 {
      assert Octets(vals)[0..8] == head;
    } else {
      assert Octets(vals)[8 * i..8 * i + 8] == Octets(vals[1..])[8 * (i - 1)..8 * (i - 1) + 8];
      OctetsGroup(vals[1..], i - 1);
    }
  }

  /** Appending one byte appends its eight bits. */
  lemma {:induction false} OctetsAppend(vals: seq<Byte>, v: Byte)
    ensures Octets(vals + [v]) == Octets(vals) + Format(v, 8)
  {
    if vals == [] {
      assert vals + [v] == [v];
    } else {
      assert (vals + [v])[1..] == vals[1..] + [v];
      OctetsAppend(vals[1..], v);
    }
  }

  predicate IsLatin1(text: string)
  {
    forall i :: 0 <= i < |text| ==> text[i] as int < 256
  }

  predicate IsAscii(text: string)
  {
    forall i :: 0 <= i < |text| ==> text[i] as int < 128
  }

  /** The code points of a Latin-1 string, one byte each. */
  function Codes(text: string): (r: seq<Byte>)
    requires IsLatin1(text)
    ensures |r| == |text| && forall i :: 0 <= i < |text| ==> r[i] == text[i] as int
  {
    seq(|text|, i requires 0 <= i < |text| => text[i] as int)
  }
}
