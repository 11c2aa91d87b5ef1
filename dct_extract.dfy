/**
 * The cosine-path decoder's framing: a bit cursor over the recovered stream
 * reads a 32-bit header, then up to `header div 8` bytes, stopping early rather
 * than failing when fewer than eight bits remain. Also the selection of the
 * stego files to decode.
 */
module DctExtract {
  import opened Bits

  const HEADER_BITS: nat := 32

  /** The recovered bit stream with its read position (`recovered_data.pos`). */
  class BitCursor {
    const data: seq<Bit>
    var pos: nat

    ghost predicate Valid()
      reads this
    {
      pos <= |data|
    }

    constructor (data: seq<Bit>)
      ensures Valid() && this.data == data && pos == 0
    {
      this.data := data;
      pos := 0;
    }

    /** Bits not yet read (`len - pos`). */
    function Remaining(): (r: nat)
      requires Valid()
      reads this
      ensures pos + r == |data|
    {
      |data| - pos
    }

    /** `read('uint:n')`: the next n bits as an unsigned number, or None (a read error) past the end. */
    method Read(n: nat) returns (r: Option<nat>)
      requires Valid()
      modifies this
      ensures Valid()
      ensures old(pos) + n <= |data| ==> r == Some(Value(data[old(pos)..old(pos) + n])) && pos == old(pos) + n
      ensures old(pos) + n > |data| ==> r == None && pos == old(pos)
    {
      if pos + n > |data| {
        return None;
      }
      r := Some(Value(data[pos..pos + n]));
      pos := pos + n;
    }
  }

  /** Up to count bytes from the front of bits, stopping when fewer than eight bits remain. */
  function ReadBytes(bits: seq<Bit>, count: nat): (r: seq<Byte>)
    ensures |r| == Min(count, |bits| / 8)
    ensures forall i :: 0 <= i < |r| ==> r[i] == Value(bits[8 * i..8 * i + 8])
  {
    if count == 0 || |bits| < 8 then [] else
      Pow2Values();
      var tail := ReadBytes(bits[8..], count - 1);
      assert forall i :: 1 <= i < |tail| + 1 ==> bits[8 * i..8 * i + 8] == bits[8..][8 * (i - 1)..8 * (i - 1) + 8] by {
        forall i | 1 <= i < |tail| + 1
          ensures bits[8 * i..8 * i + 8] == bits[8..][8 * (i - 1)..8 * (i - 1) + 8]
        {
          SliceOfSlice(bits, 8, |bits|, 8 * (i - 1), 8 * (i - 1) + 8);
        }
      }
      [Value(bits[..8])] + tail
  }

  /**
   * What the decoder yields for a recovered stream: None (the
   * "[EXTRACTION ERROR: ...]" placeholder) when the header cannot be read,
   * otherwise min(header div 8, (|bits| - 32) div 8) bytes, byte i being bits
   * 32 + 8i through 32 + 8i + 7.
   */
  function LenientPayload(bits: seq<Bit>): (r: Option<seq<Byte>>)
    ensures r.None? <==> |bits| < HEADER_BITS
    ensures r.Some? ==> |r.value| == Min(Value(bits[..HEADER_BITS]) / 8, (|bits| - HEADER_BITS) / 8)
    ensures r.Some? ==> forall i :: 0 <= i < |r.value| ==>
      r.value[i] == Value(bits[HEADER_BITS + 8 * i..HEADER_BITS + 8 * i + 8])
  {
    if |bits| < HEADER_BITS then None else
      var payload := ReadBytes(bits[HEADER_BITS..], Value(bits[..HEADER_BITS]) / 8);
      assert forall i :: 0 <= i < |payload| ==>
        bits[HEADER_BITS..][8 * i..8 * i + 8] == bits[HEADER_BITS + 8 * i..HEADER_BITS + 8 * i + 8] by {
        forall i | 0 <= i < |payload|
          ensures bits[HEADER_BITS..][8 * i..8 * i + 8] == bits[HEADER_BITS + 8 * i..HEADER_BITS + 8 * i + 8]
        {
          SliceOfSlice(bits, HEADER_BITS, |bits|, 8 * i, 8 * i + 8);
        }
      }
      Some(payload)
  }

  /** Reading one more byte, while eight bits remain for it, appends that byte. */
  lemma ReadBytesExtend(bits: seq<Bit>, k: nat)
    requires 8 * (k + 1) <= |bits|
    ensures ReadBytes(bits, k + 1) == ReadBytes(bits, k) + [Value(bits[8 * k..8 * k + 8])]
  {
    var a, b := ReadBytes(bits, k + 1), ReadBytes(bits, k) + [Value(bits[8 * k..8 * k + 8])];
    assert |a| == |b|;
    forall i | 0 <= i < |a| ensures a[i] == b[i] {
      if i < k {
        assert b[i] == ReadBytes(bits, k)[i];
      }
    }
  }

  /** Asking for more bytes than the bits hold reads every whole byte there is. */
  lemma ReadBytesSaturates(bits: seq<Bit>, count: nat)
    requires count >= |bits| / 8
    ensures ReadBytes(bits, count) == ReadBytes(bits, |bits| / 8)
  {
    var a, b := ReadBytes(bits, count), ReadBytes(bits, |bits| / 8);
    assert |a| == |b|;
    forall i | 0 <= i < |a| ensures a[i] == b[i] {
    }
  }

  /**
   * The byte loop of the extraction script: up to count times, read eight
   * bits as a byte while at least eight remain, and stop at the first time
   * they do not.
   */
  method ReadPayload(cursor: BitCursor, count: nat) returns (extracted: seq<Byte>)
    requires cursor.Valid()
    modifies cursor
    ensures cursor.Valid()
    ensures extracted == ReadBytes(cursor.data[old(cursor.pos)..], count)
    ensures cursor.pos == old(cursor.pos) + 8 * |extracted|
  {
    ghost var bits := cursor.data[cursor.pos..];
    ghost var start := cursor.pos;
    extracted := [];
    for k := 0 to count
      invariant cursor.Valid()
      invariant cursor.pos == start + 8 * k && 8 * k <= |bits|
      invariant extracted == ReadBytes(bits, k)
    {
      if cursor.Remaining() >= 8 {
        var b := cursor.Read(8);
        SliceOfSuffix(cursor.data, start, 8 * k, 8 * k + 8);
        ByteValue(bits[8 * k..8 * k + 8]);
        ReadBytesExtend(bits, k);
        extracted := extracted + [b.value];
      } else {
        ReadBytesSaturates(bits, count);
        ReadBytesSaturates(bits, k);
        break;
      }
    }
  }

  /** The header/payload read of the extraction script. */
  method ExtractPayload(recovered: seq<Bit>) returns (r: Option<seq<Byte>>)
    ensures r == LenientPayload(recovered)
  {
    var cursor := new BitCursor(recovered);
    var header := cursor.Read(HEADER_BITS);
    if header.None? {
      return None;
    }
    assert recovered[0..HEADER_BITS] == recovered[..HEADER_BITS];
    var extracted := ReadPayload(cursor, header.value / 8);
    r := Some(extracted);
  }

  /** Reading |vals| bytes from the octets of vals gives vals, whatever follows them. */
  lemma {:induction false} ReadBytesOfOctets(vals: seq<Byte>, rest: seq<Bit>)
    ensures ReadBytes(Octets(vals) + rest, |vals|) == vals
  {
    var tail := Octets(vals) + rest;
    var r := ReadBytes(tail, |vals|);
    forall i | 0 <= i < |vals| ensures r[i] == vals[i] {
      OctetsGroup(vals, i);
      assert tail[8 * i..8 * i + 8] == Octets(vals)[8 * i..8 * i + 8];
    }
  }

  /** A stream framed as header (bit length of the bytes) plus the bytes' octets reads back as those bytes. */
  lemma LenientReadsFrame(vals: seq<Byte>, rest: seq<Bit>)
    requires 8 * |vals| < Pow2(HEADER_BITS)
    ensures LenientPayload(Format(8 * |vals|, HEADER_BITS) + (Octets(vals) + rest)) == Some(vals)
  {
    var header := Format(8 * |vals|, HEADER_BITS);
    var tail := Octets(vals) + rest;
    var bits := header + tail;
    assert |header| == HEADER_BITS && Value(header) / 8 == |vals|;
    assert bits[..HEADER_BITS] == header && bits[HEADER_BITS..] == tail;
    assert LenientPayload(bits) == Some(ReadBytes(tail, |vals|));
    ReadBytesOfOctets(vals, rest);
  }

  /** `s.lower()` on ASCII letters. */
  function Lower(s: string): (r: string)
    ensures |r| == |s|
    ensures forall i :: 0 <= i < |r| ==> !('A' <= r[i] <= 'Z')
    ensures forall i :: 0 <= i < |s| && !('A' <= s[i] <= 'Z') ==> r[i] == s[i]
  {
    seq(|s|, i requires 0 <= i < |s| => if 'A' <= s[i] <= 'Z' then (s[i] as int + 32) as char else s[i])
  }

  /** Lowering twice is lowering once. */
  lemma LowerIdempotent(s: string)
    ensures Lower(Lower(s)) == Lower(s)
  {
    var l := Lower(s);
    forall i | 0 <= i < |l| ensures Lower(l)[i] == l[i] {
      assert !('A' <= l[i] <= 'Z');
    }
  }

  /** `s.endswith(suffix)`: the last |suffix| characters of s are those of suffix. */
  predicate EndsWith(s: string, suffix: string): (r: bool)
    ensures r <==> |suffix| <= |s| && forall k :: 0 <= k < |suffix| ==> s[|s| - |suffix| + k] == suffix[k]
  {
    |suffix| <= |s| && s[|s| - |suffix|..] == suffix
  }

  /** A name passes the lowered ".png" test exactly when it ends in a dot and "png" in any mix of cases. */
  lemma PngSuffixAnyCase(name: string)
    ensures EndsWith(Lower(name), ".png") <==>
      && |name| >= 4
      && name[|name| - 4] == '.'
      && (name[|name| - 3] == 'p' || name[|name| - 3] == 'P')
      && (name[|name| - 2] == 'n' || name[|name| - 2] == 'N')
      && (name[|name| - 1] == 'g' || name[|name| - 1] == 'G')
  {
    var l := Lower(name);
    if |name| >= 4 {
      assert l[|l| - 4..] == [l[|l| - 4], l[|l| - 3], l[|l| - 2], l[|l| - 1]];
    }
  }

  /** t occurs in s starting at position i. */
  predicate OccursAt(s: string, t: string, i: int)
  {
    0 <= i && i + |t| <= |s| && s[i..i + |t|] == t
  }

  lemma OccursAtShift(s: string, t: string, i: int)
    requires s != [] && 1 <= i
    ensures OccursAt(s, t, i) <==> OccursAt(s[1..], t, i - 1)
  {
    if i + |t| <= |s| {
      assert s[1..][i - 1..i - 1 + |t|] == s[i..i + |t|];
    }
  }

  /** When t is not a prefix of s, its occurrences in s are those in s[1..], one place later. */
  lemma OccursInTail(s: string, t: string)
    requires s != [] && !(t <= s)
    ensures (exists i :: OccursAt(s, t, i)) <==> (exists i :: OccursAt(s[1..], t, i))
  {
    if i :| OccursAt(s, t, i) {
      assert i != 0;
      OccursAtShift(s, t, i);
    }
    if i :| OccursAt(s[1..], t, i) {
      OccursAtShift(s, t, i + 1);
    }
  }

  /** `t in s` for strings: t occurs at some position of s. */
  predicate Contains(s: string, t: string): (r: bool)
    ensures r <==> exists i :: OccursAt(s, t, i)
  {
    if t <= s then
      assert OccursAt(s, t, 0);
      true
    else if s == [] then
      false
    else
      OccursInTail(s, t);
      Contains(s[1..], t)
  }

  /**
   * `f.lower().endswith('.png') and '_steg' in f`: the name ends in a dot and
   * "png" in any mix of cases, and "_steg" occurs in it.
   */
  predicate IsStegoFile(name: string): (r: bool)
    ensures r <==>
      && |name| >= 4
      && name[|name| - 4] == '.'
      && (name[|name| - 3] == 'p' || name[|name| - 3] == 'P')
      && (name[|name| - 2] == 'n' || name[|name| - 2] == 'N')
      && (name[|name| - 1] == 'g' || name[|name| - 1] == 'G')
      && exists i :: OccursAt(name, "_steg", i)
  {
    PngSuffixAnyCase(name);
    EndsWith(Lower(name), ".png") && Contains(name, "_steg")
  }

  /** Python's `<=` on strings: lexicographic by code point. */
  predicate CodePointLe(a: string, b: string)
  {
    |a| == 0 || (|b| != 0 && (a[0] < b[0] || (a[0] == b[0] && CodePointLe(a[1..], b[1..]))))
  }

  lemma {:induction false} CodePointLeTotal(a: string, b: string)
    ensures CodePointLe(a, b) || CodePointLe(b, a)
  {
    if |a| != 0 && |b| != 0 && a[0] == b[0] {
      CodePointLeTotal(a[1..], b[1..]);
    }
  }

  predicate Sorted(names: seq<string>)
  {
    forall i :: 0 <= i < |names| - 1 ==> CodePointLe(names[i], names[i + 1])
  }

  /** Insertion of one name before the first name it does not follow. */
  function Insert(name: string, names: seq<string>): seq<string>
  {
    if names == [] || CodePointLe(name, names[0]) then [name] + names
    else [names[0]] + Insert(name, names[1..])
  }

  /** Inserting adds exactly the one name. */
  lemma {:induction false} InsertMultiset(name: string, names: seq<string>)
    ensures multiset(Insert(name, names)) == multiset(names) + multiset{name}
  {
    if names != [] && !CodePointLe(name, names[0]) {
      InsertMultiset(name, names[1..]);
      assert names == [names[0]] + names[1..];
    }
  }

  /** The first name after inserting is the inserted one or the old first one. */
  lemma {:induction false} InsertHead(name: string, names: seq<string>)
    ensures |Insert(name, names)| == |names| + 1
    ensures Insert(name, names)[0] == name || (|names| > 0 && Insert(name, names)[0] == names[0])
  {
    if names != [] && !CodePointLe(name, names[0]) {
      InsertHead(name, names[1..]);
    }
  }

  /** Inserting into a sorted list keeps it sorted. */
  lemma {:induction false} InsertSorted(name: string, names: seq<string>)
    requires Sorted(names)
    ensures Sorted(Insert(name, names))
  {
    if names != [] && !CodePointLe(name, names[0]) {
      CodePointLeTotal(name, names[0]);
      var tail := Insert(name, names[1..]);
      InsertSorted(name, names[1..]);
      InsertHead(name, names[1..]);
      assert CodePointLe(names[0], tail[0]) by {
        if tail[0] != name {
          assert tail[0] == names[1];
        }
      }
      var r := [names[0]] + tail;
      forall i | 0 <= i < |r| - 1 ensures CodePointLe(r[i], r[i + 1]) {
        if i > 0 {
          assert r[i] == tail[i - 1] && r[i + 1] == tail[i];
        }
      }
    }
  }

  /** `sorted(names)`. */
  function SortNames(names: seq<string>): (r: seq<string>)
    ensures Sorted(r)
    ensures multiset(r) == multiset(names)
  {
    if names == [] then [] else
      var tail := SortNames(names[1..]);
      InsertSorted(names[0], tail);
      InsertMultiset(names[0], tail);
      assert names == [names[0]] + names[1..];
      Insert(names[0], tail)
  }

  /** The list comprehension's filter, in directory order. */
  function SelectStegoFiles(names: seq<string>): (r: seq<string>)
    ensures forall n :: multiset(r)[n] == if IsStegoFile(n) then multiset(names)[n] else 0
  {
    if names == [] then [] else
      assert names == [names[0]] + names[1..];
      (if IsStegoFile(names[0]) then [names[0]] else []) + SelectStegoFiles(names[1..])
  }

  /** `stego_files`: the stego PNG files of the folder listing, sorted by name. */
  function StegoFiles(listing: seq<string>): (r: seq<string>)
    ensures Sorted(r)
    ensures forall n :: n in r <==> n in listing && IsStegoFile(n)
    ensures forall n :: multiset(r)[n] == if IsStegoFile(n) then multiset(listing)[n] else 0
  {
    SortNames(SelectStegoFiles(listing))
  }
}
