/**
 * The wavelet-path payload codec. The message travels as a 32-bit,
 * most-significant-bit-first header holding the payload length in bits,
 * followed by the payload bits; each bit replaces the least significant bit of
 * one coefficient slot, walking the HH subband first and then HL. The
 * coefficients are integers here: the Haar transform that produces them is
 * not part of this model.
 */
module DwtCodec {
  import opened Bits

  const HEADER_BITS: nat := 32
  const NOT_ENOUGH_FOR_HEADER := "Error: Not enough data to read header"
  const LENGTH_TOO_LARGE := "Error: Header indicates length larger than available data"

  /** `text_to_binary`: every code point as `format(ord(c), '08b')`, concatenated. */
  function TextToBinary(text: string): (r: seq<Bit>)
    ensures |r| >= 8 * |text|
    ensures |r| == 8 * |text| <==> IsLatin1(text)
  {
    if text == [] then [] else
      var tail := TextToBinary(text[1..]);
      assert IsLatin1(text) <==> text[0] as int < 256 && IsLatin1(text[1..]) by {
        if text[0] as int < 256 && IsLatin1(text[1..]) {
          forall i | 0 <= i < |text| ensures text[i] as int < 256 {
            if i > 0 { assert text[i] == text[1..][i - 1]; }
          }
        }
      }
      var head := Format(text[0] as int, 8);
      assert Pow2(8) == 256;
      assert |head| == 8 <==> text[0] as int < 256;
      head + tail
  }

  /** On Latin-1 text the bit string is exactly the octets of the code points. */
  lemma {:induction false} TextToBinaryIsOctets(text: string)
    requires IsLatin1(text)
    ensures TextToBinary(text) == Octets(Codes(text))
  {
    if text != [] {
      assert IsLatin1(text[1..]) by {
        forall i | 0 <= i < |text[1..]| ensures text[1..][i] as int < 256 {
          assert text[1..][i] == text[i + 1];
        }
      }
      assert Codes(text)[1..] == Codes(text[1..]);
      TextToBinaryIsOctets(text[1..]);
    }
  }

  /**
   * `binary_to_text`: cut the bits into groups of eight, drop a trailing
   * partial group, and read each group as a code point.
   */
  function BinaryToText(bits: seq<Bit>): (r: string)
    ensures |r| == |bits| / 8
    ensures IsLatin1(r)
  {
    if |bits| < 8 then [] else
      Pow2Values();
      var c := Value(bits[..8]) as char;
      var tail := BinaryToText(bits[8..]);
      assert forall i :: 1 <= i < |tail| + 1 ==> ([c] + tail)[i] == tail[i - 1];
      [c] + tail
  }

  /** Character i of the decoded text is group i of the bits. */
  lemma {:induction false} BinaryToTextGroup(bits: seq<Bit>, i: nat)
    requires i < |bits| / 8
    ensures BinaryToText(bits)[i] as int == Value(bits[8 * i..8 * i + 8])
  {
    Pow2Values();
    if i > 0 {
      assert bits[8 * i..8 * i + 8] == bits[8..][8 * (i - 1)..8 * (i - 1) + 8];
      BinaryToTextGroup(bits[8..], i - 1);
    }
  }

  /** Decoding the encoding gives the text back when every code point is below 256. */
  lemma {:induction false} BinaryToTextRoundTrip(text: string)
    requires IsLatin1(text)
    ensures BinaryToText(TextToBinary(text)) == text
  {
    if text != [] {
      var head := Format(text[0] as int, 8);
      var tail := TextToBinary(text[1..]);
      ByteFormat(text[0] as int);
      assert (head + tail)[..8] == head;
      assert (head + tail)[8..] == tail;
      assert IsLatin1(text[1..]) by {
        forall i | 0 <= i < |text[1..]| ensures text[1..][i] as int < 256 {
          assert text[1..][i] == text[i + 1];
        }
      }
      BinaryToTextRoundTrip(text[1..]);
    }
  }

  /** The stream the embedder writes: `format(len, '032b')` followed by the payload bits. */
  function Frame(text: string): (r: seq<Bit>)
    ensures |TextToBinary(text)| < Pow2(HEADER_BITS) ==>
      |r| == HEADER_BITS + |TextToBinary(text)|
      && Value(r[..HEADER_BITS]) == |TextToBinary(text)|
      && r[HEADER_BITS..] == TextToBinary(text)
  {
    var payload := TextToBinary(text);
    var header := Format(|payload|, HEADER_BITS);
    assert (header + payload)[..|header|] == header;
    header + payload
  }

  /** `x & 1` on a two's-complement integer: the bit b with x - b even. */
  function Lsb(x: int): (r: Bit)
    ensures (x - r) % 2 == 0
  {
    x % 2
  }

  /** `(x & ~1) | b`: bit 0 becomes b, every higher bit is kept. */
  function SetLsb(x: int, b: Bit): (r: int)
    ensures Lsb(r) == b && r / 2 == x / 2
  {
    x - x % 2 + b
  }

  /** `c & 1` on a whole array: one bit per coefficient, each of that coefficient's parity. */
  function Lsbs(c: seq<int>): (r: seq<Bit>)
    ensures |r| == |c|
    ensures forall k :: 0 <= k < |c| ==> (c[k] - r[k]) % 2 == 0
  {
    seq(|c|, k requires 0 <= k < |c| => Lsb(c[k]))
  }

  /** Reading a stream in two parts reads the whole stream. */
  lemma LsbsSplit(c: seq<int>, n: nat)
    requires n <= |c|
    ensures Lsbs(c[..n]) + Lsbs(c[n..]) == Lsbs(c)
  {
    assert forall k :: n <= k < |c| ==> c[n..][k - n] == c[k];
  }

  /**
   * The coefficient stream after writing data into its first |data| slots:
   * slot k carries bit k with its higher bits kept, and slots past the data
   * are untouched.
   */
  function EmbedStream(c: seq<int>, data: seq<Bit>): (r: seq<int>)
    ensures |r| == |c|
    ensures forall k :: 0 <= k < |c| && k < |data| ==> Lsb(r[k]) == data[k] && r[k] / 2 == c[k] / 2
    ensures forall k :: |data| <= k < |c| ==> r[k] == c[k]
  {
    seq(|c|, k requires 0 <= k < |c| => if k < |data| then SetLsb(c[k], data[k]) else c[k])
  }

  /** Reading the least significant bits back gives the written data first. */
  lemma ExtractAfterEmbed(c: seq<int>, data: seq<Bit>)
    requires |data| <= |c|
    ensures Lsbs(EmbedStream(c, data))[..|data|] == data
  {
  }

  /** The header-parsing half of `extract_text_from_image`, on the raw bit stream. */
  function DecodeStream(data: seq<Bit>): (r: string)
    ensures |data| < HEADER_BITS ==> r == NOT_ENOUGH_FOR_HEADER
    ensures |data| >= HEADER_BITS && Value(data[..HEADER_BITS]) > |data| - HEADER_BITS ==> r == LENGTH_TOO_LARGE
    ensures |data| >= HEADER_BITS && Value(data[..HEADER_BITS]) <= |data| - HEADER_BITS ==>
      r == BinaryToText(data[HEADER_BITS..HEADER_BITS + Value(data[..HEADER_BITS])])
  {
    if |data| < HEADER_BITS then NOT_ENOUGH_FOR_HEADER
    else
      var textLength := Value(data[..HEADER_BITS]);
      if textLength > |data| - HEADER_BITS then LENGTH_TOO_LARGE
      else BinaryToText(data[HEADER_BITS..HEADER_BITS + textLength])
  }

  /**
   * A successful decode has header div 8 characters, character i being bits
   * 32 + 8i through 32 + 8i + 7 of the stream.
   */
  lemma DecodeStreamChars(data: seq<Bit>)
    requires |data| >= HEADER_BITS && Value(data[..HEADER_BITS]) <= |data| - HEADER_BITS
    ensures |DecodeStream(data)| == Value(data[..HEADER_BITS]) / 8
    ensures forall i :: 0 <= i < |DecodeStream(data)| ==>
      DecodeStream(data)[i] as int == Value(data[HEADER_BITS + 8 * i..HEADER_BITS + 8 * i + 8])
  {
    var textLength := Value(data[..HEADER_BITS]);
    var payload := data[HEADER_BITS..HEADER_BITS + textLength];
    var r := BinaryToText(payload);
    forall i | 0 <= i < |r| ensures r[i] as int == Value(data[HEADER_BITS + 8 * i..HEADER_BITS + 8 * i + 8]) {
      BinaryToTextGroup(payload, i);
      assert 8 * i + 8 <= textLength;
      SliceOfSlice(data, HEADER_BITS, HEADER_BITS + textLength, 8 * i, 8 * i + 8);
    }
  }

  /** `extract_text_from_image` from the coefficients: HH's bits, then HL's. */
  function ExtractText(hh: seq<int>, hl: seq<int>): (r: string)
    ensures r == DecodeStream(Lsbs(hh + hl))
    ensures |hh| + |hl| < HEADER_BITS ==> r == NOT_ENOUGH_FOR_HEADER
  {
    assert (hh + hl)[..|hh|] == hh && (hh + hl)[|hh|..] == hl;
    LsbsSplit(hh + hl, |hh|);
    DecodeStream(Lsbs(hh) + Lsbs(hl))
  }

  /** A header that fits the stream selects the payload bits after it. */
  lemma DecodeStreamWithin(data: seq<Bit>, header: nat)
    requires |data| >= HEADER_BITS + header && Value(data[..HEADER_BITS]) == header
    ensures DecodeStream(data) == BinaryToText(data[HEADER_BITS..HEADER_BITS + header])
  {
  }

  /** A stream that starts with the frame of a text decodes to that text. */
  lemma DecodeFrame(data: seq<Bit>, text: string)
    requires IsLatin1(text)
    requires 8 * |text| < Pow2(HEADER_BITS)
    requires |Frame(text)| <= |data| && data[..|Frame(text)|] == Frame(text)
    ensures DecodeStream(data) == text
  {
    var frame := Frame(text);
    var payload := TextToBinary(text);
    assert |payload| == 8 * |text|;
    SliceOfSlice(data, 0, |frame|, 0, HEADER_BITS);
    SliceOfSlice(data, 0, |frame|, HEADER_BITS, |frame|);
    var header := Value(data[..HEADER_BITS]);
    assert header == |payload|;
    assert header <= |data| - HEADER_BITS;
    assert data[HEADER_BITS..HEADER_BITS + header] == payload;
    DecodeStreamWithin(data, header);
    BinaryToTextRoundTrip(text);
  }

  /**
   * Embedding then extracting gives the text back, provided the frame fits the
   * slots, every code point is below 256 and the bit length fits the header.
   */
  lemma EmbedExtractRoundTrip(hh: seq<int>, hl: seq<int>, text: string)
    requires IsLatin1(text)
    requires 8 * |text| < Pow2(HEADER_BITS)
    requires |Frame(text)| <= |hh| + |hl|
    ensures var s := EmbedStream(hh + hl, Frame(text)); ExtractText(s[..|hh|], s[|hh|..]) == text
  {
    var frame := Frame(text);
    var s := EmbedStream(hh + hl, frame);
    var data := Lsbs(s[..|hh|]) + Lsbs(s[|hh|..]);
    LsbsSplit(s, |hh|);
    ExtractAfterEmbed(hh + hl, frame);
    DecodeFrame(data, text);
  }

  /** Embedding into a stream split in two is embedding into each part in turn. */
  lemma EmbedStreamSplit(a: seq<int>, b: seq<int>, data: seq<Bit>)
    ensures EmbedStream(a + b, data) == EmbedStream(a, data) + EmbedStream(b, data[Min(|a|, |data|)..])
  {
    var lhs := EmbedStream(a + b, data);
    var rhs := EmbedStream(a, data) + EmbedStream(b, data[Min(|a|, |data|)..]);
    forall k | 0 <= k < |lhs| ensures lhs[k] == rhs[k] {
      if k >= |a| {
        assert (a + b)[k] == b[k - |a|];
      }
    }
  }

  datatype EmbedOutcome = Embedded | InsufficientCapacity(required: nat, available: nat)

  /**
   * One of the two `for` loops of `embed_text_in_image`: walk the subband and,
   * while data remains from dataIndex on, overwrite the slot's least
   * significant bit with the next data bit.
   */
  method WriteSubband(band: array<int>, data: seq<Bit>, dataIndex: nat) returns (next: nat)
    requires dataIndex <= |data|
    modifies band
    ensures next == Min(dataIndex + band.Length, |data|)
    ensures band[..] == EmbedStream(old(band[..]), data[dataIndex..])
  {
    next := dataIndex;
    for i := 0 to band.Length
      invariant next == Min(dataIndex + i, |data|)
      invariant forall k :: 0 <= k < i ==>
        band[k] == if dataIndex + k < |data| then SetLsb(old(band[k]), data[dataIndex + k]) else old(band[k])
      invariant forall k :: i <= k < band.Length ==> band[k] == old(band[k])
    {
      if next < |data| {
        band[i] := SetLsb(band[i], data[next]);
        next := next + 1;
      }
    }
  }

  /**
   * The bit-writing half of `embed_text_in_image`: refuse before writing when
   * the frame does not fit, otherwise overwrite the least significant bit of
   * each HH slot, then each HL slot, while frame bits remain.
   */
  method EmbedTextInCoefficients(hh: array<int>, hl: array<int>, text: string) returns (outcome: EmbedOutcome)
    requires hh != hl
    modifies hh, hl
    ensures outcome == if |Frame(text)| > hh.Length + hl.Length
                       then InsufficientCapacity(|Frame(text)|, hh.Length + hl.Length)
                       else Embedded
    ensures outcome.InsufficientCapacity? ==> hh[..] == old(hh[..]) && hl[..] == old(hl[..])
    ensures outcome.Embedded? ==> hh[..] + hl[..] == EmbedStream(old(hh[..]) + old(hl[..]), Frame(text))
  {
    var fullData := Frame(text);
    var availableBits := hh.Length + hl.Length;
    var requiredBits := |fullData|;
    if requiredBits > availableBits {
      return InsufficientCapacity(requiredBits, availableBits);
    }
    ghost var hh0, hl0 := hh[..], hl[..];
    var dataIndex := WriteSubband(hh, fullData, 0);
    assert fullData[0..] == fullData;
    assert hh[..] == EmbedStream(hh0, fullData) && hl[..] == hl0;
    assert dataIndex == Min(hh.Length, |fullData|);
    dataIndex := WriteSubband(hl, fullData, dataIndex);
    assert hl[..] == EmbedStream(hl0, fullData[Min(|hh0|, |fullData|)..]);
    EmbedStreamSplit(hh0, hl0, fullData);
    return Embedded;
  }

  /** What `sanitize_text` may be handed: a string or any other value. */
  datatype Received = Str(s: string) | NotAString

  function StripNonAscii(s: string): (r: string)
    ensures IsAscii(r)
    ensures IsSubsequence(r, s)
    ensures forall c: char :: c as int < 128 ==> multiset(r)[c] == multiset(s)[c]
    ensures IsAscii(s) ==> r == s
  {
    if s == [] then [] else
      var tail := StripNonAscii(s[1..]);
      assert s == [s[0]] + s[1..];
      assert IsAscii(s) ==> IsAscii(s[1..]) by {
        if IsAscii(s) {
          forall i | 0 <= i < |s[1..]| ensures s[1..][i] as int < 128 {
            assert s[1..][i] == s[i + 1];
          }
        }
      }
      if s[0] as int < 128 then [s[0]] + tail else tail
  }

  /** `sub` can be obtained from `s` by deleting characters. */
  predicate IsSubsequence(sub: string, s: string)
  {
    if sub == [] then true
    else if s == [] then false
    else if sub[0] == s[0] then IsSubsequence(sub[1..], s[1..])
    else IsSubsequence(sub, s[1..])
  }

  /** `sanitize_text`: "" for a non-string, otherwise the string without its non-ASCII characters. */
  function SanitizeText(v: Received): (r: string)
    ensures v.NotAString? ==> r == ""
    ensures IsAscii(r)
    ensures v.Str? ==> IsSubsequence(r, v.s)
    ensures v.Str? ==> forall c: char :: c as int < 128 ==> multiset(r)[c] == multiset(v.s)[c]
    ensures v.Str? && IsAscii(v.s) ==> r == v.s
  {
    match v
    case NotAString => ""
    case Str(s) => StripNonAscii(s)
  }

  /** Sanitizing twice is sanitizing once. */
  lemma SanitizeIdempotent(v: Received)
    ensures SanitizeText(Str(SanitizeText(v))) == SanitizeText(v)
  {
  }

  /**
   * The embed-and-verify step of the folder routine: embed, extract from the
   * written coefficients, sanitize. None stands for the capacity error.
   */
  method EmbedAndVerify(hh: array<int>, hl: array<int>, text: string) returns (verified: Option<string>)
    requires hh != hl
    modifies hh, hl
    ensures verified.None? <==> |Frame(text)| > hh.Length + hl.Length
    ensures verified.None? ==> hh[..] == old(hh[..]) && hl[..] == old(hl[..])
    ensures verified.Some? ==> hh[..] + hl[..] == EmbedStream(old(hh[..]) + old(hl[..]), Frame(text))
    ensures verified.Some? && IsLatin1(text) && 8 * |text| < Pow2(HEADER_BITS) ==>
      verified.value == SanitizeText(Str(text))
  {
    var outcome := EmbedTextInCoefficients(hh, hl, text);
    if outcome.InsufficientCapacity? {
      return None;
    }
    var extracted := ExtractText(hh[..], hl[..]);
    if IsLatin1(text) && 8 * |text| < Pow2(HEADER_BITS) {
      ghost var s := EmbedStream(old(hh[..]) + old(hl[..]), Frame(text));
      assert hh[..] == s[..hh.Length] && hl[..] == s[hh.Length..];
      EmbedExtractRoundTrip(old(hh[..]), old(hl[..]), text);
    }
    return Some(SanitizeText(Str(extracted)));
  }
}
