/**
 * Scoring a recovered payload against the expected one: the bit error rate of
 * the two byte strings and the four-way text-match classification. The texts'
 * UTF-8 bytes and the `SequenceMatcher` similarity ratio are inputs here.
 */
module Fidelity {
  import opened Bits

  /** `s.ljust(n, '0')` on a bit string. */
  function PadRight(s: seq<Bit>, n: nat): (r: seq<Bit>)
    ensures |r| == Max(|s|, n)
    ensures r[..|s|] == s
    ensures forall i :: |s| <= i < |r| ==> r[i] == 0
  {
    if |s| >= n then s else s + Zeros(n - |s|)
  }

  /** `sum(1 for e, r in zip(a, b) if e != r)`. */
  function CountDifferences(a: seq<Bit>, b: seq<Bit>): (r: nat)
    ensures r <= Min(|a|, |b|)
  {
    if a == [] || b == [] then 0
    else (if a[0] != b[0] then 1 else 0) + CountDifferences(a[1..], b[1..])
  }

  lemma {:induction false} CountDifferencesSymmetric(a: seq<Bit>, b: seq<Bit>)
    ensures CountDifferences(a, b) == CountDifferences(b, a)
  {
    if a != [] && b != [] {
      CountDifferencesSymmetric(a[1..], b[1..]);
    }
  }

  lemma {:induction false} CountDifferencesSelf(a: seq<Bit>)
    ensures CountDifferences(a, a) == 0
  {
    if a != [] {
      CountDifferencesSelf(a[1..]);
    }
  }

  /** Number of 1 bits. */
  function Ones(s: seq<Bit>): nat
  {
    if s == [] then 0 else s[0] + Ones(s[1..])
  }

  /** Against an all-zero string of the same length, the differences are the 1 bits. */
  lemma {:induction false} CountDifferencesAgainstZeros(s: seq<Bit>)
    ensures CountDifferences(s, Zeros(|s|)) == Ones(s)
  {
    if s != [] {
      assert Zeros(|s|)[1..] == Zeros(|s| - 1);
      CountDifferencesAgainstZeros(s[1..]);
    }
  }

  /** `max_len`: the longer bit length of the two byte strings. */
  function BerLength(expected: seq<Byte>, extracted: seq<Byte>): (r: nat)
    ensures r == 8 * Max(|expected|, |extracted|)
  {
    Max(|Octets(expected)|, |Octets(extracted)|)
  }

  /** `error_bits`: the differing positions once the shorter bit string is zero-padded. */
  function BerErrors(expected: seq<Byte>, extracted: seq<Byte>): (r: nat)
    ensures r <= BerLength(expected, extracted)
  {
    var maxLen := BerLength(expected, extracted);
    CountDifferences(PadRight(Octets(expected), maxLen), PadRight(Octets(extracted), maxLen))
  }

  lemma FractionBounds(e: nat, n: nat)
    requires 0 < n && e <= n
    ensures 0.0 <= e as real / n as real <= 1.0
    ensures e as real / n as real == 0.0 <==> e == 0
  {
    var q := e as real / n as real;
    assert q * n as real == e as real;
  }

  /** `calculate_ber_percentage` on the two texts' bytes. */
  function BerPercentage(expected: seq<Byte>, extracted: seq<Byte>): (r: real)
    ensures 0.0 <= r <= 100.0
    ensures r == 0.0 <==> BerErrors(expected, extracted) == 0
    ensures expected == [] && extracted == [] ==> r == 0.0
  {
    var maxLen := BerLength(expected, extracted);
    if maxLen == 0 then 0.0
    else
      var errorBits := BerErrors(expected, extracted);
      FractionBounds(errorBits, maxLen);
      (errorBits as real / maxLen as real) * 100.0
  }

  /** Equal texts have no bit errors. */
  lemma BerOfEqualIsZero(x: seq<Byte>)
    ensures BerErrors(x, x) == 0 && BerPercentage(x, x) == 0.0
  {
    CountDifferencesSelf(PadRight(Octets(x), BerLength(x, x)));
  }

  /** The two arguments can be swapped. */
  lemma BerSymmetric(a: seq<Byte>, b: seq<Byte>)
    ensures BerLength(a, b) == BerLength(b, a)
    ensures BerErrors(a, b) == BerErrors(b, a)
    ensures BerPercentage(a, b) == BerPercentage(b, a)
  {
    var n := BerLength(a, b);
    CountDifferencesSymmetric(PadRight(Octets(a), n), PadRight(Octets(b), n));
  }

  /** Against an empty recovery every 1 bit of the expected text is an error. */
  lemma BerAgainstEmpty(expected: seq<Byte>)
    ensures BerErrors(expected, []) == Ones(Octets(expected))
  {
    var n := BerLength(expected, []);
    assert PadRight(Octets(expected), n) == Octets(expected);
    assert PadRight(Octets([]), n) == Zeros(n);
    CountDifferencesAgainstZeros(Octets(expected));
  }

  datatype Verdict = Match | SlightDifference | EndDataCorruption | SignificantDataCorruption

  /** The label written to the report. */
  function Label(v: Verdict): string
  {
    match v
    case Match => "Match"
    case SlightDifference => "Slight Difference"
    case EndDataCorruption => "End Data Corruption"
    case SignificantDataCorruption => "Significant Data Corruption"
  }

  /** The four labels are distinct, so the label names the verdict. */
  lemma LabelInjective(v: Verdict, w: Verdict)
    ensures Label(v) == Label(w) <==> v == w
  {
    if v != w {
      assert Label(v)[0] != Label(w)[0] || |Label(v)| != |Label(w)|;
    }
  }

  const SLIGHT_THRESHOLD: real := 0.9
  const PREFIX_LENGTH: nat := 50

  /** `s[:n]`. */
  function Take(s: string, n: nat): (r: string)
    ensures r <= s && |r| == Min(|s|, n)
  {
    s[..Min(|s|, n)]
  }

  /** `analyze_text_match`, given the `SequenceMatcher` ratio of the two texts. */
  function AnalyzeTextMatch(expected: string, extracted: string, ratio: real): (r: Verdict)
    ensures r == Match <==> expected == extracted
    ensures expected != extracted && ratio > SLIGHT_THRESHOLD ==> r == SlightDifference
    ensures expected != extracted && ratio <= SLIGHT_THRESHOLD ==>
      (r == EndDataCorruption <==> Take(expected, PREFIX_LENGTH) <= extracted)
    ensures r == SignificantDataCorruption <==>
      expected != extracted && ratio <= SLIGHT_THRESHOLD && !(Take(expected, PREFIX_LENGTH) <= extracted)
  {
    if expected == extracted then Match
    else if ratio > SLIGHT_THRESHOLD then SlightDifference
    else if Take(expected, PREFIX_LENGTH) <= extracted then EndDataCorruption
    else SignificantDataCorruption
  }

  /** `SequenceMatcher.ratio()`: 2M/T for M matched characters out of T in all, 1 for two empty texts. */
  function SimilarityRatio(expected: string, extracted: string, matches: nat): (r: real)
    requires matches <= Min(|expected|, |extracted|)
    ensures 0.0 <= r <= 1.0
  {
    var total := |expected| + |extracted|;
    if total == 0 then 1.0 else
      FractionBounds(2 * matches, total);
      (2 * matches) as real / total as real
  }

  /** The string `analyze_text_match` returns, for each of its four outcomes. */
  lemma ReportedLabel(expected: string, extracted: string, ratio: real)
    ensures Label(AnalyzeTextMatch(expected, extracted, ratio)) == "Match" <==> expected == extracted
    ensures Label(AnalyzeTextMatch(expected, extracted, ratio)) == "Slight Difference" <==>
      expected != extracted && ratio > SLIGHT_THRESHOLD
    ensures Label(AnalyzeTextMatch(expected, extracted, ratio)) == "End Data Corruption" <==>
      expected != extracted && ratio <= SLIGHT_THRESHOLD && Take(expected, PREFIX_LENGTH) <= extracted
    ensures Label(AnalyzeTextMatch(expected, extracted, ratio)) == "Significant Data Corruption" <==>
      expected != extracted && ratio <= SLIGHT_THRESHOLD && !(Take(expected, PREFIX_LENGTH) <= extracted)
  {
    var v := AnalyzeTextMatch(expected, extracted, ratio);
    LabelInjective(v, Match);
    LabelInjective(v, SlightDifference);
    LabelInjective(v, EndDataCorruption);
    LabelInjective(v, SignificantDataCorruption);
  }

  /** An empty recovery of a non-empty text is a significant corruption, whatever the matcher found. */
  lemma EmptyRecoveryIsSignificant(expected: string, matches: nat)
    requires expected != [] && matches <= Min(|expected|, 0)
    ensures AnalyzeTextMatch(expected, [], SimilarityRatio(expected, [], matches)) == SignificantDataCorruption
  {
  }

  /** A recovery that keeps the expected text's first 50 characters is never a significant corruption. */
  lemma IntactPrefixIsNotSignificant(expected: string, extracted: string, ratio: real)
    requires Take(expected, PREFIX_LENGTH) <= extracted
    ensures AnalyzeTextMatch(expected, extracted, ratio) != SignificantDataCorruption
  {
  }
}
