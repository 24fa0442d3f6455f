/**
 * Decimal text of counts, as absl::Substitute renders a `size_t`, and the
 * numbers a reader recovers from such text.
 */
module Decimal {

  predicate IsDigit(c: char) {
    '0' <= c <= '9'
  }

  predicate AllDigits(s: string) {
    forall i :: 0 <= i < |s| ==> IsDigit(s[i])
  }

  function DigitChar(d: nat): (c: char)
    requires d < 10
    ensures IsDigit(c) && c as int - '0' as int == d
  {
    ('0' as int + d) as char
  }

  /** The decimal numeral of `n`, without leading zeros. */
  function NatToString(n: nat): (s: string)
    ensures |s| >= 1 && AllDigits(s)
  {
    if n < 10 then [DigitChar(n)] else NatToString(n / 10) + [DigitChar(n % 10)]
  }

  /** The value of a decimal numeral; a character that is not a digit counts as 0. */
  function ParseNat(s: string): nat
  {
    if s == [] then 0 else ParseNat(s[..|s| - 1]) * 10 + DigitValue(s[|s| - 1])
  }

  function DigitValue(c: char): nat
  {
    if IsDigit(c) then c as int - '0' as int else 0
  }

  lemma {:induction false} ParseNatToString(n: nat)
    ensures ParseNat(NatToString(n)) == n
  {
    if n >= 10 {
      var s := NatToString(n);
      assert s[..|s| - 1] == NatToString(n / 10);
      ParseNatToString(n / 10);
    }
  }

  /** The longest run of digits at the front of `s`. */
  function DigitRun(s: string): string
  {
    if s == [] || !IsDigit(s[0]) then [] else [s[0]] + DigitRun(s[1..])
  }

  lemma {:induction false} DigitRunStops(d: string, s: string)
    requires AllDigits(d)
    requires s == [] || !IsDigit(s[0])
    ensures DigitRun(d + s) == d
  {
    if d != [] {
      assert (d + s)[1..] == d[1..] + s;
      DigitRunStops(d[1..], s);
    } else {
      assert d + s == s;
    }
  }

  /** The numeral that starts at index `at` of `s`: its value and the index just past it. */
  function ReadNumeral(s: string, at: nat): (nat, nat)
    requires at <= |s|
  {
    var d := DigitRun(s[at..]);
    (ParseNat(d), at + |d|)
  }

  /** A rendered count followed by a non-digit reads back as that count. */
  lemma ReadsRenderedNumeral(t: string, n: nat, s: string)
    requires s == [] || !IsDigit(s[0])
    ensures ReadNumeral(t + (NatToString(n) + s), |t|) == (n, |t| + |NatToString(n)|)
  {
    var d := NatToString(n);
    assert (t + (d + s))[|t|..] == d + s;
    DigitRunStops(d, s);
    ParseNatToString(n);
  }

  /**
   * In text made of a lead, a count, a separator, a second count and a
   * trailer, the numeral after the separator is the second count.
   */
  lemma ReadsSecondNumeral(lead: string, a: nat, separator: string, b: nat, trailer: string)
    requires trailer == [] || !IsDigit(trailer[0])
    ensures var text := lead + (NatToString(a) + (separator + (NatToString(b) + trailer)));
            var at := |lead| + |NatToString(a)| + |separator|;
            at <= |text| && ReadNumeral(text, at).0 == b
  {
    Regroup(lead, NatToString(a), separator, NatToString(b) + trailer);
    ReadsRenderedNumeral(lead + NatToString(a) + separator, b, trailer);
  }

  /**
   * In text made of a lead, a count, a separator, a second count and a
   * trailer, the numeral right after the lead is the first count and the
   * numeral after the separator is the second.
   */
  lemma ReadsTwoRenderedNumerals(lead: string, a: nat, separator: string, b: nat, trailer: string)
    requires separator != [] && !IsDigit(separator[0])
    requires trailer == [] || !IsDigit(trailer[0])
    ensures var text := lead + (NatToString(a) + (separator + (NatToString(b) + trailer)));
            var (first, next) := ReadNumeral(text, |lead|);
            && first == a
            && next + |separator| <= |text|
            && ReadNumeral(text, next + |separator|).0 == b
  {
    var rest := separator + (NatToString(b) + trailer);
    assert rest[0] == separator[0];
    ReadsRenderedNumeral(lead, a, rest);
    ReadsSecondNumeral(lead, a, separator, b, trailer);
  }

  lemma Regroup(a: string, b: string, c: string, d: string)
    ensures a + (b + (c + d)) == (a + b + c) + d
  {
  }
}
