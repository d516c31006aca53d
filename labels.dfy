/** The mutation label `<wild><pos><mutant>`: the wild-type letter, the
    0-based position in decimal, and the mutant letter, as the f-string
    on scripts/phase2_feature_engineering.py line 61 renders it, together
    with the parse that recovers the substitution from a label. */
module Labels {
  import opened Wrappers

  /** One point substitution: `wild` at 0-based position `pos` becomes `mutant`. */
  datatype Substitution = Substitution(wild: char, pos: nat, mutant: char)

  predicate IsDigit(c: char) {
    '0' <= c <= '9'
  }

  predicate AllDigits(s: string) {
    forall i :: 0 <= i < |s| ==> IsDigit(s[i])
  }

  /** A decimal numeral as Python prints a non-negative int: at least one
      digit and no leading zero unless the numeral is "0". */
  predicate Canonical(s: string) {
    |s| >= 1 && AllDigits(s) && (|s| > 1 ==> s[0] != '0')
  }

  function DigitChar(d: nat): (c: char)
    requires d < 10
    ensures IsDigit(c) && c as int - '0' as int == d
  {
    ('0' as int + d) as char
  }

  function DigitValue(c: char): (d: nat)
    requires IsDigit(c)
    ensures d < 10 && DigitChar(d) == c
  {
    c as int - '0' as int
  }

  /** The decimal rendering of `n`. */
  function NatToString(n: nat): (s: string)
    ensures Canonical(s)
    decreases n
  {
    if n < 10 then [DigitChar(n)] else NatToString(n / 10) + [DigitChar(n % 10)]
  }

  /** The value of a string of decimal digits, most significant first. */
  function DigitsValue(s: string): nat
    requires AllDigits(s)
  {
    if s == [] then 0 else 10 * DigitsValue(s[..|s| - 1]) + DigitValue(s[|s| - 1])
  }

  /** Reading back the rendering of `n` gives `n`. */
  lemma {:induction false} DecimalRoundTrip(n: nat)
    ensures DigitsValue(NatToString(n)) == n
  {
    if n >= 10 {
      var s := NatToString(n);
      DecimalRoundTrip(n / 10);
      assert s[..|s| - 1] == NatToString(n / 10);
    }
  }

  /** A numeral with a non-zero leading digit denotes a positive number. */
  lemma {:induction false} LeadingDigitPositive(s: string)
    requires |s| >= 1 && AllDigits(s) && s[0] != '0'
    ensures DigitsValue(s) >= 1
  {
    if |s| > 1 {
      LeadingDigitPositive(s[..|s| - 1]);
    }
  }

  /** Every canonical numeral is the rendering of its own value, so the
      rendering is a bijection between naturals and canonical numerals. */
  lemma {:induction false} DecimalCanonical(s: string)
    requires Canonical(s)
    ensures NatToString(DigitsValue(s)) == s
  {
    if |s| > 1 {
      var init := s[..|s| - 1];
      DecimalCanonical(init);
      LeadingDigitPositive(init);
      var v := DigitsValue(s);
      assert v / 10 == DigitsValue(init) && v % 10 == DigitValue(s[|s| - 1]);
    }
  }

  /** The label of a substitution, e.g. "K12R". */
  function Label(m: Substitution): (s: string)
    ensures |s| >= 3 && s[0] == m.wild && s[|s| - 1] == m.mutant
    ensures m.wild != m.mutant ==> s[0] != s[|s| - 1]
    ensures Canonical(s[1..|s| - 1])
  {
    [m.wild] + NatToString(m.pos) + [m.mutant]
  }

  /** Recovers the substitution from a label whose letters are not digits. */
  function ParseLabel(s: string): Option<Substitution> {
    if |s| >= 3 && !IsDigit(s[0]) && !IsDigit(s[|s| - 1]) && Canonical(s[1..|s| - 1])
    then Some(Substitution(s[0], DigitsValue(s[1..|s| - 1]), s[|s| - 1]))
    else None
  }

  /** Parsing a label gives back the substitution it was made from. */
  lemma LabelRoundTrip(m: Substitution)
    requires !IsDigit(m.wild) && !IsDigit(m.mutant)
    ensures ParseLabel(Label(m)) == Some(m)
  {
    var s := Label(m);
    assert s[1..|s| - 1] == NatToString(m.pos);
    DecimalRoundTrip(m.pos);
  }

  /** Every string the parser accepts is the label of what it parses to. */
  lemma ParseLabelCanonical(s: string)
    requires ParseLabel(s).Some?
    ensures Label(ParseLabel(s).value) == s
  {
    var mid := s[1..|s| - 1];
    DecimalCanonical(mid);
    assert s == [s[0]] + mid + [s[|s| - 1]];
  }
}
