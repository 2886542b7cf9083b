/**
 * Decimal rendering of unsigned numbers, as a C++ stream writes them, and the
 * text the program writes for a value its documentation does not name.
 * Each rendering has a parser beside it; the round-trip lemmas show that the
 * text loses nothing.
 */
module Text {
  import opened Common

  predicate IsDigit(c: char) {
    '0' <= c <= '9'
  }

  predicate AllDigits(s: string) {
    forall i :: 0 <= i < |s| ==> IsDigit(s[i])
  }

  function DigitChar(d: nat): (c: char)
    requires d < 10
    ensures IsDigit(c) && c as int - '0' as int == d
  {
    ('0' as int + d) as char
  }

  /** The decimal form of `n`, without sign or leading zeros. */
  function NatToString(n: nat): (s: string)
    ensures |s| > 0 && AllDigits(s)
    ensures |s| > 1 ==> s[0] != '0'
    ensures n < 10 <==> |s| == 1
  {
    if n < 10 then [DigitChar(n)] else NatToString(n / 10) + [DigitChar(n % 10)]
  }

  /** The value of a string of decimal digits (leading zeros allowed). */
  function DigitsValue(s: string): nat
    requires AllDigits(s)
  {
    if s == [] then 0
    else DigitsValue(s[..|s| - 1]) * 10 + (s[|s| - 1] as int - '0' as int)
  }

  /** Reads a non-empty run of decimal digits; anything else is refused. */
  function ParseNat(s: string): Option<nat> {
    if |s| > 0 && AllDigits(s) then Some(DigitsValue(s)) else None
  }

  lemma {:induction false} DigitsValueOfNatToString(n: nat)
    ensures DigitsValue(NatToString(n)) == n
  {
    if n >= 10 {
      var s := NatToString(n);
      assert s[..|s| - 1] == NatToString(n / 10);
      DigitsValueOfNatToString(n / 10);
    }
  }

  /** Decimal rendering followed by parsing gives the number back. */
  lemma ParseNatToString(n: nat)
    ensures ParseNat(NatToString(n)) == Some(n)
  {
    DigitsValueOfNatToString(n);
  }

  /** The stream manipulators `setfill('0') << setw(2)`: pad on the left to two characters. */
  function ZeroPad2(s: string): (r: string)
    ensures |r| == if |s| < 2 then 2 else |s|
    ensures r[|r| - |s|..] == s
    ensures forall i :: 0 <= i < |r| - |s| ==> r[i] == '0'
  {
    if |s| == 0 then "00" else if |s| == 1 then "0" + s else s
  }

  /** Padding a digit string keeps it a digit string. */
  lemma ZeroPad2Digits(s: string)
    requires AllDigits(s)
    ensures AllDigits(ZeroPad2(s))
  {
    var r := ZeroPad2(s);
    forall i | 0 <= i < |r| ensures IsDigit(r[i]) {
      if i >= |r| - |s| {
        assert r[i] == r[|r| - |s|..][i - (|r| - |s|)];
      }
    }
  }

  /** A number below 100 takes exactly two padded digits, and they read back as the number. */
  lemma ParseZeroPad2(n: nat)
    requires n < 100
    ensures |ZeroPad2(NatToString(n))| == 2
    ensures ParseNat(ZeroPad2(NatToString(n))) == Some(n)
  {
    var s := NatToString(n);
    DigitsValueOfNatToString(n);
    if n < 10 {
      var p := ZeroPad2(s);
      assert p == ['0', s[0]];
      assert p[..1] == ['0'];
      assert p[..1][..0] == [];
    } else {
      assert n / 10 < 10;
    }
  }

  const UndocumentedPrefix: string := "Undocumented value: "

  /**
   * The text written for a value with no documented meaning. It carries the
   * value in decimal; the hexadecimal suffix of the original is not modelled.
   */
  function UndocumentedValueStr(n: nat): (s: string)
    ensures |s| > |UndocumentedPrefix| && s[..|UndocumentedPrefix|] == UndocumentedPrefix
  {
    UndocumentedPrefix + NatToString(n)
  }

  function ParseUndocumented(s: string): Option<nat> {
    if |s| > |UndocumentedPrefix| && s[..|UndocumentedPrefix|] == UndocumentedPrefix
    then ParseNat(s[|UndocumentedPrefix|..])
    else None
  }

  /** The undocumented-value text gives back the value it was made from. */
  lemma ParseUndocumentedValueStr(n: nat)
    ensures ParseUndocumented(UndocumentedValueStr(n)) == Some(n)
  {
    var s := UndocumentedValueStr(n);
    assert s[|UndocumentedPrefix|..] == NatToString(n);
    ParseNatToString(n);
  }

  /** No undocumented-value text can be mistaken for a name of at most twenty characters. */
  lemma UndocumentedIsNotAName(n: nat, name: string)
    requires |name| <= 20
    ensures UndocumentedValueStr(n) != name
  {
  }
}
