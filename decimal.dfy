/** Base-10 text of natural numbers: Python's `str(n)` on a non-negative int,
    `int(s)` on a string of ASCII digits, and `str.isdigit` restricted to ASCII. */
module Decimal {

  predicate IsDigitChar(c: char) {
    '0' <= c <= '9'
  }

  predicate AllDigits(s: string) {
    forall i :: 0 <= i < |s| ==> IsDigitChar(s[i])
  }

  /** `s.isdigit()`: false on the empty string, otherwise every character is a digit. */
  predicate IsDigitString(s: string) {
    |s| > 0 && AllDigits(s)
  }

  /** The text `str(n)` produces: digits only, and no leading zero unless it is "0". */
  predicate Canonical(s: string) {
    IsDigitString(s) && (|s| == 1 || s[0] != '0')
  }

  /** `int(c)` for one digit character. */
  function DigitValue(c: char): (d: nat)
    requires IsDigitChar(c)
    ensures d < 10
  {
    c as int - '0' as int
  }

  function DigitChar(d: nat): (c: char)
    requires d < 10
    ensures IsDigitChar(c) && DigitValue(c) == d
  {
    ('0' as int + d) as char
  }

  lemma DigitCharOfValue(c: char)
    requires IsDigitChar(c)
    ensures DigitChar(DigitValue(c)) == c
  {
  }

  /** `str(n)` for n >= 0. */
  function Show(n: nat): (s: string)
    ensures Canonical(s)
    ensures n > 0 ==> s[0] != '0'
  {
    if n < 10 then [DigitChar(n)] else Show(n / 10) + [DigitChar(n % 10)]
  }

  /** `int(s)` on a string of ASCII digits; leading zeros are accepted, as Python does. */
  function ParseDecimal(s: string): (v: nat)
    requires AllDigits(s)
  {
    if s == [] then 0 else ParseDecimal(s[..|s| - 1]) * 10 + DigitValue(s[|s| - 1])
  }

  /** `[int(d) for d in s]` */
  function DigitList(s: string): (ds: seq<nat>)
    requires AllDigits(s)
    ensures |ds| == |s|
    ensures forall i :: 0 <= i < |s| ==> ds[i] == DigitValue(s[i]) < 10
  {
    seq(|s|, i requires 0 <= i < |s| => DigitValue(s[i]))
  }

  /** Printing then parsing gives the number back: `int(str(n)) == n`. */
  lemma {:induction false} ParseShow(n: nat)
    ensures ParseDecimal(Show(n)) == n
  {
    var s := Show(n);
    if n >= 10 {
      assert s[..|s| - 1] == Show(n / 10);
      ParseShow(n / 10);
    }
  }

  /** A parsed digit string is at least the value of its leading digit. */
  lemma {:induction false} ParseAtLeastLeading(s: string)
    requires IsDigitString(s)
    ensures ParseDecimal(s) >= DigitValue(s[0])
  {
    if |s| > 1 {
      var p := s[..|s| - 1];
      assert p[0] == s[0];
      ParseAtLeastLeading(p);
    }
  }

  /** Parsing then printing gives back every canonical string, so `Show` is
      the one canonical decimal text of each number. */
  lemma {:induction false} ShowParse(s: string)
    requires Canonical(s)
    ensures Show(ParseDecimal(s)) == s
  {
    var last := s[|s| - 1];
    var p := s[..|s| - 1];
    var d := DigitValue(last);
    DigitCharOfValue(last);
    if |s| == 1 {
      assert p == [];
      assert s == [last];
    } else {
      assert p[0] == s[0];
      assert Canonical(p);
      ParseAtLeastLeading(p);
      var v := ParseDecimal(p);
      assert ParseDecimal(s) == v * 10 + d;
      assert v >= 1;
      assert (v * 10 + d) / 10 == v && (v * 10 + d) % 10 == d;
      ShowParse(p);
      assert s == p + [last];
    }
  }

  /** A digit string parses to zero exactly when every character is '0' ("0",
      "000", ...): these are the all-digit inputs that denote zero. */
  lemma {:induction false} ParseZeroIff(s: string)
    requires AllDigits(s)
    ensures ParseDecimal(s) == 0 <==> forall i :: 0 <= i < |s| ==> s[i] == '0'
  {
    if s != [] {
      var p := s[..|s| - 1];
      ParseZeroIff(p);
      assert forall i :: 0 <= i < |p| ==> p[i] == s[i];
      if ParseDecimal(s) == 0 {
        assert ParseDecimal(p) == 0 && DigitValue(s[|s| - 1]) == 0;
      }
    }
  }

  function Pow(b: nat, e: nat): (p: nat) {
    if e == 0 then 1 else b * Pow(b, e - 1)
  }

  /** The base-10 value of a digit list, most significant digit first:
      the sum of ds[i] * 10^(|ds| - 1 - i). */
  function Positional(ds: seq<nat>): (v: nat) {
    if ds == [] then 0 else ds[0] * Pow(10, |ds| - 1) + Positional(ds[1..])
  }

  lemma {:induction false} PositionalSnoc(ds: seq<nat>, d: nat)
    ensures Positional(ds + [d]) == Positional(ds) * 10 + d
  {
    if ds != [] {
      var x, p := ds[0], Pow(10, |ds| - 1);
      assert (ds + [d])[1..] == ds[1..] + [d];
      PositionalSnoc(ds[1..], d);
      assert Pow(10, |ds|) == 10 * p;
      assert x * (10 * p) == (x * p) * 10;
    }
  }

  /** `int(s)` is the positional value of the digit list `[int(d) for d in s]`. */
  lemma {:induction false} ParseIsPositional(s: string)
    requires AllDigits(s)
    ensures ParseDecimal(s) == Positional(DigitList(s))
  {
    if s != [] {
      var p, c := s[..|s| - 1], s[|s| - 1];
      ParseIsPositional(p);
      assert DigitList(s) == DigitList(p) + [DigitValue(c)];
      PositionalSnoc(DigitList(p), DigitValue(c));
    }
  }
}
