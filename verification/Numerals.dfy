/** Numbers as digit strings in bases 2 to 36, most significant digit first. */
module Numerals {

  predicate IsBase(base: int) {
    2 <= base <= 36
  }

  function DigitChar(d: int): char
    requires 0 <= d < 36
  {
    if d > 9 then (d - 10) as char + 'A' else d as char + '0'
  }

  /** The value of a digit character, or a number no base reaches. */
  function DigitValue(c: char): nat {
    if '0' <= c <= '9' then (c - '0') as nat
    else if 'A' <= c <= 'Z' then (c - 'A') as nat + 10
    else 36
  }

  predicate AllDigits(s: seq<char>, base: int) {
    forall k :: 0 <= k < |s| ==> DigitValue(s[k]) < base
  }

  /** A numeral as one writes it: no leading zero except for zero itself. */
  predicate Canonical(s: seq<char>, base: int) {
    s != [] && AllDigits(s, base) && (s[0] == '0' ==> |s| == 1)
  }

  function Digits(n: nat, base: int): (s: seq<char>)
    requires IsBase(base)
    ensures s != []
    decreases n
  {
    if n < base then [DigitChar(n)] else Digits(n / base, base) + [DigitChar(n % base)]
  }

  function Value(s: seq<char>, base: int): nat
    requires IsBase(base)
  {
    if s == [] then 0 else Value(s[..|s| - 1], base) * base + DigitValue(s[|s| - 1])
  }

  lemma DigitRoundTrip(d: int)
    requires 0 <= d < 36
    ensures DigitValue(DigitChar(d)) == d
    ensures DigitChar(d) == '0' <==> d == 0
    ensures DigitChar(d) != '-' && DigitChar(d) != '+' && DigitChar(d) != '\0' && DigitChar(d) != ' '
  {}

  lemma CharRoundTrip(c: char)
    requires DigitValue(c) < 36
    ensures DigitChar(DigitValue(c)) == c
  {}

  lemma ValueSnoc(s: seq<char>, c: char, base: int)
    requires IsBase(base)
    ensures Value(s + [c], base) == Value(s, base) * base + DigitValue(c)
  {
    assert (s + [c])[..|s|] == s;
  }

  /** What the digits look like. */
  lemma DigitMeans(d: int)
    requires 0 <= d < 36
    ensures DigitChar(d) == "0123456789ABCDEFGHIJKLMNOPQRSTUVWXYZ"[d]
  {}

  /** What numerals are worth: nothing without a digit, and each further digit counts once while the ones before it
      count base times as much. */
  lemma ValueMeans(s: seq<char>, d: nat, base: int)
    requires IsBase(base) && d < base
    ensures Value([], base) == 0
    ensures Value(s + ["0123456789ABCDEFGHIJKLMNOPQRSTUVWXYZ"[d]], base) == Value(s, base) * base + d
  {
    DigitMeans(d);
    DigitRoundTrip(d);
    assert Value([], base) == 0;
    hide DigitChar, DigitValue, Value;
    ValueSnoc(s, DigitChar(d), base);
  }

  lemma Factor(a: int, base: int)
    requires base > 0
    ensures a >= 1 ==> a * base >= base
    ensures a <= -1 ==> a * base <= -base
  {}

  lemma Quotient(n: nat, base: int)
    requires IsBase(base)
    ensures n / base * base + n % base == n && 0 <= n % base < base
    ensures n >= base ==> 0 < n / base < n
    ensures n < base ==> n % base == n
  {
    var q := n / base;
    assert n == q * base + n % base;
    Factor(q, base);
    Factor(1 - q, base);
  }

  lemma DigitsSplit(n: nat, base: int)
    requires IsBase(base)
    ensures n < base ==> Digits(n, base) == [DigitChar(n)]
    ensures n >= base ==> 0 < n / base && Digits(n, base) == Digits(n / base, base) + [DigitChar(n % base)]
  {
    Quotient(n, base);
  }

  /** Writing a number and reading it back. */
  lemma {:induction false} ValueOfDigits(n: nat, base: int)
    requires IsBase(base)
    ensures Value(Digits(n, base), base) == n
    decreases n
  {
    Quotient(n, base);
    DigitsSplit(n, base);
    DigitRoundTrip(n % base);
    hide Digits, DigitChar, DigitValue;
    if n < base {
      ValueSnoc([], DigitChar(n), base);
      assert [] + [DigitChar(n)] == [DigitChar(n)];
    } else {
      ValueOfDigits(n / base, base);
      ValueSnoc(Digits(n / base, base), DigitChar(n % base), base);
    }
  }

  /** What is written is canonical. */
  lemma {:induction false} DigitsCanonical(n: nat, base: int)
    requires IsBase(base)
    ensures Canonical(Digits(n, base), base)
    ensures Digits(n, base)[0] == '0' <==> n == 0
    decreases n
  {
    Quotient(n, base);
    DigitRoundTrip(n % base);
    if n >= base { DigitsCanonical(n / base, base); }
  }

  lemma DivideStep(v: nat, d: nat, base: int)
    requires IsBase(base) && d < base
    ensures (v * base + d) / base == v && (v * base + d) % base == d
  {
    var n := v * base + d;
    var q := n / base;
    Quotient(n, base);
    Factor(v - q, base);
    assert (v - q) * base == n % base - d;
  }

  lemma ValueSplit(s: seq<char>, base: int)
    requires IsBase(base) && s != []
    ensures Value(s, base) == Value(s[..|s| - 1], base) * base + DigitValue(s[|s| - 1])
  {}

  lemma ProductAtLeast(v: nat, base: int)
    requires IsBase(base) && v > 0
    ensures v * base >= base
  {}

  /** A numeral without a leading zero has a positive value. */
  lemma {:induction false} PrefixPositive(s: seq<char>, base: int)
    requires IsBase(base) && s != [] && AllDigits(s, base) && s[0] != '0'
    ensures Value(s, base) > 0
    decreases |s|
  {
    ValueSplit(s, base);
    if |s| == 1 {
      CharRoundTrip(s[0]);
    } else {
      PrefixPositive(s[..|s| - 1], base);
      ProductAtLeast(Value(s[..|s| - 1], base), base);
    }
  }

  /** Appending a digit to a number. */
  lemma DigitsSnoc(v: nat, d: nat, base: int)
    requires IsBase(base) && d < base && v > 0
    ensures Digits(v * base + d, base) == Digits(v, base) + [DigitChar(d)]
  {
    ProductAtLeast(v, base);
    DivideStep(v, d, base);
  }

  lemma DigitOfValue(c: char, base: int)
    requires IsBase(base) && DigitValue(c) < base
    ensures Digits(Value([c], base), base) == [c]
  {
    CharRoundTrip(c);
    assert [c][..0] == [];
    DigitsSplit(DigitValue(c), base);
  }

  lemma SnocRoundTrip(t: seq<char>, c: char, base: int)
    requires IsBase(base) && DigitValue(c) < base
    requires Value(t, base) > 0 && Digits(Value(t, base), base) == t
    ensures Digits(Value(t + [c], base), base) == t + [c]
  {
    CharRoundTrip(c);
    hide IsBase, Digits, Value, DigitValue, DigitChar;
    ValueSnoc(t, c, base);
    DigitsSnoc(Value(t, base), DigitValue(c), base);
  }

  /** Reading a canonical numeral and writing its value gives the numeral back: each number has one. */
  lemma {:induction false} DigitsOfValue(s: seq<char>, base: int)
    requires IsBase(base) && Canonical(s, base)
    ensures Digits(Value(s, base), base) == s
    decreases |s|
  {
    hide Digits, Value, DigitValue;
    var t, c := s[..|s| - 1], s[|s| - 1];
    assert DigitValue(c) < base;
    assert s == t + [c];
    if |s| == 1 {
      DigitOfValue(c, base);
    } else {
      PrefixPositive(t, base);
      DigitsOfValue(t, base);
      SnocRoundTrip(t, c, base);
    }
  }

  /** A number below base to the k has at most k digits. */
  function Power(base: int, k: nat): int {
    if k == 0 then 1 else base * Power(base, k - 1)
  }

  lemma {:induction false} DigitCount(n: nat, base: int, k: nat)
    requires IsBase(base) && 0 < k && n < Power(base, k)
    ensures |Digits(n, base)| <= k
    decreases k
  {
    if n >= base {
      QuotientBound(n, base, Power(base, k - 1));
      Quotient(n, base);
      DigitCount(n / base, base, k - 1);
    }
  }

  lemma QuotientBound(n: nat, base: int, p: int)
    requires IsBase(base) && n < base * p
    ensures n / base < p
  {
    assert n / base * base <= n;
  }
}
