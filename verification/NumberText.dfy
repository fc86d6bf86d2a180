/** intToString, itoa, tostr and atoi: integers to text and back. */
module NumberText {
  import opened CString
  import opened Numerals
  import opened SplitModule

  const INT_MIN := -0x8000_0000

  predicate IsInt(n: int) {
    INT_MIN <= n <= INT_MAX
  }

  function Abs(n: int): nat {
    if n < 0 then -n else n
  }

  /** The text of n in the given base, with a minus sign when negative. */
  function Text(n: int, base: int): seq<char>
    requires IsBase(base)
  {
    (if n < 0 then ['-'] else []) + Digits(Abs(n), base)
  }

  /** What the text of n is: after a minus sign, if n is negative, the one numeral of its absolute value without a
      superfluous zero. */
  lemma TextMeans(n: int, base: int) returns (digits: seq<char>)
    requires 2 <= base <= 36
    ensures Text(n, base) == if n < 0 then ['-'] + digits else digits
    ensures Canonical(digits, base) && Value(digits, base) == if n < 0 then -n else n
  {
    digits := Digits(Abs(n), base);
    assert [] + digits == digits;
    DigitsCanonical(Abs(n), base);
    ValueOfDigits(Abs(n), base);
  }

  /** The digits as the loops produce them: the lowest first. */
  function LowFirst(n: nat, base: int): seq<char>
    requires IsBase(base)
    decreases n
  {
    [DigitChar(n % base)] + if n < base then [] else LowFirst(n / base, base)
  }

  lemma {:induction false} LowFirstReversed(n: nat, base: int)
    requires IsBase(base)
    ensures Reversed(LowFirst(n, base)) == Digits(n, base)
    decreases n
  {
    Quotient(n, base);
    if n < base {
      assert LowFirst(n, base) == [DigitChar(n)];
      assert Reversed([]) == [];
    } else {
      LowFirstReversed(n / base, base);
      var low := LowFirst(n, base);
      assert low[1..] == LowFirst(n / base, base);
    }
  }

  lemma {:induction false} LowFirstDigits(n: nat, base: int, k: int)
    requires IsBase(base) && 0 <= k < |LowFirst(n, base)|
    ensures LowFirst(n, base)[k] != NUL
    decreases n
  {
    Quotient(n, base);
    DigitRoundTrip(n % base);
    if k > 0 { LowFirstDigits(n / base, base, k - 1); }
  }

  lemma ReversedSnoc(s: seq<char>, c: char)
    ensures Reversed(s + [c]) == [c] + Reversed(s)
  {}

  /** The loop and the sign of a number, reversed, are its text. */
  lemma SignedReversed(n: int, base: int)
    requires IsBase(base)
    ensures Reversed(LowFirst(Abs(n), base) + if n < 0 then ['-'] else []) == Text(n, base)
  {
    LowFirstReversed(Abs(n), base);
    if n < 0 {
      ReversedSnoc(LowFirst(Abs(n), base), '-');
    } else {
      assert LowFirst(Abs(n), base) + [] == LowFirst(Abs(n), base);
      assert [] + Digits(n, base) == Digits(n, base);
    }
  }

  /** What the digit loop has still to write. */
  function Pending(m: nat, base: int): seq<char>
    requires IsBase(base)
  {
    if m == 0 then [] else LowFirst(m, base)
  }

  lemma PendingStep(m: nat, base: int)
    requires IsBase(base)
    ensures 0 <= m % base < 36 && 0 <= m / base
    ensures LowFirst(m, base) == [DigitChar(m % base)] + Pending(m / base, base)
    ensures m > 0 ==> m / base < m
  {
    Quotient(m, base);
  }

  lemma Regroup(a: seq<char>, c: char, b: seq<char>)
    ensures a + ([c] + b) == (a + [c]) + b
  {}

  /** The digit loop: at least one digit, the lowest first. */
  method WriteDigits(n: nat, base: int, str: array<char>) returns (i: nat)
    requires IsBase(base) && |LowFirst(n, base)| <= str.Length
    modifies str
    ensures i == |LowFirst(n, base)| <= str.Length && str[..i] == LowFirst(n, base)
  {
    PendingStep(n, base);
    str[0] := DigitChar(n % base);
    var m: nat := n / base;
    i := 1;
    ghost var done := [DigitChar(n % base)];
    while m > 0
      invariant i == |done| <= str.Length
      invariant LowFirst(n, base) == done + Pending(m, base)
      invariant str[..i] == done
      decreases m
    {
      PendingStep(m, base);
      Regroup(done, DigitChar(m % base), Pending(m / base, base));
      str[i] := DigitChar(m % base);
      assert str[..i + 1] == str[..i] + [DigitChar(m % base)];
      done := done + [DigitChar(m % base)];
      i, m := i + 1, m / base;
    }
  }

  /** How intToString and itoa end: sign, terminator, reversal. */
  method Finish(negative: bool, count: nat, str: array<char>)
    requires count + (if negative then 1 else 0) < str.Length <= INT_MAX
    requires NUL !in str[..count]
    modifies str
    ensures Terminated(str[..], 0)
    ensures CStr(str[..], 0) == Reversed(old(str[..count]) + if negative then ['-'] else [])
  {
    ghost var low := str[..count];
    var i := count;
    if negative {
      str[i] := '-';
      i := i + 1;
    }
    str[i] := NUL;
    assert str[..i] == low + if negative then ['-'] else [];
    forall k | 0 <= k < i ensures str[k] != NUL { if k < count { assert str[k] == low[k]; } }
    StrEndIs(str[..], 0, i);
    ghost var all := str[..i];
    Reverse(str);
    assert str[..i] == Reversed(all);
    forall k | 0 <= k < i ensures str[k] != NUL { assert str[k] == all[i - 1 - k]; }
    StrEndIs(str[..], 0, i);
  }

  method IntToString(n: int, str: array<char>)
    requires IsInt(n) && n != INT_MIN && |Text(n, 10)| < str.Length <= INT_MAX
    modifies str
    ensures Terminated(str[..], 0) && CStr(str[..], 0) == Text(n, 10)
  {
    LowFirstReversed(Abs(n), 10);
    SignedReversed(n, 10);
    var m := n;
    if m < 0 {
      m := -m;
    }
    var i := WriteDigits(m, 10, str);
    forall k | 0 <= k < i ensures str[..i][k] != NUL { LowFirstDigits(Abs(n), 10, k); }
    Finish(n < 0, i, str);
  }

  /** The remainder and quotient of C, which truncate toward zero. */
  function Rem(v: int, base: int): int
    requires base > 0
  {
    if v < 0 then -(-v % base) else v % base
  }

  function Quot(v: int, base: int): int
    requires base > 0
  {
    if v < 0 then -(-v / base) else v / base
  }

  /** The character itoa writes for a remainder; a negative one ends up below '0'. */
  function RemChar(rem: int): char
    requires -36 < rem < 36
  {
    if rem > 9 then (rem - 10) as char + 'A' else (rem + '0' as int) as char
  }

  /** The same digits, each counted down from '0'. */
  function Below(s: seq<char>): (r: seq<char>)
    requires AllDigits(s, 36)
    ensures |r| == |s|
  {
    seq(|s|, k requires 0 <= k < |s| => RemChar(-(DigitValue(s[k]) as int)))
  }

  /** What itoa writes: negative numbers have a sign in base 10 only; in any other base their digits are counted
      down from '0'. */
  function ItoaText(value: int, base: int): seq<char>
    requires IsBase(base)
  {
    if value < 0 && base != 10 then DigitsCanonical(Abs(value), base); Below(Digits(Abs(value), base))
    else Text(value, base)
  }

  /** Turns digits counted down from '0' into digits counted up. */
  function Mirror(s: seq<char>): seq<char>
    requires forall k :: 0 <= k < |s| ==> 0 <= '0' as int - s[k] as int < 36
  {
    seq(|s|, k requires 0 <= k < |s| => DigitChar('0' as int - s[k] as int))
  }

  lemma MirrorBelow(s: seq<char>, base: int)
    requires IsBase(base) && AllDigits(s, base)
    ensures forall k :: 0 <= k < |s| ==> 0 <= '0' as int - Below(s)[k] as int < base
    ensures Mirror(Below(s)) == s
  {
    forall k | 0 <= k < |s|
      ensures 0 <= '0' as int - Below(s)[k] as int < base && DigitChar('0' as int - Below(s)[k] as int) == s[k]
    {
      CharRoundTrip(s[k]);
    }
  }

  /** Even those can be read back, every int of them. */
  lemma NegativeReadsBack(value: int, base: int)
    requires IsBase(base) && base != 10 && value < 0
    ensures var s := ItoaText(value, base);
            && (forall k :: 0 <= k < |s| ==> 0 <= '0' as int - s[k] as int < base)
            && Value(Mirror(s), base) == -value
  {
    DigitsCanonical(Abs(value), base);
    ValueOfDigits(Abs(value), base);
    MirrorBelow(Digits(Abs(value), base), base);
  }

  lemma {:induction false} LowFirstIsDigits(n: nat, base: int)
    requires IsBase(base)
    ensures AllDigits(LowFirst(n, base), 36)
    decreases n
  {
    Quotient(n, base);
    DigitRoundTrip(n % base);
    if n >= base { LowFirstIsDigits(n / base, base); }
  }

  /** The digits still to come, as itoa writes them for a number of that sign. */
  function Marked(m: nat, base: int, negative: bool): seq<char>
    requires IsBase(base)
  {
    LowFirstIsDigits(m, base);
    if negative then Below(Pending(m, base)) else Pending(m, base)
  }

  lemma MarkedStep(v: int, base: int)
    requires IsBase(base) && v != 0
    ensures -base < Rem(v, base) < base && Abs(Quot(v, base)) < Abs(v)
    ensures Quot(v, base) == 0 || (Quot(v, base) < 0 <==> v < 0)
    ensures Marked(Abs(v), base, v < 0) == [RemChar(Rem(v, base))] + Marked(Abs(Quot(v, base)), base, v < 0)
    ensures RemChar(Rem(v, base)) != NUL
  {
    var m := Abs(v);
    PendingStep(m, base);
    DigitRoundTrip(m % base);
    LowFirstIsDigits(m, base);
    LowFirstIsDigits(m / base, base);
    assert Abs(Quot(v, base)) == m / base;
    var all := Pending(m, base);
    assert all == [DigitChar(m % base)] + Pending(m / base, base);
  }

  lemma MarkedNoNul(m: nat, base: int, negative: bool)
    requires IsBase(base)
    ensures NUL !in Marked(m, base, negative)
  {
    if m > 0 {
      LowFirstIsDigits(m, base);
      forall k | 0 <= k < |LowFirst(m, base)| ensures LowFirst(m, base)[k] != NUL { LowFirstDigits(m, base, k); }
    }
  }

  /** The digit loop of itoa, in the arithmetic of C. */
  method WriteSigned(value: int, base: int, str: array<char>) returns (i: nat)
    requires IsBase(base) && value != 0 && |Marked(Abs(value), base, value < 0)| <= str.Length
    modifies str
    ensures i == |Marked(Abs(value), base, value < 0)| <= str.Length
    ensures str[..i] == Marked(Abs(value), base, value < 0) && NUL !in str[..i]
  {
    hide Marked, RemChar, Rem, Quot;
    ghost var done: seq<char> := [];
    var v := value;
    i := 0;
    while v != 0
      invariant v == 0 || (v < 0 <==> value < 0)
      invariant i == |done| <= str.Length && str[..i] == done
      invariant Marked(Abs(value), base, value < 0) == done + Marked(Abs(v), base, value < 0)
      decreases Abs(v)
    {
      MarkedStep(v, base);
      var c := RemChar(Rem(v, base));
      Regroup(done, c, Marked(Abs(Quot(v, base)), base, value < 0));
      str[i] := c;
      assert str[..i + 1] == str[..i] + [c];
      done := done + [c];
      i, v := i + 1, Quot(v, base);
    }
    MarkedNone(base, value < 0);
    MarkedNoNul(Abs(value), base, value < 0);
  }

  lemma MarkedNone(base: int, negative: bool)
    requires IsBase(base)
    ensures Marked(0, base, negative) == []
  {}

  lemma BelowReversed(s: seq<char>)
    requires AllDigits(s, 36)
    ensures AllDigits(Reversed(s), 36) && Reversed(Below(s)) == Below(Reversed(s))
  {}

  /** The loop and the sign of a number other than zero, reversed, are its text. */
  lemma MarkedReversed(value: int, base: int)
    requires IsBase(base) && value != 0
    ensures base == 10 ==> Reversed(Marked(Abs(value), 10, false) + if value < 0 then ['-'] else []) == Text(value, 10)
    ensures value < 0 && base != 10 ==> Reversed(Marked(Abs(value), base, true) + []) == ItoaText(value, base)
    ensures value > 0 ==> Reversed(Marked(value, base, false) + []) == Text(value, base)
    ensures |Marked(Abs(value), base, value < 0)| == |Digits(Abs(value), base)|
  {
    var low := LowFirst(Abs(value), base);
    LowFirstIsDigits(Abs(value), base);
    LowFirstReversed(Abs(value), base);
    SignedReversed(value, base);
    BelowReversed(low);
    assert Below(low) + [] == Below(low);
  }

  /** The digits above 9 are capital letters. */
  method Itoa(value: int, str: array<char>, base: int)
    requires IsInt(value) && IsBase(base) && (base == 10 ==> value != INT_MIN)
    requires |ItoaText(value, base)| < str.Length <= INT_MAX
    modifies str
    ensures Terminated(str[..], 0) && CStr(str[..], 0) == ItoaText(value, base)
  {
    hide Marked, Reversed;
    if value == 0 {
      str[0] := '0';
      str[1] := NUL;
      StrEndIs(str[..], 0, 1);
      return;
    }
    MarkedReversed(value, base);
    var v, isNegative := value, false;
    if v < 0 && base == 10 {
      isNegative := true;
      v := -v;
      MarkedReversed(v, base);
    }
    var i := WriteSigned(v, base, str);
    Finish(isNegative, i, str);
  }

  /** Number of decimal digits, counted by repeated division. */
  method CountDigits(value: nat) returns (n: nat)
    ensures n == |Digits(value, 10)|
  {
    Quotient(value, 10);
    n := 1;
    var temp := value / 10;
    while temp > 0
      invariant 0 <= temp && n + (if temp == 0 then 0 else |Digits(temp, 10)|) == |Digits(value, 10)|
      decreases temp
    {
      Quotient(temp, 10);
      n := n + 1;
      temp := temp / 10;
    }
  }

  /** The loop of tostr, which fills in the decimal digits of v from the last one on. */
  method FillDigits(v: nat, str: array<char>, sign: nat, numDigits: nat)
    requires numDigits == |Digits(v, 10)| && sign + numDigits < str.Length
    modifies str
    ensures forall k :: 0 <= k < numDigits ==> str[k + sign] == Digits(v, 10)[k]
    ensures str[numDigits + sign] == old(str[numDigits + sign])
  {
    ghost var digits := Digits(v, 10);
    var i, w := numDigits - 1, v;
    while i >= 0
      invariant -1 <= i < numDigits && 0 <= w
      invariant i >= 0 ==> digits[..i + 1] == Digits(w, 10)
      invariant str[numDigits + sign] == old(str[numDigits + sign])
      invariant forall k :: i < k < numDigits ==> str[k + sign] == digits[k]
    {
      Quotient(w, 10);
      assert digits[i] == digits[..i + 1][i];
      assert i > 0 ==> digits[..i] == digits[..i + 1][..i];
      str[i + sign] := DigitChar(w % 10);
      w := w / 10;
      i := i - 1;
    }
  }

  /** The parts of a signed text, element by element. */
  lemma TextFrom(s: seq<char>, value: int, sign: nat)
    requires var digits := Digits(Abs(value), 10);
             && sign == (if value < 0 then 1 else 0) && |s| == sign + |digits| + 1
             && (value < 0 ==> s[0] == '-') && s[|s| - 1] == NUL
             && forall k :: 0 <= k < |digits| ==> s[k + sign] == digits[k]
    ensures s == Text(value, 10) + [NUL]
  {
    var t := Text(value, 10) + [NUL];
    forall k | 0 <= k < |s| ensures s[k] == t[k] { if sign <= k < |s| - 1 { assert s[(k - sign) + sign] == s[k]; } }
  }

  /** tostr: the text of a number in a block of its own, filled from the end; NULL without memory. */
  method ToStr(value: int, heap: Allocator) returns (str: array?<char>)
    requires IsInt(value) && value != INT_MIN
    modifies heap
    ensures str == null <==> old(heap.budget) == 0
    ensures str != null ==> fresh(str) && str[..] == Text(value, 10) + [NUL]
    ensures str != null ==> Terminated(str[..], 0) && CStr(str[..], 0) == Text(value, 10)
  {
    var isNegative := value < 0;
    var v: nat := if isNegative then -value else value;
    var numDigits := CountDigits(v);
    var sign := if isNegative then 1 else 0;
    str := heap.MallocChars(numDigits + sign + 1);
    if str == null {
      return;
    }
    str[numDigits + sign] := NUL;
    FillDigits(v, str, sign, numDigits);
    if isNegative {
      str[0] := '-';
    }
    TextFrom(str[..], value, sign);
    TextHasNoNul(value, 10);
    StrEndIs(str[..], 0, numDigits + sign);
  }

  lemma TextHasNoNul(n: int, base: int)
    requires IsBase(base)
    ensures forall k :: 0 <= k < |Text(n, base)| ==> Text(n, base)[k] != NUL
  {
    DigitsCanonical(Abs(n), base);
    forall k | 0 <= k < |Digits(Abs(n), base)|
      ensures Digits(Abs(n), base)[k] != NUL
    {
      assert DigitValue(Digits(Abs(n), base)[k]) < base;
    }
  }

  // ----- Back to a number -----

  /** First position at or after i without blank, tab or newline. */
  function AfterBlanks(s: seq<char>, i: nat): (r: nat)
    requires i <= |s|
    ensures i <= r <= |s|
    decreases |s| - i
  {
    if i < |s| && s[i] in {' ', '\t', '\n'} then AfterBlanks(s, i + 1) else i
  }

  /** First position at or after i without a decimal digit. */
  function AfterDigits(s: seq<char>, i: nat): (r: nat)
    requires i <= |s|
    ensures i <= r <= |s|
    decreases |s| - i
  {
    if i < |s| && '0' <= s[i] <= '9' then AfterDigits(s, i + 1) else i
  }

  function SignAt(s: seq<char>, i: nat): (int, nat)
    requires i <= |s|
  {
    if i < |s| && s[i] == '-' then (-1, i + 1)
    else if i < |s| && s[i] == '+' then (1, i + 1)
    else (1, i)
  }

  /** The digits atoi reads: after blanks and at most one sign, up to the first other character. */
  function Magnitude(s: seq<char>): seq<char> {
    var i := SignAt(s, AfterBlanks(s, 0)).1;
    s[i..AfterDigits(s, i)]
  }

  function AtoiValue(s: seq<char>): int {
    SignAt(s, AfterBlanks(s, 0)).0 * Value(Magnitude(s), 10)
  }

  method SkipBlanks(str: array<char>) returns (i: nat)
    requires Terminated(str[..], 0)
    ensures i == AfterBlanks(CStr(str[..], 0), 0)
  {
    ghost var s := CStr(str[..], 0);
    i := 0;
    while str[i] == ' ' || str[i] == '\t' || str[i] == '\n'
      invariant i <= |s| == StrEnd(str[..], i) && AfterBlanks(s, i) == AfterBlanks(s, 0)
      decreases |s| - i
    {
      i := i + 1;
    }
  }

  /** One digit more, still within int. */
  lemma DigitStep(all: seq<char>, k: nat)
    requires k < |all| && '0' <= all[k] <= '9' && Value(all, 10) <= INT_MAX
    ensures Value(all[..k + 1], 10) == Value(all[..k], 10) * 10 + (all[k] - '0') as int <= INT_MAX
  {
    assert all[..k + 1] == all[..k] + [all[k]];
    ValueSnoc(all[..k], all[k], 10);
    ValueOfPrefix(all, k + 1);
  }

  /** The digit loop of atoi; the accumulator is an int all along. */
  method ReadDigits(str: array<char>, start: nat) returns (result: int)
    requires Terminated(str[..], 0) && start <= StrEnd(str[..], 0)
    requires var s := CStr(str[..], 0); Value(s[start..AfterDigits(s, start)], 10) <= INT_MAX
    ensures var s := CStr(str[..], 0); result == Value(s[start..AfterDigits(s, start)], 10)
  {
    ghost var s := CStr(str[..], 0);
    ghost var all := s[start..AfterDigits(s, start)];
    var i := start;
    result := 0;
    SameEnd(str[..], 0, start);
    assert Value(all[..0], 10) == 0;
    hide Value;
    while '0' <= str[i] <= '9'
      invariant start <= i <= |s| == StrEnd(str[..], i) && AfterDigits(s, i) == AfterDigits(s, start)
      invariant 0 <= i - start <= |all| && 0 <= result && result == Value(all[..i - start], 10)
      decreases |s| - i
    {
      DigitStep(all, i - start);
      result := result * 10 + (str[i] - '0') as int;
      assert IsInt(result);
      i := i + 1;
    }
    assert all[..i - start] == all;
  }

  /** atoi, on strings whose digits stay within int. */
  method Atoi(str: array<char>) returns (r: int)
    requires Terminated(str[..], 0) && Value(Magnitude(CStr(str[..], 0)), 10) <= INT_MAX
    ensures r == AtoiValue(CStr(str[..], 0))
  {
    var i := SkipBlanks(str);
    var sign := 1;
    SameEnd(str[..], 0, i);
    if str[i] == '-' || str[i] == '+' {
      sign := if str[i] == '-' then -1 else 1;
      i := i + 1;
    }
    var result := ReadDigits(str, i);
    r := sign * result;
  }

  /** A numeral is worth at least as much as any of its beginnings. */
  lemma {:induction false} ValueOfPrefix(s: seq<char>, k: int)
    requires 0 <= k <= |s|
    ensures Value(s[..k], 10) <= Value(s, 10)
    decreases |s|
  {
    if k < |s| {
      ValueSplit(s, 10);
      ValueOfPrefix(s[..|s| - 1], k);
      assert s[..|s| - 1][..k] == s[..k];
    } else {
      assert s[..k] == s;
    }
  }

  /** Blanks before, and anything but a digit after. */
  predicate Surrounds(blanks: seq<char>, rest: seq<char>) {
    && (forall k :: 0 <= k < |blanks| ==> blanks[k] in {' ', '\t', '\n'})
    && (rest != [] ==> !('0' <= rest[0] <= '9'))
  }

  lemma {:induction false} SkipsBlanks(s: seq<char>, i: nat, j: nat)
    requires i <= j <= |s| && (forall k :: i <= k < j ==> s[k] in {' ', '\t', '\n'})
    requires j < |s| ==> s[j] !in {' ', '\t', '\n'}
    ensures AfterBlanks(s, i) == j
    decreases j - i
  {
    if i < j { SkipsBlanks(s, i + 1, j); }
  }

  lemma {:induction false} TakesDigits(s: seq<char>, i: nat, j: nat)
    requires i <= j <= |s| && (forall k :: i <= k < j ==> '0' <= s[k] <= '9')
    requires j < |s| ==> !('0' <= s[j] <= '9')
    ensures AfterDigits(s, i) == j
    decreases j - i
  {
    if i < j { TakesDigits(s, i + 1, j); }
  }

  lemma DecimalDigits(n: nat)
    ensures forall k :: 0 <= k < |Digits(n, 10)| ==> '0' <= Digits(n, 10)[k] <= '9'
  {
    DigitsCanonical(n, 10);
    forall k | 0 <= k < |Digits(n, 10)|
      ensures '0' <= Digits(n, 10)[k] <= '9'
    {
      assert DigitValue(Digits(n, 10)[k]) < 10;
    }
  }

  lemma {:induction false} BlanksUpTo(s: seq<char>, i: nat)
    requires i <= |s|
    ensures forall k :: i <= k < AfterBlanks(s, i) ==> s[k] in {' ', '\t', '\n'}
    ensures AfterBlanks(s, i) < |s| ==> s[AfterBlanks(s, i)] !in {' ', '\t', '\n'}
    decreases |s| - i
  {
    if i < |s| && s[i] in {' ', '\t', '\n'} { BlanksUpTo(s, i + 1); }
  }

  lemma {:induction false} DigitsUpTo(s: seq<char>, i: nat)
    requires i <= |s|
    ensures forall k :: i <= k < AfterDigits(s, i) ==> '0' <= s[k] <= '9'
    ensures AfterDigits(s, i) < |s| ==> !('0' <= s[AfterDigits(s, i)] <= '9')
    decreases |s| - i
  {
    if i < |s| && '0' <= s[i] <= '9' { DigitsUpTo(s, i + 1); }
  }

  /** Blanks, at most one sign of either kind, digits if there are any, and what stops them. */
  predicate AtoiParts(blanks: seq<char>, sign: seq<char>, digits: seq<char>, rest: seq<char>) {
    && Surrounds(blanks, rest)
    && sign in {"", "-", "+"}
    && (forall k :: 0 <= k < |digits| ==> '0' <= digits[k] <= '9')
    && (sign + digits == [] && rest != [] ==> rest[0] !in {' ', '\t', '\n', '-', '+'})
  }

  lemma FourParts(s: seq<char>, b: nat, d: nat, e: nat)
    requires b <= d <= e <= |s|
    ensures s == s[..b] + s[b..d] + s[d..e] + s[e..]
  {}

  /** Every string has such parts. */
  lemma AtoiCovers(s: seq<char>) returns (blanks: seq<char>, sign: seq<char>, digits: seq<char>, rest: seq<char>)
    ensures AtoiParts(blanks, sign, digits, rest) && s == blanks + sign + digits + rest
  {
    var b := AfterBlanks(s, 0);
    var d := if b < |s| && s[b] in {'-', '+'} then b + 1 else b;
    var e := AfterDigits(s, d);
    BlanksUpTo(s, 0);
    DigitsUpTo(s, d);
    blanks, sign, digits, rest := s[..b], s[b..d], s[d..e], s[e..];
    assert sign == if d == b then [] else [s[b]];
    forall k | 0 <= k < |digits| ensures '0' <= digits[k] <= '9' { assert digits[k] == s[d + k]; }
    FourParts(s, b, d, e);
  }

  /** The same parts by position. */
  lemma PartsAt(blanks: seq<char>, sign: seq<char>, digits: seq<char>, rest: seq<char>, s: seq<char>)
    requires s == blanks + sign + digits + rest && AtoiParts(blanks, sign, digits, rest)
    ensures var b := |blanks|; var d := b + |sign|; var e := d + |digits|;
            && d <= e <= |s| && s[d..e] == digits
            && (forall k :: 0 <= k < b ==> s[k] in {' ', '\t', '\n'})
            && (b < |s| ==> s[b] !in {' ', '\t', '\n'} && (s[b] in {'-', '+'} <==> sign == [s[b]]))
            && (forall k :: d <= k < e ==> '0' <= s[k] <= '9')
            && (e < |s| ==> !('0' <= s[e] <= '9'))
  {
    var d := |blanks| + |sign|;
    forall k | d <= k < d + |digits| ensures '0' <= s[k] <= '9' { assert s[k] == digits[k - d]; }
  }

  /** What atoi makes of any string: the value of its digits, negated behind a minus sign. Without a digit behind the
      blanks and one sign it is 0. */
  lemma AtoiMeans(blanks: seq<char>, sign: seq<char>, digits: seq<char>, rest: seq<char>, s: seq<char>)
    requires s == blanks + sign + digits + rest && AtoiParts(blanks, sign, digits, rest)
    ensures Magnitude(s) == digits
    ensures AtoiValue(s) == (if sign == "-" then -1 else 1) * Value(digits, 10)
    ensures digits == [] ==> AtoiValue(s) == 0
  {
    var b := |blanks|;
    var d := b + |sign|;
    PartsAt(blanks, sign, digits, rest, s);
    SkipsBlanks(s, 0, b);
    TakesDigits(s, d, d + |digits|);
  }

  lemma Five()
    ensures Value("5", 10) == 5
  {
    ValueMeans([], 5, 10);
    assert [] + ['5'] == "5";
  }

  /** One sign of either kind before a digit. */
  lemma OneSign()
    ensures AtoiValue("+5") == 5 && AtoiValue("-5") == -5
  {
    Five();
    hide Value, AtoiValue;
    AtoiMeans("", "+", "5", "", "+5");
    AtoiMeans("", "-", "5", "", "-5");
  }

  /** A second sign ends the number before it begins. */
  lemma TwoSigns()
    ensures AtoiValue("+-5") == 0 && AtoiValue("--5") == 0
  {
    hide Value, AtoiValue;
    AtoiMeans("", "+", "", "-5", "+-5");
    AtoiMeans("", "-", "", "-5", "--5");
  }

  /** atoi reads the text of n back as n, also behind blanks and before anything that is not a digit. */
  lemma AtoiOfText(blanks: seq<char>, n: int, rest: seq<char>)
    requires Surrounds(blanks, rest)
    ensures Value(Magnitude(blanks + Text(n, 10) + rest), 10) == Abs(n)
    ensures AtoiValue(blanks + Text(n, 10) + rest) == n
  {
    var sign, digits := if n < 0 then ['-'] else [], Digits(Abs(n), 10);
    assert blanks + sign + digits == blanks + Text(n, 10);
    DecimalDigits(Abs(n));
    AtoiMeans(blanks, sign, digits, rest, blanks + Text(n, 10) + rest);
    ValueOfDigits(Abs(n), 10);
  }

  /** Texts of int values are short: at most 11 characters in base 10, 31 in any base for non-negative values. */
  lemma TextLength(n: int, base: int)
    requires -0x8000_0000 < n <= 0x7FFF_FFFF && 2 <= base <= 36
    ensures |Text(n, 10)| <= 11
    ensures n >= 0 ==> |Text(n, base)| <= 31
  {
    assert Power(10, 10) == 10_000_000_000 by { PowerTen(); }
    DigitCount(Abs(n), 10, 10);
    PowerOfTwo(base);
    DigitCount(Abs(n), base, 31);
  }

  lemma PowerTen()
    ensures Power(10, 10) == 10_000_000_000
  {
    assert Power(10, 5) == 100_000;
    assert Power(10, 8) == 100_000_000;
  }

  lemma {:induction false} PowerMonotone(base: int, k: nat)
    requires IsBase(base)
    ensures 0 < Power(2, k) <= Power(base, k)
  {
    if k > 0 {
      PowerMonotone(base, k - 1);
      assert 2 * Power(2, k - 1) <= base * Power(base, k - 1);
    }
  }

  lemma PowerOfTwo(base: int)
    requires IsBase(base)
    ensures INT_MAX < Power(base, 31)
  {
    PowerMonotone(base, 31);
    assert Power(2, 4) == 16;
    assert Power(2, 7) == 128;
    assert Power(2, 10) == 1024;
    assert Power(2, 13) == 8192;
    assert Power(2, 16) == 0x1_0000;
    assert Power(2, 19) == 0x8_0000;
    assert Power(2, 22) == 0x40_0000;
    assert Power(2, 25) == 0x200_0000;
    assert Power(2, 28) == 0x1000_0000;
    assert Power(2, 31) == 0x8000_0000;
  }

  /** The three writers agree, and atoi gives the number back, for every int but the least. */
  method TextAndBack(n: int, a: array<char>, b: array<char>, heap: Allocator)
    returns (c: array?<char>, fromA: int, fromB: int)
    requires -0x8000_0000 < n <= 0x7FFF_FFFF && a != b
    requires 12 <= a.Length <= INT_MAX && 12 <= b.Length <= INT_MAX
    modifies a, b, heap
    ensures Terminated(a[..], 0) && Terminated(b[..], 0) && CStr(a[..], 0) == CStr(b[..], 0)
    ensures c != null ==> Terminated(c[..], 0) && CStr(c[..], 0) == CStr(a[..], 0)
    ensures fromA == fromB == n
  {
    TextLength(n, 10);
    AtoiOfText([], n, []);
    assert [] + Text(n, 10) + [] == Text(n, 10);
    IntToString(n, a);
    Itoa(n, b, 10);
    c := ToStr(n, heap);
    fromA := Atoi(a);
    fromB := Atoi(b);
  }
}
