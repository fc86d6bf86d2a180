/** kvprintf: a format interpreter. Its output is given by pure functions on the format and the arguments. */
module Kvprintf {
  import opened CString
  import opened Numerals
  import opened NumberText

  const UINT64_SIZE := 0x1_0000_0000_0000_0000
  const LONG_MIN := -0x8000_0000_0000_0000
  const NUMBUF := 32

  /** A variadic argument: a 64-bit word, or a pointer to a string, possibly NULL. */
  datatype Arg = Word(bits: int) | Str(text: seq<char>) | NullStr

  /** One parsed directive: flags, width, precision (-1 when absent) and letter. */
  datatype Directive = Directive(left: bool, zero: bool, width: nat, precision: int, spec: char)

  // ----- Reading the format -----

  /** The character at p; the format ends in a NUL that may be read but not passed. */
  function At(fmt: seq<char>, p: nat): char
    requires p <= |fmt|
  {
    if p < |fmt| then fmt[p] else NUL
  }

  predicate IsDigit(c: char) { '0' <= c <= '9' }

  /** Value and end of the digits from p on, with v accumulated before. */
  function NumberAt(fmt: seq<char>, p: nat, v: nat): (r: (nat, nat))
    requires p <= |fmt|
    ensures v <= r.0 && p <= r.1 <= |fmt|
    decreases |fmt| - p
  {
    if p < |fmt| && IsDigit(fmt[p]) then NumberAt(fmt, p + 1, v * 10 + (fmt[p] - '0') as nat)
    else (v, p)
  }

  function SkipIf(fmt: seq<char>, p: nat, c: char): (q: nat)
    requires p <= |fmt|
    ensures p <= q <= |fmt|
  {
    if p < |fmt| && fmt[p] == c then p + 1 else p
  }

  /** The two flags, in this order, at most once each. */
  function Flags(fmt: seq<char>, p: nat): (r: (bool, bool, nat))
    requires p <= |fmt|
    ensures p <= r.2 <= |fmt|
  {
    var p1 := SkipIf(fmt, p, '-');
    var p2 := SkipIf(fmt, p1, '0');
    (p1 > p, p2 > p1, p2)
  }

  /** The precision, -1 when there is no point, and the end. */
  function PrecisionAt(fmt: seq<char>, p: nat): (r: (int, nat))
    requires p <= |fmt|
    ensures -1 <= r.0 && p <= r.1 <= |fmt|
  {
    if p < |fmt| && fmt[p] == '.' then NumberAt(fmt, p + 1, 0) else (-1, p)
  }

  /** Parses what follows a percent sign, and where the format goes on. A directive cut off by the end of the
      format has the letter NUL. */
  function Parse(fmt: seq<char>, p: nat): (r: (Directive, nat))
    requires p <= |fmt|
    ensures p < r.1 && r.1 <= |fmt| + 1
    ensures r.1 == |fmt| + 1 ==> r.0.spec == NUL
  {
    var (left, zero, p2) := Flags(fmt, p);
    var (width, p3) := NumberAt(fmt, p2, 0);
    var (precision, p5) := PrecisionAt(fmt, p3);
    var p6 := SkipIf(fmt, p5, 'l');
    (Directive(left, zero, width, precision, At(fmt, p6)), p6 + 1)
  }

  /** Every directive from p on is complete, and its numbers fit an int. */
  predicate Complete(fmt: seq<char>, p: nat)
    requires p <= |fmt|
    decreases |fmt| - p
  {
    p == |fmt| ||
    if fmt[p] != '%' then Complete(fmt, p + 1)
    else
      var (d, next) := Parse(fmt, p + 1);
      next <= |fmt| && d.width <= INT_MAX && d.precision <= INT_MAX && Complete(fmt, next)
  }

  // ----- Arguments -----

  function Signed(bits: int): int {
    if bits < -LONG_MIN then bits else bits - UINT64_SIZE
  }

  /** The argument a directive consumes has the type its letter asks for. */
  predicate Suits(spec: char, args: seq<Arg>) {
    match spec
    case 'd' => args != [] && args[0].Word? && 0 <= args[0].bits < UINT64_SIZE && Signed(args[0].bits) != LONG_MIN
    case 'i' => args != [] && args[0].Word? && 0 <= args[0].bits < UINT64_SIZE && Signed(args[0].bits) != LONG_MIN
    case 'u' => args != [] && args[0].Word? && 0 <= args[0].bits < UINT64_SIZE
    case 'x' => args != [] && args[0].Word? && 0 <= args[0].bits < UINT64_SIZE
    case 'X' => args != [] && args[0].Word? && 0 <= args[0].bits < UINT64_SIZE
    case 'p' => args != [] && args[0].Word? && 0 <= args[0].bits < UINT64_SIZE
    case 'c' => args != [] && args[0].Word? && 0 <= args[0].bits < UINT64_SIZE
    case 's' => args != [] && !args[0].Word? && (args[0].Str? ==> NUL !in args[0].text && |args[0].text| <= INT_MAX)
    case _ => true
  }

  predicate Consumes(spec: char) {
    spec in {'d', 'i', 'u', 'x', 'X', 'p', 'c', 's'}
  }

  function Rest(spec: char, args: seq<Arg>): seq<Arg> {
    if Consumes(spec) && args != [] then args[1..] else args
  }

  /** The arguments suit the directives of the format from p on. */
  predicate WellTyped(fmt: seq<char>, p: nat, args: seq<Arg>)
    requires p <= |fmt| && Complete(fmt, p)
    decreases |fmt| - p
  {
    p == |fmt| ||
    if fmt[p] != '%' then WellTyped(fmt, p + 1, args)
    else
      var (d, next) := Parse(fmt, p + 1);
      Suits(d.spec, args) && WellTyped(fmt, next, Rest(d.spec, args))
  }

  // ----- What is printed -----

  function Times(c: char, n: int): (s: seq<char>)
    ensures |s| == if n > 0 then n else 0
    ensures forall k :: 0 <= k < |s| ==> s[k] == c
  {
    if n > 0 then seq(n, _ => c) else []
  }

  function Lower(c: char): char {
    if 'A' <= c <= 'Z' then c - 'A' + 'a' else c
  }

  function LowerAll(s: seq<char>): (r: seq<char>)
    ensures |r| == |s|
  {
    seq(|s|, k requires 0 <= k < |s| => Lower(s[k]))
  }

  /** Sign and digits of a number. */
  function Core(n: int, base: int): seq<char>
    requires IsBase(base)
  {
    (if n < 0 then ['-'] else []) + LowerAll(Digits(Abs(n), base))
  }

  function Over(a: int, b: int): nat {
    if a > b then a - b else 0
  }

  /** Padding, zeros, number, padding. */
  function Pieces(d: Directive, pad: int, zeros: int, core: seq<char>): seq<char> {
    (if d.left then [] else Times(if d.zero then '0' else ' ', pad))
    + Times('0', zeros) + core + (if d.left then Times(' ', pad) else [])
  }

  /** A number in its field. The precision counts the sign, and its zeros come before the sign. */
  function Number(d: Directive, n: int, base: int): seq<char>
    requires IsBase(base)
  {
    var core := Core(n, base);
    var zeros := Over(d.precision, |core|);
    Pieces(d, Over(d.width, |core| + zeros), zeros, core)
  }

  function InField(d: Directive, text: seq<char>): seq<char> {
    var pad := Over(d.width, |text|);
    (if d.left then [] else Times(' ', pad)) + text + (if d.left then Times(' ', pad) else [])
  }

  function Truncated(s: seq<char>, precision: int): seq<char> {
    if 0 <= precision < |s| then s[..precision] else s
  }

  /** The k lowest hexadecimal digits of u, highest first. */
  function Nibbles(u: nat, k: nat): seq<char> {
    if k == 0 then [] else Nibbles(u / 16, k - 1) + [Lower(DigitChar(u % 16))]
  }

  function Render(d: Directive, args: seq<Arg>): seq<char>
    requires Suits(d.spec, args)
  {
    match d.spec
    case 'd' => Number(d, Signed(args[0].bits), 10)
    case 'i' => Number(d, Signed(args[0].bits), 10)
    case 'u' => Number(d, args[0].bits, 10)
    case 'x' => Number(d, args[0].bits, 16)
    case 'X' => Number(d, args[0].bits, 16)
    case 'p' => "0x" + Nibbles(args[0].bits, 16)
    case 'c' => InField(d, [(args[0].bits % 256) as char])
    case 's' => InField(d, Truncated(if args[0].Str? then args[0].text else "(null)", d.precision))
    case '%' => ['%']
    case _ => ['%', d.spec]
  }

  /** What a format asks for, piece by piece: a character, or a directive with the arguments from its own on. */
  datatype Item = Plain(c: char) | Conversion(d: Directive, args: seq<Arg>)

  function Items(fmt: seq<char>, p: nat, args: seq<Arg>): seq<Item>
    requires p <= |fmt| && Complete(fmt, p)
    decreases |fmt| - p
  {
    if p == |fmt| then []
    else if fmt[p] != '%' then [Plain(fmt[p])] + Items(fmt, p + 1, args)
    else
      var (d, next) := Parse(fmt, p + 1);
      [Conversion(d, args)] + Items(fmt, next, Rest(d.spec, args))
  }

  function ItemText(i: Item): seq<char> {
    match i
    case Plain(c) => [c]
    case Conversion(d, args) => if Suits(d.spec, args) then Render(d, args) else []
  }

  function Print(items: seq<Item>): seq<char> {
    if items == [] then [] else ItemText(items[0]) + Print(items[1..])
  }

  /** The output of kvprintf. */
  function Format(fmt: seq<char>, args: seq<Arg>): seq<char>
    requires Complete(fmt, 0)
  {
    Print(Items(fmt, 0, args))
  }

  // ----- What the fields mean -----

  function Max(a: int, b: int): int {
    if a > b then a else b
  }

  /** An integer directive prints the largest of width, precision and the number of digits and sign. */
  lemma NumberWidth(d: Directive, n: int, base: int)
    requires IsBase(base)
    ensures |Number(d, n, base)| == Max(d.width, Max(d.precision, |Core(n, base)|))
  {}

  lemma LowerKeepsDecimals(s: seq<char>)
    requires AllDigits(s, 10)
    ensures LowerAll(s) == s
  {
    forall k | 0 <= k < |s| ensures LowerAll(s)[k] == s[k] { assert DigitValue(s[k]) < 10; }
  }

  lemma CoreIsText(n: int)
    ensures Core(n, 10) == Text(n, 10)
  {
    DigitsCanonical(Abs(n), 10);
    LowerKeepsDecimals(Digits(Abs(n), 10));
  }

  /** How many blanks and zeros a field puts before a number, and how many blanks after it. */
  function BlanksBefore(d: Directive, len: nat): nat {
    if d.left || d.zero then 0 else Over(d.width, len + Over(d.precision, len))
  }

  function ZerosBefore(d: Directive, len: nat): nat {
    Over(d.precision, len) + if d.left || !d.zero then 0 else Over(d.width, len + Over(d.precision, len))
  }

  function BlanksAfter(d: Directive, len: nat): nat {
    if d.left then Over(d.width, len + Over(d.precision, len)) else 0
  }

  lemma TimesAdd(c: char, m: nat, n: nat)
    ensures Times(c, m) + Times(c, n) == Times(c, m + n)
  {}

  lemma NumberShape(d: Directive, n: int, base: int)
    requires IsBase(base)
    ensures var len := |Core(n, base)|;
            Number(d, n, base) ==
            Times(' ', BlanksBefore(d, len)) + Times('0', ZerosBefore(d, len)) + Core(n, base)
            + Times(' ', BlanksAfter(d, len))
  {
    var core := Core(n, base);
    var zeros := Over(d.precision, |core|);
    var pad := Over(d.width, |core| + zeros);
    TimesAdd('0', pad, zeros);
    assert Times('0', 0) == [] == Times(' ', 0);
  }

  /** Leading zeros do not change what a numeral is worth. */
  lemma {:induction false} ZerosWorthless(z: nat, s: seq<char>, base: int)
    requires IsBase(base)
    ensures Value(Times('0', z) + s, base) == Value(s, base)
    decreases |s|, z
  {
    if s != [] {
      var t := s[..|s| - 1];
      ZerosWorthless(z, t, base);
      assert Times('0', z) + s == (Times('0', z) + t) + [s[|s| - 1]];
      ValueSnoc(Times('0', z) + t, s[|s| - 1], base);
      ValueSplit(s, base);
    } else if z > 0 {
      ZerosWorthless(z - 1, [], base);
      assert Times('0', z) + [] == (Times('0', z - 1) + []) + ['0'];
      ValueSnoc(Times('0', z - 1) + [], '0', base);
    }
  }

  lemma BlanksSurround(b: nat, rest: seq<char>)
    requires rest != [] ==> !('0' <= rest[0] <= '9')
    ensures Surrounds(Times(' ', b), rest)
  {}

  /** atoi over blanks, zeros, digits and blanks. */
  lemma AtoiOfUnsigned(b: nat, z: nat, n: nat, t: nat, s: seq<char>)
    requires s == Times(' ', b) + Times('0', z) + Digits(n, 10) + Times(' ', t)
    ensures AtoiValue(s) == n
  {
    var digits := Times('0', z) + Digits(n, 10);
    assert s == Times(' ', b) + [] + digits + Times(' ', t);
    DecimalDigits(n);
    BlanksSurround(b, Times(' ', t));
    AtoiMeans(Times(' ', b), [], digits, Times(' ', t), s);
    ZerosWorthless(z, Digits(n, 10), 10);
    ValueOfDigits(n, 10);
  }

  /** atoi over blanks, at least one zero, and then a minus sign: it stops at the sign. */
  lemma AtoiOfZerosAndSign(b: nat, z: nat, tail: seq<char>, s: seq<char>)
    requires z > 0 && tail != [] && tail[0] == '-' && s == Times(' ', b) + Times('0', z) + tail
    ensures AtoiValue(s) == 0
  {
    assert s == Times(' ', b) + [] + Times('0', z) + tail;
    BlanksSurround(b, tail);
    AtoiMeans(Times(' ', b), [], Times('0', z), tail, s);
    ZerosWorthless(z, [], 10);
    assert Times('0', z) + [] == Times('0', z);
  }

  /** What a decimal directive prints reads back as the number exactly when the number is not negative or no
      zeros were printed before its sign. */
  lemma NumberReadsBack(d: Directive, n: int)
    ensures AtoiValue(Number(d, n, 10)) == n <==> n >= 0 || ZerosBefore(d, |Core(n, 10)|) == 0
  {
    var len := |Core(n, 10)|;
    var b, z, t := BlanksBefore(d, len), ZerosBefore(d, len), BlanksAfter(d, len);
    NumberShape(d, n, 10);
    CoreIsText(n);
    if n >= 0 {
      assert Text(n, 10) == Digits(n, 10);
      AtoiOfUnsigned(b, z, n, t, Number(d, n, 10));
    } else if z == 0 {
      assert Times(' ', b) + Times('0', 0) + Text(n, 10) + Times(' ', t) == Times(' ', b) + Text(n, 10) + Times(' ', t);
      BlanksSurround(b, Times(' ', t));
      AtoiOfText(Times(' ', b), n, Times(' ', t));
    } else {
      var tail := Text(n, 10) + Times(' ', t);
      assert Times(' ', b) + Times('0', z) + Text(n, 10) + Times(' ', t) == Times(' ', b) + Times('0', z) + tail;
      AtoiOfZerosAndSign(b, z, tail, Number(d, n, 10));
    }
  }

  function Raise(c: char): char {
    if 'a' <= c <= 'z' then c - 'a' + 'A' else c
  }

  function RaiseAll(s: seq<char>): (r: seq<char>)
    ensures |r| == |s|
  {
    seq(|s|, k requires 0 <= k < |s| => Raise(s[k]))
  }

  lemma RaiseLower(s: seq<char>)
    requires AllDigits(s, 36)
    ensures RaiseAll(LowerAll(s)) == s
  {
    forall k | 0 <= k < |s| ensures Raise(Lower(s[k])) == s[k] { assert DigitValue(s[k]) < 36; }
  }

  lemma MinusThree()
    ensures Number(Directive(false, true, 5, -1, 'd'), -3, 10) == "000-3"
  {
    assert Digits(3, 10) == ['3'];
    assert LowerAll(['3']) == ['3'];
  }

  /** A concrete format and argument for which the field does not read back: the zeros come before the sign. */
  lemma ZerosBeforeSign()
    ensures Complete("%05d", 0) && WellTyped("%05d", 0, [Word(UINT64_SIZE - 3)])
    ensures Format("%05d", [Word(UINT64_SIZE - 3)]) == "000-3" && AtoiValue("000-3") == 0
  {
    assert NumberAt("%05d", 3, 5) == (5, 3);
    MinusThree();
    PrintCons(Conversion(Directive(false, true, 5, -1, 'd'), [Word(UINT64_SIZE - 3)]), []);
    hide Number;
    assert "000-3" == Times(' ', 0) + Times('0', 3) + "-3";
    AtoiOfZerosAndSign(0, 3, "-3", "000-3");
  }

  predicate IsHex(c: char) {
    '0' <= c <= '9' || 'a' <= c <= 'f' || 'A' <= c <= 'F'
  }

  /** First position at or after i without a hexadecimal digit. */
  function AfterHex(s: seq<char>, i: nat): (r: nat)
    requires i <= |s|
    ensures i <= r <= |s|
    decreases |s| - i
  {
    if i < |s| && IsHex(s[i]) then AfterHex(s, i + 1) else i
  }

  /** What a string reads as in base 16: the digits of either case after any blanks. */
  function HexValue(s: seq<char>): nat {
    var i := AfterBlanks(s, 0);
    Value(RaiseAll(s[i..AfterHex(s, i)]), 16)
  }

  lemma {:induction false} TakesHex(s: seq<char>, i: nat, j: nat)
    requires i <= j <= |s| && (forall k :: i <= k < j ==> IsHex(s[k])) && (j < |s| ==> !IsHex(s[j]))
    ensures AfterHex(s, i) == j
    decreases j - i
  {
    if i < j { TakesHex(s, i + 1, j); }
  }

  lemma HexCore(u: nat)
    ensures Value(RaiseAll(Core(u, 16)), 16) == u
    ensures forall k :: 0 <= k < |Core(u, 16)| ==> IsHex(Core(u, 16)[k])
  {
    var digits := Digits(u, 16);
    DigitsCanonical(u, 16);
    RaiseLower(digits);
    ValueOfDigits(u, 16);
    assert Core(u, 16) == LowerAll(digits);
    forall k | 0 <= k < |digits| ensures IsHex(Lower(digits[k])) { assert DigitValue(digits[k]) < 16; }
  }

  /** Hexadecimal digits between blanks. */
  lemma HexPieces(b: nat, digits: seq<char>, t: nat, s: seq<char>)
    requires s == Times(' ', b) + digits + Times(' ', t)
    requires digits != [] && forall k :: 0 <= k < |digits| ==> IsHex(digits[k])
    ensures HexValue(s) == Value(RaiseAll(digits), 16)
  {
    forall k | b <= k < b + |digits| ensures IsHex(s[k]) { assert s[k] == digits[k - b]; }
    SkipsBlanks(s, 0, b);
    TakesHex(s, b, b + |digits|);
    assert s[b..b + |digits|] == digits;
  }

  lemma RaiseZeros(z: nat, s: seq<char>)
    ensures RaiseAll(Times('0', z) + s) == Times('0', z) + RaiseAll(s)
  {}

  lemma HexPadded(z: nat, u: nat)
    ensures var s := Times('0', z) + Core(u, 16);
            s != [] && (forall k :: 0 <= k < |s| ==> IsHex(s[k])) && Value(RaiseAll(s), 16) == u
  {
    HexCore(u);
    assert Core(u, 16) != [];
    hide Core, RaiseAll, Value, Times;
    RaiseZeros(z, Core(u, 16));
    ZerosWorthless(z, RaiseAll(Core(u, 16)), 16);
  }

  /** A hexadecimal field, padded with blanks or zeros on either side, reads back as the word; both letters print
      lower case digits. */
  lemma HexReadsBack(d: Directive, u: nat)
    ensures HexValue(Number(d, u, 16)) == u
  {
    hide Number, Core, RaiseAll, Value, HexValue;
    var core := Core(u, 16);
    var b, z, t := BlanksBefore(d, |core|), ZerosBefore(d, |core|), BlanksAfter(d, |core|);
    NumberShape(d, u, 16);
    HexPadded(z, u);
    assert Number(d, u, 16) == Times(' ', b) + (Times('0', z) + core) + Times(' ', t);
    HexPieces(b, Times('0', z) + core, t, Number(d, u, 16));
  }

  /** A pointer's sixteen digits read back as the pointer. */
  lemma PointerReadsBack(u: nat)
    requires u < UINT64_SIZE
    ensures |Nibbles(u, 16)| == 16 && Value(RaiseAll(Nibbles(u, 16)), 16) == u
  {
    PowerSum(16, 8, 8);
    PowerSum(16, 4, 4);
    assert Power(16, 4) == 0x1_0000;
    NibblesValue(u, 16);
  }

  lemma RaiseSnoc(s: seq<char>, c: char)
    ensures RaiseAll(s + [c]) == RaiseAll(s) + [Raise(c)]
  {}

  lemma {:induction false} NibblesValue(u: nat, k: nat)
    requires u < Power(16, k)
    ensures |Nibbles(u, k)| == k && Value(RaiseAll(Nibbles(u, k)), 16) == u
    decreases k
  {
    if k > 0 {
      QuotientBound(u, 16, Power(16, k - 1));
      NibblesValue(u / 16, k - 1);
      var c := Lower(DigitChar(u % 16));
      DigitRoundTrip(u % 16);
      assert Raise(c) == DigitChar(u % 16);
      RaiseSnoc(Nibbles(u / 16, k - 1), c);
      ValueSnoc(RaiseAll(Nibbles(u / 16, k - 1)), Raise(c), 16);
    } else {
      assert RaiseAll(Nibbles(u, 0)) == [];
    }
  }

  /** A text directive prints at least its width, with the text at the end the flag asks for. */
  lemma FieldWidth(d: Directive, text: seq<char>)
    ensures |InField(d, text)| == Max(d.width, |text|)
    ensures d.left ==> InField(d, text)[..|text|] == text
    ensures !d.left ==> InField(d, text)[|InField(d, text)| - |text|..] == text
  {}

  lemma PrintCons(i: Item, items: seq<Item>)
    ensures Print([i] + items) == ItemText(i) + Print(items)
  {
    assert ([i] + items)[1..] == items;
  }

  /** Text without a percent sign is printed as it is and consumes no argument. */
  lemma {:induction false} PlainText(fmt: seq<char>, p: nat, args: seq<Arg>)
    requires p <= |fmt| && '%' !in fmt
    ensures Complete(fmt, p) && WellTyped(fmt, p, args) && Print(Items(fmt, p, args)) == fmt[p..]
    decreases |fmt| - p
  {
    if p < |fmt| {
      PlainText(fmt, p + 1, args);
      PrintCons(Plain(fmt[p]), Items(fmt, p + 1, args));
      assert fmt[p..] == [fmt[p]] + fmt[p + 1..];
    }
  }

  // ----- Formats compose -----

  /** What a format leaves of its arguments. */
  function Leftover(fmt: seq<char>, p: nat, args: seq<Arg>): seq<Arg>
    requires p <= |fmt| && Complete(fmt, p)
    decreases |fmt| - p
  {
    if p == |fmt| then args
    else if fmt[p] != '%' then Leftover(fmt, p + 1, args)
    else
      var (d, next) := Parse(fmt, p + 1);
      Leftover(fmt, next, Rest(d.spec, args))
  }

  /** h agrees with f as far as f goes. */
  ghost predicate Begins(f: seq<char>, h: seq<char>) {
    |f| <= |h| && forall k :: 0 <= k < |f| ==> h[k] == f[k]
  }

  lemma {:induction false} NumberInside(f: seq<char>, h: seq<char>, p: nat, v: nat)
    requires Begins(f, h) && p <= |f| && NumberAt(f, p, v).1 < |f|
    ensures NumberAt(h, p, v) == NumberAt(f, p, v)
    decreases |f| - p
  {
    if p < |f| && IsDigit(f[p]) { NumberInside(f, h, p + 1, v * 10 + (f[p] - '0') as nat); }
  }

  lemma FlagsInside(f: seq<char>, h: seq<char>, p: nat)
    requires Begins(f, h) && p <= |f| && Flags(f, p).2 < |f|
    ensures Flags(h, p) == Flags(f, p)
  {}

  lemma PrecisionInside(f: seq<char>, h: seq<char>, p: nat)
    requires Begins(f, h) && p <= |f| && PrecisionAt(f, p).1 < |f|
    ensures PrecisionAt(h, p) == PrecisionAt(f, p)
  {
    if p < |f| && f[p] == '.' { NumberInside(f, h, p + 1, 0); }
  }

  /** A directive that is complete reads the same whatever follows it. */
  lemma ParseInside(f: seq<char>, h: seq<char>, p: nat)
    requires Begins(f, h) && p <= |f| && Parse(f, p).1 <= |f|
    ensures Parse(h, p) == Parse(f, p)
  {
    var p2 := Flags(f, p).2;
    var p3 := NumberAt(f, p2, 0).1;
    FlagsInside(f, h, p);
    NumberInside(f, h, p2, 0);
    PrecisionInside(f, h, p3);
  }

  /** h agrees with g from position k on. */
  ghost predicate Ends(g: seq<char>, h: seq<char>, k: nat) {
    |h| == k + |g| && forall i :: 0 <= i < |g| ==> h[k + i] == g[i]
  }

  lemma {:induction false} NumberShifted(g: seq<char>, h: seq<char>, k: nat, p: nat, v: nat)
    requires Ends(g, h, k) && p <= |g|
    ensures NumberAt(h, k + p, v) == (NumberAt(g, p, v).0, k + NumberAt(g, p, v).1)
    decreases |g| - p
  {
    if p < |g| {
      assert h[k + p] == g[p];
      if IsDigit(g[p]) { NumberShifted(g, h, k, p + 1, v * 10 + (g[p] - '0') as nat); }
    }
  }

  lemma SkipShifted(g: seq<char>, h: seq<char>, k: nat, p: nat, c: char)
    requires Ends(g, h, k) && p <= |g|
    ensures SkipIf(h, k + p, c) == k + SkipIf(g, p, c)
    ensures At(h, k + p) == At(g, p)
  {
    assert p < |g| ==> h[k + p] == g[p];
  }

  lemma FlagsShifted(g: seq<char>, h: seq<char>, k: nat, p: nat)
    requires Ends(g, h, k) && p <= |g|
    ensures Flags(h, k + p) == (Flags(g, p).0, Flags(g, p).1, k + Flags(g, p).2)
  {
    SkipShifted(g, h, k, p, '-');
    SkipShifted(g, h, k, SkipIf(g, p, '-'), '0');
  }

  lemma PrecisionShifted(g: seq<char>, h: seq<char>, k: nat, p: nat)
    requires Ends(g, h, k) && p <= |g|
    ensures PrecisionAt(h, k + p) == (PrecisionAt(g, p).0, k + PrecisionAt(g, p).1)
  {
    SkipShifted(g, h, k, p, '.');
    if p < |g| && g[p] == '.' { NumberShifted(g, h, k, p + 1, 0); }
  }

  /** A directive reads the same whatever precedes it. */
  lemma ParseShifted(g: seq<char>, h: seq<char>, k: nat, p: nat)
    requires Ends(g, h, k) && p <= |g|
    ensures Parse(h, k + p) == (Parse(g, p).0, k + Parse(g, p).1)
  {
    var p2 := Flags(g, p).2;
    var p3 := NumberAt(g, p2, 0).1;
    var p5 := PrecisionAt(g, p3).1;
    FlagsShifted(g, h, k, p);
    NumberShifted(g, h, k, p2, 0);
    PrecisionShifted(g, h, k, p3);
    SkipShifted(g, h, k, p5, 'l');
    SkipShifted(g, h, k, SkipIf(g, p5, 'l'), 'l');
  }

  /** A format asks for the same whatever precedes it. */
  lemma {:induction false} ItemsShifted(g: seq<char>, h: seq<char>, k: nat, p: nat, args: seq<Arg>)
    requires Ends(g, h, k) && p <= |g| && Complete(g, p) && WellTyped(g, p, args)
    ensures Complete(h, k + p) && WellTyped(h, k + p, args) && Items(h, k + p, args) == Items(g, p, args)
    decreases |g| - p
  {
    hide Parse, Suits;
    if p < |g| {
      assert h[k + p] == g[p];
      if g[p] != '%' {
        ItemsShifted(g, h, k, p + 1, args);
      } else {
        ParseShifted(g, h, k, p + 1);
        var (d, next) := Parse(g, p + 1);
        ItemsShifted(g, h, k, next, Rest(d.spec, args));
      }
    }
  }

  lemma AppendCons(i: Item, a: seq<Item>, b: seq<Item>)
    ensures [i] + (a + b) == ([i] + a) + b
  {}

  /** h is f followed by g. */
  lemma {:induction false} ItemsCompose(
      f: seq<char>, g: seq<char>, h: seq<char>, p: nat, args: seq<Arg>, tail: seq<Item>)
    requires Begins(f, h) && Ends(g, h, |f|)
    requires p <= |f| && Complete(f, p) && WellTyped(f, p, args)
    requires Complete(g, 0) && WellTyped(g, 0, Leftover(f, p, args)) && tail == Items(g, 0, Leftover(f, p, args))
    ensures Complete(h, p) && WellTyped(h, p, args)
    ensures Items(h, p, args) == Items(f, p, args) + tail
    decreases |f| - p
  {
    if p == |f| {
      ItemsShifted(g, h, |f|, 0, args);
    } else if f[p] != '%' {
      ItemsCompose(f, g, h, p + 1, args, tail);
      AppendCons(Plain(f[p]), Items(f, p + 1, args), tail);
    } else {
      var (d, next) := Parse(f, p + 1);
      var rest := Rest(d.spec, args);
      ParseInside(f, h, p + 1);
      ItemsCompose(f, g, h, next, rest, tail);
      AppendCons(Conversion(d, args), Items(f, next, rest), tail);
    }
  }

  lemma {:induction false} PrintAppend(a: seq<Item>, b: seq<Item>)
    ensures Print(a + b) == Print(a) + Print(b)
  {
    hide ItemText;
    if a == [] {
      assert a + b == b;
    } else {
      PrintAppend(a[1..], b);
      assert a + b == [a[0]] + (a[1..] + b);
      PrintCons(a[0], a[1..] + b);
      ThreePieces(ItemText(a[0]), Print(a[1..]), Print(b));
    }
  }

  /** Printing two formats one after the other, with the arguments shared out, is printing their concatenation. */
  lemma FormatsCompose(f: seq<char>, g: seq<char>, args: seq<Arg>)
    requires Complete(f, 0) && WellTyped(f, 0, args)
    requires Complete(g, 0) && WellTyped(g, 0, Leftover(f, 0, args))
    ensures Complete(f + g, 0) && WellTyped(f + g, 0, args)
    ensures Format(f + g, args) == Format(f, args) + Format(g, Leftover(f, 0, args))
  {
    ItemsCompose(f, g, f + g, 0, args, Items(g, 0, Leftover(f, 0, args)));
    PrintAppend(Items(f, 0, args), Items(g, 0, Leftover(f, 0, args)));
  }

  // ----- Directives as they are spelled -----

  /** A letter that no earlier part of a directive could swallow. */
  predicate IsLetter(c: char) {
    !IsDigit(c) && c !in {'-', '.', 'l', NUL}
  }

  function WidthText(width: nat): seq<char> {
    if width > 0 then Digits(width, 10) else []
  }

  function PrecisionText(precision: int): seq<char>
    requires -1 <= precision
  {
    if precision >= 0 then ['.'] + Digits(precision, 10) else []
  }

  /** The end of a spelling: the letter, perhaps behind a length modifier. */
  function EndText(d: Directive, long: bool): seq<char> {
    (if long then ['l'] else []) + [d.spec]
  }

  function FlagText(d: Directive): seq<char> {
    (if d.left then ['-'] else []) + (if d.zero then ['0'] else [])
  }

  /** How a directive is written behind its percent sign, with or without the length modifier. */
  function Spelling(d: Directive, long: bool): seq<char>
    requires -1 <= d.precision
  {
    FlagText(d) + (WidthText(d.width) + (PrecisionText(d.precision) + EndText(d, long)))
  }

  /** s stands at position p of the format. */
  ghost predicate Occurs(fmt: seq<char>, p: nat, s: seq<char>) {
    p + |s| <= |fmt| && fmt[p..p + |s|] == s
  }

  lemma OccursWhole(before: seq<char>, s: seq<char>, rest: seq<char>)
    ensures Occurs(before + s + rest, |before|, s)
  {}

  lemma OccursSplit(fmt: seq<char>, p: nat, s: seq<char>, t: seq<char>)
    requires Occurs(fmt, p, s + t)
    ensures Occurs(fmt, p, s) && Occurs(fmt, p + |s|, t) && p + |s| + |t| <= |fmt|
    ensures s != [] ==> fmt[p] == s[0]
    ensures t != [] ==> fmt[p + |s|] == t[0]
  {
    assert fmt[p..p + |s|] == fmt[p..p + |s + t|][..|s|];
    assert fmt[p + |s|..p + |s| + |t|] == fmt[p..p + |s + t|][|s|..];
  }

  lemma {:induction false} NumberPrefix(fmt: seq<char>, p: nat, s: seq<char>, k: nat)
    requires Occurs(fmt, p, s) && k <= |s| && forall i :: 0 <= i < |s| ==> IsDigit(s[i])
    ensures NumberAt(fmt, p, 0) == NumberAt(fmt, p + k, Value(s[..k], 10))
  {
    if k > 0 {
      NumberPrefix(fmt, p, s, k - 1);
      assert fmt[p + k - 1] == s[k - 1];
      assert s[..k] == s[..k - 1] + [s[k - 1]];
      ValueSnoc(s[..k - 1], s[k - 1], 10);
    }
  }

  /** Decimal digits in a format read as their number. */
  lemma NumberSpelled(fmt: seq<char>, p: nat, n: nat)
    requires Occurs(fmt, p, Digits(n, 10))
    requires var q := p + |Digits(n, 10)|; q < |fmt| ==> !IsDigit(fmt[q])
    ensures NumberAt(fmt, p, 0) == (n, p + |Digits(n, 10)|)
  {
    var s := Digits(n, 10);
    DecimalDigits(n);
    NumberPrefix(fmt, p, s, |s|);
    assert s[..|s|] == s;
    ValueOfDigits(n, 10);
  }

  lemma WidthSpelled(fmt: seq<char>, p: nat, width: nat)
    requires Occurs(fmt, p, WidthText(width))
    requires var q := p + |WidthText(width)|; q < |fmt| && !IsDigit(fmt[q])
    ensures NumberAt(fmt, p, 0) == (width, p + |WidthText(width)|)
    ensures width > 0 ==> fmt[p] != '0' && IsDigit(fmt[p])
  {
    if width > 0 {
      NumberSpelled(fmt, p, width);
      DigitsCanonical(width, 10);
      DecimalDigits(width);
      assert fmt[p] == fmt[p..p + |Digits(width, 10)|][0];
    }
  }

  lemma PrecisionSpelled(fmt: seq<char>, p: nat, precision: int)
    requires -1 <= precision && Occurs(fmt, p, PrecisionText(precision))
    requires var q := p + |PrecisionText(precision)|; q < |fmt| && !IsDigit(fmt[q]) && fmt[q] != '.'
    ensures PrecisionAt(fmt, p) == (precision, p + |PrecisionText(precision)|)
    ensures precision >= 0 ==> fmt[p] == '.'
  {
    if precision >= 0 {
      OccursSplit(fmt, p, ['.'], Digits(precision, 10));
      NumberSpelled(fmt, p + 1, precision);
    }
  }

  lemma FlagsSpelled(fmt: seq<char>, p: nat, d: Directive)
    requires Occurs(fmt, p, FlagText(d))
    requires var q := p + |FlagText(d)|; q < |fmt| && fmt[q] != '-' && fmt[q] != '0'
    ensures Flags(fmt, p) == (d.left, d.zero, p + |FlagText(d)|)
  {
    OccursSplit(fmt, p, if d.left then ['-'] else [], if d.zero then ['0'] else []);
  }

  lemma WidthNone(width: nat)
    ensures width == 0 ==> WidthText(width) == []
  {}

  lemma PrecisionNone(precision: int)
    requires -1 <= precision
    ensures precision < 0 ==> PrecisionText(precision) == []
  {}

  /** Width, precision, length modifier and letter, wherever they stand. */
  lemma TailParses(fmt: seq<char>, p: nat, d: Directive, long: bool)
    requires -1 <= d.precision && IsLetter(d.spec)
    requires Occurs(fmt, p, WidthText(d.width) + (PrecisionText(d.precision) + EndText(d, long)))
    ensures fmt[p] != '-' && fmt[p] != '0'
    ensures var (width, p3) := NumberAt(fmt, p, 0); var (precision, p5) := PrecisionAt(fmt, p3);
            && width == d.width && precision == d.precision
            && p5 == p + |WidthText(d.width)| + |PrecisionText(d.precision)|
            && Occurs(fmt, p5, EndText(d, long))
  {
    hide Digits, NumberAt, WidthText, PrecisionText, PrecisionAt, Occurs;
    var w, r, end := WidthText(d.width), PrecisionText(d.precision), EndText(d, long);
    OccursSplit(fmt, p, w, r + end);
    OccursSplit(fmt, p + |w|, r, end);
    PrecisionSpelled(fmt, p + |w|, d.precision);
    PrecisionNone(d.precision);
    WidthSpelled(fmt, p, d.width);
    WidthNone(d.width);
    assert PrecisionAt(fmt, p + |w|).1 == p + |w| + |r|;
  }

  lemma PiecesParse(fmt: seq<char>, p: nat, d: Directive, long: bool)
    requires -1 <= d.precision && IsLetter(d.spec)
    requires Occurs(fmt, p, FlagText(d) + (WidthText(d.width) + (PrecisionText(d.precision) + EndText(d, long))))
    ensures Parse(fmt, p) == (d, p + |Spelling(d, long)|)
  {
    hide NumberAt, FlagText, WidthText, PrecisionText, Flags, PrecisionAt, Occurs;
    var tail := WidthText(d.width) + (PrecisionText(d.precision) + EndText(d, long));
    OccursSplit(fmt, p, FlagText(d), tail);
    TailParses(fmt, p + |FlagText(d)|, d, long);
    FlagsSpelled(fmt, p, d);
    var p5 := p + |FlagText(d)| + |WidthText(d.width)| + |PrecisionText(d.precision)|;
    OccursSplit(fmt, p5, if long then ['l'] else [], [d.spec]);
  }

  /** A directive that is spelled out parses back to itself, whatever stands before and behind it. */
  lemma SpellingParses(d: Directive, long: bool, before: seq<char>, rest: seq<char>)
    requires -1 <= d.precision && IsLetter(d.spec)
    ensures Parse(before + Spelling(d, long) + rest, |before|) == (d, |before| + |Spelling(d, long)|)
  {
    OccursWhole(before, Spelling(d, long), rest);
    PiecesParse(before + Spelling(d, long) + rest, |before|, d, long);
  }

  /** So a directive alone prints what it asks for; FormatsCompose puts it between other formats. */
  lemma DirectivePrints(d: Directive, long: bool, args: seq<Arg>)
    requires -1 <= d.precision <= INT_MAX && d.width <= INT_MAX && IsLetter(d.spec) && Suits(d.spec, args)
    ensures var fmt := ['%'] + Spelling(d, long);
            && Complete(fmt, 0) && WellTyped(fmt, 0, args)
            && Format(fmt, args) == Render(d, args) && Leftover(fmt, 0, args) == Rest(d.spec, args)
  {
    var fmt := ['%'] + Spelling(d, long);
    SpellingParses(d, long, ['%'], []);
    assert fmt + [] == fmt;
    assert Parse(fmt, 1) == (d, |fmt|) && Complete(fmt, |fmt|);
    hide Parse;
    assert Items(fmt, 0, args) == [Conversion(d, args)] + [];
    PrintCons(Conversion(d, args), []);
  }

  // ----- What each letter prints -----

  /** a blanks, z zeros, len characters of a number, b blanks: the parts of a number's field. */
  ghost predicate FieldOf(d: Directive, len: nat, a: nat, z: nat, b: nat) {
    && a + z + len + b == Max(d.width, Max(d.precision, len))
    && (if d.left then a == 0 else b == 0)
    && (if d.zero && !d.left then a == 0 else z == Max(d.precision - len, 0))
  }

  predicate Decimal(s: seq<char>) {
    forall k :: 0 <= k < |s| ==> '0' <= s[k] <= '9'
  }

  predicate LowerHex(s: seq<char>) {
    forall k :: 0 <= k < |s| ==> '0' <= s[k] <= '9' || 'a' <= s[k] <= 'f'
  }

  /** No superfluous zeros. */
  predicate Shortest(s: seq<char>) {
    s != [] && (s[0] == '0' ==> |s| == 1)
  }

  ghost predicate Prints(d: Directive, long: bool, args: seq<Arg>, out: seq<char>, left: seq<Arg>)
    requires -1 <= d.precision
  {
    var fmt := ['%'] + Spelling(d, long);
    Complete(fmt, 0) && WellTyped(fmt, 0, args) && Format(fmt, args) == out && Leftover(fmt, 0, args) == left
  }

  lemma DecimalNumeral(n: nat)
    ensures Decimal(Digits(n, 10)) && Shortest(Digits(n, 10)) && Value(Digits(n, 10), 10) == n
  {
    DecimalDigits(n);
    DigitsCanonical(n, 10);
    ValueOfDigits(n, 10);
  }

  lemma CoreUnsigned(n: nat)
    ensures Core(n, 10) == Digits(n, 10)
  {
    CoreIsText(n);
    assert [] + Digits(n, 10) == Digits(n, 10);
  }

  lemma LowerDigits(u: nat)
    ensures LowerHex(Core(u, 16)) && Shortest(Core(u, 16))
  {
    var digits := Digits(u, 16);
    DigitsCanonical(u, 16);
    assert Core(u, 16) == LowerAll(digits);
    forall k | 0 <= k < |digits| ensures '0' <= Lower(digits[k]) <= '9' || 'a' <= Lower(digits[k]) <= 'f' {
      assert DigitValue(digits[k]) < 16;
    }
  }

  lemma HexNumeral(u: nat)
    ensures LowerHex(Core(u, 16)) && Shortest(Core(u, 16)) && HexValue(Core(u, 16)) == u
  {
    HexCore(u);
    LowerDigits(u);
    hide Core;
    HexPieces(0, Core(u, 16), 0, Core(u, 16));
  }

  lemma NumberField(d: Directive, n: int, base: int) returns (a: nat, z: nat, b: nat)
    requires IsBase(base)
    ensures FieldOf(d, |Core(n, base)|, a, z, b)
    ensures Number(d, n, base) == Times(' ', a) + Times('0', z) + Core(n, base) + Times(' ', b)
  {
    NumberShape(d, n, base);
    var len := |Core(n, base)|;
    a, z, b := BlanksBefore(d, len), ZerosBefore(d, len), BlanksAfter(d, len);
  }

  predicate Plausible(d: Directive) {
    -1 <= d.precision <= INT_MAX && d.width <= INT_MAX
  }

  /** x and X print the word in lower case hexadecimal. */
  lemma HexPrints(d: Directive, long: bool, word: nat, more: seq<Arg>)
    returns (a: nat, z: nat, digits: seq<char>, b: nat)
    requires Plausible(d) && d.spec in {'x', 'X'} && word < 0x1_0000_0000_0000_0000
    ensures var out := Times(' ', a) + Times('0', z) + digits + Times(' ', b);
            Prints(d, long, [Word(word)] + more, out, more) && HexValue(out) == word
    ensures LowerHex(digits) && Shortest(digits) && HexValue(digits) == word && FieldOf(d, |digits|, a, z, b)
  {
    var args := [Word(word)] + more;
    DirectivePrints(d, long, args);
    hide Number, Core, HexValue, LowerHex, Shortest;
    HexReadsBack(d, word);
    HexNumeral(word);
    digits := Core(word, 16);
    a, z, b := NumberField(d, word, 16);
  }

  /** d and i print the signed value of the word in decimal. It reads back unless zeros precede its sign. */
  lemma SignedPrints(d: Directive, long: bool, word: nat, more: seq<Arg>)
    returns (v: int, a: nat, z: nat, digits: seq<char>, b: nat)
    requires Plausible(d) && d.spec in {'d', 'i'}
    requires word < 0x1_0000_0000_0000_0000 && word != 0x8000_0000_0000_0000
    ensures v == word - if word < 0x8000_0000_0000_0000 then 0 else 0x1_0000_0000_0000_0000
    ensures var core := (if v < 0 then ['-'] else []) + digits;
            var out := Times(' ', a) + Times('0', z) + core + Times(' ', b);
            && Prints(d, long, [Word(word)] + more, out, more) && FieldOf(d, |core|, a, z, b)
            && (AtoiValue(out) == v <==> v >= 0 || z == 0)
    ensures Decimal(digits) && Shortest(digits) && Value(digits, 10) == Abs(v)
  {
    var args := [Word(word)] + more;
    v := Signed(word);
    DirectivePrints(d, long, args);
    hide Number, AtoiValue, Decimal, Shortest, Value;
    digits := Digits(Abs(v), 10);
    CoreIsText(v);
    DecimalNumeral(Abs(v));
    NumberReadsBack(d, v);
    a, z, b := NumberField(d, v, 10);
  }

  /** u prints the word in decimal. */
  lemma UnsignedPrints(d: Directive, long: bool, word: nat, more: seq<Arg>)
    returns (a: nat, z: nat, digits: seq<char>, b: nat)
    requires Plausible(d) && d.spec == 'u' && word < 0x1_0000_0000_0000_0000
    ensures var out := Times(' ', a) + Times('0', z) + digits + Times(' ', b);
            Prints(d, long, [Word(word)] + more, out, more) && AtoiValue(out) == word
    ensures Decimal(digits) && Shortest(digits) && Value(digits, 10) == word && FieldOf(d, |digits|, a, z, b)
  {
    var args := [Word(word)] + more;
    DirectivePrints(d, long, args);
    CoreUnsigned(word);
    hide Number, AtoiValue, Decimal, Shortest, Value, Core, Digits;
    digits := Digits(word, 10);
    DecimalNumeral(word);
    NumberReadsBack(d, word);
    a, z, b := NumberField(d, word, 10);
  }

  /** p prints 0x and sixteen lower case digits, whatever the flags say. */
  lemma PointerPrints(d: Directive, long: bool, word: nat, more: seq<Arg>) returns (digits: seq<char>)
    requires Plausible(d) && d.spec == 'p' && word < 0x1_0000_0000_0000_0000
    ensures Prints(d, long, [Word(word)] + more, "0x" + digits, more)
    ensures |digits| == 16 && LowerHex(digits) && HexValue(digits) == word
  {
    DirectivePrints(d, long, [Word(word)] + more);
    digits := Nibbles(word, 16);
    PointerReadsBack(word);
    NibblesLower(word, 16);
    HexPieces(0, digits, 0, digits);
  }

  lemma LowerDigit(d: nat)
    requires d < 16
    ensures Lower(DigitChar(d)) == "0123456789abcdef"[d]
    ensures '0' <= Lower(DigitChar(d)) <= '9' || 'a' <= Lower(DigitChar(d)) <= 'f'
  {}

  lemma {:induction false} NibblesLower(u: nat, k: nat)
    ensures LowerHex(Nibbles(u, k))
    decreases k
  {
    if k > 0 {
      NibblesLower(u / 16, k - 1);
      LowerDigit(u % 16);
    }
  }

  /** A text of len characters goes to the left or the right end of at least width characters. */
  ghost predicate TextField(d: Directive, len: nat, a: nat, b: nat) {
    a + len + b == Max(d.width, len) && if d.left then a == 0 else b == 0
  }

  lemma FieldParts(d: Directive, text: seq<char>) returns (a: nat, b: nat)
    ensures InField(d, text) == Times(' ', a) + text + Times(' ', b) && TextField(d, |text|, a, b)
  {
    var pad := Over(d.width, |text|);
    a, b := if d.left then 0 else pad, if d.left then pad else 0;
  }

  /** c prints the character of the word's lowest byte. */
  lemma CharacterPrints(d: Directive, long: bool, word: nat, more: seq<Arg>) returns (a: nat, b: nat)
    requires Plausible(d) && d.spec == 'c' && word < 0x1_0000_0000_0000_0000
    ensures Prints(d, long, [Word(word)] + more, Times(' ', a) + [(word % 256) as char] + Times(' ', b), more)
    ensures TextField(d, 1, a, b)
  {
    hide InField, TextField, Spelling, WellTyped, Complete, Format, Leftover;
    DirectivePrints(d, long, [Word(word)] + more);
    a, b := FieldParts(d, [(word % 256) as char]);
  }

  /** s prints the string or, for NULL, "(null)"; of either at most the first `precision` characters. */
  lemma StringPrints(d: Directive, long: bool, arg: Arg, more: seq<Arg>) returns (a: nat, shown: seq<char>, b: nat)
    requires Plausible(d) && d.spec == 's'
    requires !arg.Word? && (arg.Str? ==> NUL !in arg.text && |arg.text| <= INT_MAX)
    ensures Prints(d, long, [arg] + more, Times(' ', a) + shown + Times(' ', b), more)
    ensures var text := if arg.Str? then arg.text else "(null)";
            shown <= text && |shown| == if 0 <= d.precision < |text| then d.precision else |text|
    ensures TextField(d, |shown|, a, b)
  {
    hide InField, TextField, Spelling, WellTyped, Complete, Format, Leftover;
    DirectivePrints(d, long, [arg] + more);
    shown := Truncated(if arg.Str? then arg.text else "(null)", d.precision);
    a, b := FieldParts(d, shown);
  }

  /** Two percent signs print one, and a letter without a meaning prints itself behind a percent sign; neither takes an
      argument, and flags, width and precision do not matter. */
  lemma OthersPrint(d: Directive, long: bool, args: seq<Arg>)
    requires Plausible(d) && IsLetter(d.spec) && d.spec !in {'d', 'i', 'u', 'x', 'X', 'p', 'c', 's'}
    ensures Prints(d, long, args, if d.spec == '%' then "%" else ['%', d.spec], args)
  {
    DirectivePrints(d, long, args);
  }

  /** The order of a directive's parts. */
  lemma PartsOfDirective()
    ensures Parse("-012.3lx", 0) == (Directive(true, true, 12, 3, 'x'), 8)
  {
    var f := "-012.3lx";
    assert NumberAt(f, 4, 12) == (12, 4) && NumberAt(f, 3, 1) == (12, 4);
    assert NumberAt(f, 6, 3) == (3, 6);
    assert Flags(f, 0) == (true, true, 2) && PrecisionAt(f, 4) == (3, 6);
  }

  /** 255 in hexadecimal. */
  lemma HexOf255()
    ensures Complete("%x", 0) && WellTyped("%x", 0, [Word(255)]) && Format("%x", [Word(255)]) == "ff"
  {
    var d := Directive(false, false, 0, -1, 'x');
    DirectivePrints(d, false, [Word(255)]);
    assert ['%'] + Spelling(d, false) == "%x";
    assert Digits(255, 16) == ['F', 'F'];
    assert LowerAll(['F', 'F']) == "ff";
    assert Core(255, 16) == "ff";
    hide Core;
    NumberShape(d, 255, 16);
  }

  /** A number and its sign take at most 21 of the 32 bytes of the digit buffer. */
  lemma CoreFits(n: int, base: int)
    requires base == 10 || base == 16
    requires LONG_MIN <= n < UINT64_SIZE
    ensures |Core(n, base)| <= 21 <= NUMBUF
  {
    TwentyDigits();
    DigitCount(Abs(n), base, 20);
  }

  lemma TwentyDigits()
    ensures Power(10, 20) >= UINT64_SIZE && Power(16, 20) >= UINT64_SIZE
  {
    PowerSum(10, 10, 10);
    PowerSum(16, 8, 8);
    PowerSum(16, 16, 4);
    PowerTen();
    assert Power(16, 4) == 0x1_0000;
    PowerSum(16, 4, 4);
  }

  lemma {:induction false} PowerSum(base: int, j: nat, k: nat)
    ensures Power(base, j + k) == Power(base, j) * Power(base, k)
  {
    if j > 0 { PowerSum(base, j - 1, k); }
  }

  // ----- The interpreter -----

  class Terminal {
    var out: seq<char>

    constructor ()
      ensures out == []
    {
      out := [];
    }

    method Kputc(c: char)
      modifies this
      ensures out == old(out) + [c]
    {
      out := out + [c];
    }

    /** The padding loops. */
    method Repeat(c: char, n: int)
      modifies this
      ensures out == old(out) + Times(c, n)
    {
      var i := 0;
      while i < n
        invariant 0 <= i && (i <= n || i == 0)
        invariant out == old(out) + Times(c, i)
      {
        Kputc(c);
        i := i + 1;
        assert Times(c, i) == Times(c, i - 1) + [c];
      }
    }

    method Puts(s: seq<char>)
      modifies this
      ensures out == old(out) + s
    {
      for i := 0 to |s|
        invariant out == old(out) + s[..i]
      {
        Kputc(s[i]);
        assert s[..i + 1] == s[..i] + [s[i]];
      }
      assert s[..|s|] == s;
    }

    /** Prints the digit buffer from its end. */
    method PutsBackwards(numbuf: array<char>, len: nat)
      requires len <= numbuf.Length
      modifies this
      ensures out == old(out) + Reversed(numbuf[..len])
    {
      var i := len - 1;
      while i >= 0
        invariant -1 <= i < len
        invariant out == old(out) + Reversed(numbuf[..len])[..len - 1 - i]
      {
        Kputc(numbuf[i]);
        ghost var r := Reversed(numbuf[..len]);
        assert r[..len - i] == r[..len - 1 - i] + [numbuf[i]];
        i := i - 1;
      }
      assert Reversed(numbuf[..len])[..len] == Reversed(numbuf[..len]);
    }
  }

  lemma LowerReversed(s: seq<char>)
    ensures Reversed(LowerAll(s)) == LowerAll(Reversed(s))
  {}

  /** The characters the buffer holds, and what they read backwards. */
  lemma BufferReversed(n: int, base: int)
    requires IsBase(base)
    ensures Reversed(LowerAll(LowFirst(Abs(n), base)) + if n < 0 then ['-'] else []) == Core(n, base)
  {
    LowFirstReversed(Abs(n), base);
    var low := LowerAll(LowFirst(Abs(n), base));
    LowerReversed(LowFirst(Abs(n), base));
    if n < 0 {
      ReversedSnoc(low, '-');
    } else {
      assert low + [] == low && [] + LowerAll(Digits(n, base)) == LowerAll(Digits(n, base));
    }
  }

  lemma LowerCons(c: char, s: seq<char>)
    ensures LowerAll([c] + s) == [Lower(c)] + LowerAll(s)
  {}

  /** The digit loop: the lowest digit first, '0' alone for zero. */
  method FillNumbuf(u: nat, base: int, numbuf: array<char>) returns (len: nat)
    requires IsBase(base) && |LowFirst(u, base)| <= numbuf.Length
    modifies numbuf
    ensures len == |LowFirst(u, base)| && numbuf[..len] == LowerAll(LowFirst(u, base))
  {
    len := 0;
    var v: nat := u;
    if v == 0 {
      numbuf[0] := '0';
      len := 1;
      assert LowFirst(0, base) == ['0'];
    }
    ghost var done := numbuf[..len];
    while v != 0
      invariant len == |done| <= numbuf.Length && numbuf[..len] == done
      invariant LowerAll(LowFirst(u, base)) == done + LowerAll(Pending(v, base))
      decreases v
    {
      PendingStep(v, base);
      var c := Lower(DigitChar(v % base));
      LowerCons(DigitChar(v % base), Pending(v / base, base));
      Regroup(done, c, LowerAll(Pending(v / base, base)));
      numbuf[len] := c;
      assert numbuf[..len + 1] == numbuf[..len] + [c];
      done := done + [c];
      len, v := len + 1, v / base;
    }
    assert LowerAll([]) == [];
  }

  /** Digits and sign in the buffer, of which they take at most 21 bytes. */
  method FillSigned(n: int, base: int, numbuf: array<char>) returns (len: nat)
    requires (base == 10 || base == 16) && LONG_MIN < n < UINT64_SIZE && numbuf.Length == NUMBUF
    modifies numbuf
    ensures len == |Core(n, base)| <= 21 && Reversed(numbuf[..len]) == Core(n, base)
  {
    BufferReversed(n, base);
    CoreFits(n, base);
    var u := if n < 0 then -n else n;
    len := FillNumbuf(u, base, numbuf);
    if n < 0 {
      numbuf[len] := '-';
      len := len + 1;
      assert numbuf[..len] == numbuf[..len - 1] + ['-'];
    } else {
      assert numbuf[..len] + [] == numbuf[..len];
    }
  }

  /** The cases d, i, u, x and X. */
  method PrintNumber(term: Terminal, d: Directive, n: int, base: int)
    requires (base == 10 || base == 16) && LONG_MIN < n < UINT64_SIZE
    requires d.width <= INT_MAX && d.precision <= INT_MAX
    modifies term
    ensures term.out == old(term.out) + Number(d, n, base)
  {
    var numbuf := new char[NUMBUF];
    var len := FillSigned(n, base, numbuf);
    var precpad := if d.precision > len then d.precision - len else 0;
    var totalLen := len + precpad;
    var pad := if d.width > totalLen then d.width - totalLen else 0;
    Emit(term, d, pad, precpad, numbuf, len, Core(n, base));
  }

  /** The four output loops of a number. */
  method Emit(term: Terminal, d: Directive, pad: nat, precpad: nat,
              numbuf: array<char>, len: nat, ghost core: seq<char>)
    requires len <= numbuf.Length && Reversed(numbuf[..len]) == core
    modifies term
    ensures term.out == old(term.out) + Pieces(d, pad, precpad, core)
  {
    ghost var before := if d.left then [] else Times(if d.zero then '0' else ' ', pad);
    ghost var after := if d.left then Times(' ', pad) else [];
    ghost var o := term.out;
    if !d.left {
      term.Repeat(if d.zero then '0' else ' ', pad);
    }
    assert term.out == o + before;
    term.Repeat('0', precpad);
    term.PutsBackwards(numbuf, len);
    ghost var o' := term.out;
    if d.left {
      term.Repeat(' ', pad);
    }
    assert term.out == o' + after;
    FourPieces(o, before, Times('0', precpad), core, after);
  }

  lemma FourPieces(o: seq<char>, a: seq<char>, b: seq<char>, c: seq<char>, e: seq<char>)
    ensures o + (a + b + c + e) == o + a + b + c + e
    ensures o + [] == o && (o + a + b + c) + [] == o + a + b + c
  {}

  /** The cases s and c. */
  method PrintText(term: Terminal, d: Directive, text: seq<char>)
    modifies term
    ensures term.out == old(term.out) + InField(d, text)
  {
    var pad := if d.width > |text| then d.width - |text| else 0;
    if !d.left {
      term.Repeat(' ', pad);
    }
    term.Puts(text);
    if d.left {
      term.Repeat(' ', pad);
    }
  }

  /** Length of a string, at most the precision if there is one. */
  method BoundedLength(s: seq<char>, precision: int) returns (len: nat)
    ensures len <= |s| && s[..len] == Truncated(s, precision)
  {
    len := 0;
    while len < |s| && (precision < 0 || len < precision)
      invariant len <= |s| && (precision >= 0 ==> len <= precision)
    {
      len := len + 1;
    }
  }

  /** u >> 4 * k. */
  function Shift(u: nat, k: nat): nat {
    if k == 0 then u else Shift(u, k - 1) / 16
  }

  /** The case p: all sixteen digits, flags and width ignored. */
  method PrintPointer(term: Terminal, u: nat)
    modifies term
    ensures term.out == old(term.out) + ("0x" + Nibbles(u, 16))
  {
    term.Kputc('0');
    term.Kputc('x');
    var i := 15;
    while i >= 0
      invariant -1 <= i <= 15
      invariant term.out == old(term.out) + "0x" + Nibbles(Shift(u, i + 1), 15 - i)
    {
      term.Kputc(Lower(DigitChar(Shift(u, i) % 16)));
      i := i - 1;
    }
  }

  /** The digit loops of width and precision. */
  method ReadNumber(fmt: seq<char>, p: nat) returns (v: nat, q: nat)
    requires p <= |fmt| && NumberAt(fmt, p, 0).0 <= INT_MAX
    ensures (v, q) == NumberAt(fmt, p, 0)
  {
    v, q := 0, p;
    while IsDigit(At(fmt, q))
      invariant p <= q <= |fmt| && NumberAt(fmt, q, v) == NumberAt(fmt, p, 0)
      decreases |fmt| - q
    {
      v := v * 10 + (At(fmt, q) - '0') as nat;
      q := q + 1;
      assert v <= NumberAt(fmt, q, v).0 <= INT_MAX;
    }
  }

  /** From behind the percent sign to behind the letter. */
  method ReadDirective(fmt: seq<char>, start: nat) returns (d: Directive, p: nat)
    requires start <= |fmt| && NUL !in fmt
    requires var (e, next) := Parse(fmt, start); next <= |fmt| && e.width <= INT_MAX && e.precision <= INT_MAX
    ensures (d, p) == Parse(fmt, start)
  {
    p := start;
    var left, zero := false, false;
    if At(fmt, p) == '-' {
      left := true;
      p := p + 1;
    }
    if At(fmt, p) == '0' {
      zero := true;
      p := p + 1;
    }
    var width;
    width, p := ReadNumber(fmt, p);
    var precision: int := -1;
    if At(fmt, p) == '.' {
      p := p + 1;
      precision, p := ReadNumber(fmt, p);
    }
    if At(fmt, p) == 'l' {
      p := p + 1;
    }
    d := Directive(left, zero, width, precision, At(fmt, p));
    p := p + 1;
  }

  method PrintDirective(term: Terminal, d: Directive, args: seq<Arg>)
    requires Suits(d.spec, args) && d.width <= INT_MAX && d.precision <= INT_MAX
    modifies term
    ensures term.out == old(term.out) + Render(d, args)
  {
    match d.spec
    case 'd' => PrintNumber(term, d, Signed(args[0].bits), 10);
    case 'i' => PrintNumber(term, d, Signed(args[0].bits), 10);
    case 'u' => PrintNumber(term, d, args[0].bits, 10);
    case 'x' => PrintNumber(term, d, args[0].bits, 16);
    case 'X' => PrintNumber(term, d, args[0].bits, 16);
    case 'p' => PrintPointer(term, args[0].bits);
    case 'c' => PrintText(term, d, [(args[0].bits % 256) as char]);
    case 's' =>
      var s := if args[0].Str? then args[0].text else "(null)";
      var len := BoundedLength(s, d.precision);
      PrintText(term, d, s[..len]);
    case '%' => term.Kputc('%');
    case _ =>
      term.Kputc('%');
      term.Kputc(d.spec);
  }

  /** One round of the main loop: a plain character or a directive. */
  method PrintNext(term: Terminal, fmt: seq<char>, p: nat, args: seq<Arg>)
    returns (q: nat, rest: seq<Arg>, ghost item: Item)
    requires NUL !in fmt && p < |fmt| && Complete(fmt, p) && WellTyped(fmt, p, args)
    modifies term
    ensures p < q <= |fmt| && Complete(fmt, q) && WellTyped(fmt, q, rest)
    ensures Items(fmt, p, args) == [item] + Items(fmt, q, rest)
    ensures term.out == old(term.out) + ItemText(item)
  {
    if At(fmt, p) != '%' {
      term.Kputc(At(fmt, p));
      return p + 1, args, Plain(At(fmt, p));
    }
    var d;
    d, q := ReadDirective(fmt, p + 1);
    PrintDirective(term, d, args);
    rest, item := args, Conversion(d, args);
    if Consumes(d.spec) {
      rest := args[1..];
    }
  }

  lemma ThreePieces(a: seq<char>, b: seq<char>, c: seq<char>)
    ensures a + (b + c) == (a + b) + c
  {}

  /** The main loop. Every read of the format is at or before its NUL, and every argument is consumed once. */
  method Kvprintf(term: Terminal, fmt: seq<char>, args: seq<Arg>)
    requires NUL !in fmt && Complete(fmt, 0) && WellTyped(fmt, 0, args)
    modifies term
    ensures term.out == old(term.out) + Format(fmt, args)
  {
    var p, ap := 0, args;
    ghost var printed: seq<char> := [];
    while At(fmt, p) != NUL
      invariant p <= |fmt| && Complete(fmt, p) && WellTyped(fmt, p, ap)
      invariant term.out == old(term.out) + printed
      invariant Format(fmt, args) == printed + Print(Items(fmt, p, ap))
      decreases |fmt| - p
    {
      ghost var item;
      p, ap, item := PrintNext(term, fmt, p, ap);
      PrintCons(item, Items(fmt, p, ap));
      ThreePieces(old(term.out), printed, ItemText(item));
      ThreePieces(printed, ItemText(item), Print(Items(fmt, p, ap)));
      printed := printed + ItemText(item);
    }
  }
}
