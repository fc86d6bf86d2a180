/** The line editor behind kscan: a keyboard handler that edits a NUL-terminated buffer in place.
    It refines an editor whose state is the text before and the text after the cursor. */
module LineEditorModule {
  import opened CString

  const KEY_LSHIFT := 0x2A
  const KEY_RSHIFT := 0x36
  const KEY_CAPS_LOCK := 0x3A
  const KEY_LCTRL := 0x1D
  const KEY_LALT := 0x38
  const KEY_LEFT := 0x4B
  const KEY_RIGHT := 0x4D
  const BACKSPACE := 0x0E
  const ENTER := 0x1C
  const KSCAN_SIZE := 512

  type Code = c: int | 0 <= c < 256

  // ----- The editor the user sees -----

  datatype Editor = Editor(before: seq<char>, after: seq<char>,
                           shift: bool, caps: bool, ctrl: bool, alt: bool, entered: bool)

  function Text(e: Editor): seq<char> { e.before + e.after }

  function Typed(e: Editor, c: char): Editor {
    e.(before := e.before + [c])
  }

  function Erased(e: Editor): Editor {
    if e.before == [] then e else e.(before := e.before[..|e.before| - 1])
  }

  function MovedLeft(e: Editor): Editor {
    if e.before == [] then e
    else e.(before := e.before[..|e.before| - 1], after := [e.before[|e.before| - 1]] + e.after)
  }

  function MovedRight(e: Editor): Editor {
    if e.after == [] then e else e.(before := e.before + [e.after[0]], after := e.after[1..])
  }

  /** The two scancode tables: 0 for a key without a character. */
  datatype Layout = Layout(low: int -> char, high: int -> char)

  /** What one byte from the keyboard does: bit 7 is set when the key is released. */
  function Key(e: Editor, code: Code, layout: Layout): Editor {
    var pressed := code < 0x80;
    var scan := code % 0x80;
    if scan == KEY_LSHIFT || scan == KEY_RSHIFT then e.(shift := pressed)
    else if scan == KEY_CAPS_LOCK then (if pressed then e.(caps := !e.caps) else e)
    else if scan == KEY_LCTRL then e.(ctrl := pressed)
    else if scan == KEY_LALT then e.(alt := pressed)
    else if !pressed then e
    else if scan == KEY_LEFT then MovedLeft(e)
    else if scan == KEY_RIGHT then MovedRight(e)
    else if scan == BACKSPACE then Erased(e)
    else if scan == ENTER then e.(before := [], after := Text(e), entered := true)
    else
      var c := if e.shift || e.caps then layout.high(scan) else layout.low(scan);
      if c == NUL then e else Typed(e, c)
  }

  function Keys(e: Editor, codes: seq<Code>, layout: Layout): Editor
    decreases |codes|
  {
    if codes == [] then e else Keys(Key(e, codes[0], layout), codes[1..], layout)
  }

  /** The text stays within the buffer, terminator included, all along the way. */
  predicate Bounded(e: Editor, codes: seq<Code>, layout: Layout)
    decreases |codes|
  {
    codes == [] ||
    (|Text(Key(e, codes[0], layout))| < KSCAN_SIZE && Bounded(Key(e, codes[0], layout), codes[1..], layout))
  }

  // ----- What the editor does for its user -----

  /** Splitting off the last or the first element and putting it back. */
  lemma PutBack(s: seq<char>, t: seq<char>)
    ensures s != [] ==> s[..|s| - 1] + [s[|s| - 1]] == s
    ensures s != [] ==> s[..|s| - 1] + ([s[|s| - 1]] + t) == s + t
    ensures t != [] ==> (s + [t[0]]) + t[1..] == s + t
    ensures t != [] ==> [t[0]] + t[1..] == t
    ensures forall c: char :: (s + [c])[..|s|] == s
    ensures forall c: char :: ([c] + t)[1..] == t
  {}

  /** Backspace takes back a typed character; an arrow takes back the opposite arrow; arrows keep the text. */
  lemma EditsUndone(e: Editor, c: char)
    ensures Erased(Typed(e, c)) == e
    ensures e.before != [] ==> MovedRight(MovedLeft(e)) == e
    ensures e.after != [] ==> MovedLeft(MovedRight(e)) == e
    ensures Text(MovedLeft(e)) == Text(e) == Text(MovedRight(e))
  {
    PutBack(e.before, e.after);
  }

  /** A line is finished exactly when Enter has been pressed. */
  lemma {:induction false} EnteredIff(e: Editor, codes: seq<Code>, layout: Layout)
    ensures Keys(e, codes, layout).entered <==> e.entered || ENTER in codes
    decreases |codes|
  {
    if codes == [] {
    } else {
      EnteredIff(Key(e, codes[0], layout), codes[1..], layout);
      assert codes == [codes[0]] + codes[1..];
    }
  }

  /** A key press that the handler treats as a character with the given layout. */
  predicate Printing(code: Code, layout: Layout) {
    && code < 0x80
    && code !in {KEY_LSHIFT, KEY_RSHIFT, KEY_CAPS_LOCK, KEY_LCTRL, KEY_LALT, KEY_LEFT, KEY_RIGHT, BACKSPACE, ENTER}
    && layout.low(code) != NUL
  }

  function Characters(codes: seq<Code>, layout: Layout): seq<char> {
    seq(|codes|, k requires 0 <= k < |codes| => layout.low(codes[k]))
  }

  /** Plain typing inserts exactly the typed characters, in order, at the cursor. */
  lemma {:induction false} PlainTyping(e: Editor, codes: seq<Code>, layout: Layout)
    requires !e.shift && !e.caps && forall k :: 0 <= k < |codes| ==> Printing(codes[k], layout)
    ensures Keys(e, codes, layout) == e.(before := e.before + Characters(codes, layout))
    decreases |codes|
  {
    if codes == [] {
      assert e.before + Characters(codes, layout) == e.before;
    } else {
      assert Printing(codes[0], layout);
      var f := Typed(e, layout.low(codes[0]));
      PlainTyping(f, codes[1..], layout);
      assert Characters(codes, layout) == [layout.low(codes[0])] + Characters(codes[1..], layout);
      assert f.before + Characters(codes[1..], layout) == e.before + Characters(codes, layout);
    }
  }

  /** Which flags each byte from the keyboard changes, by its number. */
  lemma KeyFlags(e: Editor, code: Code, layout: Layout)
    ensures var t := Key(e, code, layout);
            && (t.shift <==> code == 0x2A || code == 0x36 || (e.shift && code != 0xAA && code != 0xB6))
            && (t.caps <==> if code == 0x3A then !e.caps else e.caps)
            && (t.ctrl <==> code == 0x1D || (e.ctrl && code != 0x9D))
            && (t.alt <==> code == 0x38 || (e.alt && code != 0xB8))
            && (t.entered <==> code == 0x1C || e.entered)
  {
    assert code % 0x80 == if code < 0x80 then code else code - 0x80;
  }

  /** Releases and the modifier keys. */
  predicate Textless(code: Code) {
    code >= 0x80 || code in {0x2A, 0x36, 0x3A, 0x1D, 0x38}
  }

  /** They leave text and cursor alone. */
  lemma TextlessKeys(e: Editor, code: Code, layout: Layout)
    requires Textless(code)
    ensures Key(e, code, layout).before == e.before && Key(e, code, layout).after == e.after
  {
    if code < 0x80 { assert code % 0x80 == code; }
  }

  /** The left arrow takes the last character before the cursor to the other side; the right arrow the first one
      behind it. */
  lemma ArrowKeys(e: Editor, layout: Layout)
    ensures var n := |e.before|;
            Key(e, 0x4B, layout) ==
            if n > 0 then e.(before := e.before[..n - 1], after := [e.before[n - 1]] + e.after) else e
    ensures Key(e, 0x4D, layout) ==
            if e.after != [] then e.(before := e.before + [e.after[0]], after := e.after[1..]) else e
  {
    assert 0x4B % 0x80 == 0x4B && 0x4D % 0x80 == 0x4D;
  }

  /** So they keep the text and move the cursor by one character if they can. */
  lemma ArrowsKeepText(e: Editor, layout: Layout)
    ensures var t := Key(e, 0x4B, layout);
            t.before + t.after == e.before + e.after && |t.before| == if e.before != [] then |e.before| - 1 else 0
    ensures var t := Key(e, 0x4D, layout);
            t.before + t.after == e.before + e.after && |t.before| == |e.before| + if e.after != [] then 1 else 0
  {
    ArrowKeys(e, layout);
    hide Key;
    PutBack(e.before, e.after);
  }

  /** Backspace drops the character before the cursor; Enter keeps the text and puts the cursor in front; the press of
      any other key types its character of the layout in force, if it has one. */
  lemma TextKeys(e: Editor, code: Code, layout: Layout)
    requires !Textless(code) && code !in {0x4B, 0x4D}
    ensures var t := Key(e, code, layout); var n := |e.before|;
            if code == 0x0E then t.before == e.before[..if n > 0 then n - 1 else 0] && t.after == e.after
            else if code == 0x1C then t.before == [] && t.after == e.before + e.after
            else
              var c := if e.shift || e.caps then layout.high(code) else layout.low(code);
              t.before == (if c == '\0' then e.before else e.before + [c]) && t.after == e.after
  {
    assert code % 0x80 == code;
  }

  lemma KeyNeverNul(e: Editor, code: Code, layout: Layout)
    requires NUL !in e.before && NUL !in e.after
    ensures NUL !in Key(e, code, layout).before && NUL !in Key(e, code, layout).after
  {
    hide Key;
    if Textless(code) {
      TextlessKeys(e, code, layout);
    } else if code in {0x4B, 0x4D} {
      ArrowKeys(e, layout);
    } else {
      TextKeys(e, code, layout);
    }
  }

  /** No key puts a NUL into the text, so the buffer's string is the whole text. */
  lemma {:induction false} NeverNul(e: Editor, codes: seq<Code>, layout: Layout)
    requires NUL !in e.before && NUL !in e.after
    ensures NUL !in Text(Keys(e, codes, layout))
    decreases |codes|
  {
    if codes == [] {
    } else {
      KeyNeverNul(e, codes[0], layout);
      NeverNul(Key(e, codes[0], layout), codes[1..], layout);
    }
  }

  predicate IsShift(code: Code) {
    code in {0x2A, 0x36, 0xAA, 0xB6}
  }

  /** Shift is as the last press or release of one of its two keys left it. */
  lemma {:induction false} ShiftFollows(e: Editor, codes: seq<Code>, layout: Layout, k: int)
    requires -1 <= k < |codes| && (k >= 0 ==> IsShift(codes[k]))
    requires forall j :: k < j < |codes| ==> !IsShift(codes[j])
    ensures Keys(e, codes, layout).shift <==> if k >= 0 then codes[k] in {0x2A, 0x36} else e.shift
    decreases |codes|
  {
    if codes == [] {
    } else {
      KeyFlags(e, codes[0], layout);
      assert k < 0 ==> !IsShift(codes[0]);
      ShiftFollows(Key(e, codes[0], layout), codes[1..], layout, if k > 0 then k - 1 else -1);
    }
  }

  /** Caps Lock is on after an odd number of its presses, if it was off before. */
  lemma {:induction false} CapsParity(e: Editor, codes: seq<Code>, layout: Layout)
    ensures Keys(e, codes, layout).caps <==> (e.caps <==> multiset(codes)[0x3A] % 2 == 0)
    decreases |codes|
  {
    if codes == [] {
    } else {
      KeyFlags(e, codes[0], layout);
      CapsParity(Key(e, codes[0], layout), codes[1..], layout);
      assert codes == [codes[0]] + codes[1..];
      assert multiset(codes) == multiset{codes[0]} + multiset(codes[1..]);
    }
  }

  lemma {:induction false} KeysAppend(e: Editor, a: seq<Code>, b: seq<Code>, layout: Layout)
    ensures Keys(e, a + b, layout) == Keys(Keys(e, a, layout), b, layout)
    decreases |a|
  {
    if a == [] {
      assert a + b == b;
    } else {
      assert (a + b)[1..] == a[1..] + b;
      KeysAppend(Key(e, a[0], layout), a[1..], b, layout);
    }
  }

  function Presses(code: Code, n: nat): seq<Code> {
    seq(n, _ => code)
  }

  lemma SlideLeft(s: seq<char>, t: seq<char>, m: nat)
    requires m < |s|
    ensures var n := |s| - 1; s[..n][..m] == s[..m] && s[..n][m..] + ([s[n]] + t) == s[m..] + t
  {
    var n := |s| - 1;
    assert s[m..] == s[..n][m..] + [s[n]];
  }

  /** The left arrow n times puts the cursor n characters further left. */
  lemma {:induction false} LeftArrows(e: Editor, n: nat, layout: Layout)
    requires n <= |e.before|
    ensures var m := |e.before| - n;
            Keys(e, Presses(0x4B, n), layout) == e.(before := e.before[..m], after := e.before[m..] + e.after)
    decreases n
  {
    hide Key;
    var m := |e.before| - n;
    if n == 0 {
      assert e.before[..m] == e.before && [] + e.after == e.after;
    } else {
      ArrowKeys(e, layout);
      assert Presses(0x4B, n)[1..] == Presses(0x4B, n - 1);
      LeftArrows(Key(e, 0x4B, layout), n - 1, layout);
      SlideLeft(e.before, e.after, m);
    }
  }

  lemma EnterKey(e: Editor, layout: Layout)
    ensures Keys(e, [0x1C], layout) == e.(before := [], after := Text(e), entered := true)
  {
    assert Keys(e, [0x1C], layout) == Keys(Key(e, 0x1C, layout), [], layout);
  }

  lemma CharactersLength(codes: seq<Code>, layout: Layout)
    ensures |Characters(codes, layout)| == |codes|
  {}

  /** Typing, going back n characters, typing again, and Enter: the second text stands n characters before the end of
      the first. */
  lemma TypedInBetween(e: Editor, xs: seq<Code>, n: nat, ys: seq<Code>, layout: Layout)
    requires e.before == e.after == [] && !e.shift && !e.caps && n <= |xs|
    requires forall k :: 0 <= k < |xs| ==> Printing(xs[k], layout)
    requires forall k :: 0 <= k < |ys| ==> Printing(ys[k], layout)
    ensures var t := Keys(e, xs + Presses(0x4B, n) + ys + [0x1C], layout); var typed := Characters(xs, layout);
            && t.entered && t.before == []
            && t.after == typed[..|xs| - n] + Characters(ys, layout) + typed[|xs| - n..]
  {
    hide Key, Keys, Characters, Printing, Presses;
    var typed := Characters(xs, layout);
    KeysAppend(e, xs + Presses(0x4B, n) + ys, [0x1C], layout);
    KeysAppend(e, xs + Presses(0x4B, n), ys, layout);
    KeysAppend(e, xs, Presses(0x4B, n), layout);
    PlainTyping(e, xs, layout);
    CharactersLength(xs, layout);
    assert [] + typed == typed && typed[|xs| - n..] + [] == typed[|xs| - n..];
    var e1 := Keys(e, xs, layout);
    LeftArrows(e1, n, layout);
    var e2 := Keys(e1, Presses(0x4B, n), layout);
    PlainTyping(e2, ys, layout);
    EnterKey(Keys(e2, ys, layout), layout);
  }

  /** The keys a, b, left arrow, c and Enter make the line acb. */
  lemma ArrowAndInsert(layout: Layout)
    requires layout.low(0x1E) == 'a' && layout.low(0x30) == 'b' && layout.low(0x2E) == 'c'
    ensures var start := Editor([], [], false, false, false, false, false);
            Text(Keys(start, [0x1E, 0x30, 0x4B, 0x2E, 0x1C], layout)) == "acb"
  {
    var e := Editor([], [], false, false, false, false, false);
    TypedInBetween(e, [0x1E, 0x30], 1, [0x2E], layout);
    assert [0x1E, 0x30] + Presses(0x4B, 1) + [0x2E] + [0x1C] == [0x1E, 0x30, 0x4B, 0x2E, 0x1C];
    assert Characters([0x1E, 0x30], layout) == ['a', 'b'];
    assert Characters([0x2E], layout) == ['c'];
  }

  lemma KeyAddsOne(e: Editor, code: Code, layout: Layout)
    ensures |Text(Key(e, code, layout))| <= |Text(e)| + 1
  {
    if Textless(code) {
      TextlessKeys(e, code, layout);
    } else if code in {0x4B, 0x4D} {
      ArrowsKeepText(e, layout);
    } else {
      TextKeys(e, code, layout);
    }
  }

  /** No key adds more than a character, so 511 keys fit the buffer from an empty line, whatever they are. */
  lemma {:induction false} FitsBuffer(e: Editor, codes: seq<Code>, layout: Layout)
    requires |Text(e)| + |codes| <= 511
    ensures Bounded(e, codes, layout)
    decreases |codes|
  {
    if codes == [] {
    } else {
      KeyAddsOne(e, codes[0], layout);
      FitsBuffer(Key(e, codes[0], layout), codes[1..], layout);
    }
  }

  // ----- The handler and kscan -----

  lemma WithoutOne(was: seq<char>, pos: nat, len: nat, s: seq<char>)
    requires 0 < pos <= len < |was| && s == (was[..pos - 1] + was[pos..len + 1] + was[len..])[len - 1 := NUL]
    ensures |s| == |was| && s[len - 1] == NUL
    ensures forall k :: 0 <= k < len - 1 ==> s[k] == was[if k < pos - 1 then k else k + 1]
  {}

  lemma AroundOne(was: seq<char>, pos: nat, len: nat, s: seq<char>)
    requires 0 < pos <= len < |was| && |s| == |was|
    requires forall k :: 0 <= k < len - 1 ==> s[k] == was[if k < pos - 1 then k else k + 1]
    ensures s[..pos - 1] == was[..pos][..pos - 1] && s[pos - 1..len - 1] == was[pos..len]
  {
    var t := s[pos - 1..len - 1];
    forall k | 0 <= k < |t| ensures t[k] == was[pos..len][k] { assert t[k] == s[pos - 1 + k]; }
  }

  /** The buffer after the memmove and the store of a backspace at pos. */
  lemma Deleted(was: seq<char>, pos: nat, len: nat, s: seq<char>)
    requires Terminated(was, 0) && len == StrEnd(was, 0) && 0 < pos <= len
    requires s == (was[..pos - 1] + was[pos..len + 1] + was[len..])[len - 1 := NUL]
    ensures |s| == |was| && StrEnd(s, 0) == len - 1
    ensures s[..pos - 1] == was[..pos][..pos - 1] && s[pos - 1..len - 1] == was[pos..len]
  {
    NoNulBefore(was, 0);
    WithoutOne(was, pos, len, s);
    AroundOne(was, pos, len, s);
    hide StrEnd;
    StrEndIs(s, 0, len - 1);
  }

  lemma PutNul(text: seq<char>, tail: seq<char>)
    requires tail != []
    ensures (text + tail)[|text| := NUL] == text + [NUL] + tail[1..]
  {}

  class LineEditor {
    const kscanBuf: array<char>
    var kscanPos: nat
    var shift: bool
    var capslock: bool
    var ctrl: bool
    var alt: bool
    var enter: bool

    ghost predicate Valid()
      reads this, kscanBuf
    {
      && kscanBuf.Length == KSCAN_SIZE
      && Terminated(kscanBuf[..], 0)
      && kscanPos <= StrEnd(kscanBuf[..], 0)
    }

    ghost function Abs(): Editor
      requires Valid()
      reads this, kscanBuf
    {
      var end := StrEnd(kscanBuf[..], 0);
      Editor(kscanBuf[..kscanPos], kscanBuf[kscanPos..end], shift, capslock, ctrl, alt, enter)
    }

    constructor ()
      ensures Valid() && fresh(kscanBuf)
      ensures Abs() == Editor([], [], false, false, false, false, false)
    {
      kscanBuf := new char[KSCAN_SIZE](_ => NUL);
      kscanPos := 0;
      shift, capslock, ctrl, alt, enter := false, false, false, false, false;
    }

    /** Backspace with the cursor past the first character. */
    method Backspace()
      requires Valid() && 0 < kscanPos
      modifies this`kscanPos, kscanBuf
      ensures Valid() && Abs() == Erased(old(Abs()))
    {
      var len := Strlen(kscanBuf, 0);
      ghost var was, pos := kscanBuf[..], kscanPos;
      Memmove(kscanBuf, kscanPos - 1, kscanPos, len - kscanPos + 1);
      kscanPos := kscanPos - 1;
      ghost var moved := kscanBuf[..];
      kscanBuf[len - 1] := NUL;
      assert kscanBuf[..] == moved[len - 1 := NUL];
      hide StrEnd;
      Deleted(was, pos, len, kscanBuf[..]);
    }

    method Insert(c: char)
      requires Valid() && c != NUL && |Text(Abs())| + 1 < KSCAN_SIZE
      modifies this`kscanPos, kscanBuf
      ensures Valid() && Abs() == Typed(old(Abs()), c)
    {
      ghost var len := StrEnd(kscanBuf[..], 0);
      NoNulBefore(kscanBuf[..], 0);
      Strins(kscanBuf, c, kscanPos);
      kscanPos := kscanPos + 1;
      StrEndIs(kscanBuf[..], 0, len + 1);
    }

    /** The switch over modifier keys at the head of the handler; `done` when it returns from there. */
    method Modifiers(scancode: int, pressed: bool) returns (done: bool)
      modifies this`shift, this`capslock, this`ctrl, this`alt
      ensures done <==> scancode in {KEY_LSHIFT, KEY_RSHIFT, KEY_CAPS_LOCK, KEY_LCTRL, KEY_LALT}
      ensures shift == if scancode in {KEY_LSHIFT, KEY_RSHIFT} then pressed else old(shift)
      ensures capslock == if scancode == KEY_CAPS_LOCK && pressed then !old(capslock) else old(capslock)
      ensures ctrl == if scancode == KEY_LCTRL then pressed else old(ctrl)
      ensures alt == if scancode == KEY_LALT then pressed else old(alt)
    {
      done := true;
      if scancode == KEY_LSHIFT || scancode == KEY_RSHIFT {
        shift := pressed;
      } else if scancode == KEY_CAPS_LOCK {
        if pressed {
          capslock := !capslock;
        }
      } else if scancode == KEY_LCTRL {
        ctrl := pressed;
      } else if scancode == KEY_LALT {
        alt := pressed;
      } else {
        done := false;
      }
    }

    /** The arrow keys. */
    method MoveCursor(left: bool)
      requires Valid()
      modifies this`kscanPos
      ensures Valid() && Abs() == if left then MovedLeft(old(Abs())) else MovedRight(old(Abs()))
    {
      if left {
        if kscanPos > 0 {
          kscanPos := kscanPos - 1;
        }
      } else {
        var len := Strlen(kscanBuf, 0);
        if kscanPos < len {
          kscanPos := kscanPos + 1;
        }
      }
    }

    method KscanHandler(code: Code, layout: Layout)
      requires Valid()
      requires |Text(Key(Abs(), code, layout))| < KSCAN_SIZE
      modifies this, kscanBuf
      ensures Valid() && Abs() == Key(old(Abs()), code, layout)
    {
      var pressed := code < 0x80;
      var scancode := code % 0x80;
      var done := Modifiers(scancode, pressed);
      if done {
        return;
      }
      if scancode == KEY_LEFT && pressed {
        MoveCursor(true);
        return;
      }
      if scancode == KEY_RIGHT && pressed {
        MoveCursor(false);
        return;
      }
      if scancode == BACKSPACE {
        if pressed && kscanPos > 0 {
          Backspace();
        }
      } else if scancode == ENTER {
        if pressed {
          enter := true;
          kscanPos := 0;
        }
      } else if pressed {
        var c;
        if shift || capslock {
          c := layout.high(scancode);
        } else {
          c := layout.low(scancode);
        }
        if c != NUL {
          Insert(c);
        }
      }
    }

    /** The interrupts taken while kscan waits. */
    method HandleAll(codes: seq<Code>, layout: Layout)
      requires Valid() && Bounded(Abs(), codes, layout)
      modifies this, kscanBuf
      ensures Valid() && Abs() == Keys(old(Abs()), codes, layout)
    {
      for k := 0 to |codes|
        invariant Valid() && Bounded(Abs(), codes[k..], layout)
        invariant Keys(Abs(), codes[k..], layout) == Keys(old(Abs()), codes, layout)
      {
        assert codes[k..][1..] == codes[k + 1..];
        KscanHandler(codes[k], layout);
      }
    }

    /** The start of kscan: an empty line, whatever the buffer held before. */
    method Begin()
      requires Valid()
      modifies this`enter, this`kscanPos, kscanBuf
      ensures Valid() && Abs() == Editor([], [], shift, capslock, ctrl, alt, false)
    {
      enter := false;
      kscanPos := 0;
      Strnone(kscanBuf);
    }

    /** The end of kscan: the line, terminated, in the caller's buffer. */
    method CopyOut(buf: array<char>)
      requires Valid() && buf != kscanBuf && |Text(Abs())| < buf.Length
      modifies buf
      ensures Valid() && Abs() == old(Abs())
      ensures buf[..] == Text(Abs()) + [NUL] + old(buf[..])[|Text(Abs())| + 1..]
    {
      var len := Strlen(kscanBuf, 0);
      ghost var text := CStr(kscanBuf[..], 0);
      assert Text(Abs()) == text;
      PutNul(text, buf[len..]);
      ghost var tail := buf[len..];
      Strncpy(buf, 0, kscanBuf, 0, len);
      assert buf[..] == text + tail;
      buf[len] := NUL;
    }

    /** One call of kscan. `codes` are the bytes delivered while the handler is installed, ending when Enter has
        been seen and the handler is removed. What the buffer held before the call does not matter. */
    method Kscan(codes: seq<Code>, layout: Layout, buf: array<char>)
      requires Valid() && buf != kscanBuf
      requires var start := Editor([], [], shift, capslock, ctrl, alt, false);
               && Bounded(start, codes, layout)
               && ENTER in codes
               && |Text(Keys(start, codes, layout))| < buf.Length
      modifies this, kscanBuf, buf
      ensures Valid()
      ensures Abs() == Keys(Editor([], [], old(shift), old(capslock), old(ctrl), old(alt), false), codes, layout)
      ensures enter
      ensures buf[..] == Text(Abs()) + [NUL] + old(buf[..])[|Text(Abs())| + 1..]
    {
      Begin();
      EnteredIff(Abs(), codes, layout);
      HandleAll(codes, layout);
      CopyOut(buf);
    }
  }
}
