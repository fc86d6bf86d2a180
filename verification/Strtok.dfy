/** strtok: one word per call, cut out of the buffer in place, with the position kept between calls. */
module StrtokModule {
  import opened CString
  import opened WordSpec
  import opened SplitModule

  datatype Pointer = Null | At(pos: nat)

  function DelimiterSet(delims: array<char>): set<char>
    requires Terminated(delims[..], 0)
    reads delims
  {
    set c | c in CStr(delims[..], 0)
  }

  /** The words still to come when the saved position is `last`. */
  function Remaining(s: seq<char>, last: Pointer, delims: set<char>): seq<seq<char>>
    requires last.At? ==> last.pos <= |s|
  {
    match last
    case Null => []
    case At(p) => Words(CStr(s, p), delims, 0)
  }

  lemma WordsUnfold(text: seq<char>, d: set<char>, i: nat)
    requires i <= |text| && WordStart(text, d, i) < |text|
    ensures var b := WordStart(text, d, i); var e := WordEnd(text, d, b);
            b < e && Words(text, d, i) == [text[b..e]] + Words(text, d, e)
  {}

  lemma StartAtDelimiter(text: seq<char>, d: set<char>, e: nat)
    requires e < |text| && text[e] in d
    ensures Words(text, d, e) == Words(text, d, e + 1)
  {
    assert WordStart(text, d, e) == WordStart(text, d, e + 1);
  }

  /** The first word of a string, then the words behind the delimiter that ends it. */
  lemma FirstWord(text: seq<char>, d: set<char>, b: nat, e: nat, word: seq<char>, rest: seq<char>)
    requires b == WordStart(text, d, 0) < |text| && e == WordEnd(text, d, b) && word == text[b..e]
    requires rest == if e < |text| then text[e + 1..] else []
    ensures b < e && Words(text, d, 0) == [word] + Words(rest, d, 0)
  {
    WordsUnfold(text, d, 0);
    if e < |text| {
      StartAtDelimiter(text, d, e);
      WordsOfSuffix(text, d, e + 1, rest, 0);
    } else {
      assert Words(text, d, e) == [] == Words(rest, d, 0);
    }
  }

  lemma LaterStart(s: seq<char>, p: nat, k: nat)
    requires Terminated(s, p) && p + k <= StrEnd(s, p)
    ensures StrEnd(s, p + k) == StrEnd(s, p) && CStr(s, p + k) == CStr(s, p)[k..]
  {
    SameEnd(s, p, p + k);
  }

  /** Writing a NUL into a string cuts it in two. */
  lemma CutString(s: seq<char>, p: nat, b: nat, e: nat)
    requires Terminated(s, p) && b <= e < |CStr(s, p)|
    ensures Terminated(s[p + e := NUL], p + e + 1)
    ensures StrEnd(s[p + e := NUL], p + b) == p + e
    ensures CStr(s[p + e := NUL], p + b) == CStr(s, p)[b..e]
    ensures CStr(s[p + e := NUL], p + e + 1) == CStr(s, p)[e + 1..]
  {
    var t, end := s[p + e := NUL], StrEnd(s, p);
    NoNulBefore(s, p);
    StrEndIs(t, p + b, p + e);
    StrEndIs(t, p + e + 1, end);
  }

  /** Where the scan over delimiters and the scan over a word stop in the buffer: both also stop at a NUL. */
  function TokenStart(s: seq<char>, p: nat, d: set<char>): nat
    requires p <= |s|
  {
    WordStart(s, d - {NUL}, p)
  }

  function TokenEnd(s: seq<char>, p: nat, d: set<char>): nat
    requires p <= |s|
  {
    WordEnd(s, d + {NUL}, p)
  }

  /** In terms of the string that starts at p. */
  lemma {:induction false} TokenBounds(s: seq<char>, p: nat, d: set<char>, text: seq<char>, i: nat)
    requires Terminated(s, p) && text == CStr(s, p) && i <= |text|
    ensures TokenStart(s, p + i, d) == p + WordStart(text, d, i)
    ensures TokenEnd(s, p + i, d) == p + WordEnd(text, d, i)
    decreases |text| - i
  {
    if i < |text| {
      NotNul(s, p, p + i);
      TokenBounds(s, p, d, text, i + 1);
    }
  }

  /** What a call with saved position `last` returns, saves and leaves in the buffer. */
  function Cut(s: seq<char>, last: Pointer, d: set<char>): (Pointer, Pointer, seq<char>)
    requires last.At? ==> Terminated(s, last.pos)
  {
    match last
    case Null => (Null, Null, s)
    case At(p) =>
      var start := TokenStart(s, p, d);
      if start == |s| || s[start] == NUL then (Null, Null, s)
      else
        var end := TokenEnd(s, start, d);
        if end < |s| && s[end] != NUL then (At(start), At(end + 1), s[end := NUL])
        else (At(start), Null, s)
  }

  /** Cut in terms of the string that starts at the saved position. */
  lemma CutValue(s: seq<char>, p: nat, d: set<char>, text: seq<char>, b: nat, e: nat)
    requires Terminated(s, p) && text == CStr(s, p)
    requires b == WordStart(text, d, 0) && e == WordEnd(text, d, b)
    ensures Cut(s, At(p), d) ==
            if b == |text| then (Null, Null, s)
            else if e < |text| then (At(p + b), At(p + e + 1), s[p + e := NUL])
            else (At(p + b), Null, s)
  {
    TokenBounds(s, p, d, text, 0);
    TokenBounds(s, p, d, text, b);
    if b < |text| { NotNul(s, p, p + b); }
    if e < |text| { NotNul(s, p, p + e); }
  }

  /** A call returns the first of the remaining words, still readable at its place after the cut, and saves a
      position from which exactly the others remain; nothing before the word's end changes. */
  lemma CutMeaning(s: seq<char>, last: Pointer, d: set<char>)
    requires last.At? ==> Terminated(s, last.pos)
    ensures CutOk(s, last, d, Cut(s, last, d).0, Cut(s, last, d).1, Cut(s, last, d).2)
  {
    if last.At? {
      var p := last.pos;
      var text := CStr(s, p);
      var b := WordStart(text, d, 0);
      var e := WordEnd(text, d, b);
      CutValue(s, p, d, text, b, e);
      if b == |text| {
      } else if e < |text| {
        CutMiddle(s, p, d, text, b, e);
      } else {
        CutLast(s, p, d, text, b);
      }
    }
  }

  ghost predicate CutOk(s: seq<char>, last: Pointer, d: set<char>, token: Pointer, rest: Pointer, t: seq<char>)
    requires last.At? ==> Terminated(s, last.pos)
  {
    && |t| == |s|
    && (rest.At? ==> Terminated(t, rest.pos))
    && (token == Null <==> Remaining(s, last, d) == [])
    && (token == Null ==> rest == Null && t == s)
    && (token.At? ==>
          && last.At? && last.pos <= token.pos < |t| && Terminated(t, token.pos)
          && Remaining(s, last, d) == [CStr(t, token.pos)] + Remaining(t, rest, d)
          && (rest.At? ==> rest.pos == StrEnd(t, token.pos) + 1)
          && t[..token.pos] == s[..token.pos])
  }

  lemma CutMiddle(s: seq<char>, p: nat, d: set<char>, text: seq<char>, b: nat, e: nat)
    requires Terminated(s, p) && text == CStr(s, p)
    requires b == WordStart(text, d, 0) < |text| && e == WordEnd(text, d, b) < |text|
    ensures CutOk(s, At(p), d, At(p + b), At(p + e + 1), s[p + e := NUL])
  {
    FirstWord(text, d, b, e, text[b..e], text[e + 1..]);
    CutString(s, p, b, e);
  }

  lemma CutLast(s: seq<char>, p: nat, d: set<char>, text: seq<char>, b: nat)
    requires Terminated(s, p) && text == CStr(s, p)
    requires b == WordStart(text, d, 0) < |text| && WordEnd(text, d, b) == |text|
    ensures CutOk(s, At(p), d, At(p + b), Null, s)
  {
    FirstWord(text, d, b, |text|, text[b..], []);
    LaterStart(s, p, b);
  }

  lemma CutRest(s: seq<char>, p: nat, end: nat)
    requires Terminated(s, p) && p <= end < StrEnd(s, p)
    ensures Terminated(s[end := NUL], end + 1)
  {
    NoNulBefore(s, p);
    StrEndIs(s[end := NUL], end + 1, StrEnd(s, p));
  }

  /** The tokenizer's static variable, for the buffer it points into. */
  class Tokenizer {
    const str: array<char>
    var lastToken: Pointer

    constructor (str: array<char>)
      ensures this.str == str && lastToken == Null
    {
      this.str := str;
      lastToken := Null;
    }

    ghost predicate Valid()
      reads this, str
    {
      lastToken.At? ==> Terminated(str[..], lastToken.pos)
    }

    /** Passes over delimiters (`skip`) or over other characters. */
    method Scan(p: nat, delims: array<char>, skip: bool) returns (q: nat)
      requires Terminated(str[..], p) && Terminated(delims[..], 0)
      ensures q == if skip then TokenStart(str[..], p, DelimiterSet(delims))
                   else TokenEnd(str[..], p, DelimiterSet(delims))
      ensures p <= q <= StrEnd(str[..], p) && Terminated(str[..], q)
    {
      ghost var s, d := str[..], DelimiterSet(delims);
      q := p;
      while str[q] != NUL
        invariant p <= q <= StrEnd(s, p) == StrEnd(s, q)
        invariant skip ==> TokenStart(s, q, d) == TokenStart(s, p, d)
        invariant !skip ==> TokenEnd(s, q, d) == TokenEnd(s, p, d)
        decreases |s| - q
      {
        var found, _ := Strchr(delims, 0, str[q]);
        if found != skip {
          return;
        }
        q := q + 1;
      }
    }

    /** The next word, or Null. A start other than Null begins a new string. */
    method Strtok(start: Pointer, delims: array<char>) returns (token: Pointer)
      requires Valid() && delims != str && Terminated(delims[..], 0)
      requires start.At? ==> Terminated(str[..], start.pos)
      modifies this, str
      ensures Valid()
      ensures (token, lastToken, str[..]) ==
              Cut(old(str[..]), if start.At? then start else old(lastToken), DelimiterSet(delims))
    {
      if start != Null {
        lastToken := start;
      } else if lastToken == Null {
        return Null;
      }
      ghost var s, from, d := str[..], lastToken, DelimiterSet(delims);
      var tokenStart := Scan(lastToken.pos, delims, true);
      if str[tokenStart] == NUL {
        lastToken := Null;
        return Null;
      }
      var end := Scan(tokenStart, delims, false);
      SameEnd(s, from.pos, tokenStart);
      token := At(tokenStart);
      if str[end] != NUL {
        str[end] := NUL;
        lastToken := At(end + 1);
        assert str[..] == s[end := NUL];
        CutRest(s, from.pos, end);
      } else {
        lastToken := Null;
      }
    }
  }

  /** A call seen through what it means for the words. */
  method NextToken(t: Tokenizer, start: Pointer, delims: array<char>) returns (token: Pointer)
    requires t.Valid() && delims != t.str && Terminated(delims[..], 0)
    requires start.At? ==> Terminated(t.str[..], start.pos)
    modifies t, t.str
    ensures t.Valid()
    ensures CutOk(old(t.str[..]), if start.At? then start else old(t.lastToken), DelimiterSet(delims),
                  token, t.lastToken, t.str[..])
  {
    CutMeaning(t.str[..], if start.At? then start else t.lastToken, DelimiterSet(delims));
    token := t.Strtok(start, delims);
  }

  /** The word at position p lies wholly before the saved position. */
  ghost predicate Kept(s: seq<char>, from: Pointer, p: nat, word: seq<char>) {
    p < |s| && Terminated(s, p) && CStr(s, p) == word && (from.At? ==> StrEnd(s, p) < from.pos)
  }

  /** Later calls leave the words already returned alone. */
  lemma KeptAfterCut(s: seq<char>, from: Pointer, d: set<char>, token: Pointer, rest: Pointer, t: seq<char>,
                     p: nat, word: seq<char>)
    requires from.At? ==> Terminated(s, from.pos)
    requires CutOk(s, from, d, token, rest, t) && token.At? && Kept(s, from, p, word)
    ensures Kept(t, rest, p, word)
  {
    NoNulBefore(s, p);
    assert forall k :: 0 <= k < token.pos ==> t[k] == t[..token.pos][k] == s[..token.pos][k] == s[k];
    StrEndIs(t, p, StrEnd(s, p));
  }

  ghost predicate AllKept(s: seq<char>, from: Pointer, tokens: seq<nat>, words: seq<seq<char>>)
    requires |tokens| <= |words|
  {
    forall k :: 0 <= k < |tokens| ==> Kept(s, from, tokens[k], words[k])
  }

  lemma OneMoreToken(s: seq<char>, from: Pointer, d: set<char>, token: Pointer, rest: Pointer, t: seq<char>,
                     tokens: seq<nat>, words: seq<seq<char>>)
    requires from.At? ==> Terminated(s, from.pos)
    requires CutOk(s, from, d, token, rest, t) && token.At?
    requires |tokens| <= |words| && AllKept(s, from, tokens, words) && words[|tokens|..] == Remaining(s, from, d)
    ensures |tokens| < |words| && AllKept(t, rest, tokens + [token.pos], words)
    ensures words[|tokens| + 1..] == Remaining(t, rest, d)
  {
    forall k | 0 <= k < |tokens|
      ensures Kept(t, rest, tokens[k], words[k])
    {
      KeptAfterCut(s, from, d, token, rest, t, tokens[k], words[k]);
    }
    assert words[|tokens|] == words[|tokens|..][0];
    assert words[|tokens| + 1..] == words[|tokens|..][1..];
  }

  /** Calls strtok until it returns NULL. The words found at the returned places in the final buffer are exactly
      the words split finds in the original string, although the buffer has been cut up meanwhile. */
  method Tokenize(t: Tokenizer, delims: array<char>) returns (tokens: seq<nat>)
    requires delims != t.str && Terminated(t.str[..], 0) && Terminated(delims[..], 0) && t.Valid()
    modifies t, t.str
    ensures var words := Words(old(CStr(t.str[..], 0)), DelimiterSet(delims), 0);
            && |tokens| == |words|
            && forall k :: 0 <= k < |tokens| ==> tokens[k] < t.str.Length && CStr(t.str[..], tokens[k]) == words[k]
    ensures t.lastToken == Null
  {
    ghost var d := DelimiterSet(delims);
    ghost var words := Words(CStr(t.str[..], 0), d, 0);
    ghost var s, from := t.str[..], At(0);
    tokens := [];
    var token := NextToken(t, At(0), delims);
    while token != Null
      invariant t.Valid() && |s| == t.str.Length && |tokens| <= |words|
      invariant from.At? ==> Terminated(s, from.pos)
      invariant CutOk(s, from, d, token, t.lastToken, t.str[..])
      invariant words[|tokens|..] == Remaining(s, from, d)
      invariant AllKept(s, from, tokens, words)
      decreases |words| - |tokens|, if token == Null then 0 else 1
    {
      OneMoreToken(s, from, d, token, t.lastToken, t.str[..], tokens, words);
      tokens := tokens + [token.pos];
      s, from := t.str[..], t.lastToken;
      token := NextToken(t, Null, delims);
    }
  }

  /** With a one-character delimiter string, the words strtok cuts out of one copy of a string are, one by one,
      the words split copies out of another; when split returns NULL, there are none or memory ran out. */
  method SplitLikeTokenize(copy: array<char>, t: Tokenizer, delims: array<char>, heap: Allocator)
    returns (result: array?<array?<char>>, tokens: seq<nat>)
    requires t.Valid() && delims != t.str && copy != t.str
    requires Terminated(copy[..], 0) && copy.Length <= INT_MAX
    requires Terminated(t.str[..], 0) && CStr(t.str[..], 0) == CStr(copy[..], 0)
    requires Terminated(delims[..], 0) && |CStr(delims[..], 0)| == 1
    modifies t, t.str, heap
    ensures var words := Words(CStr(copy[..], 0), {delims[0]}, 0);
            && |tokens| == |words|
            && (forall k :: 0 <= k < |tokens| ==> tokens[k] < t.str.Length && CStr(t.str[..], tokens[k]) == words[k])
            && (result == null <==> tokens == [] || old(heap.budget) <= |tokens|)
    ensures result != null ==>
              && |tokens| == result.Length
              && forall k :: 0 <= k < |tokens| ==>
                   && tokens[k] < t.str.Length && result[k] != null
                   && result[k][..] == CStr(t.str[..], tokens[k]) + [NUL]
  {
    assert DelimiterSet(delims) == {delims[0]};
    tokens := Tokenize(t, delims);
    ghost var words := Words(CStr(copy[..], 0), {delims[0]}, 0);
    assert |tokens| == |words|;
    ghost var cut := t.str[..];
    var count;
    result, count := Split(copy, delims[0], heap, 0);
    if result != null {
      assert t.str[..] == cut;
      forall k | 0 <= k < |tokens|
        ensures result[k] != null && result[k][..] == CStr(t.str[..], tokens[k]) + [NUL]
      {
        assert Holds(result, words, k);
      }
    }
  }
}
