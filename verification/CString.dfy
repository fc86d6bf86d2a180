/** NUL-terminated strings in character arrays, and the routines of libc/string.c that edit them in place. */
module CString {

  const NUL := '\0'
  const INT_MAX := 0x7FFF_FFFF

  /** Index of the first NUL at or after i, or |s|. */
  function StrEnd(s: seq<char>, i: nat): (r: nat)
    requires i <= |s|
    ensures i <= r <= |s|
    ensures r < |s| ==> s[r] == NUL
    decreases |s| - i
  {
    if i == |s| || s[i] == NUL then i else StrEnd(s, i + 1)
  }

  lemma {:induction false} NotNul(s: seq<char>, i: nat, k: nat)
    requires i <= |s| && i <= k < StrEnd(s, i)
    ensures s[k] != NUL
    decreases k - i
  {
    if i < k { NotNul(s, i + 1, k); }
  }

  predicate Terminated(s: seq<char>, i: nat) {
    i <= |s| && StrEnd(s, i) < |s|
  }

  /** The string that starts at index i. */
  function CStr(s: seq<char>, i: nat): seq<char>
    requires i <= |s|
  {
    s[i..StrEnd(s, i)]
  }

  /** A string read from a later position of itself ends at the same place. */
  lemma {:induction false} SameEnd(s: seq<char>, p: nat, k: nat)
    requires p <= |s| && p <= k <= StrEnd(s, p)
    ensures StrEnd(s, k) == StrEnd(s, p)
    decreases k - p
  {
    if p < k { SameEnd(s, p + 1, k); }
  }

  lemma NoNulBefore(s: seq<char>, i: nat)
    requires i <= |s|
    ensures forall k :: i <= k < StrEnd(s, i) ==> s[k] != NUL
  {
    forall k | i <= k < StrEnd(s, i) ensures s[k] != NUL { NotNul(s, i, k); }
  }

  /** A string ends at the first NUL: none before, one there. */
  lemma {:induction false} StrEndIs(s: seq<char>, i: nat, r: nat)
    requires i <= r < |s| && s[r] == NUL && forall k :: i <= k < r ==> s[k] != NUL
    ensures StrEnd(s, i) == r && CStr(s, i) == s[i..r]
    decreases r - i
  {
    if i < r { StrEndIs(s, i + 1, r); }
  }

  method Strlen(a: array<char>, base: nat) returns (n: nat)
    requires Terminated(a[..], base) && a.Length <= INT_MAX
    ensures n == |CStr(a[..], base)|
  {
    n := 0;
    while a[base + n] != NUL
      invariant base + n <= StrEnd(a[..], base) == StrEnd(a[..], base + n)
      decreases a.Length - n
    {
      n := n + 1;
    }
  }

  /** The loop of memmove that runs upwards, for a destination that does not start inside the source. */
  method CopyUp(a: array<char>, dest: nat, src: nat, n: nat)
    requires dest + n <= a.Length && src + n <= a.Length && (dest < src || dest >= src + n)
    modifies a
    ensures forall k :: 0 <= k < a.Length ==>
              a[k] == if dest <= k < dest + n then old(a[src + (k - dest)]) else old(a[k])
  {
    var left, d, s := n, dest, src;
    while left != 0
      invariant 0 <= left <= n && d == dest + (n - left) && s == src + (n - left)
      invariant forall k :: 0 <= k < a.Length ==>
                  a[k] == if dest <= k < d then old(a[src + (k - dest)]) else old(a[k])
      decreases left
    {
      left := left - 1;
      a[d] := a[s];
      d, s := d + 1, s + 1;
    }
  }

  /** The loop of memmove that runs downwards, for a destination that starts inside the source. */
  method CopyDown(a: array<char>, dest: nat, src: nat, n: nat)
    requires dest + n <= a.Length && src <= dest
    modifies a
    ensures forall k :: 0 <= k < a.Length ==>
              a[k] == if dest <= k < dest + n then old(a[src + (k - dest)]) else old(a[k])
  {
    var left, d, s := n, dest + n, src + n;
    while left != 0
      invariant 0 <= left <= n && d == dest + left && s == src + left
      invariant forall k :: 0 <= k < a.Length ==>
                  a[k] == if d <= k < dest + n then old(a[src + (k - dest)]) else old(a[k])
      decreases left
    {
      left := left - 1;
      d, s := d - 1, s - 1;
      a[d] := a[s];
    }
  }

  /** Copies n bytes inside one buffer, whichever way source and destination overlap. */
  method Memmove(a: array<char>, dest: nat, src: nat, n: nat)
    requires dest + n <= a.Length && src + n <= a.Length
    modifies a
    ensures a[..] == old(a[..dest] + a[src..src + n] + a[dest + n..])
  {
    if dest < src || dest >= src + n {
      CopyUp(a, dest, src, n);
    } else {
      CopyDown(a, dest, src, n);
    }
  }

  function Zeros(n: nat): seq<char> {
    seq(n, _ => NUL)
  }

  /** The first n characters of text, padded with NULs to length n. */
  function Padded(text: seq<char>, n: nat): (r: seq<char>)
    ensures |r| == n
    ensures forall k :: 0 <= k < n ==> r[k] == if k < |text| then text[k] else NUL
  {
    if n <= |text| then text[..n] else text + Zeros(n - |text|)
  }

  method Strncpy(dest: array<char>, to: nat, src: array<char>, from: nat, n: nat)
    requires dest != src && to + n <= dest.Length && from <= src.Length
    requires from + n <= src.Length || Terminated(src[..], from)
    modifies dest
    ensures dest[..] == old(dest[..to]) + Padded(CStr(src[..], from), n) + old(dest[to + n..])
  {
    ghost var text := CStr(src[..], from);
    var i := 0;
    while i < n && src[from + i] != NUL
      invariant i <= n && i <= |text|
      invariant from + i <= src.Length && StrEnd(src[..], from + i) == StrEnd(src[..], from)
      invariant forall k :: 0 <= k < dest.Length ==>
                  dest[k] == if to <= k < to + i then text[k - to] else old(dest[k])
    {
      dest[to + i] := src[from + i];
      i := i + 1;
    }
    assert i < n ==> i == |text|;
    while i < n
      invariant i <= n && (i == n || |text| <= i)
      invariant forall k :: 0 <= k < dest.Length ==>
                  dest[k] == if to <= k < to + i then (if k - to < |text| then text[k - to] else NUL) else old(dest[k])
    {
      dest[to + i] := NUL;
      i := i + 1;
    }
  }

  /** Meant to clear a string; since the length is measured again after each byte, it clears only the first. */
  method Strnone(a: array<char>)
    requires Terminated(a[..], 0) && a.Length <= INT_MAX
    modifies a
    ensures a[..] == [NUL] + old(a[1..])
    ensures Terminated(a[..], 0) && CStr(a[..], 0) == []
  {
    var i := 0;
    var len := Strlen(a, 0);
    while i < len
      invariant Terminated(a[..], 0) && len == |CStr(a[..], 0)|
      invariant a[..] == if i == 0 then old(a[..]) else [NUL] + old(a[1..])
      decreases len
    {
      a[i] := NUL;
      i := i + 1;
      StrEndIs(a[..], 0, 0);
      len := Strlen(a, 0);
    }
  }

  /** Inserts c at pos, or at the end when pos lies beyond it. */
  method Strins(a: array<char>, c: char, pos: nat)
    requires Terminated(a[..], 0) && StrEnd(a[..], 0) + 1 < a.Length <= INT_MAX
    modifies a
    ensures var len := old(StrEnd(a[..], 0)); var p := if pos > len then len else pos;
            a[..] == old(a[..p]) + [c] + old(a[p..len]) + [NUL] + old(a[len + 2..])
  {
    var len := Strlen(a, 0);
    var p := pos;
    if p > len {
      p := len;
    }
    var i := len;
    while i > p
      invariant p <= i <= len
      invariant forall k :: 0 <= k < a.Length ==> a[k] == if i < k <= len then old(a[k - 1]) else old(a[k])
    {
      a[i] := a[i - 1];
      i := i - 1;
    }
    a[p] := c;
    a[len + 1] := NUL;
    ghost var was := old(a[..]);
    assert a[..] == was[..p] + [c] + was[p..len] + [NUL] + was[len + 2..];
  }

  /** Index of the first occurrence of c in the string at base; the terminator counts when c is NUL. */
  method Strchr(a: array<char>, base: nat, c: char) returns (found: bool, at: nat)
    requires Terminated(a[..], base)
    ensures found <==> c == NUL || c in CStr(a[..], base)
    ensures found ==> base <= at <= StrEnd(a[..], base) && a[at] == c && forall k :: base <= k < at ==> a[k] != c
  {
    at := base;
    while a[at] != NUL
      invariant base <= at <= StrEnd(a[..], base) == StrEnd(a[..], at)
      invariant forall k :: base <= k < at ==> a[k] != c
      decreases a.Length - at
    {
      if a[at] == c {
        assert CStr(a[..], base)[at - base] == c;
        return true, at;
      }
      at := at + 1;
    }
    found := c == NUL;
  }

  function Reversed(s: seq<char>): (r: seq<char>)
    ensures |r| == |s|
    ensures forall k :: 0 <= k < |s| ==> r[k] == s[|s| - 1 - k]
  {
    if s == [] then [] else Reversed(s[1..]) + [s[0]]
  }

  /** Reverses the string in place and leaves what lies beyond it alone. */
  method Reverse(a: array<char>)
    requires Terminated(a[..], 0) && a.Length <= INT_MAX
    modifies a
    ensures a[..] == old(Reversed(CStr(a[..], 0)) + a[StrEnd(a[..], 0)..])
  {
    var len := Strlen(a, 0);
    var i, j := 0, len - 1;
    while i < j
      invariant 0 <= i && j == len - 1 - i && i <= j + 2
      invariant forall k :: 0 <= k < a.Length ==>
                  a[k] == if k < i || j < k < len then old(a[len - 1 - k]) else old(a[k])
    {
      a[i], a[j] := a[j], a[i];
      i, j := i + 1, j - 1;
    }
  }
}
