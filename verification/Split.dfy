/** split and splitString: one pass counts the words, a second allocates and fills one block per word. */
module SplitModule {
  import opened CString
  import opened WordSpec

  /** malloc and mfree as split sees them: an arbitrary number of further requests is granted, and a request
      for no bytes never is. The histories list the blocks handed out and the blocks passed to mfree. */
  class Allocator {
    var budget: nat
    ghost var taken: seq<object>
    ghost var freed: seq<object>

    constructor (budget: nat)
      ensures this.budget == budget && taken == [] && freed == []
    {
      this.budget := budget;
      taken, freed := [], [];
    }

    method MallocChars(n: nat) returns (p: array?<char>)
      modifies this
      ensures freed == old(freed)
      ensures p == null <==> n == 0 || old(budget) == 0
      ensures p == null ==> taken == old(taken) && budget == old(budget)
      ensures p != null ==> fresh(p) && p.Length == n && taken == old(taken) + [p] && budget == old(budget) - 1
    {
      p := null;
      if n != 0 && budget != 0 {
        p := new char[n];
        taken := taken + [p];
        budget := budget - 1;
      }
    }

    method MallocPointers(n: nat) returns (p: array?<array?<char>>)
      modifies this
      ensures freed == old(freed)
      ensures p == null <==> n == 0 || old(budget) == 0
      ensures p == null ==> taken == old(taken) && budget == old(budget)
      ensures p != null ==> fresh(p) && p.Length == n && taken == old(taken) + [p] && budget == old(budget) - 1
    {
      p := null;
      if n != 0 && budget != 0 {
        p := new array?<char>[n];
        taken := taken + [p];
        budget := budget - 1;
      }
    }

    method Mfree(p: object)
      modifies this
      ensures freed == old(freed) + [p]
      ensures budget == old(budget) && taken == old(taken)
    {
      freed := freed + [p];
    }
  }

  /** The inner loop that passes over delimiters. */
  method SkipDelimiters(str: array<char>, p: nat, delimiter: char) returns (q: nat)
    requires Terminated(str[..], 0) && p < StrEnd(str[..], 0)
    ensures q == WordStart(CStr(str[..], 0), {delimiter}, p)
  {
    q := p;
    SameEnd(str[..], 0, p);
    while str[q] == delimiter
      invariant p <= q <= StrEnd(str[..], 0) == StrEnd(str[..], q)
      invariant WordStart(CStr(str[..], 0), {delimiter}, q) == WordStart(CStr(str[..], 0), {delimiter}, p)
      invariant delimiter == NUL ==> q == p
      decreases str.Length - q
    {
      q := q + 1;
    }
  }

  /** The inner loop that passes over a word. */
  method SkipWord(str: array<char>, p: nat, delimiter: char) returns (q: nat)
    requires Terminated(str[..], 0) && p <= StrEnd(str[..], 0)
    ensures q == WordEnd(CStr(str[..], 0), {delimiter}, p)
  {
    q := p;
    SameEnd(str[..], 0, p);
    while str[q] != NUL && str[q] != delimiter
      invariant p <= q <= StrEnd(str[..], 0) == StrEnd(str[..], q)
      invariant WordEnd(CStr(str[..], 0), {delimiter}, q) == WordEnd(CStr(str[..], 0), {delimiter}, p)
      decreases str.Length - q
    {
      q := q + 1;
    }
  }

  /** The body both passes share: over the delimiters, then, unless the string ends there, over a word. */
  method NextWord(str: array<char>, p: nat, delimiter: char) returns (found: bool, start: nat, q: nat)
    requires Terminated(str[..], 0) && p < StrEnd(str[..], 0)
    ensures p < q <= StrEnd(str[..], 0) && start <= q
    ensures Words(CStr(str[..], 0), {delimiter}, p) ==
            if found then [CStr(str[..], 0)[start..q]] + Words(CStr(str[..], 0), {delimiter}, q) else []
    ensures !found ==> q == StrEnd(str[..], 0)
  {
    start := SkipDelimiters(str, p, delimiter);
    found, q := false, start;
    SameEnd(str[..], 0, start);
    if str[start] != NUL {
      found := true;
      q := SkipWord(str, start, delimiter);
    }
  }

  /** The first pass. */
  method CountWords(str: array<char>, delimiter: char) returns (n: nat)
    requires Terminated(str[..], 0)
    ensures n == |Words(CStr(str[..], 0), {delimiter}, 0)|
  {
    n := 0;
    var p := 0;
    while str[p] != NUL
      invariant p <= StrEnd(str[..], 0) == StrEnd(str[..], p)
      invariant n + |Words(CStr(str[..], 0), {delimiter}, p)| == |Words(CStr(str[..], 0), {delimiter}, 0)|
      decreases str.Length - p
    {
      var found, _, q := NextWord(str, p, delimiter);
      if found {
        n := n + 1;
      }
      p := q;
      SameEnd(str[..], 0, p);
    }
  }

  /** Block k of the result holds word k and its terminator. */
  ghost predicate Holds(result: array<array?<char>>, words: seq<seq<char>>, k: nat)
    requires k < result.Length && k < |words|
    reads result, result[k]
  {
    result[k] != null && result[k][..] == words[k] + [NUL]
  }

  /** The first |blocks| entries of the result are those blocks, each with its word. */
  ghost predicate Filled(result: array<array?<char>>, blocks: seq<array<char>>, words: seq<seq<char>>)
    reads result, blocks
  {
    && |blocks| <= result.Length && |blocks| <= |words|
    && (forall k :: 0 <= k < |blocks| ==> result[k] == blocks[k])
    && (forall k :: 0 <= k < |blocks| ==> blocks[k][..] == words[k] + [NUL])
  }

  /** Copies one word into a block of its own. */
  method CopyWord(str: array<char>, start: nat, length: nat, word: array<char>)
    requires str != word && start + length <= StrEnd(str[..], 0) && word.Length == length + 1
    modifies word
    ensures word[..] == str[start..start + length] + [NUL]
  {
    SameEnd(str[..], 0, start);
    assert CStr(str[..], start)[..length] == str[start..start + length];
    Strncpy(word, 0, str, start, length);
    word[length] := NUL;
  }

  /** A fresh block with one word, or NULL. */
  method NewWord(str: array<char>, start: nat, length: nat, heap: Allocator) returns (word: array?<char>)
    requires Terminated(str[..], 0) && start + length <= StrEnd(str[..], 0)
    modifies heap
    ensures heap.freed == old(heap.freed)
    ensures word == null <==> old(heap.budget) == 0
    ensures word == null ==> heap.taken == old(heap.taken) && heap.budget == old(heap.budget)
    ensures word != null ==>
              fresh(word) && heap.taken == old(heap.taken) + [word] && heap.budget == old(heap.budget) - 1
    ensures word != null ==> word[..] == CStr(str[..], 0)[start..start + length] + [NUL]
  {
    word := heap.MallocChars(length + 1);
    if word != null {
      CopyWord(str, start, length, word);
    }
  }

  /** The clean-up after a failed word: the first `index` blocks, then the result. */
  method FreeAll(heap: Allocator, result: array<array?<char>>, index: nat, ghost blocks: seq<array<char>>)
    requires index <= result.Length && |blocks| == index
    requires forall k :: 0 <= k < index ==> result[k] == blocks[k]
    modifies heap
    ensures heap.freed == old(heap.freed) + blocks + [result]
    ensures heap.taken == old(heap.taken) && heap.budget == old(heap.budget)
  {
    for j := 0 to index
      invariant heap.taken == old(heap.taken) && heap.budget == old(heap.budget)
      invariant heap.freed == old(heap.freed) + blocks[..j]
    {
      heap.Mfree(result[j]);
      assert blocks[..j + 1] == blocks[..j] + [blocks[j]];
    }
    heap.Mfree(result);
  }

  /** Allocates the block of the next word, fills it, and enters it into the result. */
  method StoreWord(str: array<char>, start: nat, length: nat, heap: Allocator, result: array<array?<char>>, index: nat,
                   ghost blocks: seq<array<char>>, ghost words: seq<seq<char>>)
    returns (word: array?<char>)
    requires Terminated(str[..], 0) && start + length <= StrEnd(str[..], 0)
    requires Filled(result, blocks, words) && |blocks| == index < result.Length == |words|
    requires words[index] == CStr(str[..], 0)[start..start + length]
    modifies heap, result
    ensures heap.freed == old(heap.freed)
    ensures word == null <==> old(heap.budget) == 0
    ensures word == null ==> heap.taken == old(heap.taken) && heap.budget == 0 && Filled(result, blocks, words)
    ensures word != null ==>
              fresh(word) && heap.taken == old(heap.taken) + [word] && heap.budget == old(heap.budget) - 1
    ensures word != null ==> Filled(result, blocks + [word], words)
  {
    word := NewWord(str, start, length, heap);
    result[index] := word;
  }

  /** The second pass at position p: `blocks` hold the words before p, and the rest of the string holds the others. */
  ghost predicate Filling(str: array<char>, delimiter: char, p: nat, result: array<array?<char>>,
                          blocks: seq<array<char>>, words: seq<seq<char>>)
    reads str, result, blocks
  {
    && Terminated(str[..], 0) && p <= StrEnd(str[..], 0) == StrEnd(str[..], p)
    && result.Length == |words|
    && Filled(result, blocks, words)
    && words[|blocks|..] == Words(CStr(str[..], 0), {delimiter}, p)
  }

  /** One round of the second pass; `failed` when the word's block could not be had. */
  method FillNext(str: array<char>, delimiter: char, p: nat, heap: Allocator, result: array<array?<char>>, index: nat,
                  ghost blocks: seq<array<char>>, ghost words: seq<seq<char>>)
    returns (q: nat, next: nat, failed: bool, ghost more: seq<array<char>>)
    requires Filling(str, delimiter, p, result, blocks, words) && index == |blocks| && p < StrEnd(str[..], 0)
    modifies heap, result
    ensures !failed ==> Filling(str, delimiter, q, result, blocks + more, words)
    ensures failed ==> Filled(result, blocks, words)
    ensures p < q <= StrEnd(str[..], 0) && heap.freed == old(heap.freed)
    ensures fresh(more) && heap.taken == old(heap.taken) + more && |more| <= 1
    ensures next == index + |more|
    ensures heap.budget == old(heap.budget) - |more|
    ensures failed ==> more == [] && heap.budget == 0 && index < |words|
  {
    var found, start;
    found, start, q := NextWord(str, p, delimiter);
    SameEnd(str[..], 0, q);
    next, failed, more := index, false, [];
    if found {
      assert words[index] == words[index..][0];
      ghost var chars := str[..];
      var word := StoreWord(str, start, q - start, heap, result, index, blocks, words);
      assert str[..] == chars;
      if word == null {
        failed := true;
        return;
      }
      next, more := index + 1, [word];
      assert words[index + 1..] == words[index..][1..];
    }
  }

  /** At the end of the string every word has its block. */
  lemma FillingDone(str: array<char>, delimiter: char, p: nat, result: array<array?<char>>,
                    blocks: seq<array<char>>, words: seq<seq<char>>)
    requires Filling(str, delimiter, p, result, blocks, words) && p == StrEnd(str[..], 0)
    ensures |blocks| == |words|
  {
    assert Words(CStr(str[..], 0), {delimiter}, p) == [];
  }

  /** The second pass: word k of the string goes to block k of the result. When the allocation of a word fails,
      the blocks of the earlier words and then the result itself are passed to mfree. */
  method FillWords(str: array<char>, delimiter: char, heap: Allocator, result: array<array?<char>>)
    returns (ok: bool, ghost blocks: seq<array<char>>)
    requires Terminated(str[..], 0)
    requires result.Length == |Words(CStr(str[..], 0), {delimiter}, 0)|
    modifies heap, result
    ensures heap.taken == old(heap.taken) + blocks && fresh(blocks)
    ensures !ok ==> heap.freed == old(heap.freed) + blocks + [result]
    ensures ok ==> heap.freed == old(heap.freed)
    ensures var words := Words(CStr(str[..], 0), {delimiter}, 0);
            && (ok <==> |words| <= old(heap.budget))
            && (ok ==> |blocks| == |words|)
            && Filled(result, blocks, words)
  {
    ghost var words := Words(CStr(str[..], 0), {delimiter}, 0);
    hide Words;
    blocks := [];
    var index, p := 0, 0;
    while str[p] != NUL
      invariant Filling(str, delimiter, p, result, blocks, words) && fresh(blocks) && index == |blocks|
      invariant heap.budget == old(heap.budget) - index
      invariant heap.taken == old(heap.taken) + blocks && heap.freed == old(heap.freed)
      decreases str.Length - p
    {
      var q, next, failed;
      ghost var more;
      q, next, failed, more := FillNext(str, delimiter, p, heap, result, index, blocks, words);
      if failed {
        FreeAll(heap, result, index, blocks);
        return false, blocks;
      }
      blocks := blocks + more;
      p, index := q, next;
    }
    FillingDone(str, delimiter, p, result, blocks, words);
    ok := true;
  }

  /** split: the words of the string, one block each, or NULL when there is no word or an allocation fails.
      Only a successful call sets the count. */
  method Split(str: array<char>, delimiter: char, heap: Allocator, count: int)
    returns (result: array?<array?<char>>, newCount: int)
    requires Terminated(str[..], 0) && str.Length <= INT_MAX
    modifies heap
    ensures var words := Words(CStr(str[..], 0), {delimiter}, 0);
            && (result != null <==> words != [] && |words| < old(heap.budget))
            && (result == null ==> newCount == count)
            && (result != null ==>
                  newCount == |words| == result.Length && fresh(result) && heap.freed == old(heap.freed))
            && (result != null ==> forall k :: 0 <= k < |words| ==> Holds(result, words, k))
            && old(heap.taken) <= heap.taken
    ensures result == null ==>
              var got := heap.taken[|old(heap.taken)|..];
              heap.freed == old(heap.freed) + if got == [] then [] else got[1..] + [got[0]]
  {
    newCount := count;
    ghost var words := Words(CStr(str[..], 0), {delimiter}, 0);
    var n := CountWords(str, delimiter);
    result := heap.MallocPointers(n);
    if result == null {
      return;
    }
    var ok;
    ghost var blocks;
    ok, blocks := FillWords(str, delimiter, heap, result);
    if !ok {
      ghost var got := heap.taken[|old(heap.taken)|..];
      assert got[0] == result && got[1..] == blocks;
      return null, count;
    }
    newCount := n;
  }

  /** splitString is split at spaces. */
  method SplitString(str: array<char>, heap: Allocator, count: int)
    returns (result: array?<array?<char>>, newCount: int)
    requires Terminated(str[..], 0) && str.Length <= INT_MAX
    modifies heap
    ensures var words := Words(CStr(str[..], 0), {' '}, 0);
            && (result != null <==> words != [] && |words| < old(heap.budget))
            && (result == null ==> newCount == count)
            && (result != null ==>
                  newCount == |words| == result.Length && fresh(result) && heap.freed == old(heap.freed))
            && (result != null ==> forall k :: 0 <= k < |words| ==> Holds(result, words, k))
            && old(heap.taken) <= heap.taken
    ensures result == null ==>
              var got := heap.taken[|old(heap.taken)|..];
              heap.freed == old(heap.freed) + if got == [] then [] else got[1..] + [got[0]]
  {
    result, newCount := Split(str, ' ', heap, count);
  }
}
