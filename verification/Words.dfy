/** The words of a string: its maximal runs of characters that are not delimiters. */
module WordSpec {

  /** First position at or after i that holds a delimiter, or the length. */
  function WordEnd(s: seq<char>, delims: set<char>, i: nat): (e: nat)
    requires i <= |s|
    ensures i <= e <= |s|
    ensures e < |s| ==> s[e] in delims
    decreases |s| - i
  {
    if i == |s| || s[i] in delims then i else WordEnd(s, delims, i + 1)
  }

  /** First position at or after i that does not hold a delimiter, or the length. */
  function WordStart(s: seq<char>, delims: set<char>, i: nat): (b: nat)
    requires i <= |s|
    ensures i <= b <= |s|
    ensures b < |s| ==> s[b] !in delims
    decreases |s| - i
  {
    if i == |s| || s[i] !in delims then i else WordStart(s, delims, i + 1)
  }

  lemma {:induction false} InsideWord(s: seq<char>, delims: set<char>, i: nat, k: nat)
    requires i <= |s| && i <= k < WordEnd(s, delims, i)
    ensures s[k] !in delims
    decreases k - i
  {
    if i < k { InsideWord(s, delims, i + 1, k); }
  }

  lemma {:induction false} BeforeWord(s: seq<char>, delims: set<char>, i: nat, k: nat)
    requires i <= |s| && i <= k < WordStart(s, delims, i)
    ensures s[k] in delims
    decreases k - i
  {
    if i < k { BeforeWord(s, delims, i + 1, k); }
  }

  /** The words of s from position i on, as pairs of start and end. */
  function Runs(s: seq<char>, delims: set<char>, i: nat): seq<(nat, nat)>
    requires i <= |s|
    decreases |s| - i
  {
    var b := WordStart(s, delims, i);
    if b == |s| then []
    else
      var e := WordEnd(s, delims, b);
      [(b, e)] + Runs(s, delims, e)
  }

  function Words(s: seq<char>, delims: set<char>, i: nat): seq<seq<char>>
    requires i <= |s|
    decreases |s| - i
  {
    var b := WordStart(s, delims, i);
    if b == |s| then []
    else
      var e := WordEnd(s, delims, b);
      [s[b..e]] + Words(s, delims, e)
  }

  /** s[a..b] is a word: no delimiter inside, and it cannot be extended either way. */
  ghost predicate IsWord(s: seq<char>, delims: set<char>, a: int, b: int) {
    && 0 <= a < b <= |s|
    && (forall k :: a <= k < b ==> s[k] !in delims)
    && (a == 0 || s[a - 1] in delims)
    && (b == |s| || s[b] in delims)
  }

  /** Position i does not lie inside a word. */
  predicate Boundary(s: seq<char>, delims: set<char>, i: nat)
    requires i <= |s|
  {
    i == 0 || i == |s| || s[i] in delims || s[i - 1] in delims
  }

  /** Words and Runs list the same words in the same order. */
  lemma {:induction false} WordsAreRuns(s: seq<char>, delims: set<char>, i: nat)
    requires i <= |s|
    ensures |Words(s, delims, i)| == |Runs(s, delims, i)|
    ensures forall k :: 0 <= k < |Runs(s, delims, i)| ==>
                          var (a, b) := Runs(s, delims, i)[k]; a <= b <= |s| && Words(s, delims, i)[k] == s[a..b]
    decreases |s| - i
  {
    var b := WordStart(s, delims, i);
    if b < |s| {
      WordsAreRuns(s, delims, WordEnd(s, delims, b));
    }
  }

  /** From a boundary on, Runs lists exactly the words of s that start there or later. */
  lemma {:induction false} RunsAreWords(s: seq<char>, delims: set<char>, i: nat, a: nat, b: nat)
    requires i <= |s| && Boundary(s, delims, i)
    ensures (a, b) in Runs(s, delims, i) <==> IsWord(s, delims, a, b) && i <= a
    decreases |s| - i
  {
    var c := WordStart(s, delims, i);
    forall k | i <= k < c ensures s[k] in delims { BeforeWord(s, delims, i, k); }
    if IsWord(s, delims, a, b) && i <= a {
      assert s[a] !in delims;
    }
    if c < |s| {
      var e := WordEnd(s, delims, c);
      forall k | c <= k < e ensures s[k] !in delims { InsideWord(s, delims, c, k); }
      RunsAreWords(s, delims, e, a, b);
      assert IsWord(s, delims, c, e);
      assert IsWord(s, delims, a, b) && i <= a < e ==> a == c && b == e;
    }
  }

  /** Runs lists the words from left to right, a delimiter after each but the last. */
  lemma {:induction false} RunsInOrder(s: seq<char>, delims: set<char>, i: nat, k: nat)
    requires i <= |s| && k < |Runs(s, delims, i)|
    ensures i <= Runs(s, delims, i)[k].0 < Runs(s, delims, i)[k].1 <= |s|
    ensures k + 1 < |Runs(s, delims, i)| ==> Runs(s, delims, i)[k].1 < Runs(s, delims, i)[k + 1].0
    decreases |s| - i
  {
    var b := WordStart(s, delims, i);
    var e := WordEnd(s, delims, b);
    if k > 0 {
      RunsInOrder(s, delims, e, k - 1);
    } else if 1 < |Runs(s, delims, i)| {
      assert Runs(s, delims, i)[1] == Runs(s, delims, e)[0];
      RunsInOrder(s, delims, e, 0);
    }
  }

  lemma {:induction false} EndsOfSuffix(s: seq<char>, delims: set<char>, p: nat, t: seq<char>, i: nat)
    requires p + i <= |s| && t == s[p..]
    ensures WordStart(t, delims, i) + p == WordStart(s, delims, p + i)
    ensures WordEnd(t, delims, i) + p == WordEnd(s, delims, p + i)
    decreases |s| - i
  {
    if p + i < |s| { EndsOfSuffix(s, delims, p, t, i + 1); }
  }

  /** A suffix has the words that the whole has from there on. */
  lemma {:induction false} WordsOfSuffix(s: seq<char>, delims: set<char>, p: nat, t: seq<char>, i: nat)
    requires p + i <= |s| && t == s[p..]
    ensures Words(t, delims, i) == Words(s, delims, p + i)
    decreases |s| - i
  {
    EndsOfSuffix(s, delims, p, t, i);
    var b := WordStart(t, delims, i);
    if b < |t| {
      EndsOfSuffix(s, delims, p, t, b);
      var e := WordEnd(t, delims, b);
      assert t[b..e] == s[p + b..p + e];
      WordsOfSuffix(s, delims, p, t, e);
    }
  }
}
