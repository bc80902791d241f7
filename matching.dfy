/** Which entries of a column a filter pattern keeps: the indices, in
    listing order, of the names that start with the pattern. */
module Matching {
  import opened Prefix

  /** The matching indices below `n`, in the order the filter loop appends them. */
  function MatchesBelow(names: seq<seq<char>>, pattern: seq<char>, n: nat): seq<int>
    requires n <= |names|
  {
    if n == 0 then []
    else MatchesBelow(names, pattern, n - 1) + (if HasPrefix(names[n - 1], pattern) then [n - 1] else [])
  }

  /** The `matches` list a column holds after filtering its names by `pattern`. */
  function MatchingIndices(names: seq<seq<char>>, pattern: seq<char>): seq<int> {
    MatchesBelow(names, pattern, |names|)
  }

  ghost predicate StrictlyIncreasing(ms: seq<int>) {
    forall j, k :: 0 <= j < k < |ms| ==> ms[j] < ms[k]
  }

  /** `ms` lists, in increasing order and without repetition, exactly the
      indices below `n` whose name starts with `pattern`. */
  ghost predicate ExactlyMatchingBelow(ms: seq<int>, names: seq<seq<char>>, pattern: seq<char>, n: nat)
    requires n <= |names|
  {
    StrictlyIncreasing(ms) &&
    (forall k :: 0 <= k < |ms| ==> 0 <= ms[k] < n && HasPrefix(names[ms[k]], pattern)) &&
    (forall i :: 0 <= i < n && HasPrefix(names[i], pattern) ==> i in ms)
  }

  /** The names at the given indices, in that order. */
  function Pick(names: seq<seq<char>>, ms: seq<int>): (picked: seq<seq<char>>)
    requires forall k :: 0 <= k < |ms| ==> 0 <= ms[k] < |names|
    ensures |picked| == |ms|
    ensures forall k :: 0 <= k < |ms| ==> picked[k] == names[ms[k]]
  {
    seq(|ms|, k requires 0 <= k < |ms| => names[ms[k]])
  }

  lemma {:induction false} MatchesBelowExact(names: seq<seq<char>>, pattern: seq<char>, n: nat)
    requires n <= |names|
    ensures ExactlyMatchingBelow(MatchesBelow(names, pattern, n), names, pattern, n)
  {
    if n > 0 {
      MatchesBelowExact(names, pattern, n - 1);
    }
  }

  /** After filtering, `matches` is the strictly increasing list of exactly
      the indices whose name starts with the pattern. */
  lemma MatchingIndicesExact(names: seq<seq<char>>, pattern: seq<char>)
    ensures ExactlyMatchingBelow(MatchingIndices(names, pattern), names, pattern, |names|)
  {
    MatchesBelowExact(names, pattern, |names|);
  }

  /** The empty pattern keeps every entry: `matches` becomes 0, 1, ..., n-1. */
  lemma {:induction false} EmptyPatternMatchesAll(names: seq<seq<char>>, n: nat)
    requires n <= |names|
    ensures |MatchesBelow(names, [], n)| == n
    ensures forall k :: 0 <= k < n ==> MatchesBelow(names, [], n)[k] == k
  {
    if n > 0 {
      EmptyPatternMatchesAll(names, n - 1);
      assert HasPrefix(names[n - 1], []);
    }
  }

  /** Typing more characters only narrows the filter: every index kept by the
      longer pattern was kept by the shorter one, and there are no more of them. */
  lemma {:induction false} ExtendingPatternNarrows(names: seq<seq<char>>, p: seq<char>, q: seq<char>, n: nat)
    requires n <= |names|
    ensures |MatchesBelow(names, p + q, n)| <= |MatchesBelow(names, p, n)|
    ensures forall i :: i in MatchesBelow(names, p + q, n) ==> i in MatchesBelow(names, p, n)
  {
    if n > 0 {
      ExtendingPatternNarrows(names, p, q, n - 1);
      if HasPrefix(names[n - 1], p + q) {
        PrefixTransitive(names[n - 1], p + q, p);
      }
    }
  }

  /** Two patterns that accept the same names below `n` give the same matches. */
  lemma {:induction false} SameAcceptanceSameMatches(names: seq<seq<char>>, p: seq<char>, q: seq<char>, n: nat)
    requires n <= |names|
    requires forall i :: 0 <= i < n ==> (HasPrefix(names[i], p) <==> HasPrefix(names[i], q))
    ensures MatchesBelow(names, p, n) == MatchesBelow(names, q, n)
  {
    if n > 0 {
      SameAcceptanceSameMatches(names, p, q, n - 1);
    }
  }

  /** Tab completion: when `pattern` keeps at least one entry, replacing it by
      the longest common prefix of the kept names extends the pattern and
      keeps exactly the same entries. */
  lemma CompletionKeepsMatches(names: seq<seq<char>>, pattern: seq<char>, cp: seq<char>)
    requires MatchingIndices(names, pattern) != []
    requires forall k :: 0 <= k < |MatchingIndices(names, pattern)| ==> 0 <= MatchingIndices(names, pattern)[k] < |names|
    requires IsLongestCommonPrefix(cp, Pick(names, MatchingIndices(names, pattern)))
    ensures HasPrefix(cp, pattern)
    ensures MatchingIndices(names, cp) == MatchingIndices(names, pattern)
  {
    var ms := MatchingIndices(names, pattern);
    var picked := Pick(names, ms);
    MatchingIndicesExact(names, pattern);
    assert IsCommonPrefix(pattern, picked);
    assert HasPrefix(cp, pattern);
    forall i | 0 <= i < |names|
      ensures HasPrefix(names[i], cp) <==> HasPrefix(names[i], pattern)
    {
      if HasPrefix(names[i], cp) {
        PrefixTransitive(names[i], cp, pattern);
      }
      if HasPrefix(names[i], pattern) {
        assert i in ms;
        var k :| 0 <= k < |ms| && ms[k] == i;
        assert picked[k] == names[i];
      }
    }
    SameAcceptanceSameMatches(names, cp, pattern, |names|);
  }
}
