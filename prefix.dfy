/** Prefix tests on rune sequences: the matching rule of the column filter
    and the notion of a longest common prefix used by tab completion. */
module Prefix {

  /** `s` starts with `p` (Go's strings.HasPrefix, compared rune by rune). */
  predicate HasPrefix(s: seq<char>, p: seq<char>) {
    |p| <= |s| && s[..|p|] == p
  }

  /** `p` is a prefix of every name in `names`. */
  ghost predicate IsCommonPrefix(p: seq<char>, names: seq<seq<char>>) {
    forall k :: 0 <= k < |names| ==> HasPrefix(names[k], p)
  }

  /** `p` is common to all `names`, and every common prefix is a prefix of `p`. */
  ghost predicate IsLongestCommonPrefix(p: seq<char>, names: seq<seq<char>>) {
    IsCommonPrefix(p, names) &&
    forall q :: IsCommonPrefix(q, names) ==> HasPrefix(p, q)
  }

  /** The first name is a common prefix and some name is longer: Go's
      completion scan, bounded by the longest name, then runs past the end
      of the first name. */
  ghost predicate Overruns(names: seq<seq<char>>) {
    0 < |names| && IsCommonPrefix(names[0], names) &&
    exists k :: 0 <= k < |names| && |names[0]| < |names[k]|
  }

  /** No name is shorter than the first, as in a sorted listing where a name
      that is a prefix of the others comes first. */
  ghost predicate FirstIsShortest(names: seq<seq<char>>) {
    0 < |names| && forall k :: 0 <= k < |names| ==> |names[0]| <= |names[k]|
  }

  lemma PrefixTransitive(s: seq<char>, p: seq<char>, q: seq<char>)
    requires HasPrefix(s, p) && HasPrefix(p, q)
    ensures HasPrefix(s, q)
  {
    assert s[..|q|] == s[..|p|][..|q|];
  }

  /** The first `i` runes of the first name are the longest common prefix
      once some name `names[k]` either ends at `i` or differs from the first
      name at `i`: the two ways the completion loop stops. */
  lemma {:induction false} LongestAtStop(names: seq<seq<char>>, i: nat, k: nat)
    requires 0 < |names| && i <= |names[0]| && k < |names|
    requires IsCommonPrefix(names[0][..i], names)
    requires i == |names[k]| || (i < |names[0]| && i < |names[k]| && names[k][i] != names[0][i])
    ensures IsLongestCommonPrefix(names[0][..i], names)
  {
    var cp := names[0][..i];
    forall q | IsCommonPrefix(q, names)
      ensures HasPrefix(cp, q)
    {
      assert HasPrefix(names[0], q) && HasPrefix(names[k], q);
      if |q| > i {
        assert false;
      }
      assert q == names[0][..|q|];
      assert cp[..|q|] == names[0][..|q|];
    }
  }

  /** A lone name is its own longest common prefix. */
  lemma LongestOfSingle(name: seq<char>)
    ensures IsLongestCommonPrefix(name, [name])
  {
    assert name[..|name|] == name;
    LongestAtStop([name], |name|, 0);
  }

  /** The longest common prefix is unique. */
  lemma LongestUnique(p: seq<char>, q: seq<char>, names: seq<seq<char>>)
    requires IsLongestCommonPrefix(p, names) && IsLongestCommonPrefix(q, names)
    ensures p == q
  {
    assert HasPrefix(p, q) && HasPrefix(q, p);
  }
}
