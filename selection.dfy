/** Where a column's cursor lands: the anchoring rule applied after every
    refilter, and the wraparound moves of the arrow keys. */
module Selection {
  import opened Matching

  /** `sel` is the position in `ms` that the filter selects when the
      previously selected entry index was `anchor` (-1 for none): the first
      match at or after the anchor, else the last match, else -1. */
  ghost predicate AnchoredAt(ms: seq<int>, anchor: int, sel: int) {
    if ms == [] then sel == -1
    else
      0 <= sel < |ms| &&
      (forall k :: 0 <= k < sel ==> ms[k] < anchor) &&
      (anchor <= ms[sel] || sel == |ms| - 1)
  }

  /** Read on entry indices: the selected entry is the least match at or
      after the anchor, or, when every match lies before it, the last one. */
  lemma AnchoredIsLeastAtOrAfter(ms: seq<int>, anchor: int, sel: int)
    requires StrictlyIncreasing(ms) && ms != [] && AnchoredAt(ms, anchor, sel)
    ensures anchor <= ms[sel] ==> forall k :: 0 <= k < |ms| && anchor <= ms[k] ==> ms[sel] <= ms[k]
    ensures ms[sel] < anchor ==> sel == |ms| - 1 && forall k :: 0 <= k < |ms| ==> ms[k] < anchor
  {
  }

  /** The anchoring rule determines the selection. */
  lemma AnchoredUnique(ms: seq<int>, anchor: int, s: int, t: int)
    requires AnchoredAt(ms, anchor, s) && AnchoredAt(ms, anchor, t)
    ensures s == t
  {
  }

  /** Anchoring at an entry that is still matched selects that same entry. */
  lemma AnchoredAtMatch(ms: seq<int>, s: int, sel: int)
    requires StrictlyIncreasing(ms) && 0 <= s < |ms| && AnchoredAt(ms, ms[s], sel)
    ensures sel == s
  {
  }

  /** Refiltering with the empty pattern, which keeps every entry, leaves
      the cursor on the entry it was on. */
  lemma EmptyFilterKeepsSelectedEntry(names: seq<seq<char>>, anchor: int, sel: int)
    requires 0 <= anchor < |names|
    requires AnchoredAt(MatchingIndices(names, []), anchor, sel)
    ensures 0 <= sel < |names| && MatchingIndices(names, [])[sel] == anchor
  {
    var ms := MatchingIndices(names, []);
    EmptyPatternMatchesAll(names, |names|);
    MatchingIndicesExact(names, []);
    assert ms[anchor] == anchor;
    AnchoredAtMatch(ms, anchor, sel);
  }

  /** Go's `next`: one step forward, back to 0 past the last match. */
  function Successor(sel: int, n: int): (r: int)
    ensures 0 <= sel < n ==> 0 <= r < n
    ensures sel == n - 1 ==> r == 0
    ensures sel < n - 1 ==> r == sel + 1
  {
    if sel + 1 >= n then 0 else sel + 1
  }

  /** Go's `prev`: one step back, to the last match before 0. */
  function Predecessor(sel: int, n: int): (r: int)
    ensures 0 <= sel < n ==> 0 <= r < n
    ensures sel == 0 ==> r == n - 1
    ensures 0 < sel ==> r == sel - 1
  {
    if sel - 1 < 0 then n - 1 else sel - 1
  }

  /** On a valid selection the two moves undo each other. */
  lemma MovesAreInverse(sel: int, n: int)
    requires 0 <= sel < n
    ensures Predecessor(Successor(sel, n), n) == sel
    ensures Successor(Predecessor(sel, n), n) == sel
  {
  }
}
