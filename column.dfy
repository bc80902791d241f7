/** One Miller column (Go's `component`): the listing of one directory, the
    entries the current filter keeps, the cursor among them, a display width
    and the error of a failed read. */
module Columns {
  import opened Prefix
  import opened Matching
  import opened Selection

  datatype Option<T> = None | Some(value: T)

  /** A directory child and whether the column's filter currently keeps it. */
  datatype Entry = Entry(name: seq<char>, isMatched: bool)

  /** What reading a directory yields: its child names, or the error text. */
  datatype Listing = Listed(names: seq<seq<char>>) | Failed(message: seq<char>)

  /** The directory-read capability, from a path to its listing. */
  type Oracle = seq<char> -> Listing

  const WidthMin: int := 8
  const WidthMax: int := 25

  function Names(entries: seq<Entry>): (names: seq<seq<char>>)
  {
    seq(|entries|, i requires 0 <= i < |entries| => entries[i].name)
  }

  /** The column width of a successful listing: the longest name of at most
      WidthMax runes, but never less than WidthMin. */
  function DisplayWidth(names: seq<seq<char>>): (w: int)
    ensures WidthMin <= w <= WidthMax
  {
    if names == [] then WidthMin
    else
      var w0 := DisplayWidth(names[..|names| - 1]);
      var n := |names[|names| - 1]|;
      if n <= WidthMax && n > w0 then n else w0
  }

  /** The width fits every name of at most WidthMax runes, and is either
      WidthMin or the length of one of the names: the least such width. */
  lemma {:induction false} DisplayWidthFits(names: seq<seq<char>>)
    ensures forall k :: 0 <= k < |names| && |names[k]| <= WidthMax ==> |names[k]| <= DisplayWidth(names)
    ensures DisplayWidth(names) == WidthMin || exists k :: 0 <= k < |names| && |names[k]| == DisplayWidth(names)
  {
    if names != [] {
      var prefix := names[..|names| - 1];
      DisplayWidthFits(prefix);
      if DisplayWidth(names) != WidthMin && DisplayWidth(names) == DisplayWidth(prefix) {
        var k :| 0 <= k < |prefix| && |prefix[k]| == DisplayWidth(prefix);
        assert names[k] == prefix[k];
      }
      forall k | 0 <= k < |names| - 1
        ensures names[k] == prefix[k]
      {
      }
    }
  }

  /** The value of every field of a column, to say that a column did not change. */
  datatype ColumnView = ColumnView(entries: seq<Entry>, matches: seq<int>, selection: int, width: int, err: Option<seq<char>>)

  /** What a column's operations need in order not to index out of range:
      `matches` points into `entries`, and a non-empty `matches` has the
      selection below its length. */
  ghost predicate Consistent(v: ColumnView) {
    (forall k :: 0 <= k < |v.matches| ==> 0 <= v.matches[k] < |v.entries|) &&
    (v.matches != [] ==> v.selection < |v.matches|)
  }

  /** A column as a filter by `pattern` leaves it: `matches` and every
      `isMatched` agree with the pattern, and the selection is -1 exactly
      when nothing matches. */
  ghost predicate Filtered(v: ColumnView, pattern: seq<char>) {
    Consistent(v) &&
    v.matches == MatchingIndices(Names(v.entries), pattern) &&
    (forall i :: 0 <= i < |v.entries| ==> v.entries[i].isMatched == HasPrefix(v.entries[i].name, pattern)) &&
    (if v.matches == [] then v.selection == -1 else 0 <= v.selection < |v.matches|)
  }

  /** The cursor is on a match that names an entry. */
  predicate Selects(v: ColumnView) {
    0 <= v.selection < |v.matches| && 0 <= v.matches[v.selection] < |v.entries|
  }

  /** The name of the entry under the cursor. */
  function SelectedName(v: ColumnView): seq<char>
    requires Selects(v)
  {
    v.entries[v.matches[v.selection]].name
  }

  /** A column above the last one: filtered by the empty pattern, with its
      cursor on a match. */
  ghost predicate Settled(v: ColumnView) {
    Filtered(v, []) && 0 <= v.selection < |v.matches|
  }

  /** The zero value `component{}`: note that its selection is 0, not -1. */
  const ZeroColumn := ColumnView([], [], 0, 0, None)

  /** Go's `isValid`: the cursor is on a match. */
  predicate IsValid(v: ColumnView): (r: bool)
    ensures r ==> v.matches != []
    ensures r && Consistent(v) ==> GetSelected(v).Some?
  {
    0 <= v.selection < |v.matches|
  }

  /** On a filtered column `isValid` fails exactly when nothing matches, and
      otherwise `getSelected` yields an entry the pattern keeps. */
  lemma FilteredValidity(v: ColumnView, pattern: seq<char>)
    requires Filtered(v, pattern)
    ensures IsValid(v) <==> v.matches != []
    ensures IsValid(v) ==> GetSelected(v).Some? && GetSelected(v).value.isMatched && HasPrefix(GetSelected(v).value.name, pattern)
  {
    if IsValid(v) {
      var i := v.matches[v.selection];
      MatchingIndicesExact(Names(v.entries), pattern);
      assert HasPrefix(Names(v.entries)[i], pattern);
    }
  }

  /** Go's `getSelected`, which guards only against a negative selection:
      callers must keep the selection below the length of `matches`. */
  function GetSelected(v: ColumnView): (r: Option<Entry>)
    requires v.selection < |v.matches|
    requires 0 <= v.selection ==> 0 <= v.matches[v.selection] < |v.entries|
    ensures r.Some? <==> 0 <= v.selection
    ensures r.Some? ==> r.value in v.entries && r.value.name == SelectedName(v)
  {
    if v.selection < 0 then None else Some(v.entries[v.matches[v.selection]])
  }

  /** The column shows listing `l`: its names, or its error text with the
      width of that text. */
  ghost predicate Shows(v: ColumnView, l: Listing) {
    match l
    case Failed(message) => v.entries == [] && v.err == Some(message) && v.width == |message|
    case Listed(names) => Names(v.entries) == names && v.err == None && v.width == DisplayWidth(names)
  }

  /** The entry index the next filter anchors to (Go's `oldSelection`). */
  function AnchorIndex(v: ColumnView): (r: int)
    requires v.matches != [] ==> v.selection < |v.matches|
    ensures v.matches == [] ==> r == -1
    ensures v.matches != [] ==> r in v.matches
    ensures IsValid(v) ==> r == v.matches[v.selection]
    ensures v.matches != [] && v.selection < 0 ==> r == v.matches[0]
  {
    if v.matches == [] then -1 else v.matches[if v.selection < 0 then 0 else v.selection]
  }

  /** The names of the matched entries, in order. */
  ghost function MatchedNames(v: ColumnView): seq<seq<char>>
    requires Consistent(v)
  {
    Pick(Names(v.entries), v.matches)
  }

  /** `after` is `before` filtered by `pattern`: same names, width and
      error; `isMatched` and `matches` agree with the pattern; the cursor
      is anchored at the entry that was selected. */
  ghost predicate Refiltered(before: ColumnView, after: ColumnView, pattern: seq<char>)
    requires before.matches != [] ==> before.selection < |before.matches|
  {
    Names(after.entries) == Names(before.entries) && Filtered(after, pattern) &&
    AnchoredAt(after.matches, AnchorIndex(before), after.selection) &&
    after.width == before.width && after.err == before.err
  }

  /** A column freshly listed and filtered by the empty pattern: it shows
      `l`, keeps every entry, and its cursor is on the first one. */
  ghost predicate Loaded(v: ColumnView, l: Listing) {
    Shows(v, l) && Filtered(v, []) && AnchoredAt(v.matches, -1, v.selection)
  }

  /** The column `list` and then `filter` with the empty pattern make of
      the zero column, given the listing of its directory: every entry
      kept, the cursor on the first one (-1 when there is none). */
  function LoadedView(l: Listing): ColumnView {
    match l
    case Failed(message) => ColumnView([], [], -1, |message|, Some(message))
    case Listed(names) =>
      ColumnView(seq(|names|, i requires 0 <= i < |names| => Entry(names[i], true)),
                 seq(|names|, i => i), if names == [] then -1 else 0, DisplayWidth(names), None)
  }

  /** `LoadedView(l)` is a loaded column showing `l`, and the only one. */
  lemma LoadedViewIsLoaded(v: ColumnView, l: Listing)
    ensures Loaded(v, l) <==> v == LoadedView(l)
  {
    var w := LoadedView(l);
    if l.Listed? {
      var names := l.names;
      assert Names(w.entries) == names;
      EmptyPatternMatchesAll(names, |names|);
      assert w.matches == MatchingIndices(names, []);
      assert forall i :: 0 <= i < |w.entries| ==> HasPrefix(w.entries[i].name, []);
    }
    if Loaded(v, l) && l.Listed? {
      var names := l.names;
      SameNames(v.entries, w.entries);
      assert v.entries == w.entries by {
        forall i | 0 <= i < |v.entries|
          ensures v.entries[i] == w.entries[i]
        {
          assert HasPrefix(v.entries[i].name, []);
        }
      }
      AnchoredUnique(v.matches, -1, v.selection, w.selection);
    }
  }

  class Column {
    var entries: seq<Entry>
    var matches: seq<int>
    var selection: int
    var width: int
    var err: Option<seq<char>>

    /** A column holding the value `v`: how a method reaches a component
        through a pointer into the state's slice. */
    constructor FromView(v: ColumnView)
      ensures View() == v
    {
      entries, matches, selection, width, err := v.entries, v.matches, v.selection, v.width, v.err;
    }

    function View(): ColumnView
      reads this
    {
      ColumnView(entries, matches, selection, width, err)
    }

    /** The column's operations do not index out of range. */
    ghost predicate Valid()
      reads this
    {
      Consistent(View())
    }

    method Next()
      modifies this`selection
      ensures selection == Successor(old(selection), |matches|)
    {
      selection := selection + 1;
      if selection >= |matches| {
        selection := 0;
      }
    }

    method Prev()
      modifies this`selection
      ensures selection == Predecessor(old(selection), |matches|)
    {
      selection := selection - 1;
      if selection < 0 {
        selection := |matches| - 1;
      }
    }

    /** Go's `list`: replaces the entries by the listing of `dir`. The
        selection is derived from the old `matches`, which are left as they
        were; the column is only consistent when it started empty. */
    method List(fs: Oracle, dir: seq<char>)
      modifies this
      ensures matches == old(matches)
      ensures fs(dir).Failed? ==>
        entries == [] && err == Some(fs(dir).message) && width == |fs(dir).message| &&
        selection == old(selection)
      ensures fs(dir).Listed? ==>
        Names(entries) == fs(dir).names &&
        (forall i :: 0 <= i < |entries| ==> !entries[i].isMatched) &&
        width == DisplayWidth(fs(dir).names) &&
        selection == (if old(matches) != [] then 0 else -1) &&
        err == old(err)
      ensures old(matches) == [] ==> Valid()
    {
      entries := [];
      var listing := fs(dir);
      if listing.Failed? {
        err := Some(listing.message);
        width := |listing.message|;
        return;
      }
      var names := listing.names;
      var es: seq<Entry> := [];
      for k := 0 to |names|
        invariant |es| == k
        invariant forall i :: 0 <= i < k ==> es[i] == Entry(names[i], false)
      {
        es := es + [Entry(names[k], false)];
      }
      assert Names(es) == names;
      var wd := WidthMin;
      for i := 0 to |es|
        invariant wd == DisplayWidth(names[..i])
      {
        assert names[..i + 1][..i] == names[..i];
        var w := |es[i].name|;
        if w <= WidthMax && w > wd {
          wd := w;
        }
      }
      assert names[..|es|] == names;
      entries := es;
      selection := if |matches| > 0 then 0 else -1;
      width := wd;
    }

    /** Go's `filter`: recomputes `isMatched` and `matches` for `pattern` in
        one pass, and re-anchors the selection at the previously selected
        entry index. */
    method Filter(pattern: seq<char>)
      requires matches != [] ==> selection < |matches|
      modifies this
      ensures Refiltered(old(View()), View(), pattern)
    {
      ghost var before := View();
      var oldSelection := -1;
      if |matches| > 0 {
        if selection < 0 {
          selection := 0;
        }
        oldSelection := matches[selection];
      }
      assert oldSelection == AnchorIndex(before);
      ghost var names := Names(entries);
      var es, ms, newSelection := Scan(entries, pattern, oldSelection);
      ghost var found := newSelection;
      if |ms| > 0 && newSelection == -1 {
        newSelection := |ms| - 1;
      }
      entries, matches, selection := es, ms, newSelection;
      FilterLeaves(before, View(), names, pattern, found);
    }

    /** `list` followed by `filter` with the empty pattern, on a column that
        has never been filtered nor failed: how `push` and `setPath` fill a
        new column.
        Every entry is kept and the cursor is on the first one, if any. */
    method Load(fs: Oracle, dir: seq<char>)
      requires matches == [] && err == None
      modifies this
      ensures Loaded(View(), fs(dir)) && View() == LoadedView(fs(dir))
    {
      List(fs, dir);
      ghost var listed := View();
      Filter([]);
      SameNames(entries, listed.entries);
      LoadedViewIsLoaded(View(), fs(dir));
    }

    /** Tab completion: the longest prefix shared by every matched name
        (empty when nothing matches). Characters are compared only up to
        the length of the shortest matched name. */
    method CommonPrefix() returns (cp: seq<char>)
      requires Valid()
      ensures matches == [] ==> cp == []
      ensures matches != [] ==> IsLongestCommonPrefix(cp, MatchedNames(View()))
      ensures |matches| == 1 ==> cp == entries[matches[0]].name
    {
      cp := [];
      if |matches| == 0 {
        return;
      }
      ghost var names := MatchedNames(View());
      var first := entries[matches[0]].name;
      var cpLen := |first|;
      ghost var shortest := 0;
      for k := 0 to |matches|
        invariant 0 <= shortest < |names| && cpLen == |names[shortest]|
        invariant forall j :: 0 <= j < k ==> cpLen <= |names[j]|
      {
        var name := entries[matches[k]].name;
        if |name| < cpLen {
          cpLen, shortest := |name|, k;
        }
      }
      for i := 0 to cpLen
        invariant cp == first[..i]
        invariant IsCommonPrefix(cp, names)
      {
        var ch := first[i];
        for k := 0 to |matches|
          invariant forall j :: 0 <= j < k ==> names[j][i] == ch
        {
          var name := entries[matches[k]].name;
          if ch != name[i] {
            LongestAtStop(names, i, k);
            SingleIsWhole(names, cp);
            return;
          }
        }
        assert first[..i + 1] == cp + [ch];
        cp := cp + [ch];
      }
      LongestAtStop(names, cpLen, shortest);
      SingleIsWhole(names, cp);
    }

    /** Go's `commonPrefix` as written: it bounds the scan by the LONGEST
        matched name and then indexes every name at that position. `None`
        stands for the index-out-of-range panic. */
    method CommonPrefixAsWritten() returns (r: Option<seq<char>>)
      requires Valid()
      ensures matches == [] ==> r == Some([])
      ensures matches != [] && r.Some? ==> IsLongestCommonPrefix(r.value, MatchedNames(View()))
      ensures |matches| == 1 ==> r == Some(entries[matches[0]].name)
      ensures Overruns(MatchedNames(View())) ==> r == None
      ensures FirstIsShortest(MatchedNames(View())) ==> (r == None <==> Overruns(MatchedNames(View())))
    {
      var cp := [];
      if |matches| == 0 {
        return Some(cp);
      }
      ghost var names := MatchedNames(View());
      var first := entries[matches[0]].name;
      var cpLen := |first|;
      ghost var longest := 0;
      for k := 0 to |matches|
        invariant forall j :: 0 <= j < k ==> |names[j]| <= cpLen
        invariant 0 <= longest < |names| && cpLen == |names[longest]|
      {
        var name := entries[matches[k]].name;
        if |name| > cpLen {
          cpLen, longest := |name|, k;
        }
      }
      ghost var overrun := Overruns(names);
      assert names[0] == first;
      for i := 0 to cpLen
        invariant i <= |first| && cp == first[..i]
        invariant IsCommonPrefix(cp, names)
      {
        if i >= |first| {
          assert cp == first && |first| < |names[longest]|;
          return None;
        }
        var ch := first[i];
        for k := 0 to |matches|
          invariant forall j :: 0 <= j < k ==> i < |names[j]| && names[j][i] == ch
        {
          var name := entries[matches[k]].name;
          if i >= |name| {
            return None;
          }
          if ch != name[i] {
            LongestAtStop(names, i, k);
            assert !overrun by {
              assert !HasPrefix(names[k], first);
            }
            SingleIsWhole(names, cp);
            return Some(cp);
          }
        }
        assert first[..i + 1] == cp + [ch];
        cp := cp + [ch];
      }
      assert first[..|first|] == first;
      LongestAtStop(names, |first|, 0);
      SingleIsWhole(names, cp);
      return Some(cp);
    }
  }

  /** The loop of Go's `filter`: marks each entry by whether its name starts
      with `pattern`, collects the indices of the marked ones and notes the
      position of the first one at or after `anchor` (-1 if none). */
  method Scan(entries: seq<Entry>, pattern: seq<char>, anchor: int) returns (es: seq<Entry>, ms: seq<int>, found: int)
    ensures |es| == |entries|
    ensures forall j :: 0 <= j < |es| ==> es[j].name == entries[j].name && es[j].isMatched == HasPrefix(es[j].name, pattern)
    ensures ms == MatchingIndices(Names(entries), pattern)
    ensures AnchoredSoFar(ms, anchor, found)
  {
    ghost var names := Names(entries);
    es, ms, found := entries, [], -1;
    for i := 0 to |es|
      invariant |es| == |names|
      invariant forall j :: 0 <= j < |es| ==>
        es[j].name == names[j] && (j < i ==> es[j].isMatched == HasPrefix(names[j], pattern))
      invariant ms == MatchesBelow(names, pattern, i)
      invariant AnchoredSoFar(ms, anchor, found)
    {
      var isMatched := HasPrefix(es[i].name, pattern);
      es := es[i := es[i].(isMatched := isMatched)];
      if isMatched {
        if found == -1 && anchor <= i {
          found := |ms|;
        }
        ms := ms + [i];
      }
    }
  }

  /** The filter loop's view of the anchoring rule over the matches found so
      far: `sel` is -1 while every match lies before the anchor, and then the
      position of the first match at or after it. */
  ghost predicate AnchoredSoFar(ms: seq<int>, anchor: int, sel: int) {
    if sel == -1 then forall k :: 0 <= k < |ms| ==> ms[k] < anchor
    else 0 <= sel < |ms| && anchor <= ms[sel] && forall k :: 0 <= k < sel ==> ms[k] < anchor
  }

  /** What the filter loop leaves: the entries keep their names and are
      marked by the pattern, the matches are exactly the matching indices,
      and taking the last match when none lies at or after the anchor
      completes the anchoring rule. */
  lemma FilterLeaves(before: ColumnView, v: ColumnView, names: seq<seq<char>>, pattern: seq<char>, found: int)
    requires before.matches != [] ==> before.selection < |before.matches|
    requires names == Names(before.entries) && |v.entries| == |names|
    requires v.width == before.width && v.err == before.err
    requires forall j :: 0 <= j < |names| ==> v.entries[j].name == names[j]
    requires forall j :: 0 <= j < |names| ==> v.entries[j].isMatched == HasPrefix(names[j], pattern)
    requires v.matches == MatchesBelow(names, pattern, |names|)
    requires AnchoredSoFar(v.matches, AnchorIndex(before), found)
    requires v.selection == if v.matches != [] && found == -1 then |v.matches| - 1 else found
    ensures Refiltered(before, v, pattern)
  {
    SameNamesFrom(v.entries, names);
    MatchingIndicesExact(names, pattern);
  }

  /** Entry lists with the same names have the same length and agree name by name. */
  lemma SameNames(a: seq<Entry>, b: seq<Entry>)
    requires Names(a) == Names(b)
    ensures |a| == |b| && forall i :: 0 <= i < |a| ==> a[i].name == b[i].name
  {
    assert |a| == |Names(a)| && |b| == |Names(b)|;
    forall i | 0 <= i < |a|
      ensures a[i].name == b[i].name
    {
      assert Names(a)[i] == a[i].name && Names(b)[i] == b[i].name;
    }
  }

  /** Entries named, position by position, by `names` have exactly those names. */
  lemma SameNamesFrom(entries: seq<Entry>, names: seq<seq<char>>)
    requires |entries| == |names| && forall j :: 0 <= j < |entries| ==> entries[j].name == names[j]
    ensures Names(entries) == names
  {
  }

  /** Refiltering a settled column with the empty pattern, anchored at its
      selected entry, gives back the same column: why `pop` changes no
      column. */
  lemma RefilterSettledIsIdentity(before: ColumnView, after: ColumnView)
    requires Settled(before) && Refiltered(before, after, [])
    ensures after == before
  {
    SameNames(after.entries, before.entries);
    MatchingIndicesExact(Names(before.entries), []);
    AnchoredAtMatch(after.matches, before.selection, after.selection);
    forall i | 0 <= i < |before.entries|
      ensures after.entries[i] == before.entries[i]
    {
      assert HasPrefix(before.entries[i].name, []);
    }
  }

  /** Refiltering by the empty pattern a column whose cursor is on a match
      settles it, with the cursor still on the same entry: what `push` does
      to the column it leaves. */
  lemma EmptyRefilterKeepsSelection(before: ColumnView, after: ColumnView)
    requires Consistent(before) && IsValid(before) && Refiltered(before, after, [])
    ensures Selects(before) && Settled(after) && Selects(after)
    ensures SelectedName(after) == SelectedName(before)
  {
    EmptyFilterKeepsSelectedEntry(Names(after.entries), AnchorIndex(before), after.selection);
    SameNames(after.entries, before.entries);
  }

  /** With a single matched name, the longest common prefix is that name. */
  lemma SingleIsWhole(names: seq<seq<char>>, cp: seq<char>)
    requires |names| == 1 ==> IsLongestCommonPrefix(cp, names)
    ensures |names| == 1 ==> cp == names[0]
  {
    if |names| == 1 {
      assert names == [names[0]];
      LongestOfSingle(names[0]);
      LongestUnique(cp, names[0], names);
    }
  }
}
