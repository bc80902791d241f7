/** The navigation state machine (Go's `state`): a stack of columns from the
    filesystem root down to the current directory, and the filter text typed
    into the last column. Go keeps the columns by value in a slice and
    reaches the last one through a pointer into it; here the stack is a
    sequence of column values, and an operation on the last column loads it
    into a `Column`, runs there and stores the result back. */
module Navigation {
  import opened Prefix
  import opened Matching
  import opened Selection
  import opened Columns

  /** The input events the dispatcher distinguishes. `Backspace` stands for
      the backspace, backspace-2 and delete keys; `Char` carries the
      non-zero rune of a key press (a zero rune means a named key); `Other`
      covers resize, mouse and error events and every key without a
      binding. */
  datatype Event = Esc | Left | Right | Up | Down | Backspace | Tab | Char(ch: Rune) | Other

  /** A rune a key press can type: termbox reports named keys with rune 0. */
  type Rune = ch: char | ch != '\0' witness 'a'

  /** "/" followed by each name in turn. */
  function JoinPath(names: seq<seq<char>>): seq<char> {
    if names == [] then [] else JoinPath(names[..|names| - 1]) + ['/'] + names[|names| - 1]
  }

  /** Every column of `views` has its cursor on an entry. */
  predicate AllSelect(views: seq<ColumnView>) {
    forall i :: 0 <= i < |views| ==> Selects(views[i])
  }

  /** The names under the cursors of the columns `views`, root first. */
  function SelectedNames(views: seq<ColumnView>): seq<seq<char>>
    requires AllSelect(views)
  {
    if views == [] then [] else SelectedNames(views[..|views| - 1]) + [SelectedName(views[|views| - 1])]
  }

  /** The last column of a stack. */
  function Top(path: seq<ColumnView>): ColumnView
    requires path != []
  {
    path[|path| - 1]
  }

  /** Every column of `views` sits above the last one. */
  ghost predicate AllSettled(views: seq<ColumnView>) {
    forall i :: 0 <= i < |views| ==> Settled(views[i])
  }

  /** The stack invariant: there is a column, every column but the last is
      filtered by the empty pattern and has its cursor on a match, and the
      last column is filtered by `buffer`. */
  ghost predicate Stacked(path: seq<ColumnView>, buffer: seq<char>) {
    |path| > 0 && AllSettled(path[..|path| - 1]) && Filtered(path[|path| - 1], buffer)
  }

  /** The last column can be filtered without indexing out of range. */
  ghost predicate HasTop(path: seq<ColumnView>) {
    path != [] && Consistent(path[|path| - 1])
  }

  /** `p1` is `p0` with its last column filtered by `pattern`
      (Go's `st.getCurrent().filter(pattern)`). */
  ghost predicate RefilteredTop(p0: seq<ColumnView>, p1: seq<ColumnView>, pattern: seq<char>)
    requires HasTop(p0)
  {
    |p1| == |p0| && p1[..|p0| - 1] == p0[..|p0| - 1] && Refiltered(p0[|p0| - 1], p1[|p0| - 1], pattern)
  }

  /** What `pop` leaves on a stacked state: the last column dropped and the
      buffer cleared, unless only the root column is left. */
  ghost predicate Popped(p0: seq<ColumnView>, b0: seq<char>, p1: seq<ColumnView>, b1: seq<char>) {
    if |p0| > 1 then p1 == p0[..|p0| - 1] && b1 == [] else p1 == p0 && b1 == b0
  }

  /** `push` from a last column whose cursor is on a match: that column is
      refiltered by the empty pattern, and a column loaded from the path
      through all the cursors is appended. */
  ghost predicate Descended(fs: Oracle, p0: seq<ColumnView>, p1: seq<ColumnView>)
    requires p0 != [] && IsValid(p0[|p0| - 1])
  {
    var n := |p0|;
    |p1| == n + 1 && p1[..n - 1] == p0[..n - 1] &&
    Refiltered(p0[n - 1], p1[n - 1], []) &&
    AllSelect(p1[..n]) && p1[n] == LoadedView(fs(JoinPath(SelectedNames(p1[..n]))))
  }

  /** What `push` does: descend with a cleared buffer if the last column's
      cursor is on a match, and nothing otherwise. */
  ghost predicate Pushed(fs: Oracle, p0: seq<ColumnView>, b0: seq<char>, p1: seq<ColumnView>, b1: seq<char>)
    requires p0 != []
  {
    if IsValid(p0[|p0| - 1]) then b1 == [] && Descended(fs, p0, p1) else p1 == p0 && b1 == b0
  }

  /** The arrow keys up and down: when the last column's cursor is on a
      match, it moves one step back or forward with wraparound. */
  ghost predicate Moved(p0: seq<ColumnView>, p1: seq<ColumnView>, forward: bool)
    requires p0 != []
  {
    var top := p0[|p0| - 1];
    var n := |top.matches|;
    if IsValid(top) then
      p1 == p0[|p0| - 1 := top.(selection := if forward then Successor(top.selection, n) else Predecessor(top.selection, n))]
    else p1 == p0
  }

  /** The tab key: with exactly one match, `push`; otherwise the buffer
      becomes the longest common prefix of the matched names (empty when
      nothing matches) and the last column is refiltered by it. */
  ghost predicate Completed(fs: Oracle, p0: seq<ColumnView>, b0: seq<char>, p1: seq<ColumnView>, b1: seq<char>)
    requires HasTop(p0)
  {
    var top := p0[|p0| - 1];
    if |top.matches| == 1 then Pushed(fs, p0, b0, p1, b1)
    else
      (if top.matches == [] then b1 == [] else IsLongestCommonPrefix(b1, MatchedNames(top))) &&
      RefilteredTop(p0, p1, b1)
  }

  /** Columns above the last one have their cursor on an entry. */
  lemma SettledSelect(views: seq<ColumnView>)
    requires AllSettled(views)
    ensures AllSelect(views)
  {
  }

  /** `pop` refilters the new last column by the empty pattern it was
      already filtered by, which changes nothing: the stack just loses its
      last column. */
  lemma PopRestores(p0: seq<ColumnView>, b0: seq<char>, p1: seq<ColumnView>)
    requires Stacked(p0, b0) && |p0| > 1 && HasTop(p0[..|p0| - 1])
    requires RefilteredTop(p0[..|p0| - 1], p1, [])
    ensures p1 == p0[..|p0| - 1] && Stacked(p1, [])
  {
    var n := |p1|;
    assert Settled(p0[n - 1]);
    RefilterSettledIsIdentity(p0[n - 1], p1[n - 1]);
    assert p1 == p1[..n - 1] + [p1[n - 1]];
  }

  /** After `push` the stack invariant holds with an empty buffer, and the
      new column lists the old directory extended by the selected name. */
  lemma {:induction false} PushDescends(fs: Oracle, p0: seq<ColumnView>, b0: seq<char>, p1: seq<ColumnView>)
    requires Stacked(p0, b0) && IsValid(p0[|p0| - 1]) && Descended(fs, p0, p1)
    ensures Stacked(p1, [])
    ensures AllSelect(p0[..|p0| - 1]) && Selects(p0[|p0| - 1])
    ensures JoinPath(SelectedNames(p1[..|p0|])) == JoinPath(SelectedNames(p0[..|p0| - 1])) + ['/'] + SelectedName(p0[|p0| - 1])
    ensures p1[|p0|] == LoadedView(fs(JoinPath(SelectedNames(p0[..|p0| - 1])) + ['/'] + SelectedName(p0[|p0| - 1])))
  {
    var n := |p0|;
    SettledSelect(p0[..n - 1]);
    EmptyRefilterKeepsSelection(p0[n - 1], p1[n - 1]);
    assert p1[..n][..n - 1] == p0[..n - 1];
    assert p1[..n + 1][..n] == p1[..n];
    LoadedViewIsLoaded(p1[n], fs(JoinPath(SelectedNames(p1[..n]))));
  }

  /** `pop` after `push` gives back a stack of the same height whose last
      column has its cursor on the same entry; with an empty buffer it gives
      back the very same stack. */
  lemma PushThenPop(fs: Oracle, p0: seq<ColumnView>, b0: seq<char>, p1: seq<ColumnView>, p2: seq<ColumnView>, b2: seq<char>)
    requires Stacked(p0, b0) && IsValid(Top(p0)) && Descended(fs, p0, p1)
    requires Popped(p1, [], p2, b2)
    ensures |p2| == |p0| && p2[..|p0| - 1] == p0[..|p0| - 1] && b2 == []
    ensures Selects(Top(p0)) && Selects(Top(p2)) && SelectedName(Top(p2)) == SelectedName(Top(p0))
    ensures b0 == [] ==> p2 == p0
  {
    var n := |p0|;
    assert p2 == p1[..n];
    EmptyRefilterKeepsSelection(p0[n - 1], p1[n - 1]);
    if b0 == [] {
      assert Settled(p0[n - 1]);
      RefilterSettledIsIdentity(p0[n - 1], p1[n - 1]);
      assert p2 == p0[..n - 1] + [p0[n - 1]];
    }
  }

  /** The arrow keys keep the stack invariant. */
  lemma MoveKeepsStack(p0: seq<ColumnView>, b: seq<char>, p1: seq<ColumnView>, forward: bool)
    requires Stacked(p0, b) && Moved(p0, p1, forward)
    ensures Stacked(p1, b)
  {
    assert p1[..|p1| - 1] == p0[..|p0| - 1];
  }

  /** Up after down, or down after up, puts the cursor back. */
  lemma MovesUndo(p0: seq<ColumnView>, p1: seq<ColumnView>, p2: seq<ColumnView>, forward: bool)
    requires p0 != [] && Moved(p0, p1, forward) && Moved(p1, p2, !forward)
    ensures p2 == p0
  {
    var top := p0[|p0| - 1];
    if IsValid(top) {
      MovesAreInverse(top.selection, |top.matches|);
      assert p2[|p0| - 1] == top;
    }
  }

  /** Typing a rune only narrows the matches of the last column. */
  lemma TypingNarrows(p0: seq<ColumnView>, b: seq<char>, ch: char, p1: seq<ColumnView>)
    requires Stacked(p0, b) && RefilteredTop(p0, p1, b + [ch])
    ensures |Top(p1).matches| <= |Top(p0).matches|
    ensures forall i :: i in Top(p1).matches ==> i in Top(p0).matches
  {
    var names := Names(p0[|p0| - 1].entries);
    ExtendingPatternNarrows(names, b, [ch], |names|);
  }

  /** Erasing the rune just typed restores the entries and matches of the
      last column; when the typed rune kept the selected entry, the whole
      stack is restored. */
  lemma EraseUndoesType(p0: seq<ColumnView>, b: seq<char>, ch: char, p1: seq<ColumnView>, p2: seq<ColumnView>)
    requires Stacked(p0, b) && RefilteredTop(p0, p1, b + [ch])
    requires RefilteredTop(p1, p2, b)
    ensures p2[|p2| - 1].entries == p0[|p0| - 1].entries && p2[|p2| - 1].matches == p0[|p0| - 1].matches
    ensures AnchorIndex(p0[|p0| - 1]) in p1[|p1| - 1].matches ==> p2 == p0
  {
    var n := |p0|;
    var v0, v1, v2 := p0[n - 1], p1[n - 1], p2[n - 1];
    SameNames(v2.entries, v0.entries);
    assert v2.entries == v0.entries by {
      forall i | 0 <= i < |v0.entries|
        ensures v2.entries[i] == v0.entries[i]
      {
      }
    }
    if AnchorIndex(v0) in v1.matches {
      MatchingIndicesExact(Names(v1.entries), b + [ch]);
      var k :| 0 <= k < |v1.matches| && v1.matches[k] == AnchorIndex(v0);
      AnchoredAtMatch(v1.matches, k, v1.selection);
      MatchingIndicesExact(Names(v0.entries), b);
      AnchoredAtMatch(v0.matches, v0.selection, v2.selection);
      assert v2 == v0;
      assert p2 == p0[..n - 1] + [v0];
    }
  }

  /** Tab completion with several matches extends the buffer and changes no
      column. */
  lemma CompletionKeepsColumn(p0: seq<ColumnView>, b0: seq<char>, p1: seq<ColumnView>, b1: seq<char>)
    requires Stacked(p0, b0) && p0[|p0| - 1].matches != []
    requires IsLongestCommonPrefix(b1, MatchedNames(p0[|p0| - 1]))
    requires RefilteredTop(p0, p1, b1)
    ensures HasPrefix(b1, b0) && p1 == p0
  {
    var n := |p0|;
    var v0, v1 := p0[n - 1], p1[n - 1];
    var names := Names(v0.entries);
    CompletionKeepsMatches(names, b0, b1);
    SameNames(v1.entries, v0.entries);
    MatchingIndicesExact(names, b0);
    MatchingIndicesExact(names, b1);
    assert v1.entries == v0.entries by {
      forall i | 0 <= i < |v0.entries|
        ensures v1.entries[i] == v0.entries[i]
      {
        assert names[i] == v0.entries[i].name;
        assert HasPrefix(names[i], b1) <==> i in v1.matches;
        assert HasPrefix(names[i], b0) <==> i in v0.matches;
      }
    }
    AnchoredAtMatch(v0.matches, v0.selection, v1.selection);
    assert p1 == p0[..n - 1] + [v0];
  }

  /** Go's `filepath.Join` of a clean directory and one path segment: an
      empty segment adds nothing. */
  function JoinName(dir: seq<char>, name: seq<char>): seq<char> {
    if name == [] then dir else if dir == "/" then dir + name else dir + ['/'] + name
  }

  /** The directory `setPath` lists for the last of `parts`: the cursor
      after joining every segment to "/". */
  function Cursor(parts: seq<seq<char>>): seq<char> {
    if parts == [] then "/" else JoinName(Cursor(parts[..|parts| - 1]), parts[|parts| - 1])
  }

  /** The position of the first occurrence of `x` in `names`, -1 if none. */
  function FirstIndex(names: seq<seq<char>>, x: seq<char>): (r: int)
    ensures r == -1 <==> x !in names
    ensures 0 <= r ==> r < |names| && names[r] == x && forall k :: 0 <= k < r ==> names[k] != x
    ensures -1 <= r
  {
    if names == [] then -1
    else if names[0] == x then 0
    else
      var r := FirstIndex(names[1..], x);
      assert forall k :: 0 < k < |names| ==> names[k] == names[1..][k - 1];
      if r < 0 then -1 else r + 1
  }

  /** The search loop of `setPath`: the first entry named `name`, -1 if none. */
  method FindName(entries: seq<Entry>, name: seq<char>) returns (j: int)
    ensures j == FirstIndex(Names(entries), name)
  {
    ghost var names := Names(entries);
    j := -1;
    for k := 0 to |entries|
      invariant j == -1 && |names| == |entries|
      invariant forall i :: 0 <= i < k ==> names[i] != name
    {
      assert names[k] == entries[k].name;
      if entries[k].name == name {
        j := k;
        break;
      }
    }
  }

  /** One round of `setPath`'s loop: put the cursor of the last column on
      the entry named `parts[i]`, join the segment to the cursor, and
      append the column listing it, filtered by the empty pattern. */
  method PlaceSegment(fs: Oracle, parts: seq<seq<char>>, i: nat, cols: seq<ColumnView>, cursor: seq<char>)
    returns (cols': seq<ColumnView>, cursor': seq<char>)
    requires i < |parts| && cols == Placed(fs, parts[..i]) && cursor == Cursor(parts[..i])
    ensures cols' == Placed(fs, parts[..i + 1]) && cursor' == Cursor(parts[..i + 1])
  {
    PlacedSnoc(fs, parts, i);
    cols' := cols;
    if i > 0 {
      var j := FindName(cols[i - 1].entries, parts[i]);
      if j >= 0 {
        cols' := cols[i - 1 := cols[i - 1].(selection := j)];
      }
      assert cols' == cols[i - 1 := Locate(cols[i - 1], parts[i])];
    }
    cursor' := JoinName(cursor, parts[i]);
    var c := new Column.FromView(ZeroColumn);
    c.Load(fs, cursor');
    cols' := cols' + [c.View()];
  }

  /** The cursor `setPath` gives a column whose entries name `part`: the
      first such entry index, assigned to the selection as is. */
  function Locate(v: ColumnView, part: seq<char>): (r: ColumnView)
    ensures r.entries == v.entries && r.matches == v.matches && r.width == v.width && r.err == v.err
    ensures part !in Names(v.entries) ==> r == v
    ensures part in Names(v.entries) ==>
      0 <= r.selection < |v.entries| && v.entries[r.selection].name == part &&
      forall k :: 0 <= k < r.selection ==> v.entries[k].name != part
  {
    var j := FirstIndex(Names(v.entries), part);
    if j >= 0 then
      assert forall k :: 0 <= k < j ==> Names(v.entries)[k] == v.entries[k].name;
      v.(selection := j)
    else v
  }

  /** The columns `setPath` builds from the segments `parts`. */
  ghost function Placed(fs: Oracle, parts: seq<seq<char>>): (path: seq<ColumnView>)
    ensures |path| == |parts|
  {
    if parts == [] then []
    else
      var prev := Placed(fs, parts[..|parts| - 1]);
      (if prev == [] then [] else prev[|prev| - 1 := Locate(Top(prev), parts[|parts| - 1])]) +
      [LoadedView(fs(Cursor(parts)))]
  }

  /** Every segment after the first is a child of the directory before it. */
  ghost predicate Reaches(fs: Oracle, parts: seq<seq<char>>) {
    forall i :: 1 <= i < |parts| ==> fs(Cursor(parts[..i])).Listed? && parts[i] in fs(Cursor(parts[..i])).names
  }

  /** When every segment is found, `setPath` leaves a stack that satisfies
      the invariant with an empty buffer, whose cursors spell the segments
      after the first. */
  lemma {:induction false} PlacedIsStacked(fs: Oracle, parts: seq<seq<char>>)
    requires |parts| > 0 && Reaches(fs, parts)
    ensures Stacked(Placed(fs, parts), [])
    ensures AllSelect(Placed(fs, parts)[..|parts| - 1])
    ensures SelectedNames(Placed(fs, parts)[..|parts| - 1]) == parts[1..]
  {
    var n := |parts|;
    var path := Placed(fs, parts);
    LoadedViewIsLoaded(path[n - 1], fs(Cursor(parts)));
    if n > 1 {
      var init := parts[..n - 1];
      assert Reaches(fs, init) by {
        forall i | 1 <= i < |init|
          ensures init[..i] == parts[..i] && init[i] == parts[i]
        {
        }
      }
      PlacedIsStacked(fs, init);
      var prev := Placed(fs, init);
      var located := Locate(Top(prev), parts[n - 1]);
      PlacedStep(fs, parts);
      LocateSettles(fs(Cursor(init)), parts[n - 1]);
      assert AllSettled(path[..n - 1]);
      SettledSelect(path[..n - 1]);
      assert path[..n - 1][..n - 2] == prev[..n - 2];
      assert SelectedNames(path[..n - 1]) == init[1..] + [parts[n - 1]];
      TailOfInit(parts);
    }
  }

  /** `setPath` on one more segment: the column before it gets its cursor
      located, and a loaded column is appended. */
  lemma PlacedStep(fs: Oracle, parts: seq<seq<char>>)
    requires |parts| > 1
    ensures Top(Placed(fs, parts[..|parts| - 1])) == LoadedView(fs(Cursor(parts[..|parts| - 1])))
    ensures Placed(fs, parts)[..|parts| - 1] ==
      Placed(fs, parts[..|parts| - 1])[..|parts| - 2] + [Locate(Top(Placed(fs, parts[..|parts| - 1])), parts[|parts| - 1])]
  {
    var init := parts[..|parts| - 1];
    assert init == init[..|init|];
  }

  /** `setPath` one segment at a time. */
  lemma PlacedSnoc(fs: Oracle, parts: seq<seq<char>>, i: nat)
    requires i < |parts|
    ensures Cursor(parts[..i + 1]) == JoinName(Cursor(parts[..i]), parts[i])
    ensures Placed(fs, parts[..i + 1]) ==
      (if i == 0 then [] else Placed(fs, parts[..i])[i - 1 := Locate(Placed(fs, parts[..i])[i - 1], parts[i])]) +
      [LoadedView(fs(Cursor(parts[..i + 1])))]
  {
    assert parts[..i + 1][..i] == parts[..i];
  }

  lemma TailOfInit(parts: seq<seq<char>>)
    requires |parts| > 1
    ensures parts[1..] == parts[..|parts| - 1][1..] + [parts[|parts| - 1]]
  {
  }

  /** Locating a child in a freshly loaded listing puts the cursor on a
      match naming it: the entry index `setPath` assigns is also a
      position in `matches`, which the empty filter made 0, 1, 2, ... */
  lemma LocateSettles(listing: Listing, part: seq<char>)
    requires listing.Listed? && part in listing.names
    ensures Settled(Locate(LoadedView(listing), part)) && Selects(Locate(LoadedView(listing), part))
    ensures SelectedName(Locate(LoadedView(listing), part)) == part
  {
    var v := LoadedView(listing);
    LoadedViewIsLoaded(v, listing);
    assert Names(v.entries) == listing.names;
  }

  /** For an absolute path split at '/' (an empty first segment, the others
      non-empty) the cursor is the path spelled by the segments after the
      first. */
  lemma {:induction false} CursorSpellsPath(parts: seq<seq<char>>)
    requires |parts| > 1 && parts[0] == [] && forall i :: 1 <= i < |parts| ==> parts[i] != []
    ensures Cursor(parts) == JoinPath(parts[1..])
  {
    var n := |parts|;
    if n == 2 {
      assert Cursor(parts[..1]) == JoinName("/", []);
      assert parts[1..] == [parts[1]];
      assert JoinPath(parts[1..]) == JoinPath([]) + ['/'] + parts[1];
    } else {
      var init := parts[..n - 1];
      CursorSpellsPath(init);
      assert init[1..] == parts[1..][..n - 2];
      assert Cursor(init) != "/" by {
        assert |JoinPath(init[1..])| > 1 by {
          assert JoinPath(init[1..]) == JoinPath(init[1..][..n - 3]) + ['/'] + init[n - 2];
        }
      }
    }
  }

  class State {
    var path: seq<ColumnView>
    var buffer: seq<char>

    /** The zero value `state{}`, before the stack is seeded. */
    constructor ()
      ensures path == [] && buffer == []
    {
      path, buffer := [], [];
    }

    ghost predicate Valid()
      reads this
    {
      Stacked(path, buffer)
    }

    /** Go's `getCurrent`: the last column. */
    function Current(): (c: ColumnView)
      reads this
      requires path != []
      ensures c == Top(path)
      ensures Valid() ==> Filtered(c, buffer)
    {
      path[|path| - 1]
    }

    /** Go's `getPath`: "/" for an empty stack; otherwise "/" and the selected
        name of every column but the last, then "/" and the buffer when
        `appendBuffer` is set. It dereferences the selection of every column
        but the last, which must therefore have one. */
    method GetPath(appendBuffer: bool) returns (p: seq<char>)
      requires path != [] ==> AllSelect(path[..|path| - 1])
      ensures path == [] ==> p == "/"
      ensures path != [] ==> p == JoinPath(SelectedNames(path[..|path| - 1])) + (if appendBuffer then ['/'] + buffer else [])
    {
      if |path| == 0 {
        return "/";
      }
      p := [];
      for i := 0 to |path| - 1
        invariant AllSelect(path[..i])
        invariant p == JoinPath(SelectedNames(path[..i]))
      {
        assert path[..i + 1][..i] == path[..i];
        assert path[i] == path[..|path| - 1][i];
        var selected := GetSelected(path[i]);
        p := p + ['/'] + selected.value.name;
      }
      if appendBuffer {
        p := p + ['/'] + buffer;
      }
    }

    /** Go's `setPath` on a path already made absolute and split at '/':
        one column per segment, each listing the cursor reached so far and
        filtered by the empty pattern; before a column is appended, the
        cursor of the one before it is put on the entry named by the
        segment, if there is one. */
    method SetPath(fs: Oracle, parts: seq<seq<char>>)
      modifies this
      ensures buffer == old(buffer) && path == Placed(fs, parts)
    {
      var cursor := "/";
      var cols: seq<ColumnView> := [];
      for i := 0 to |parts|
        invariant cols == Placed(fs, parts[..i]) && buffer == old(buffer)
        invariant cursor == Cursor(parts[..i])
      {
        cols, cursor := PlaceSegment(fs, parts, i, cols, cursor);
      }
      path := cols;
      assert parts[..|parts|] == parts;
    }

    /** `st.getCurrent().filter(pattern)`. */
    method FilterCurrent(pattern: seq<char>)
      requires HasTop(path)
      modifies this
      ensures buffer == old(buffer) && RefilteredTop(old(path), path, pattern)
    {
      var c := new Column.FromView(Current());
      c.Filter(pattern);
      path := path[|path| - 1 := c.View()];
    }

    /** Go's `push`: descend into the selected entry of the last column, if
        it has one. The buffer is cleared, the last column is refiltered with
        the empty pattern (its cursor stays on the same entry), and a zero
        column is appended and loaded from the path through the cursors. */
    method Push(fs: Oracle)
      requires Valid()
      modifies this
      ensures Valid()
      ensures Pushed(fs, old(path), old(buffer), path, buffer)
    {
      if IsValid(Current()) {
        ghost var p0 := path;
        buffer := [];
        FilterCurrent([]);
        ghost var p1 := path;
        PushDirectory(p0, old(buffer), p1);
        Descend(fs);
        assert path[..|p0|] == p1;
        PushDescends(fs, p0, old(buffer), path);
      }
    }

    /** The second half of `push`: append the zero column, then list and
        filter in it the directory the cursors of the other columns spell. */
    method Descend(fs: Oracle)
      requires AllSelect(path)
      modifies this
      ensures buffer == old(buffer) && |path| == |old(path)| + 1 && path[..|old(path)|] == old(path)
      ensures path[|old(path)|] == LoadedView(fs(JoinPath(SelectedNames(old(path)))))
    {
      path := path + [ZeroColumn];
      assert path[..|path| - 1] == old(path);
      var dir := GetPath(false);
      assert dir == JoinPath(SelectedNames(old(path)));
      var c := new Column.FromView(Current());
      c.Load(fs, dir);
      path := path[|path| - 1 := c.View()];
      assert path[..|path| - 1] == old(path);
    }

    /** Go's `pop`: ascend, unless only the root column is left. The buffer
        is cleared and the new last column is refiltered with the empty
        pattern it was already filtered by, so no column changes. */
    method Pop()
      requires Valid()
      modifies this
      ensures Valid()
      ensures Popped(old(path), old(buffer), path, buffer)
    {
      if |path| > 1 {
        ghost var p0 := path;
        path := path[..|path| - 1];
        buffer := [];
        assert Settled(p0[|p0| - 2]);
        FilterCurrent([]);
        PopRestores(p0, old(buffer), path);
      }
    }

    /** Go's `insertChar`: type `ch` into the buffer and refilter. */
    method InsertChar(ch: char)
      requires Valid()
      modifies this
      ensures Valid()
      ensures buffer == old(buffer) + [ch] && RefilteredTop(old(path), path, buffer)
    {
      buffer := buffer + [ch];
      FilterCurrent(buffer);
    }

    /** Go's `deleteChar`: drop the last rune of the buffer and refilter. It
        slices the buffer to one rune shorter, so the buffer must not be
        empty. */
    method DeleteChar()
      requires Valid() && buffer != []
      modifies this
      ensures Valid()
      ensures buffer == old(buffer)[..|old(buffer)| - 1] && RefilteredTop(old(path), path, buffer)
    {
      buffer := buffer[..|buffer| - 1];
      FilterCurrent(buffer);
    }

    /** The arrow keys up (`forward` false) and down (`forward` true):
        `next` or `prev` on the last column when its cursor is on a match. */
    method Move(forward: bool)
      requires Valid()
      modifies this
      ensures Valid()
      ensures buffer == old(buffer) && Moved(old(path), path, forward)
    {
      if IsValid(Current()) {
        var c := new Column.FromView(Current());
        if forward {
          c.Next();
        } else {
          c.Prev();
        }
        path := path[|path| - 1 := c.View()];
        MoveKeepsStack(old(path), buffer, path, forward);
      }
    }

    /** The tab key: `push` when exactly one entry matches, otherwise
        complete the buffer to the longest common prefix of the matches. */
    method Complete(fs: Oracle)
      requires Valid()
      modifies this
      ensures Valid()
      ensures Completed(fs, old(path), old(buffer), path, buffer)
    {
      if |Current().matches| == 1 {
        Push(fs);
      } else {
        var c := new Column.FromView(Current());
        buffer := c.CommonPrefix();
        FilterCurrent(buffer);
      }
    }

    /** Go's `input` on one event: false exactly for Esc, which ends the
        program. */
    method Input(ev: Event, fs: Oracle) returns (running: bool)
      requires Valid()
      modifies this
      ensures Valid()
      ensures running == !ev.Esc?
      ensures ev.Esc? || ev.Other? ==> path == old(path) && buffer == old(buffer)
      ensures ev.Left? ==> Popped(old(path), old(buffer), path, buffer)
      ensures ev.Right? ==> Pushed(fs, old(path), old(buffer), path, buffer)
      ensures ev.Up? || ev.Down? ==> buffer == old(buffer) && Moved(old(path), path, ev.Down?)
      ensures ev.Backspace? && old(buffer) != [] ==>
        buffer == old(buffer)[..|old(buffer)| - 1] && RefilteredTop(old(path), path, buffer)
      ensures ev.Backspace? && old(buffer) == [] ==> Popped(old(path), old(buffer), path, buffer)
      ensures ev.Tab? ==> Completed(fs, old(path), old(buffer), path, buffer)
      ensures ev.Char? ==> buffer == old(buffer) + [ev.ch] && RefilteredTop(old(path), path, buffer)
    {
      match ev {
      case Esc =>
        return false;
      case Left =>
        Pop();
      case Down =>
        Move(true);
      case Up =>
        Move(false);
      case Backspace =>
        if |buffer| > 0 {
          DeleteChar();
        } else {
          Pop();
        }
      case Right =>
        Push(fs);
      case Tab =>
        Complete(fs);
      case Char(ch) =>
        InsertChar(ch);
      case Other =>
      }
      return true;
    }
  }

  /** Appending the zero column after refiltering a last column whose cursor
      is on a match leaves every column but the new one with its cursor on
      an entry: what `getPath` needs. */
  lemma PushDirectory(p0: seq<ColumnView>, b0: seq<char>, p1: seq<ColumnView>)
    requires Stacked(p0, b0) && IsValid(p0[|p0| - 1]) && RefilteredTop(p0, p1, [])
    ensures AllSelect(p1)
  {
    var n := |p0|;
    SettledSelect(p0[..n - 1]);
    EmptyRefilterKeepsSelection(p0[n - 1], p1[n - 1]);
  }
}
