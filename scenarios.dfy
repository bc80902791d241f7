/** Concrete runs of the model: the filter keeping the selected entry, the
    path `setPath` and `getPath` agree on, and tab completion on names of
    different lengths. */
module Scenarios {
  import opened Prefix
  import opened Matching
  import opened Selection
  import opened Columns
  import opened Navigation

  /** A column listing a, ab, abc and b, all kept, with the cursor on abc. */
  function Sample(): ColumnView {
    ColumnView([Entry("a", true), Entry("ab", true), Entry("abc", true), Entry("b", true)], [0, 1, 2, 3], 2, 8, None)
  }

  /** Filtering the sample by "a" keeps a, ab and abc, and the cursor stays
      on abc. */
  lemma FilterKeepsSelectedEntry(v: ColumnView)
    requires Refiltered(Sample(), v, "a")
    ensures v.matches == [0, 1, 2] && v.selection == 2
    ensures Selects(v) && SelectedName(v) == "abc"
  {
    var names := Names(Sample().entries);
    assert names == ["a", "ab", "abc", "b"];
    assert HasPrefix(names[0], "a") && HasPrefix(names[1], "a") && HasPrefix(names[2], "a");
    assert names[3][..1][0] != "a"[0];
    assert MatchesBelow(names, "a", 1) == [0];
    assert MatchesBelow(names, "a", 2) == [0, 1];
    assert MatchesBelow(names, "a", 3) == [0, 1, 2];
    assert MatchingIndices(names, "a") == [0, 1, 2];
    AnchoredUnique(v.matches, 2, v.selection, 2);
    assert v.entries[2].name == names[2];
  }

  /** Completing "a" to "abc" in the sample leaves abc alone, selected. */
  lemma NarrowingToOne(v: ColumnView, w: ColumnView)
    requires Refiltered(Sample(), v, "a") && Refiltered(v, w, "abc")
    ensures w.matches == [2] && w.selection == 0
    ensures Selects(w) && SelectedName(w) == "abc"
  {
    FilterKeepsSelectedEntry(v);
    var names := Names(v.entries);
    assert names == ["a", "ab", "abc", "b"];
    assert !HasPrefix(names[0], "abc") && !HasPrefix(names[1], "abc") && !HasPrefix(names[3], "abc");
    assert HasPrefix(names[2], "abc");
    assert MatchesBelow(names, "abc", 1) == [];
    assert MatchesBelow(names, "abc", 2) == [];
    assert MatchesBelow(names, "abc", 3) == [2];
    assert MatchingIndices(names, "abc") == [2];
    assert w.entries[2].name == names[2];
  }

  /** The segments of /usr/local/bin. */
  function UsrLocalBin(): seq<seq<char>> {
    ["", "usr", "local", "bin"]
  }

  /** `setPath("/usr/local/bin")`, when each directory lists the next, puts
      the cursors on usr, local and bin, so `getPath(false)` gives back
      "/usr/local/bin": the directory the last column lists. */
  lemma SetPathThenGetPath(fs: Oracle)
    requires Reaches(fs, UsrLocalBin())
    ensures Stacked(Placed(fs, UsrLocalBin()), [])
    ensures AllSelect(Placed(fs, UsrLocalBin())[..3])
    ensures JoinPath(SelectedNames(Placed(fs, UsrLocalBin())[..3])) == "/usr/local/bin"
    ensures Cursor(UsrLocalBin()) == "/usr/local/bin"
  {
    var parts := UsrLocalBin();
    PlacedIsStacked(fs, parts);
    assert parts[1..] == ["usr", "local", "bin"];
    UsrLocalBinSpelled();
    CursorSpellsPath(parts);
  }

  /** `setPath("/")`: splitting "/" at '/' gives two empty segments, so the
      root is listed twice, and the cursor of the first column stays on its
      first entry. `getPath(false)` is then "/" and that entry, not "/". */
  lemma RootListedTwice(fs: Oracle, first: seq<char>, rest: seq<seq<char>>)
    requires fs("/") == Listed([first] + rest) && first != [] && [] !in rest
    ensures |Placed(fs, ["", ""])| == 2 && AllSelect(Placed(fs, ["", ""])[..1])
    ensures JoinPath(SelectedNames(Placed(fs, ["", ""])[..1])) == "/" + first
  {
    var parts: seq<seq<char>> := ["", ""];
    assert parts[..1] == [""] && parts[..1][..0] == [];
    assert Cursor(parts[..1]) == "/";
    var v := LoadedView(fs("/"));
    assert Placed(fs, parts[..1]) == [v];
    LoadedViewIsLoaded(v, fs("/"));
    assert Names(v.entries) == [first] + rest;
    var path := Placed(fs, parts);
    assert path[0] == v;
    assert SelectedName(v) == first;
    assert path[..1] == [v];
    assert SelectedNames([v]) == [first];
  }

  /** `setPath("/a/b")` when /a can be entered from the root but not read:
      its column fails to list and keeps the cursor at -1 above the last
      column, so `getPath` meets no selected entry there (Go dereferences
      nil at main.go:173 on the first render). */
  lemma UnreadableAncestor(fs: Oracle, message: seq<char>)
    requires fs("/") == Listed(["a"]) && fs("/a") == Failed(message)
    ensures |Placed(fs, ["", "a", "b"])| == 3
    ensures Placed(fs, ["", "a", "b"])[1].selection == -1
    ensures !AllSelect(Placed(fs, ["", "a", "b"])[..2])
  {
    var parts: seq<seq<char>> := ["", "a", "b"];
    assert parts[..2] == ["", "a"] && parts[..2][..1] == [""] && parts[..1] == [""];
    assert Cursor(parts[..1]) == "/";
    assert Cursor(parts[..2]) == JoinName("/", "a") == "/a";
    var p2 := Placed(fs, parts[..2]);
    assert p2[1] == LoadedView(Failed(message));
    var path := Placed(fs, parts);
    assert path[1] == Locate(p2[1], "b");
    assert !Selects(path[..2][1]);
  }

  lemma UsrLocalBinSpelled()
    ensures JoinPath(["usr", "local", "bin"]) == "/usr/local/bin"
  {
    assert ["usr", "local", "bin"][..2] == ["usr", "local"];
    assert ["usr", "local"][..1] == ["usr"];
  }

  /** Tab completion on the matched names a and ab. Go's `commonPrefix`
      scans up to the length of the longer name and indexes past the end
      of "a"; the corrected scan stops at the shorter name and yields "a". */
  method CompletionOverrun() returns (asWritten: Option<seq<char>>, corrected: seq<char>)
    ensures asWritten == None && corrected == "a"
  {
    var c := new Column.FromView(ColumnView([Entry("a", true), Entry("ab", true)], [0, 1], 0, 8, None));
    assert MatchedNames(c.View()) == ["a", "ab"];
    assert IsCommonPrefix("a", ["a", "ab"]) by {
      assert HasPrefix("ab", "a");
    }
    assert |MatchedNames(c.View())[0]| < |MatchedNames(c.View())[1]|;
    asWritten := c.CommonPrefixAsWritten();
    corrected := c.CommonPrefix();
    assert "a" == ["a", "ab"][0][..1];
    LongestAtStop(["a", "ab"], 1, 0);
    LongestUnique(corrected, "a", ["a", "ab"]);
  }

  /** Tab completion on apple, application and apply: "appl", where the
      second name first differs from the first. The scan as written stops
      there too, before running past any name, and agrees. */
  method CompletionOfThree() returns (cp: seq<char>, asWritten: Option<seq<char>>)
    ensures cp == "appl" && asWritten == Some("appl")
  {
    var names: seq<seq<char>> := ["apple", "application", "apply"];
    var c := new Column.FromView(ColumnView([Entry("apple", true), Entry("application", true), Entry("apply", true)], [0, 1, 2], 0, 8, None));
    assert MatchedNames(c.View()) == names;
    cp := c.CommonPrefix();
    assert "appl" == names[0][..4];
    assert IsCommonPrefix("appl", names) by {
      assert HasPrefix(names[0], "appl") && HasPrefix(names[1], "appl") && HasPrefix(names[2], "appl");
    }
    assert names[1][4] != names[0][4];
    LongestAtStop(names, 4, 1);
    LongestUnique(cp, "appl", names);
    assert FirstIsShortest(names);
    assert !Overruns(names) by {
      assert !HasPrefix(names[1], names[0]) by {
        assert names[1][4] != names[0][4];
      }
    }
    asWritten := c.CommonPrefixAsWritten();
    LongestUnique(asWritten.value, "appl", names);
  }
}
