/** The saved-command list: its records, the tree selection over it, the
    multi-delete specification and the add/edit dialog's validation. */
module Commands {
  import opened Text

  /** One saved entry, the `{'name': ..., 'command': ...}` record. */
  datatype Command = Command(name: string, command: string)

  const CopySuffix: string := " (Copy)"

  /** The entry appended by "Duplicate Command": same command line, suffixed name. */
  function Duplicate(c: Command): (d: Command)
    ensures d.command == c.command
    ensures |d.name| == |c.name| + |CopySuffix| && d.name[..|c.name|] == c.name
    ensures d.name[|c.name|..] == CopySuffix
  {
    c.(name := c.name + CopySuffix)
  }

  // ---------------------------------------------------------------------
  // Tree selection

  predicate Distinct(xs: seq<nat>) {
    forall i, j :: 0 <= i < j < |xs| ==> xs[i] != xs[j]
  }

  /** The tree's selection: row identifiers are the positions `0 .. n-1`
      written back by every refresh, each selected at most once. */
  predicate ValidSelection(selection: seq<nat>, n: nat) {
    Distinct(selection) && forall i :: 0 <= i < |selection| ==> selection[i] < n
  }

  function Elems(xs: seq<nat>): set<nat> {
    set x | x in xs
  }

  predicate StrictlyDescending(xs: seq<nat>) {
    forall i, j :: 0 <= i < j < |xs| ==> xs[i] > xs[j]
  }

  function InsertDescending(x: nat, xs: seq<nat>): (r: seq<nat>)
    requires StrictlyDescending(xs) && x !in xs
    ensures StrictlyDescending(r)
    ensures multiset(r) == multiset(xs) + multiset{x}
  {
    if xs == [] || x > xs[0] then [x] + xs
    else
      var rest := InsertDescending(x, xs[1..]);
      BelowHead(x, xs, rest);
      var r := [xs[0]] + rest;
      assert StrictlyDescending(r) by {
        forall i, j | 0 <= i < j < |r| ensures r[i] > r[j] {
          assert r[j] == rest[j - 1];
          if i > 0 { assert r[i] == rest[i - 1]; }
        }
      }
      assert xs == [xs[0]] + xs[1..];
      assert multiset(r) == multiset{xs[0]} + multiset(rest);
      r
  }

  /** Everything inserted behind the head of a descending list stays below it. */
  lemma BelowHead(x: nat, xs: seq<nat>, rest: seq<nat>)
    requires StrictlyDescending(xs) && xs != [] && x < xs[0]
    requires multiset(rest) == multiset(xs[1..]) + multiset{x}
    ensures forall k :: 0 <= k < |rest| ==> rest[k] < xs[0]
  {
    forall k | 0 <= k < |rest|
      ensures rest[k] < xs[0]
    {
      assert rest[k] in multiset(rest);
      if rest[k] != x {
        assert rest[k] in multiset(xs[1..]);
        var j :| 0 <= j < |xs| - 1 && xs[1..][j] == rest[k];
        assert xs[j + 1] == rest[k];
      }
    }
  }

  /** `sorted(indices, reverse=True)` on distinct indices. */
  function SortDescending(xs: seq<nat>): (r: seq<nat>)
    requires Distinct(xs)
    ensures StrictlyDescending(r) && multiset(r) == multiset(xs)
  {
    if xs == [] then []
    else
      assert Distinct(xs[1..]) by {
        forall i, j | 0 <= i < j < |xs| - 1 ensures xs[1..][i] != xs[1..][j] {
          assert xs[1..][i] == xs[i + 1] && xs[1..][j] == xs[j + 1];
        }
      }
      var rest := SortDescending(xs[1..]);
      assert xs == [xs[0]] + xs[1..];
      assert xs[0] !in xs[1..] by {
        forall j | 0 <= j < |xs| - 1 ensures xs[1..][j] != xs[0] {
          assert xs[1..][j] == xs[j + 1];
        }
      }
      assert xs[0] !in multiset(rest);
      InsertDescending(xs[0], rest)
  }

  // ---------------------------------------------------------------------
  // Deleting a set of positions

  /** The list with the entries at positions in `d` left out, the survivors
      in their original order. */
  function RemoveIndices<T>(s: seq<T>, d: set<nat>): (r: seq<T>)
    ensures |r| <= |s|
    ensures d == {} ==> r == s
  {
    if s == [] then []
    else
      var last := |s| - 1;
      RemoveIndices(s[..last], d) + (if last in d then [] else [s[last]])
  }

  /** Positions beyond the end are irrelevant. */
  lemma {:induction false} RemoveIndicesAbove<T>(s: seq<T>, d: set<nat>)
    requires forall x :: x in d ==> x >= |s|
    ensures RemoveIndices(s, d) == s
  {
    if s != [] {
      RemoveIndicesAbove(s[..|s| - 1], d);
    }
  }

  /** The step that makes the descending loop correct: when every position
      already deleted lies above `i`, entry `i` of the shortened list is
      still the original entry `i`, and deleting it there is the same as
      adding `i` to the deleted set. */
  lemma {:induction false} DeleteBelow<T>(s: seq<T>, d: set<nat>, i: nat)
    requires i < |s|
    requires forall x :: x in d ==> x > i
    ensures i < |RemoveIndices(s, d)| && RemoveIndices(s, d)[i] == s[i]
    ensures RemoveIndices(s, d + {i}) == RemoveIndices(s, d)[..i] + RemoveIndices(s, d)[i + 1..]
  {
    var last := |s| - 1;
    if i == last {
      DeleteAtEnd(s, d);
    } else {
      DeleteBelow(s[..last], d, i);
      DeleteBelowExtend(s, d, i);
    }
  }

  /** `DeleteBelow` for the last position. */
  lemma DeleteAtEnd<T>(s: seq<T>, d: set<nat>)
    requires s != [] && forall x :: x in d ==> x > |s| - 1
    ensures |s| - 1 < |RemoveIndices(s, d)| && RemoveIndices(s, d)[|s| - 1] == s[|s| - 1]
    ensures RemoveIndices(s, d + {|s| - 1}) == RemoveIndices(s, d)[..|s| - 1] + RemoveIndices(s, d)[|s|..]
  {
    var last := |s| - 1;
    var p := s[..last];
    RemoveIndicesAbove(p, d);
    RemoveIndicesAbove(p, d + {last});
    assert last !in d;
    assert RemoveIndices(s, d) == p + [s[last]];
    assert RemoveIndices(s, d + {last}) == p;
    assert (p + [s[last]])[..last] == p;
  }

  /** `DeleteBelow` carried from the list without its last entry to the whole list. */
  lemma DeleteBelowExtend<T>(s: seq<T>, d: set<nat>, i: nat)
    requires i < |s| - 1
    requires i < |RemoveIndices(s[..|s| - 1], d)| && RemoveIndices(s[..|s| - 1], d)[i] == s[i]
    requires RemoveIndices(s[..|s| - 1], d + {i})
             == RemoveIndices(s[..|s| - 1], d)[..i] + RemoveIndices(s[..|s| - 1], d)[i + 1..]
    ensures i < |RemoveIndices(s, d)| && RemoveIndices(s, d)[i] == s[i]
    ensures RemoveIndices(s, d + {i}) == RemoveIndices(s, d)[..i] + RemoveIndices(s, d)[i + 1..]
  {
    var last := |s| - 1;
    var p := s[..last];
    var tail := if last in d then [] else [s[last]];
    var rp := RemoveIndices(p, d);
    assert last in d + {i} <==> last in d;
    assert RemoveIndices(s, d) == rp + tail;
    assert RemoveIndices(s, d + {i}) == RemoveIndices(p, d + {i}) + tail;
    assert (rp + tail)[..i] == rp[..i];
    assert (rp + tail)[i + 1..] == rp[i + 1..] + tail;
  }

  /** Sorting the selection in descending order keeps its positions. */
  lemma SortedSelection(selection: seq<nat>, n: nat)
    requires ValidSelection(selection, n)
    ensures StrictlyDescending(SortDescending(selection))
    ensures Elems(SortDescending(selection)) == Elems(selection)
    ensures forall k :: 0 <= k < |SortDescending(selection)| ==> SortDescending(selection)[k] < n
  {
    var indices := SortDescending(selection);
    forall x
      ensures x in indices <==> x in selection
    {
      assert x in indices <==> x in multiset(indices);
      assert x in selection <==> x in multiset(selection);
    }
    forall k | 0 <= k < |indices|
      ensures indices[k] < n
    {
      assert indices[k] in multiset(selection);
    }
  }

  /** One turn of the descending deletion loop: deleting position
      `indices[i]` from the list where `indices[..i]` are already deleted
      leaves the list where `indices[..i + 1]` are deleted. */
  lemma DeleteDescendingStep<T>(s: seq<T>, indices: seq<nat>, i: nat)
    requires StrictlyDescending(indices) && i < |indices| && indices[i] < |s|
    ensures indices[i] < |RemoveIndices(s, Elems(indices[..i]))|
    ensures RemoveIndices(s, Elems(indices[..i + 1]))
            == RemoveIndices(s, Elems(indices[..i]))[..indices[i]] + RemoveIndices(s, Elems(indices[..i]))[indices[i] + 1..]
  {
    var done := Elems(indices[..i]);
    assert forall x :: x in done ==> x > indices[i];
    assert indices[..i + 1] == indices[..i] + [indices[i]];
    assert Elems(indices[..i + 1]) == done + {indices[i]};
    DeleteBelow(s, done, indices[i]);
  }

  function Below(d: set<nat>, n: nat): set<nat> {
    set x | x in d && x < n
  }

  /** The list shrinks by exactly the number of in-range positions removed. */
  lemma {:induction false} RemoveIndicesLength<T>(s: seq<T>, d: set<nat>)
    ensures |RemoveIndices(s, d)| == |s| - |Below(d, |s|)|
  {
    if s == [] {
      assert Below(d, 0) == {};
    } else {
      var last := |s| - 1;
      RemoveIndicesLength(s[..last], d);
      if last in d {
        assert Below(d, |s|) == Below(d, last) + {last};
      } else {
        assert Below(d, |s|) == Below(d, last);
      }
    }
  }

  /** Removing a set of in-range selected positions shortens the list by
      the size of the selection. */
  lemma RemoveSelectionLength<T>(s: seq<T>, selection: seq<nat>)
    requires ValidSelection(selection, |s|)
    ensures |RemoveIndices(s, Elems(selection))| == |s| - |selection|
  {
    RemoveIndicesLength(s, Elems(selection));
    assert Below(Elems(selection), |s|) == Elems(selection);
    DistinctCard(selection);
  }

  lemma {:induction false} DistinctCard(xs: seq<nat>)
    requires Distinct(xs)
    ensures |Elems(xs)| == |xs|
  {
    if xs != [] {
      var rest := xs[1..];
      assert Distinct(rest);
      DistinctCard(rest);
      assert Elems(xs) == Elems(rest) + {xs[0]};
      assert xs[0] !in Elems(rest);
    }
  }

  /** Every entry at an unselected position survives and every entry at a
      selected position is gone, counted with multiplicity. */
  lemma {:induction false} RemoveIndicesMultiset<T>(s: seq<T>, d: set<nat>)
    ensures multiset(RemoveIndices(s, d)) + multiset(Picked(s, d)) == multiset(s)
  {
    if s != [] {
      var last := |s| - 1;
      RemoveIndicesMultiset(s[..last], d);
      assert s == s[..last] + [s[last]];
    }
  }

  /** The entries at the positions in `d`, in list order. */
  function Picked<T>(s: seq<T>, d: set<nat>): seq<T>
  {
    if s == [] then []
    else
      var last := |s| - 1;
      Picked(s[..last], d) + (if last in d then [s[last]] else [])
  }

  // ---------------------------------------------------------------------
  // Dialog validation

  const MissingName: string := "Please enter a name for the command."
  const MissingCommand: string := "Please enter a command."

  datatype Validation = Accepted(entry: Command) | Rejected(warning: string)

  /** The OK button: both fields are stripped; the name is checked first,
      then the command; a result is produced only when both are non-empty. */
  function Validate(nameText: string, commandText: string): (r: Validation)
    ensures r.Accepted? ==> r.entry.name != [] && r.entry.command != []
    ensures r.Rejected? ==> r.warning == MissingName || r.warning == MissingCommand
  {
    var name := Strip(nameText);
    var command := Strip(commandText);
    if name == [] then Rejected(MissingName)
    else if command == [] then Rejected(MissingCommand)
    else Accepted(Command(name, command))
  }

  /** A result is produced exactly when neither field is blank; it is then
      the pair of stripped fields, both non-empty and without surrounding
      whitespace; otherwise the warning names the first blank field. */
  lemma ValidateMeaning(nameText: string, commandText: string)
    ensures Validate(nameText, commandText).Accepted? <==> !AllSpace(nameText) && !AllSpace(commandText)
    ensures Validate(nameText, commandText).Accepted? ==>
              Validate(nameText, commandText).entry == Command(Strip(nameText), Strip(commandText))
              && Strip(nameText) != [] && Strip(commandText) != []
              && Trimmed(Strip(nameText)) && Trimmed(Strip(commandText))
    ensures Validate(nameText, commandText).Rejected? ==>
              Validate(nameText, commandText).warning == (if AllSpace(nameText) then MissingName else MissingCommand)
  {
  }

  /** Accepting is a fixed point: reopening the edit dialog on an accepted
      entry and pressing OK without typing yields that same entry. */
  lemma RevalidateAccepted(nameText: string, commandText: string)
    requires !AllSpace(nameText) && !AllSpace(commandText)
    ensures Validate(nameText, commandText).Accepted?
    ensures var c := Validate(nameText, commandText).entry;
            Validate(c.name, c.command) == Accepted(c)
  {
    StripIdempotent(nameText);
    StripIdempotent(commandText);
  }

  /** Surrounding whitespace typed into either field never changes the outcome. */
  lemma ValidateIgnoresPadding(a: string, name: string, b: string, c: string, command: string, e: string)
    requires AllSpace(a) && AllSpace(b) && AllSpace(c) && AllSpace(e)
    requires Trimmed(name) && Trimmed(command)
    ensures Validate(a + name + b, c + command + e) == Validate(name, command)
  {
    StripOfPadded(a, name, b);
    StripOfPadded(c, command, e);
    StripTrimmed(name);
    StripTrimmed(command);
  }
}
