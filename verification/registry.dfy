/** The group registry (`file_groups`): group name to the ordered list of
    file paths it merges, and the edits the application's handlers make to
    it once their dialogs have been answered. */
module Registry {
  import opened Results
  import opened Seqs
  import opened Text

  type Groups = map<string, seq<string>>

  datatype RegistryError =
    | EmptyName
    | DuplicateGroup(name: string)
    | GroupNotFound(name: string)
    | PathNotInGroup(path: string)

  /** What the handlers keep true of the registry: every group name is
      stripped and non-empty, and no group lists a path twice. */
  predicate WellFormed(g: Groups)
  {
    forall n :: n in g ==> n != [] && Strip(n) == n && Distinct(g[n])
  }

  /** `create_group`: the entered name is stripped; an empty name or a name
      already in use is refused; otherwise the group starts out empty. */
  function CreateGroup(g: Groups, entered: string): (r: Result<Groups, RegistryError>)
    ensures r.Failure? <==> Strip(entered) == [] || Strip(entered) in g
    ensures r.Failure? && Strip(entered) == [] ==> r.error == EmptyName
    ensures r.Failure? && Strip(entered) != [] ==> r.error == DuplicateGroup(Strip(entered))
    ensures r.Success? ==> r.value.Keys == g.Keys + {Strip(entered)} && r.value[Strip(entered)] == []
    ensures r.Success? ==> forall n :: n in g ==> r.value[n] == g[n]
  {
    var name := Strip(entered);
    if name == [] then Failure(EmptyName)
    else if name in g then Failure(DuplicateGroup(name))
    else Success(g[name := []])
  }

  /** The loop of `add_files_to_group`: each chosen path, in order, is
      appended unless the list already holds it. */
  function AppendNew(group: seq<string>, paths: seq<string>): (r: seq<string>)
    ensures |group| <= |r| && r[..|group|] == group
    ensures forall p :: p in r <==> p in group || p in paths
    ensures Distinct(group) ==> Distinct(r)
  {
    if paths == [] then group
    else
      var a := AppendNew(group, paths[..|paths| - 1]);
      var p := paths[|paths| - 1];
      assert forall q :: q in paths <==> q in paths[..|paths| - 1] || q == p by {
        assert paths == paths[..|paths| - 1] + [p];
      }
      if p in a then a
      else
        assert Distinct(a) ==> Distinct(a + [p]) by { DistinctAppend(a, [p]); }
        a + [p]
  }

  /** The test "not already listed in `xs`". */
  function NotIn(xs: seq<string>): string -> bool
  {
    p => p !in xs
  }

  /** What `add_files_to_group` appends: the chosen paths that the group
      does not hold yet, each once, in the order they were chosen. */
  lemma {:induction false} AppendNewSpec(group: seq<string>, paths: seq<string>)
    ensures AppendNew(group, paths) == group + Filter(Dedup(paths), NotIn(group))
  {
    if paths != [] {
      var init := paths[..|paths| - 1];
      var p := paths[|paths| - 1];
      var d := Dedup(init);
      var f := Filter(d, NotIn(group));
      AppendNewSpec(group, init);
      assert AppendNew(group, init) == group + f;
      if p in d {
        assert Dedup(paths) == d;
        assert p in group + f by {
          if p !in group {
            assert NotIn(group)(p);
          }
        }
      } else {
        assert Dedup(paths) == d + [p];
        FilterAppend(d, [p], NotIn(group));
        if p in group {
          assert Filter([p], NotIn(group)) == [];
        } else {
          assert Filter([p], NotIn(group)) == [p];
          assert p !in f;
        }
      }
    }
  }

  /** Adding the same paths a second time changes nothing. */
  lemma AppendNewIdempotent(group: seq<string>, paths: seq<string>)
    ensures AppendNew(AppendNew(group, paths), paths) == AppendNew(group, paths)
  {
    var once := AppendNew(group, paths);
    AppendNewSpec(once, paths);
    FilterNone(Dedup(paths), NotIn(once));
  }

  /** `add_files_to_group` on the group `name`. */
  function AddPaths(g: Groups, name: string, paths: seq<string>): (r: Result<Groups, RegistryError>)
    ensures r.Failure? <==> name !in g
    ensures r.Failure? ==> r.error == GroupNotFound(name)
    ensures r.Success? ==> r.value.Keys == g.Keys
    ensures r.Success? ==> forall n :: n in g && n != name ==> r.value[n] == g[n]
    ensures r.Success? ==> r.value[name] == AppendNew(g[name], paths)
  {
    if name !in g then Failure(GroupNotFound(name))
    else Success(g[name := AppendNew(g[name], paths)])
  }

  /** `list.remove`: drops the first occurrence of `x`; `None` stands for the
      `ValueError` raised when there is none. */
  function RemoveFirst(xs: seq<string>, x: string): (r: Option<seq<string>>)
    ensures r.None? <==> x !in xs
    ensures r.Some? ==> multiset(r.value) == multiset(xs) - multiset{x}
  {
    if xs == [] then None
    else if xs[0] == x then
      assert xs == [x] + xs[1..];
      Some(xs[1..])
    else
      match RemoveFirst(xs[1..], x)
      case None => None
      case Some(rest) =>
        assert xs == [xs[0]] + xs[1..];
        Some([xs[0]] + rest)
  }

  lemma RemoveFirstCons(xs: seq<string>, x: string)
    requires xs != [] && xs[0] != x && x in xs[1..]
    ensures RemoveFirst(xs, x) == Some([xs[0]] + RemoveFirst(xs[1..], x).value)
  {
  }

  lemma SpliceCons(xs: seq<string>, k: nat)
    requires 0 < k < |xs|
    ensures [xs[0]] + (xs[1..][..k - 1] + xs[1..][k..]) == xs[..k] + xs[k + 1..]
  {
    assert xs[..k] == [xs[0]] + xs[1..][..k - 1];
    assert xs[k + 1..] == xs[1..][k..];
  }

  /** `list.remove` drops the first occurrence of `x`, wherever it is, and
      keeps the order of everything else, repeats included. */
  lemma {:induction false} RemoveFirstAt(xs: seq<string>, x: string, k: nat)
    requires k < |xs| && xs[k] == x && x !in xs[..k]
    ensures RemoveFirst(xs, x) == Some(xs[..k] + xs[k + 1..])
  {
    if k == 0 {
      assert xs[..0] + xs[1..] == xs[1..];
    } else {
      var tail := xs[1..];
      assert xs[0] != x by {
        assert xs[0] == xs[..k][0];
      }
      assert x !in tail[..k - 1] by {
        assert tail[..k - 1] == xs[..k][1..];
      }
      assert x in tail by {
        assert tail[k - 1] == x;
      }
      RemoveFirstAt(tail, x, k - 1);
      RemoveFirstCons(xs, x);
      SpliceCons(xs, k);
    }
  }

  function Other(x: string): string -> bool
  {
    p => p != x
  }

  /** On a list without repeats `list.remove` keeps every other element, in order. */
  lemma {:induction false} RemoveFirstDistinct(xs: seq<string>, x: string)
    requires x in xs && Distinct(xs)
    ensures RemoveFirst(xs, x) == Some(Filter(xs, Other(x)))
  {
    if xs[0] == x {
      assert x !in xs[1..];
      FilterIdentity(xs[1..], Other(x));
    } else {
      assert Distinct(xs[1..]);
      RemoveFirstDistinct(xs[1..], x);
    }
  }

  lemma MultisetSubtractTwice(a: multiset<string>, b: multiset<string>, c: multiset<string>)
    ensures a - b - c == a - (b + c)
  {
    assert forall x :: (a - b - c)[x] == (a - (b + c))[x];
  }

  lemma MultisetRemoveStep(ps: seq<string>, xs: seq<string>)
    requires ps != []
    ensures ps[0] !in xs ==> !(multiset(ps) <= multiset(xs))
  {
    assert ps == [ps[0]] + ps[1..];
    if ps[0] !in xs {
      assert multiset(ps)[ps[0]] > 0 == multiset(xs)[ps[0]];
    }
  }

  lemma RemoveEachStep(xs: seq<string>, ps: seq<string>, ys: seq<string>)
    requires ps != [] && ps[0] in xs
    requires multiset(ys) == multiset(xs) - multiset{ps[0]}
    ensures multiset(ps[1..]) <= multiset(ys) <==> multiset(ps) <= multiset(xs)
    ensures multiset(ys) - multiset(ps[1..]) == multiset(xs) - multiset(ps)
  {
    var x := ps[0];
    var a := multiset(xs);
    var rest := multiset(ps[1..]);
    assert ps == [x] + ps[1..];
    assert multiset(ps) == multiset{x} + rest;
    assert a[x] > 0;
    MultisetSubtractTwice(a, multiset{x}, rest);
    forall y
      ensures rest[y] <= (a - multiset{x})[y] <==> (multiset{x} + rest)[y] <= a[y]
    {
    }
  }

  /** Removes the paths one after the other with `list.remove`; fails with
      the first path that is no longer there. */
  function RemoveEach(xs: seq<string>, ps: seq<string>): (r: Result<seq<string>, string>)
    ensures r.Success? <==> multiset(ps) <= multiset(xs)
    ensures r.Success? ==> multiset(r.value) == multiset(xs) - multiset(ps)
    decreases |ps|
  {
    if ps == [] then Success(xs)
    else
      MultisetRemoveStep(ps, xs);
      match RemoveFirst(xs, ps[0])
      case None => Failure(ps[0])
      case Some(ys) =>
        RemoveEachStep(xs, ps, ys);
        RemoveEach(ys, ps[1..])
  }

  /** The inner loop of `do_remove`: the position of the first path of the
      group whose basename is `name`, if any. */
  function FirstWithBasename(group: seq<string>, name: string): (r: Option<nat>)
    ensures r.None? <==> forall p :: p in group ==> Basename(p) != name
    ensures r.Some? ==> r.value < |group| && Basename(group[r.value]) == name
    ensures r.Some? ==> forall j :: 0 <= j < r.value ==> Basename(group[j]) != name
  {
    if group == [] then None
    else if Basename(group[0]) == name then Some(0)
    else
      match FirstWithBasename(group[1..], name)
      case None => None
      case Some(k) => Some(k + 1)
  }

  /** The paths the dialog's loop resolves the selected names to. */
  function PathsToRemove(group: seq<string>, names: seq<string>): (r: seq<string>)
    ensures |r| <= |names|
    ensures forall p :: p in r ==> p in group
    ensures (forall k :: 0 <= k < |names| ==> FirstWithBasename(group, names[k]).Some?) ==>
      |r| == |names| &&
      forall k :: 0 <= k < |names| ==> r[k] == group[FirstWithBasename(group, names[k]).value]
  {
    if names == [] then []
    else
      (match FirstWithBasename(group, names[0])
       case None => []
       case Some(k) => [group[k]])
      + PathsToRemove(group, names[1..])
  }

  /** The entries at the selected listbox positions, in position order
      (`curselection()` is ascending). */
  function SelectedPaths(group: seq<string>, selected: set<nat>): (r: seq<string>)
    ensures |r| <= |group|
    ensures forall p :: p in r ==> p in group
  {
    if group == [] then []
    else
      var n := |group| - 1;
      SelectedPaths(group[..n], selected) + (if n in selected then [group[n]] else [])
  }

  /** The entries at the positions that are not selected, in order. */
  function Unselected(group: seq<string>, selected: set<nat>): (r: seq<string>)
    ensures |r| + |SelectedPaths(group, selected)| == |group|
    ensures forall p :: p in r ==> p in group
  {
    if group == [] then []
    else
      var n := |group| - 1;
      Unselected(group[..n], selected) + (if n in selected then [] else [group[n]])
  }

  /** What the dialog lists: the basename of every path. */
  function Basenames(paths: seq<string>): (r: seq<string>)
    ensures |r| == |paths| && forall k :: 0 <= k < |paths| ==> r[k] == Basename(paths[k])
  {
    seq(|paths|, k requires 0 <= k < |paths| => Basename(paths[k]))
  }

  /** The edit `do_remove` makes to the group itself: the selected entries
      are turned into basenames, each basename back into the first path of
      the group bearing it, and those paths are removed one by one. Nothing
      selected changes nothing. */
  function RemoveResolved(group: seq<string>, selected: set<nat>): (r: Result<seq<string>, string>)
    ensures r.Success? <==>
      multiset(PathsToRemove(group, Basenames(SelectedPaths(group, selected)))) <= multiset(group)
    ensures r.Success? ==>
      multiset(r.value) == multiset(group) - multiset(PathsToRemove(group, Basenames(SelectedPaths(group, selected))))
    ensures r.Success? ==> |r.value| <= |group|
  {
    var names := Basenames(SelectedPaths(group, selected));
    if names == [] then Success(group)
    else
      match RemoveEach(group, PathsToRemove(group, names))
      case Failure(p) => Failure(p)
      case Success(rest) =>
        assert |rest| <= |group| by {
          assert |multiset(rest)| <= |multiset(group)|;
        }
        Success(rest)
  }

  /** `do_remove` as written, on the registry: the group is looked up and
      replaced by what is left; a path already gone is the `ValueError`. */
  function RemoveFilesAsWritten(g: Groups, name: string, selected: set<nat>): (r: Result<Groups, RegistryError>)
    ensures name !in g ==> r == Failure(GroupNotFound(name))
    ensures r.Success? ==> r.value.Keys == g.Keys
    ensures r.Success? ==> forall n :: n in g && n != name ==> r.value[n] == g[n]
    ensures r.Success? && name in g ==> |r.value[name]| <= |g[name]|
    ensures name in g ==>
      (r.Success? <==> multiset(PathsToRemove(g[name], Basenames(SelectedPaths(g[name], selected)))) <= multiset(g[name]))
    ensures r.Success? && name in g ==>
      multiset(r.value[name]) ==
        multiset(g[name]) - multiset(PathsToRemove(g[name], Basenames(SelectedPaths(g[name], selected))))
  {
    if name !in g then Failure(GroupNotFound(name))
    else
      match RemoveResolved(g[name], selected)
      case Failure(p) => Failure(PathNotInGroup(p))
      case Success(rest) => Success(g[name := rest])
  }

  /** The remove dialog as its listbox intends it: exactly the entries at the
      selected positions leave the group, and the others keep their order. */
  function RemoveFiles(g: Groups, name: string, selected: set<nat>): (r: Result<Groups, RegistryError>)
    ensures r.Failure? <==> name !in g
    ensures r.Failure? ==> r.error == GroupNotFound(name)
    ensures r.Success? ==> r.value.Keys == g.Keys
    ensures r.Success? ==> forall n :: n in g && n != name ==> r.value[n] == g[n]
    ensures r.Success? ==> |r.value[name]| == |g[name]| - |SelectedPaths(g[name], selected)|
  {
    if name !in g then Failure(GroupNotFound(name))
    else Success(g[name := Unselected(g[name], selected)])
  }

  /** `delete_group`. */
  function DeleteGroup(g: Groups, name: string): (r: Result<Groups, RegistryError>)
    ensures r.Failure? <==> name !in g
    ensures r.Failure? ==> r.error == GroupNotFound(name)
    ensures r.Success? ==> r.value.Keys == g.Keys - {name}
    ensures r.Success? ==> forall n :: n in r.value ==> r.value[n] == g[n]
  {
    if name !in g then Failure(GroupNotFound(name)) else Success(g - {name})
  }

  // ---------------------------------------------------------------------
  // What each edit keeps true, and how the edits relate to each other.

  /** Creating a group keeps the registry well formed. */
  lemma CreatePreservesWellFormed(g: Groups, entered: string)
    requires WellFormed(g) && CreateGroup(g, entered).Success?
    ensures WellFormed(CreateGroup(g, entered).value)
  {
    var name := Strip(entered);
    var created := CreateGroup(g, entered).value;
    forall n | n in created
      ensures n != [] && Strip(n) == n && Distinct(created[n])
    {
      if n == name {
        StripIdempotent(entered);
      }
    }
  }

  /** Adding paths keeps the registry well formed. */
  lemma AddPreservesWellFormed(g: Groups, name: string, paths: seq<string>)
    requires WellFormed(g) && AddPaths(g, name, paths).Success?
    ensures WellFormed(AddPaths(g, name, paths).value)
  {
    var added := AddPaths(g, name, paths).value;
    forall n | n in added
      ensures n != [] && Strip(n) == n && Distinct(added[n])
    {
      assert n in g;
      if n == name {
        assert Distinct(g[name]);
        assert added[n] == AppendNew(g[name], paths);
      } else {
        assert added[n] == g[n];
      }
    }
  }

  /** The entries left after a removal are among those before it. */
  lemma UnselectedDistinct(group: seq<string>, selected: set<nat>)
    requires Distinct(group)
    ensures Distinct(Unselected(group, selected))
  {
    FilterUnselected(group, selected);
    FilterDistinct(group, NotIn(SelectedPaths(group, selected)));
  }

  /** In a group without repeats, an entry is among the selected paths
      exactly when its position was selected. */
  lemma {:induction false} SelectedMember(group: seq<string>, selected: set<nat>, i: nat)
    requires Distinct(group) && i < |group|
    ensures group[i] in SelectedPaths(group, selected) <==> i in selected
  {
    var n := |group| - 1;
    var init := group[..n];
    var last := group[n];
    var s := SelectedPaths(init, selected);
    var tail := if n in selected then [last] else [];
    assert SelectedPaths(group, selected) == s + tail;
    if i < n {
      assert Distinct(init);
      SelectedMember(init, selected, i);
      assert group[i] == init[i] && group[i] != last;
      assert group[i] !in tail;
    } else {
      assert last !in init;
      assert last !in s;
    }
  }

  lemma {:induction false} UnselectedMember(group: seq<string>, selected: set<nat>, i: nat)
    requires Distinct(group) && i < |group|
    ensures group[i] in Unselected(group, selected) <==> i !in selected
  {
    var n := |group| - 1;
    var init := group[..n];
    var last := group[n];
    var u := Unselected(init, selected);
    var tail := if n in selected then [] else [last];
    assert Unselected(group, selected) == u + tail;
    if i < n {
      assert Distinct(init);
      UnselectedMember(init, selected, i);
      assert group[i] == init[i] && group[i] != last;
      assert group[i] !in tail;
    } else {
      assert last !in init;
      assert last !in u;
    }
  }

  /** Removing the selected entries keeps the registry well formed. */
  lemma RemovePreservesWellFormed(g: Groups, name: string, selected: set<nat>)
    requires WellFormed(g) && RemoveFiles(g, name, selected).Success?
    ensures WellFormed(RemoveFiles(g, name, selected).value)
  {
    var removed := RemoveFiles(g, name, selected).value;
    forall n | n in removed
      ensures n != [] && Strip(n) == n && Distinct(removed[n])
    {
      assert n in g;
      if n == name {
        UnselectedDistinct(g[name], selected);
      }
    }
  }

  /** The dialog as written keeps the registry well formed too: it only
      takes paths away. */
  lemma AsWrittenPreservesWellFormed(g: Groups, name: string, selected: set<nat>)
    requires WellFormed(g) && RemoveFilesAsWritten(g, name, selected).Success?
    ensures WellFormed(RemoveFilesAsWritten(g, name, selected).value)
  {
    var removed := RemoveFilesAsWritten(g, name, selected).value;
    forall n | n in removed
      ensures n != [] && Strip(n) == n && Distinct(removed[n])
    {
      assert n in g;
      if n == name {
        SubMultisetDistinct(g[name], removed[name]);
      }
    }
  }

  /** Deleting a group keeps the registry well formed. */
  lemma DeletePreservesWellFormed(g: Groups, name: string)
    requires WellFormed(g) && DeleteGroup(g, name).Success?
    ensures WellFormed(DeleteGroup(g, name).value)
  {
  }

  /** Deleting a group just created gives back the registry it was created in. */
  lemma CreateThenDelete(g: Groups, entered: string)
    requires CreateGroup(g, entered).Success?
    ensures DeleteGroup(CreateGroup(g, entered).value, Strip(entered)) == Success(g)
  {
    var name := Strip(entered);
    var created := CreateGroup(g, entered).value;
    assert created - {name} == g;
  }

  /** Adding the same paths twice is adding them once. */
  lemma AddPathsIdempotent(g: Groups, name: string, paths: seq<string>)
    requires AddPaths(g, name, paths).Success?
    ensures AddPaths(AddPaths(g, name, paths).value, name, paths) == AddPaths(g, name, paths)
  {
    AppendNewIdempotent(g[name], paths);
    var once := AddPaths(g, name, paths).value;
    assert once[name := AppendNew(once[name], paths)] == once;
  }

  /** Exactly the selected entries leave the group. */
  lemma RemoveFilesExact(g: Groups, name: string, selected: set<nat>, i: nat)
    requires name in g && Distinct(g[name]) && i < |g[name]|
    ensures g[name][i] in RemoveFiles(g, name, selected).value[name] <==> i !in selected
  {
    UnselectedMember(g[name], selected, i);
  }

  // ---------------------------------------------------------------------
  // Where resolving through basenames goes wrong, and where it does not.

  /** Two paths in different folders with one basename. */
  lemma SharedBasenameFacts()
    ensures Basename("/a/x.csv") == "x.csv" && Basename("/b/x.csv") == "x.csv"
    ensures "/a/x.csv" != "/b/x.csv"
  {
    assert "/a/x.csv"[1] != "/b/x.csv"[1];
    AfterLastOfSuffixed("/a", '/', "x.csv");
    AfterLastOfSuffixed("/b", '/', "x.csv");
    assert "/a/x.csv" == "/a" + ['/'] + "x.csv";
    assert "/b/x.csv" == "/b" + ['/'] + "x.csv";
  }

  lemma TwoEntrySelections(a: string, b: string)
    ensures SelectedPaths([a, b], {0, 1}) == [a, b] && Unselected([a, b], {0, 1}) == []
    ensures SelectedPaths([a, b], {1}) == [b] && Unselected([a, b], {1}) == [a]
  {
    assert [a, b][..1] == [a];
    assert [a][..0] == [];
  }

  lemma FirstOfShared(a: string, b: string)
    requires Basename(a) == Basename(b)
    ensures FirstWithBasename([a, b], Basename(a)) == Some(0)
  {
  }

  lemma PathsToRemoveRepeated(group: seq<string>, x: string, k: nat)
    requires FirstWithBasename(group, x) == Some(k)
    ensures PathsToRemove(group, [x]) == [group[k]]
    ensures PathsToRemove(group, [x, x]) == [group[k], group[k]]
  {
    assert [x][1..] == [];
    assert [x, x][1..] == [x];
  }

  lemma SharedBasenameResolution(a: string, b: string)
    requires Basename(a) == Basename(b)
    ensures PathsToRemove([a, b], Basenames(SelectedPaths([a, b], {0, 1}))) == [a, a]
    ensures PathsToRemove([a, b], Basenames(SelectedPaths([a, b], {1}))) == [a]
  {
    var x := Basename(a);
    TwoEntrySelections(a, b);
    FirstOfShared(a, b);
    PathsToRemoveRepeated([a, b], x, 0);
    assert Basenames([a, b]) == [x, x];
    assert Basenames([b]) == [x];
  }

  lemma RemoveEachOnTwoEntries(a: string, b: string)
    requires a != b
    ensures RemoveEach([a, b], [a, a]) == Failure(a)
    ensures RemoveEach([a, b], [a]) == Success([b])
  {
    assert RemoveFirst([a, b], a) == Some([b]);
    assert RemoveFirst([b], a) == None by {
      assert [b][1..] == [];
    }
    assert [a, a][1..] == [a];
    assert [a][1..] == [];
  }

  /** The dialog as written, on a group of two distinct paths sharing one
      basename, with both selected: both names resolve to the first path, so
      the second `list.remove` fails. */
  lemma AsWrittenRejectsBothShared(g: Groups, name: string, a: string, b: string)
    requires name in g && g[name] == [a, b] && a != b && Basename(a) == Basename(b)
    ensures RemoveFilesAsWritten(g, name, {0, 1}) == Failure(PathNotInGroup(a))
  {
    TwoEntrySelections(a, b);
    SharedBasenameResolution(a, b);
    RemoveEachOnTwoEntries(a, b);
  }

  /** The same group with only the second entry selected: the first entry is
      removed and the selected one stays. */
  lemma AsWrittenRemovesUnselectedShared(g: Groups, name: string, a: string, b: string)
    requires name in g && g[name] == [a, b] && a != b && Basename(a) == Basename(b)
    ensures RemoveFilesAsWritten(g, name, {1}) == Success(g[name := [b]])
  {
    TwoEntrySelections(a, b);
    SharedBasenameResolution(a, b);
    RemoveEachOnTwoEntries(a, b);
  }

  /** The intended removal on the same selections keeps the unselected entry. */
  lemma RemoveFilesOnTwoEntries(g: Groups, name: string, a: string, b: string)
    requires name in g && g[name] == [a, b]
    ensures RemoveFiles(g, name, {0, 1}) == Success(g[name := []])
    ensures RemoveFiles(g, name, {1}) == Success(g[name := [a]])
  {
    TwoEntrySelections(a, b);
  }

  /** No entry other than a selected one shares its basename. */
  predicate SelectionUnambiguous(group: seq<string>, selected: set<nat>)
  {
    forall i, j :: 0 <= i < |group| && 0 <= j < |group| && i in selected && i != j ==>
      Basename(group[i]) != Basename(group[j])
  }

  /** `p` is the path its own basename resolves to. */
  predicate ResolvesToItself(group: seq<string>, p: string)
  {
    var r := FirstWithBasename(group, Basename(p));
    r.Some? && group[r.value] == p
  }

  lemma {:induction false} PathsToRemoveOfResolving(group: seq<string>, ps: seq<string>)
    requires forall p :: p in ps ==> ResolvesToItself(group, p)
    ensures PathsToRemove(group, Basenames(ps)) == ps
  {
    if ps != [] {
      var names := Basenames(ps);
      assert names[1..] == Basenames(ps[1..]);
      assert ResolvesToItself(group, ps[0]);
      PathsToRemoveOfResolving(group, ps[1..]);
    }
  }

  lemma {:induction false} SelectedPathsFacts(group: seq<string>, selected: set<nat>)
    requires Distinct(group)
    ensures Distinct(SelectedPaths(group, selected))
    ensures forall p :: p in SelectedPaths(group, selected) ==>
      exists i :: 0 <= i < |group| && i in selected && group[i] == p
  {
    if group != [] {
      var n := |group| - 1;
      var init := group[..n];
      assert Distinct(init);
      assert group[n] !in init;
      SelectedPathsFacts(init, selected);
      DistinctAppend(SelectedPaths(init, selected), if n in selected then [group[n]] else []);
      forall p | p in SelectedPaths(init, selected)
        ensures exists i :: 0 <= i < |group| && i in selected && group[i] == p
      {
        var i :| 0 <= i < |init| && i in selected && init[i] == p;
        assert group[i] == p;
      }
    }
  }

  lemma SelectedResolve(group: seq<string>, selected: set<nat>, i: nat)
    requires i < |group| && i in selected && SelectionUnambiguous(group, selected)
    ensures ResolvesToItself(group, group[i])
  {
    var name := Basename(group[i]);
    var k := FirstWithBasename(group, name).value;
    assert Basename(group[k]) == name;
  }

  /** The paths are removed in the order they are listed. */
  lemma RemoveEachCons(xs: seq<string>, ps: seq<string>, ys: seq<string>)
    requires ps != [] && RemoveFirst(xs, ps[0]) == Some(ys)
    ensures RemoveEach(xs, ps) == RemoveEach(ys, ps[1..])
  {
  }

  /** On a list without repeats, removing distinct listed paths one by one
      keeps exactly the other paths, in order. */
  lemma {:induction false} RemoveEachDistinct(xs: seq<string>, ps: seq<string>)
    requires Distinct(xs) && Distinct(ps)
    requires forall p :: p in ps ==> p in xs
    ensures RemoveEach(xs, ps) == Success(Filter(xs, NotIn(ps)))
    decreases |ps|
  {
    if ps == [] {
      FilterIdentity(xs, NotIn(ps));
    } else {
      var x := ps[0];
      var rest := ps[1..];
      RemoveFirstDistinct(xs, x);
      var ys := Filter(xs, Other(x));
      RemoveEachCons(xs, ps, ys);
      FilterDistinct(xs, Other(x));
      assert Distinct(rest);
      forall p | p in rest
        ensures p in ys
      {
        assert Other(x)(p);
      }
      RemoveEachDistinct(ys, rest);
      forall y | y in xs
        ensures NotIn(ps)(y) <==> Other(x)(y) && NotIn(rest)(y)
      {
        assert y in ps <==> y == x || y in rest;
      }
      FilterFuse(xs, Other(x), NotIn(rest), NotIn(ps));
    }
  }

  lemma FilterLastSelected(group: seq<string>, selected: set<nat>)
    requires Distinct(group) && group != []
    ensures var n := |group| - 1;
      Filter([group[n]], NotIn(SelectedPaths(group, selected))) == if n in selected then [] else [group[n]]
  {
    var n := |group| - 1;
    var last := group[n];
    assert last !in group[..n];
    var sp := SelectedPaths(group, selected);
    assert last in sp <==> n in selected;
    assert [last][1..] == [];
  }

  lemma FilterInitSelected(group: seq<string>, selected: set<nat>)
    requires Distinct(group) && group != []
    ensures var init := group[..|group| - 1];
      Filter(init, NotIn(SelectedPaths(group, selected))) == Filter(init, NotIn(SelectedPaths(init, selected)))
  {
    var n := |group| - 1;
    var init := group[..n];
    var sp := SelectedPaths(group, selected);
    var spInit := SelectedPaths(init, selected);
    forall x | x in init
      ensures NotIn(sp)(x) == NotIn(spInit)(x)
    {
      assert x != group[n];
    }
    FilterCongruent(init, NotIn(sp), NotIn(spInit));
  }

  lemma {:induction false} FilterUnselected(group: seq<string>, selected: set<nat>)
    requires Distinct(group)
    ensures Filter(group, NotIn(SelectedPaths(group, selected))) == Unselected(group, selected)
  {
    if group != [] {
      var n := |group| - 1;
      var init := group[..n];
      assert group == init + [group[n]];
      assert Distinct(init);
      FilterAppend(init, [group[n]], NotIn(SelectedPaths(group, selected)));
      FilterInitSelected(group, selected);
      FilterLastSelected(group, selected);
      FilterUnselected(init, selected);
    }
  }

  /** Where no selected entry shares its basename with another entry, the
      dialog as written removes exactly what the intended removal removes. */
  lemma AsWrittenAgreesWhenUnambiguous(g: Groups, name: string, selected: set<nat>)
    requires name in g && Distinct(g[name]) && SelectionUnambiguous(g[name], selected)
    ensures RemoveFilesAsWritten(g, name, selected) == RemoveFiles(g, name, selected)
  {
    var group := g[name];
    var sp := SelectedPaths(group, selected);
    SelectedPathsFacts(group, selected);
    FilterUnselected(group, selected);
    forall p | p in sp
      ensures ResolvesToItself(group, p)
    {
      var i :| 0 <= i < |group| && i in selected && group[i] == p;
      SelectedResolve(group, selected, i);
    }
    PathsToRemoveOfResolving(group, sp);
    RemoveEachDistinct(group, sp);
    if sp == [] {
      FilterIdentity(group, NotIn(sp));
      assert g[name := group] == g;
    }
  }
}
