/** Which root each top-level name of an archive gets: a function of the tree before and of the names, in
    the order they come. */
module TarRoots {
  import opened FileTree
  import opened TarParse
  import opened TarPlace
  import opened TarLayout

  /** The tree with the roots handed out so far in it. */
  ghost function WithRoots(before: Tree, roots: set<Path>): Tree {
    before + map p | p in roots :: Dir
  }

  /** The root for a new top-level name: its own name, or the first numbered one, that neither was there
      nor is the root of an earlier name. */
  ghost function NextRoot(before: Tree, out: Path, top: map<Name, Path>, name: Name): Path {
    out + [UniqueName(WithRoots(before, top.Values), out, name)]
  }

  ghost function WithName(before: Tree, out: Path, top: map<Name, Path>, name: Name): (r: map<Name, Path>)
    ensures name in r
  {
    if name in top then top else top[name := NextRoot(before, out, top, name)]
  }

  ghost function RootsOf(before: Tree, out: Path, top: map<Name, Path>, items: seq<Item>): map<Name, Path>
    requires Placeable(items)
    decreases |items|
  {
    if items == [] then top else RootsOf(before, out, WithName(before, out, top, items[0].parts[0]), items[1..])
  }

  /** A name of its own exactly when that name is free. */
  lemma OwnNameExactly(before: Tree, out: Path, top: map<Name, Path>, name: Name)
    ensures NextRoot(before, out, top, name) == out + [name]
       <==> out + [name] !in before && out + [name] !in top.Values
  {
    var r := UniqueName(WithRoots(before, top.Values), out, name);
    assert (out + [r])[|out|] == r && (out + [name])[|out|] == name;
  }

  // ---------- the extractor chooses these roots ----------

  /** The search for a name looks at nothing but the names in the directory. */
  lemma SameChildren(t: Tree, t': Tree, dir: Path, name: Name)
    requires forall x: Name :: dir + [x] in t <==> dir + [x] in t'
    ensures UniqueName(t, dir, name) == UniqueName(t', dir, name)
  {
    if dir + [name] in t {
      var n, n' := FirstFree(t, dir, name, 1), FirstFree(t', dir, name, 1);
      assert Free(t', dir, name, n) && Free(t, dir, name, n');
      assert !(n < n') && !(n' < n);
    }
  }

  /** What is new directly in the output directory is a root. */
  lemma NewChildIsRoot(before: Tree, out: Path, st: State, done: seq<Item>, p: Path)
    requires Placeable(done) && HeadsIn(st.top, done) && RootsConfined(before, out, st)
    requires OnTheWay(st.top, done, p) && |p| == |out| + 1
    ensures p in st.top.Values
  {
    var i :| 0 <= i < |done| && p <= Dest(st.top, done[i].parts);
    var root := st.top[done[i].parts[0]];
    assert FreshRoot(before, out, root);
    assert p == Dest(st.top, done[i].parts)[..|p|] == root;
  }

  lemma ChildrenIn(before: Tree, out: Path, st: State, done: seq<Item>, x: Name)
    requires Placeable(done) && HeadsIn(st.top, done) && RootsConfined(before, out, st) && RootsExist(st)
    requires Layout(before, st.top, done, st.tree)
    ensures out + [x] in st.tree <==> out + [x] in before || out + [x] in st.top.Values
  {
    var p := out + [x];
    if p in st.tree && p !in before {
      NewChildIsRoot(before, out, st, done, p);
    }
  }

  /** Between two entries the output directory holds what it held before, and the roots. */
  lemma ChildrenOfReached(before: Tree, out: Path, done: seq<Item>, st: State, x: Name)
    requires Ready(before, out) && Reached(before, out, done, st)
    ensures out + [x] in st.tree <==> out + [x] in before || out + [x] in st.top.Values
  {
    ReachedFacts(before, out, done, st);
    ChildrenIn(before, out, st, done, x);
  }

  lemma RootIsNext(before: Tree, out: Path, done: seq<Item>, st: State, name: Name)
    requires Ready(before, out) && Reached(before, out, done, st)
    ensures WithRoot(out, st, name).top == WithName(before, out, st.top, name)
  {
    var t := WithRoots(before, st.top.Values);
    forall x: Name
      ensures out + [x] in st.tree <==> out + [x] in t
    {
      ChildrenOfReached(before, out, done, st, x);
    }
    SameChildren(st.tree, t, out, name);
  }

  lemma PlaceItemTop(out: Path, st: State, item: Item)
    requires SafeParts(item.parts)
    ensures PlaceItem(out, st, item).state.top == WithRoot(out, st, item.parts[0]).top
  {
  }

  lemma PlaceAllStep(out: Path, st: State, items: seq<Item>) returns (first: State)
    requires Placeable(items) && items != [] && PlaceAll(out, st, items).ok
    ensures PlaceItem(out, st, items[0]) == Placed(first, true)
    ensures PlaceAll(out, st, items) == PlaceAll(out, first, items[1..])
    ensures first.top == WithRoot(out, st, items[0].parts[0]).top
  {
    first := PlaceItem(out, st, items[0]).state;
    PlaceItemTop(out, st, items[0]);
  }

  lemma {:induction false} RootsAreChosen(before: Tree, out: Path, done: seq<Item>, st: State, items: seq<Item>)
    requires Ready(before, out) && Reached(before, out, done, st) && Placeable(items) && PlaceAll(out, st, items).ok
    ensures PlaceAll(out, st, items).state.top == RootsOf(before, out, st.top, items)
    decreases |items|
  {
    if items != [] {
      var first := PlaceAllStep(out, st, items);
      RootIsNext(before, out, done, st, items[0].parts[0]);
      ReachedAppend(before, out, done, st, items[0]);
      RootsAreChosen(before, out, done + [items[0]], first, items[1..]);
    }
  }

  // ---------- which names are kept ----------

  lemma {:induction false} RootsStay(before: Tree, out: Path, top: map<Name, Path>, items: seq<Item>, name: Name)
    requires Placeable(items) && name in top
    ensures name in RootsOf(before, out, top, items) && RootsOf(before, out, top, items)[name] == top[name]
    decreases |items|
  {
    if items != [] {
      RootsStay(before, out, WithName(before, out, top, items[0].parts[0]), items[1..], name);
    }
  }

  /** First come, first served: a name's root is chosen when the name first comes, next to the roots of the
      names before it. */
  lemma {:induction false} RootWhenFirst(before: Tree, out: Path, top: map<Name, Path>, items: seq<Item>, i: nat)
    requires Placeable(items) && i < |items|
    requires Placeable(items[..i]) && items[i].parts[0] !in RootsOf(before, out, top, items[..i])
    ensures var name := items[i].parts[0];
            var earlier, all := RootsOf(before, out, top, items[..i]), RootsOf(before, out, top, items);
            name in all && all[name] == NextRoot(before, out, earlier, name)
    decreases |items|
  {
    var name := items[i].parts[0];
    if i == 0 {
      assert items[..0] == [];
      RootsStay(before, out, WithName(before, out, top, name), items[1..], name);
    } else {
      assert items[..i][0] == items[0] && items[..i][1..] == items[1..][..i - 1];
      RootWhenFirst(before, out, WithName(before, out, top, items[0].parts[0]), items[1..], i - 1);
    }
  }

  ghost predicate KeepsNames(out: Path, top: map<Name, Path>) {
    forall a :: a in top ==> top[a] == out + [a]
  }

  ghost predicate NewNames(before: Tree, out: Path, items: seq<Item>)
    requires Placeable(items)
  {
    forall i :: 0 <= i < |items| ==> out + [items[i].parts[0]] !in before
  }

  lemma OwnRootIsNew(out: Path, top: map<Name, Path>, name: Name)
    requires KeepsNames(out, top) && name !in top
    ensures out + [name] !in top.Values
  {
    forall a | a in top
      ensures top[a] != out + [name]
    {
      assert (out + [a])[|out|] == a && (out + [name])[|out|] == name;
    }
  }

  lemma {:induction false} NewNamesStay(before: Tree, out: Path, top: map<Name, Path>, items: seq<Item>)
    requires Placeable(items) && KeepsNames(out, top) && NewNames(before, out, items)
    ensures KeepsNames(out, RootsOf(before, out, top, items))
    decreases |items|
  {
    if items != [] {
      var name := items[0].parts[0];
      if name !in top {
        OwnNameExactly(before, out, top, name);
        OwnRootIsNew(out, top, name);
      }
      NewNamesStay(before, out, WithName(before, out, top, name), items[1..]);
    }
  }

  lemma {:induction false} RootsAreNew(before: Tree, out: Path, top: map<Name, Path>, items: seq<Item>)
    requires Placeable(items) && forall a :: a in top ==> top[a] !in before
    ensures HeadsIn(RootsOf(before, out, top, items), items)
    ensures var r := RootsOf(before, out, top, items);
            forall a :: a in r ==> r[a] !in before
    decreases |items|
  {
    if items != [] {
      var name := items[0].parts[0];
      var next := WithName(before, out, top, name);
      RootsAreNew(before, out, next, items[1..]);
      RootsStay(before, out, next, items[1..], name);
    }
  }

  /** No entry of an archive is renamed if and only if none of its top-level names was there before. */
  lemma NamesKeptExactly(before: Tree, out: Path, items: seq<Item>)
    requires Placeable(items)
    ensures KeepsNames(out, RootsOf(before, out, map[], items)) <==> NewNames(before, out, items)
  {
    RootsAreNew(before, out, map[], items);
    if NewNames(before, out, items) {
      NewNamesStay(before, out, map[], items);
    } else {
      var i :| 0 <= i < |items| && out + [items[i].parts[0]] in before;
    }
  }

  lemma RootsOfTwo(before: Tree, out: Path, x: Name, y: Name) returns (items: seq<Item>, top: map<Name, Path>)
    requires Safe(x) && Safe(y)
    ensures items == [MakeDir([x]), MakeDir([y])] && Placeable(items)
    ensures top == WithName(before, out, map[], x)
    ensures RootsOf(before, out, map[], items) == WithName(before, out, top, y)
  {
    items := [MakeDir([x]), MakeDir([y])];
    top := WithName(before, out, map[], x);
    var later := items[1..];
    assert later == [MakeDir([y])] && later[1..] == [];
    assert RootsOf(before, out, top, later) == WithName(before, out, top, y);
  }

  lemma FirstNumbered(before: Tree, out: Path, x: Name)
    requires out + [x] in before && out + [Candidate(x, 1)] !in before
    ensures WithName(before, out, map[], x) == map[x := out + [Candidate(x, 1)]]
  {
    var empty: map<Name, Path> := map[];
    assert WithRoots(before, empty.Values) == before;
    assert Free(before, out, x, 1);
  }

  /** But next to a name that was there, one that was not can be renamed as well: its own went to the
      other. */
  lemma NewNameIsRenamed(before: Tree, out: Path, x: Name)
    returns (y: Name, items: seq<Item>, top: map<Name, Path>)
    requires Safe(x) && out + [x] in before && out + [Candidate(x, 1)] !in before
    ensures y == Candidate(x, 1) && items == [MakeDir([x]), MakeDir([y])] && Placeable(items)
    ensures top == RootsOf(before, out, map[], items) && x in top && y in top
    ensures out + [y] !in before && top[x] == out + [y] != top[y]
  {
    y := Candidate(x, 1);
    CandidateSafe(x, 1);
    var first;
    items, first := RootsOfTwo(before, out, x, y);
    FirstNumbered(before, out, x);
    assert (out + [x])[|out|] == x && (out + [y])[|out|] == y;
    assert first[x] in first.Values;
    OwnNameExactly(before, out, first, y);
    top := WithName(before, out, first, y);
  }
}
