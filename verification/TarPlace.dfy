/** Writing a parsed archive below a directory, and what that can and cannot touch. */
module TarPlace {
  import opened Bytes
  import opened FileTree
  import opened TarParse

  /** The tree, the root each top-level name was given, and the roots in the order they were made. */
  datatype State = State(tree: Tree, top: map<Name, Path>, created: seq<Path>)

  datatype Placed = Placed(state: State, ok: bool)

  /** The root for a top-level name: the one it has, or a fresh one. */
  function WithRoot(out: Path, st: State, name: Name): (r: State)
    ensures name in r.top && r.tree == st.tree
    ensures forall a :: a in st.top ==> a in r.top && r.top[a] == st.top[a]
  {
    if name in st.top then st
    else
      var root := out + [UniqueName(st.tree, out, name)];
      State(st.tree, st.top[name := root], st.created + [root])
  }

  function Dest(top: map<Name, Path>, parts: seq<Name>): Path
    requires parts != [] && parts[0] in top
  {
    top[parts[0]] + parts[1..]
  }

  /** A file whose data was cut short is removed again. */
  function PlaceFile(st: State, dest: Path, data: seq<byte>, whole: bool): Placed {
    var parent := if dest == [] then [] else dest[..|dest| - 1];
    if Blocked(st.tree, parent) then Placed(st, false)
    else
      var t := WithDirs(st.tree, parent);
      if dest in t && t[dest].Dir? then Placed(st.(tree := t), false)
      else if whole then Placed(st.(tree := t[dest := File(data)]), true)
      else Placed(st.(tree := t[dest := File(data)] - {dest}), false)
  }

  function PlaceItem(out: Path, st: State, item: Item): Placed
    requires item.parts != []
  {
    var st1 := WithRoot(out, st, item.parts[0]);
    var dest := Dest(st1.top, item.parts);
    match item
    case MakeDir(_) =>
      if Blocked(st1.tree, dest) then Placed(st1, false)
      else Placed(st1.(tree := WithDirs(st1.tree, dest)), true)
    case PutFile(_, data, whole) =>
      PlaceFile(st1, dest, data, whole)
  }

  /** Items are placed in order; the first failure ends the run. */
  function PlaceAll(out: Path, st: State, items: seq<Item>): Placed
    requires Placeable(items)
    decreases |items|
  {
    if items == [] then Placed(st, true)
    else
      var first := PlaceItem(out, st, items[0]);
      if first.ok then PlaceAll(out, first.state, items[1..]) else first
  }

  // ---------- what every archive, malformed or not, keeps ----------

  /** `p` lies strictly below `out`, reached through components that cannot climb back. */
  ghost predicate Below(out: Path, p: Path) {
    out < p && forall i :: |out| <= i < |p| ==> Safe(p[i])
  }

  /** Nothing that was there is changed or gone, and everything new lies below `out`. */
  ghost predicate TreeConfined(before: Tree, out: Path, t: Tree) {
    && (forall p :: p in before ==> p in t && t[p] == before[p])
    && (forall p :: p in t && p !in before ==> Below(out, p))
  }

  ghost predicate FreshRoot(before: Tree, out: Path, root: Path) {
    |root| == |out| + 1 && root[..|out|] == out && Safe(root[|out|]) && root !in before
  }

  /** Each top-level name has its own root, directly in the output directory and absent at the
      start, and the roots reported are exactly those, each once. */
  ghost predicate RootsConfined(before: Tree, out: Path, st: State) {
    && (forall a :: a in st.top ==> FreshRoot(before, out, st.top[a]))
    && (forall a, b :: a in st.top && b in st.top && st.top[a] == st.top[b] ==> a == b)
    && (forall a :: a in st.top ==> st.top[a] in st.created)
    && (forall r :: r in st.created ==> r in st.top.Values)
    && (forall i, j :: 0 <= i < j < |st.created| ==> st.created[i] != st.created[j])
  }

  /** The state of a run that started on `before`. */
  ghost predicate Confined(before: Tree, out: Path, st: State) {
    TreeConfined(before, out, st.tree) && RootsConfined(before, out, st)
  }

  /** Between two entries, every root handed out exists. */
  ghost predicate RootsExist(st: State) {
    forall a :: a in st.top ==> st.top[a] in st.tree
  }

  lemma UniqueNameSafe(t: Tree, dir: Path, name: Name)
    requires Safe(name)
    ensures Safe(UniqueName(t, dir, name))
  {
    var r := UniqueName(t, dir, name);
    if r != name {
      var n :| 1 <= n && r == Candidate(name, n);
      CandidateSafe(name, n);
    }
  }

  lemma WithRootConfined(before: Tree, out: Path, st: State, name: Name)
    requires Confined(before, out, st) && RootsExist(st) && Safe(name)
    ensures Confined(before, out, WithRoot(out, st, name))
    ensures forall a :: a in WithRoot(out, st, name).top && a != name ==> WithRoot(out, st, name).top[a] in st.tree
  {
    if name !in st.top {
      var unique := UniqueName(st.tree, out, name);
      UniqueNameSafe(st.tree, out, name);
      var root := out + [unique];
      assert FreshRoot(before, out, root);
      var r := WithRoot(out, st, name);
      assert r.top == st.top[name := root] && r.created == st.created + [root];
      assert root !in st.created;
      forall q | q in r.created ensures q in r.top.Values {
        if q == root {
          assert r.top[name] == q;
        } else {
          assert q in st.top.Values;
          var a :| a in st.top && st.top[a] == q;
          assert r.top[a] == q;
        }
      }
    }
  }

  /** Everything on the way to a destination either was there before or lies below `out`; what is
      longer than `out` goes through the fresh root, so it was not there. */
  lemma DestBelow(before: Tree, out: Path, root: Path, tail: Path, k: nat)
    requires Closed(before) && out in before && FreshRoot(before, out, root)
    requires forall i :: 0 <= i < |tail| ==> Safe(tail[i])
    requires k <= |root + tail|
    ensures k <= |out| ==> (root + tail)[..k] in before
    ensures k > |out| ==> (root + tail)[..k] !in before && Below(out, (root + tail)[..k])
  {
    var q := (root + tail)[..k];
    if k <= |out| {
      assert q == out[..k];
      ClosedPrefix(before, out, k);
    } else {
      assert q[..|root|] == root;
      if q in before {
        ClosedPrefix(before, q, |root|);
      }
      assert q[..|out|] == out;
      forall i | |out| <= i < |q| ensures Safe(q[i]) {
        if i == |out| {
          assert q[i] == root[i];
        } else {
          assert q[i] == tail[i - |root|];
        }
      }
    }
  }

  lemma PrefixesBelow(before: Tree, out: Path, root: Path, tail: Path)
    requires Closed(before) && out in before && FreshRoot(before, out, root)
    requires forall i :: 0 <= i < |tail| ==> Safe(tail[i])
    ensures forall q :: q <= root + tail ==> q in before || Below(out, q)
    ensures root + tail !in before
  {
    forall q | q <= root + tail ensures q in before || Below(out, q) {
      DestBelow(before, out, root, tail, |q|);
      assert q == (root + tail)[..|q|];
    }
    DestBelow(before, out, root, tail, |root + tail|);
    assert (root + tail)[..|root + tail|] == root + tail;
  }

  lemma WithDirsConfined(before: Tree, out: Path, t: Tree, p: Path)
    requires TreeConfined(before, out, t)
    requires forall q :: q <= p ==> q in before || Below(out, q)
    ensures TreeConfined(before, out, WithDirs(t, p))
  {
  }

  lemma PlaceFileConfined(before: Tree, out: Path, st: State, dest: Path, data: seq<byte>, whole: bool)
    requires TreeConfined(before, out, st.tree) && dest != []
    requires dest !in before && forall q :: q <= dest ==> q in before || Below(out, q)
    ensures TreeConfined(before, out, PlaceFile(st, dest, data, whole).state.tree)
  {
    var parent := dest[..|dest| - 1];
    forall q | q <= parent ensures q in before || Below(out, q) {
      assert q <= dest;
    }
    WithDirsConfined(before, out, st.tree, parent);
    var t := WithDirs(st.tree, parent);
    assert Below(out, dest);
    assert TreeConfined(before, out, t[dest := File(data)]);
  }

  lemma ParentPrefix(q: Path, dest: Path)
    requires dest != []
    ensures q <= dest <==> q == dest || q <= dest[..|dest| - 1]
  {
    if q <= dest && |q| == |dest| {
      assert q == dest;
    }
  }

  lemma PlaceFileKeeps(st: State, dest: Path, data: seq<byte>, whole: bool)
    requires dest != []
    ensures var r := PlaceFile(st, dest, data, whole);
            r.state.top == st.top && r.state.created == st.created
            && (r.ok ==> whole && (forall p :: p in st.tree ==> p in r.state.tree)
                         && forall q :: q <= dest ==> q in r.state.tree)
  {
    var r := PlaceFile(st, dest, data, whole);
    if r.ok {
      forall q | q <= dest ensures q in r.state.tree {
        ParentPrefix(q, dest);
      }
    }
  }

  lemma PlaceItemConfined(before: Tree, out: Path, st: State, item: Item)
    requires Closed(before) && out in before
    requires Confined(before, out, st) && RootsExist(st) && SafeParts(item.parts)
    ensures var r := PlaceItem(out, st, item);
            Confined(before, out, r.state) && (r.ok ==> RootsExist(r.state))
  {
    var name := item.parts[0];
    WithRootConfined(before, out, st, name);
    var st1 := WithRoot(out, st, name);
    var root := st1.top[name];
    PrefixesBelow(before, out, root, item.parts[1..]);
    var dest := root + item.parts[1..];
    assert root <= dest;
    match item
    case MakeDir(_) =>
      WithDirsConfined(before, out, st1.tree, dest);
    case PutFile(_, data, whole) =>
      PlaceFileConfined(before, out, st1, dest, data, whole);
      PlaceFileKeeps(st1, dest, data, whole);
  }

  /** Safety for every archive: whatever the items are, and whether or not the run succeeds. */
  lemma {:induction false} PlaceAllConfined(before: Tree, out: Path, st: State, items: seq<Item>)
    requires Closed(before) && out in before
    requires Confined(before, out, st) && RootsExist(st) && Placeable(items)
    ensures Confined(before, out, PlaceAll(out, st, items).state)
    ensures PlaceAll(out, st, items).ok ==> RootsExist(PlaceAll(out, st, items).state)
    decreases |items|
  {
    if items != [] {
      PlaceItemConfined(before, out, st, items[0]);
      var first := PlaceItem(out, st, items[0]);
      if first.ok {
        assert Placeable(items[1..]);
        PlaceAllConfined(before, out, first.state, items[1..]);
      }
    }
  }

  // ---------- what is in the files ----------

  /** A file below its root as this item says, with all of its data. */
  ghost predicate Delivers(out: Path, item: Item, p: Path, data: seq<byte>) {
    && item.PutFile? && item.whole && item.data == data && item.parts != []
    && |p| == |out| + |item.parts| && out <= p && p[|out| + 1..] == item.parts[1..]
  }

  ghost predicate DeliveredBy(out: Path, items: seq<Item>, p: Path, data: seq<byte>) {
    exists i :: 0 <= i < |items| && Delivers(out, items[i], p, data)
  }

  ghost predicate AllDelivered(before: Tree, out: Path, t: Tree, items: seq<Item>) {
    forall p :: p in t && p !in before && t[p].File? ==> DeliveredBy(out, items, p, t[p].data)
  }

  lemma OneMoreDelivered(before: Tree, out: Path, t: Tree, items: seq<Item>, item: Item) returns (more: seq<Item>)
    requires AllDelivered(before, out, t, items)
    ensures more == items + [item] && AllDelivered(before, out, t, more)
    ensures forall p, data :: Delivers(out, item, p, data) ==> DeliveredBy(out, more, p, data)
  {
    more := items + [item];
    assert more[|items|] == item;
    forall p | p in t && p !in before && t[p].File?
      ensures DeliveredBy(out, more, p, t[p].data)
    {
      var i :| 0 <= i < |items| && Delivers(out, items[i], p, t[p].data);
      assert more[i] == items[i];
    }
  }

  lemma PlaceItemDelivers(before: Tree, out: Path, st: State, items: seq<Item>, item: Item) returns (more: seq<Item>)
    requires RootsConfined(before, out, st) && SafeParts(item.parts) && AllDelivered(before, out, st.tree, items)
    ensures more == items + [item] && AllDelivered(before, out, PlaceItem(out, st, item).state.tree, more)
  {
    more := OneMoreDelivered(before, out, st.tree, items, item);
    var st1 := WithRoot(out, st, item.parts[0]);
    var dest := Dest(st1.top, item.parts);
    if item.PutFile? && item.whole {
      assert dest[|out| + 1..] == item.parts[1..];
      assert Delivers(out, item, dest, item.data);
    }
  }

  lemma LaterDelivered(before: Tree, out: Path, t: Tree, items: seq<Item>, rest: seq<Item>)
    requires AllDelivered(before, out, t, items)
    ensures AllDelivered(before, out, t, items + rest)
  {
    forall p | p in t && p !in before && t[p].File?
      ensures DeliveredBy(out, items + rest, p, t[p].data)
    {
      var i :| 0 <= i < |items| && Delivers(out, items[i], p, t[p].data);
      assert (items + rest)[i] == items[i];
    }
  }

  lemma FirstOfAll(out: Path, st: State, done: seq<Item>, items: seq<Item>)
    returns (first: Placed, rest: seq<Item>, all: seq<Item>)
    requires items != [] && Placeable(items)
    ensures first == PlaceItem(out, st, items[0]) && rest == items[1..] && Placeable(rest)
    ensures all == done + items == (done + [items[0]]) + rest
    ensures PlaceAll(out, st, items) == if first.ok then PlaceAll(out, first.state, rest) else first
  {
    first, rest, all := PlaceItem(out, st, items[0]), items[1..], done + items;
  }

  /** No file is ever left with less than its data, wherever the run stops. */
  lemma {:induction false} PlaceAllDelivers(before: Tree, out: Path, st: State, done: seq<Item>, items: seq<Item>)
    returns (t: Tree, all: seq<Item>)
    requires Closed(before) && out in before
    requires Confined(before, out, st) && RootsExist(st) && Placeable(items)
    requires AllDelivered(before, out, st.tree, done)
    ensures t == PlaceAll(out, st, items).state.tree && all == done + items
    ensures AllDelivered(before, out, t, all)
    decreases |items|
  {
    if items == [] {
      t, all := st.tree, done;
    } else {
      var first, rest;
      first, rest, all := FirstOfAll(out, st, done, items);
      PlaceItemConfined(before, out, st, items[0]);
      var more := PlaceItemDelivers(before, out, st, done, items[0]);
      if first.ok {
        t, all := PlaceAllDelivers(before, out, first.state, more, rest);
      } else {
        t := first.state.tree;
        LaterDelivered(before, out, t, more, rest);
      }
    }
  }
}
