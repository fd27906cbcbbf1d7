/** What a successful extraction leaves behind, entry by entry, and exactly when it succeeds. */
module TarLayout {
  import opened Bytes
  import opened FileTree
  import opened TarParse
  import opened TarPlace

  // ---------- the tree after a successful run ----------

  ghost predicate HeadsIn(top: map<Name, Path>, items: seq<Item>)
    requires Placeable(items)
  {
    forall i :: 0 <= i < |items| ==> items[i].parts[0] in top
  }

  /** The data of the last file item that goes to `p`. */
  ghost function LastData(top: map<Name, Path>, items: seq<Item>, p: Path): Option<seq<byte>>
    requires Placeable(items) && HeadsIn(top, items)
    decreases |items|
  {
    if items == [] then None
    else
      var later := LastData(top, items[1..], p);
      if later.Some? then later
      else if items[0].PutFile? && Dest(top, items[0].parts) == p then Some(items[0].data)
      else None
  }

  ghost predicate OnTheWay(top: map<Name, Path>, items: seq<Item>, p: Path)
    requires Placeable(items) && HeadsIn(top, items)
  {
    exists i :: 0 <= i < |items| && p <= Dest(top, items[i].parts)
  }

  /** The new tree is the old one with exactly the entries added: the last data sent for each file,
      a directory for each directory entry and on the way to every entry, and nothing else. */
  ghost predicate Layout(t: Tree, top: map<Name, Path>, items: seq<Item>, r: Tree)
    requires Placeable(items) && HeadsIn(top, items)
  {
    && (forall p :: p in r <==> p in t || OnTheWay(top, items, p))
    && (forall p :: p in r ==>
          r[p] == match LastData(top, items, p)
                  case Some(data) => File(data)
                  case None => if p in t then t[p] else Dir)
  }

  /** `mid` is `t` with one item placed at `dest`. */
  ghost predicate OneMore(t: Tree, item: Item, dest: Path, mid: Tree) {
    && (forall p :: p in mid <==> p in t || p <= dest)
    && (forall p :: p in mid ==>
          mid[p] == if item.PutFile? && p == dest then File(item.data) else if p in t then t[p] else Dir)
  }

  /** One item's share of the layout. */
  lemma PlaceItemLayout(out: Path, st: State, item: Item)
    requires SafeParts(item.parts) && PlaceItem(out, st, item).ok
    ensures var r := PlaceItem(out, st, item).state;
            && item.parts[0] in r.top
            && (forall a :: a in st.top ==> a in r.top && r.top[a] == st.top[a])
            && OneMore(st.tree, item, Dest(r.top, item.parts), r.tree)
  {
    var r := PlaceItem(out, st, item).state;
    var dest := Dest(r.top, item.parts);
    if item.PutFile? && dest != [] {
      forall p ensures p in r.tree <==> p in st.tree || p <= dest {
        ParentPrefix(p, dest);
      }
    }
  }

  lemma LastDataExtends(top: map<Name, Path>, top': map<Name, Path>, items: seq<Item>, p: Path)
    requires Placeable(items) && HeadsIn(top, items)
    requires forall a :: a in top ==> a in top' && top'[a] == top[a]
    ensures HeadsIn(top', items) && LastData(top', items, p) == LastData(top, items, p)
    decreases |items|
  {
    if items != [] {
      LastDataExtends(top, top', items[1..], p);
    }
  }

  lemma OnTheWayCons(top: map<Name, Path>, items: seq<Item>, p: Path)
    requires items != [] && Placeable(items) && HeadsIn(top, items)
    ensures Placeable(items[1..]) && HeadsIn(top, items[1..])
    ensures OnTheWay(top, items, p) <==> p <= Dest(top, items[0].parts) || OnTheWay(top, items[1..], p)
  {
    if OnTheWay(top, items, p) && !(p <= Dest(top, items[0].parts)) {
      var i :| 0 <= i < |items| && p <= Dest(top, items[i].parts);
      assert items[1..][i - 1] == items[i];
    }
    if OnTheWay(top, items[1..], p) {
      var i :| 0 <= i < |items[1..]| && p <= Dest(top, items[1..][i].parts);
      assert items[i + 1] == items[1..][i];
    }
  }

  lemma LayoutCons(t: Tree, mid: Tree, top: map<Name, Path>, items: seq<Item>, r: Tree)
    requires items != [] && Placeable(items) && HeadsIn(top, items)
    requires OneMore(t, items[0], Dest(top, items[0].parts), mid) && Layout(mid, top, items[1..], r)
    ensures Layout(t, top, items, r)
  {
    forall p
      ensures OnTheWay(top, items, p) <==> p <= Dest(top, items[0].parts) || OnTheWay(top, items[1..], p)
    {
      OnTheWayCons(top, items, p);
    }
  }

  lemma {:induction false} PlaceAllLayout(out: Path, st: State, items: seq<Item>)
    requires Placeable(items) && PlaceAll(out, st, items).ok
    ensures var r := PlaceAll(out, st, items).state;
            && (forall a :: a in st.top ==> a in r.top && r.top[a] == st.top[a])
            && HeadsIn(r.top, items) && Layout(st.tree, r.top, items, r.tree)
    decreases |items|
  {
    if items != [] {
      var item, rest := items[0], items[1..];
      PlaceItemLayout(out, st, item);
      var mid := PlaceItem(out, st, item).state;
      assert Placeable(rest);
      PlaceAllLayout(out, mid, rest);
      var r := PlaceAll(out, mid, rest).state;
      assert HeadsIn(r.top, items);
      LayoutCons(st.tree, mid.tree, r.top, items, r.tree);
    }
  }

  /** Some file item goes to `p`. */
  ghost predicate PutAt(top: map<Name, Path>, items: seq<Item>, p: Path)
    requires Placeable(items) && HeadsIn(top, items)
  {
    exists i :: 0 <= i < |items| && items[i].PutFile? && Dest(top, items[i].parts) == p
  }

  lemma PutAtCons(top: map<Name, Path>, items: seq<Item>, p: Path)
    requires items != [] && Placeable(items) && HeadsIn(top, items)
    ensures Placeable(items[1..]) && HeadsIn(top, items[1..])
    ensures PutAt(top, items, p)
       <==> (items[0].PutFile? && Dest(top, items[0].parts) == p) || PutAt(top, items[1..], p)
  {
    if PutAt(top, items, p) {
      var i :| 0 <= i < |items| && items[i].PutFile? && Dest(top, items[i].parts) == p;
      assert i > 0 ==> items[1..][i - 1] == items[i];
    }
    if PutAt(top, items[1..], p) {
      var i :| 0 <= i < |items[1..]| && items[1..][i].PutFile? && Dest(top, items[1..][i].parts) == p;
      assert items[i + 1] == items[1..][i];
    }
  }

  /** There is data for `p` exactly when some file item goes there. */
  lemma {:induction false} LastDataExists(top: map<Name, Path>, items: seq<Item>, p: Path)
    requires Placeable(items) && HeadsIn(top, items)
    ensures LastData(top, items, p).Some? <==> PutAt(top, items, p)
    decreases |items|
  {
    if items != [] {
      PutAtCons(top, items, p);
      LastDataExists(top, items[1..], p);
    }
  }

  // ---------- exactly when a run succeeds ----------

  /** `a` wants a file where `b` needs a directory. */
  ghost predicate Clash(a: Item, b: Item) {
    a.PutFile? && a.parts <= b.parts && (a.parts != b.parts || b.MakeDir?)
  }

  ghost predicate Complete(item: Item) {
    item.PutFile? ==> item.whole
  }

  /** No path is both a file and a directory, and no file is cut short. */
  ghost predicate Consistent(items: seq<Item>) {
    && (forall i :: 0 <= i < |items| ==> Complete(items[i]))
    && (forall i, j :: 0 <= i < |items| && 0 <= j < |items| ==> !Clash(items[i], items[j]))
  }

  lemma HeadTailPrefix<T>(a: seq<T>, b: seq<T>)
    requires a != [] && b != []
    ensures a <= b <==> a[0] == b[0] && a[1..] <= b[1..]
  {
    if a[0] == b[0] && a[1..] <= b[1..] {
      forall i | 0 <= i < |a| ensures a[i] == b[i] {
        assert i > 0 ==> a[i] == a[1..][i - 1] == b[1..][i - 1];
      }
    }
  }

  lemma JoinedPrefix<T>(r: seq<T>, a: seq<T>, s: seq<T>, b: seq<T>)
    requires |r| == |s|
    ensures r + a <= s + b ==> r == s && a <= b
  {
    if r + a <= s + b {
      assert r == (r + a)[..|r|] == (s + b)[..|r|] == s;
      assert a == (r + a)[|r|..] && b == (s + b)[|r|..];
    }
  }

  lemma PrefixBehind<T>(r: seq<T>, a: seq<T>, b: seq<T>)
    requires a <= b
    ensures r + a <= r + b
  {
  }

  /** Roots have one length and are distinct, so destinations nest exactly as names do. */
  lemma DestNestsIn(before: Tree, out: Path, st: State, a: seq<Name>, b: seq<Name>)
    requires RootsConfined(before, out, st)
    requires a != [] && b != [] && a[0] in st.top && b[0] in st.top
    ensures Dest(st.top, a) <= Dest(st.top, b) <==> a <= b
  {
    HeadTailPrefix(a, b);
    JoinedPrefix(st.top[a[0]], a[1..], st.top[b[0]], b[1..]);
    if a <= b {
      PrefixBehind(st.top[a[0]], a[1..], b[1..]);
    }
  }

  lemma DestNests(before: Tree, out: Path, st: State, a: seq<Name>, b: seq<Name>)
    requires RootsConfined(before, out, st)
    requires a != [] && b != [] && a[0] in st.top && b[0] in st.top
    ensures Dest(st.top, a) <= Dest(st.top, b) <==> a <= b
    ensures Dest(st.top, a) == Dest(st.top, b) <==> a == b
  {
    DestNestsIn(before, out, st, a, b);
    DestNestsIn(before, out, st, b, a);
  }

  /** `st` was reached from `before` by placing `done`. */
  ghost predicate Reached(before: Tree, out: Path, done: seq<Item>, st: State) {
    Placeable(done) && PlaceAll(out, State(before, map[], []), done) == Placed(st, true)
  }

  ghost predicate Ready(before: Tree, out: Path) {
    Closed(before) && out in before && before[out].Dir?
  }

  lemma StartConfined(before: Tree, out: Path)
    requires Ready(before, out)
    ensures Confined(before, out, State(before, map[], [])) && RootsExist(State(before, map[], []))
  {
  }

  lemma ReachedFacts(before: Tree, out: Path, done: seq<Item>, st: State)
    requires Ready(before, out) && Reached(before, out, done, st)
    ensures Confined(before, out, st) && RootsExist(st)
    ensures HeadsIn(st.top, done) && Layout(before, st.top, done, st.tree)
  {
    var start := State(before, map[], []);
    StartConfined(before, out);
    PlaceAllConfined(before, out, start, done);
    PlaceAllLayout(out, start, done);
  }

  /** Handing out one more root moves no earlier destination. */
  lemma LayoutExtends(t: Tree, top: map<Name, Path>, top': map<Name, Path>, items: seq<Item>, r: Tree)
    requires Placeable(items) && HeadsIn(top, items) && Layout(t, top, items, r)
    requires forall a :: a in top ==> a in top' && top'[a] == top[a]
    ensures HeadsIn(top', items) && Layout(t, top', items, r)
  {
    assert forall i :: 0 <= i < |items| ==> Dest(top', items[i].parts) == Dest(top, items[i].parts);
    forall p
      ensures LastData(top', items, p) == LastData(top, items, p)
      ensures OnTheWay(top', items, p) <==> OnTheWay(top, items, p)
    {
      LastDataExtends(top, top', items, p);
    }
  }

  /** The facts about the state before one more item, with that item's root already chosen. */
  lemma Known(before: Tree, out: Path, done: seq<Item>, st: State, st1: State, name: Name)
    requires Ready(before, out) && Reached(before, out, done, st) && Safe(name)
    requires st1 == WithRoot(out, st, name)
    ensures RootsConfined(before, out, st1) && HeadsIn(st1.top, done) && Layout(before, st1.top, done, st.tree)
  {
    ReachedFacts(before, out, done, st);
    WithRootConfined(before, out, st, name);
    LayoutExtends(before, st.top, st1.top, done, st.tree);
  }

  lemma PutIsOnTheWay(top: map<Name, Path>, items: seq<Item>, p: Path)
    requires Placeable(items) && HeadsIn(top, items)
    ensures PutAt(top, items, p) ==> OnTheWay(top, items, p)
  {
  }

  /** The output directory and everything above it are directories. */
  lemma OutIsDir(before: Tree, out: Path, root: Path, tail: Path, k: nat)
    requires Ready(before, out) && FreshRoot(before, out, root) && k <= |out|
    ensures (root + tail)[..k] in before && before[(root + tail)[..k]].Dir?
  {
    assert (root + tail)[..k] == out[..k];
    assert out[..|out|] == out;
    ClosedPrefix(before, out, k);
  }

  /** A file stands on the way to the next destination just where an earlier file item went. */
  lemma FileOnTheWay(before: Tree, out: Path, done: seq<Item>, t: Tree, st1: State, parts: seq<Name>, q: Path)
    requires Ready(before, out) && Placeable(done) && HeadsIn(st1.top, done) && Layout(before, st1.top, done, t)
    requires RootsConfined(before, out, st1) && SafeParts(parts) && parts[0] in st1.top
    requires q <= Dest(st1.top, parts)
    ensures q in t && t[q].File? <==> PutAt(st1.top, done, q)
  {
    var root := st1.top[parts[0]];
    DestBelow(before, out, root, parts[1..], |q|);
    assert q == (root + parts[1..])[..|q|];
    LastDataExists(st1.top, done, q);
    if |q| <= |out| {
      OutIsDir(before, out, root, parts[1..], |q|);
      forall i | 0 <= i < |done| ensures Dest(st1.top, done[i].parts) != q {
        assert |Dest(st1.top, done[i].parts)| > |out|;
      }
    } else {
      assert q !in before;
      PutIsOnTheWay(st1.top, done, q);
    }
  }

  /** Some file item goes to `goal` or to a place on the way to it. */
  ghost predicate PutOnWay(top: map<Name, Path>, items: seq<Item>, goal: Path)
    requires Placeable(items) && HeadsIn(top, items)
  {
    exists i :: 0 <= i < |items| && items[i].PutFile? && Dest(top, items[i].parts) <= goal
  }

  lemma PutOnWayIsPutAt(top: map<Name, Path>, items: seq<Item>, goal: Path)
    requires Placeable(items) && HeadsIn(top, items)
    ensures PutOnWay(top, items, goal) <==> exists k :: 0 <= k <= |goal| && PutAt(top, items, goal[..k])
  {
    if PutOnWay(top, items, goal) {
      var i :| 0 <= i < |items| && items[i].PutFile? && Dest(top, items[i].parts) <= goal;
      var k := |Dest(top, items[i].parts)|;
      assert goal[..k] == Dest(top, items[i].parts);
      assert PutAt(top, items, goal[..k]);
    }
    if k :| 0 <= k <= |goal| && PutAt(top, items, goal[..k]) {
      var i :| 0 <= i < |items| && items[i].PutFile? && Dest(top, items[i].parts) == goal[..k];
      assert Dest(top, items[i].parts) <= goal;
    }
  }

  /** The way to `goal` is blocked exactly when an earlier file item went to a place on it. */
  lemma BlockedByFile(before: Tree, out: Path, done: seq<Item>, t: Tree, st1: State, parts: seq<Name>, goal: Path)
    requires Ready(before, out) && Placeable(done) && HeadsIn(st1.top, done) && Layout(before, st1.top, done, t)
    requires RootsConfined(before, out, st1) && SafeParts(parts) && parts[0] in st1.top
    requires goal <= Dest(st1.top, parts)
    ensures Blocked(t, goal) <==> PutOnWay(st1.top, done, goal)
  {
    PutOnWayIsPutAt(st1.top, done, goal);
    forall k | 0 <= k <= |goal|
      ensures goal[..k] in t && t[goal[..k]].File? <==> PutAt(st1.top, done, goal[..k])
    {
      assert goal[..k] <= Dest(st1.top, parts);
      FileOnTheWay(before, out, done, t, st1, parts, goal[..k]);
    }
  }

  /** Destinations of earlier items lie to the next one as their names do. */
  ghost predicate Nests(top: map<Name, Path>, done: seq<Item>, parts: seq<Name>)
    requires Placeable(done) && HeadsIn(top, done) && parts != [] && parts[0] in top
  {
    var dest := Dest(top, parts);
    && (forall i :: 0 <= i < |done| ==> (Dest(top, done[i].parts) <= dest <==> done[i].parts <= parts))
    && (forall i :: 0 <= i < |done| ==> (dest <= Dest(top, done[i].parts) <==> parts <= done[i].parts))
    && (forall i :: 0 <= i < |done| ==> (Dest(top, done[i].parts) == dest <==> done[i].parts == parts))
  }

  lemma Nesting(before: Tree, out: Path, st1: State, done: seq<Item>, parts: seq<Name>)
    requires RootsConfined(before, out, st1) && Placeable(done) && HeadsIn(st1.top, done)
    requires parts != [] && parts[0] in st1.top
    ensures Nests(st1.top, done, parts) && |Dest(st1.top, parts)| > |out|
  {
    forall i | 0 <= i < |done|
      ensures Dest(st1.top, done[i].parts) <= Dest(st1.top, parts) <==> done[i].parts <= parts
      ensures Dest(st1.top, parts) <= Dest(st1.top, done[i].parts) <==> parts <= done[i].parts
      ensures Dest(st1.top, done[i].parts) == Dest(st1.top, parts) <==> done[i].parts == parts
    {
      DestNests(before, out, st1, done[i].parts, parts);
      DestNests(before, out, st1, parts, done[i].parts);
    }
  }

  /** An earlier item stands in the way of `x`. */
  ghost predicate InItsWay(done: seq<Item>, x: Item) {
    exists i :: 0 <= i < |done| && Clash(done[i], x)
  }

  /** `x` stands in the way of an earlier item. */
  ghost predicate InTheirWay(done: seq<Item>, x: Item) {
    exists i :: 0 <= i < |done| && Clash(x, done[i])
  }

  ghost predicate ClashesWith(done: seq<Item>, x: Item) {
    InItsWay(done, x) || InTheirWay(done, x)
  }

  /** For a directory item, a clash is an earlier file at its destination or on the way there. */
  lemma DirClash(top: map<Name, Path>, done: seq<Item>, x: Item)
    requires Placeable(done) && HeadsIn(top, done) && x.MakeDir? && x.parts != [] && x.parts[0] in top
    requires Nests(top, done, x.parts)
    ensures PutOnWay(top, done, Dest(top, x.parts)) <==> ClashesWith(done, x)
  {
    forall i | 0 <= i < |done|
      ensures Clash(done[i], x) || Clash(x, done[i])
         <==> done[i].PutFile? && Dest(top, done[i].parts) <= Dest(top, x.parts)
    {
    }
  }

  lemma DirSucceeds(before: Tree, out: Path, done: seq<Item>, st: State, x: Item)
    requires Ready(before, out) && Reached(before, out, done, st) && SafeParts(x.parts) && x.MakeDir?
    ensures PlaceItem(out, st, x).ok <==> !ClashesWith(done, x)
  {
    var st1 := WithRoot(out, st, x.parts[0]);
    var dest := Dest(st1.top, x.parts);
    Known(before, out, done, st, st1, x.parts[0]);
    Nesting(before, out, st1, done, x.parts);
    BlockedByFile(before, out, done, st.tree, st1, x.parts, dest);
    DirClash(st1.top, done, x);
  }

  /** For a file item, what clashes is an earlier file strictly on the way to it, or an earlier item
      that needs a directory where it goes. */
  lemma FileClash(top: map<Name, Path>, done: seq<Item>, x: Item)
    requires Placeable(done) && HeadsIn(top, done) && x.PutFile? && x.parts != [] && x.parts[0] in top
    requires Dest(top, x.parts) != []
    requires Nests(top, done, x.parts)
    ensures var dest := Dest(top, x.parts);
            PutOnWay(top, done, dest[..|dest| - 1]) <==> InItsWay(done, x)
  {
    var dest := Dest(top, x.parts);
    forall i | 0 <= i < |done|
      ensures Clash(done[i], x) <==> done[i].PutFile? && Dest(top, done[i].parts) <= dest[..|dest| - 1]
    {
      ParentPrefix(Dest(top, done[i].parts), dest);
      assert !(dest <= dest[..|dest| - 1]);
    }
  }

  /** In a consistent run an item needs a directory at `dest` or below it just when it is on a way
      through `dest` and no file went there. */
  lemma WayWithoutFile(top: map<Name, Path>, done: seq<Item>, x: Item)
    requires Placeable(done) && HeadsIn(top, done) && x.PutFile? && x.parts != [] && x.parts[0] in top
    requires Consistent(done)
    requires Nests(top, done, x.parts)
    ensures var dest := Dest(top, x.parts);
            OnTheWay(top, done, dest) && !PutAt(top, done, dest) <==> InTheirWay(done, x)
  {
    var dest := Dest(top, x.parts);
    if OnTheWay(top, done, dest) && !PutAt(top, done, dest) {
      var i :| 0 <= i < |done| && dest <= Dest(top, done[i].parts);
      assert Clash(x, done[i]);
    }
    if i :| 0 <= i < |done| && Clash(x, done[i]) {
      assert dest <= Dest(top, done[i].parts);
      forall j | 0 <= j < |done|
        ensures !(done[j].PutFile? && Dest(top, done[j].parts) == dest)
      {
        assert !Clash(done[j], done[i]);
      }
    }
  }

  /** A directory stands where a file is to go just when an earlier item needed one there. */
  lemma DirInTheWay(before: Tree, out: Path, done: seq<Item>, t: Tree, st1: State, x: Item)
    requires Ready(before, out) && Placeable(done) && HeadsIn(st1.top, done) && Layout(before, st1.top, done, t)
    requires RootsConfined(before, out, st1) && Consistent(done)
    requires SafeParts(x.parts) && x.PutFile? && x.parts[0] in st1.top
    ensures var dest := Dest(st1.top, x.parts);
            dest in t && t[dest].Dir? <==> InTheirWay(done, x)
  {
    var dest := Dest(st1.top, x.parts);
    Nesting(before, out, st1, done, x.parts);
    WayWithoutFile(st1.top, done, x);
    FileOnTheWay(before, out, done, t, st1, x.parts, dest);
    DestBelow(before, out, st1.top[x.parts[0]], x.parts[1..], |dest|);
    assert dest == dest[..|dest|] && dest !in before;
  }

  /** When placing one file item works, in terms of the tree before it. */
  lemma FileStep(out: Path, st: State, x: Item, st1: State, dest: Path)
    requires SafeParts(x.parts) && x.PutFile? && st1 == WithRoot(out, st, x.parts[0])
    requires dest == Dest(st1.top, x.parts) && dest != []
    ensures PlaceItem(out, st, x).ok
       <==> !Blocked(st.tree, dest[..|dest| - 1]) && !(dest in st.tree && st.tree[dest].Dir?) && x.whole
  {
    assert !(dest <= dest[..|dest| - 1]);
  }

  lemma FileBlocked(before: Tree, out: Path, done: seq<Item>, t: Tree, st1: State, x: Item, parent: Path)
    requires Ready(before, out) && Placeable(done) && HeadsIn(st1.top, done) && Layout(before, st1.top, done, t)
    requires RootsConfined(before, out, st1) && SafeParts(x.parts) && x.PutFile? && x.parts[0] in st1.top
    requires Dest(st1.top, x.parts) != [] && parent == Dest(st1.top, x.parts)[..|Dest(st1.top, x.parts)| - 1]
    ensures Blocked(t, parent) <==> InItsWay(done, x)
  {
    Nesting(before, out, st1, done, x.parts);
    FileClash(st1.top, done, x);
    BlockedByFile(before, out, done, t, st1, x.parts, parent);
  }

  /** What stands in the way of a file: a file above it or a directory at it, from some earlier item. */
  lemma FileReasons(before: Tree, out: Path, done: seq<Item>, t: Tree, st1: State, x: Item, dest: Path)
    requires Ready(before, out) && Placeable(done) && HeadsIn(st1.top, done) && Layout(before, st1.top, done, t)
    requires RootsConfined(before, out, st1) && Consistent(done)
    requires SafeParts(x.parts) && x.PutFile? && x.parts[0] in st1.top && dest == Dest(st1.top, x.parts)
    ensures dest != []
    ensures !Blocked(t, dest[..|dest| - 1]) && !(dest in t && t[dest].Dir?) <==> !ClashesWith(done, x)
  {
    Nesting(before, out, st1, done, x.parts);
    FileBlocked(before, out, done, t, st1, x, dest[..|dest| - 1]);
    DirInTheWay(before, out, done, t, st1, x);
  }

  lemma FileSucceeds(before: Tree, out: Path, done: seq<Item>, st: State, x: Item)
    requires Ready(before, out) && Reached(before, out, done, st) && Consistent(done)
    requires SafeParts(x.parts) && x.PutFile?
    ensures PlaceItem(out, st, x).ok <==> x.whole && !ClashesWith(done, x)
  {
    var st1 := WithRoot(out, st, x.parts[0]);
    Known(before, out, done, st, st1, x.parts[0]);
    var dest := Dest(st1.top, x.parts);
    FileReasons(before, out, done, st.tree, st1, x, dest);
    FileStep(out, st, x, st1, dest);
  }

  lemma {:induction false} PlaceAllAppend(out: Path, st: State, done: seq<Item>, x: Item)
    requires Placeable(done) && SafeParts(x.parts) && PlaceAll(out, st, done).ok
    ensures Placeable(done + [x])
    ensures PlaceAll(out, st, done + [x]) == PlaceItem(out, PlaceAll(out, st, done).state, x)
    decreases |done|
  {
    var all := done + [x];
    if done == [] {
      assert all == [x] && all[1..] == [];
      var first := PlaceItem(out, st, x);
      if first.ok {
        assert PlaceAll(out, first.state, []) == Placed(first.state, true);
      }
    } else {
      assert all[1..] == done[1..] + [x];
      PlaceAllAppend(out, PlaceItem(out, st, done[0]).state, done[1..], x);
    }
  }

  lemma ConsistentAppend(done: seq<Item>, x: Item)
    requires Consistent(done)
    ensures Consistent(done + [x]) <==> Complete(x) && !ClashesWith(done, x)
  {
    var now := done + [x];
    assert now[|done|] == x;
    forall i | 0 <= i < |done| ensures now[i] == done[i] {
    }
  }

  lemma ConsistentPrefix(a: seq<Item>, b: seq<Item>)
    requires Consistent(a + b)
    ensures Consistent(a)
  {
    forall i | 0 <= i < |a| ensures (a + b)[i] == a[i] {
    }
  }

  lemma MoveFirst<T>(a: seq<T>, b: seq<T>)
    requires b != []
    ensures (a + [b[0]]) + b[1..] == a + b
  {
  }

  lemma ReachedAppend(before: Tree, out: Path, done: seq<Item>, st: State, x: Item)
    requires Reached(before, out, done, st) && SafeParts(x.parts) && PlaceItem(out, st, x).ok
    ensures Reached(before, out, done + [x], PlaceItem(out, st, x).state)
  {
    PlaceAllAppend(out, State(before, map[], []), done, x);
  }

  lemma {:induction false} SucceedsFrom(before: Tree, out: Path, done: seq<Item>, st: State, items: seq<Item>)
    requires Ready(before, out) && Reached(before, out, done, st) && Consistent(done) && Placeable(items)
    ensures PlaceAll(out, st, items).ok <==> Consistent(done + items)
    decreases |items|
  {
    if items == [] {
      assert done + items == done;
    } else {
      var x, rest := items[0], items[1..];
      var now := done + [x];
      MoveFirst(done, items);
      if x.MakeDir? {
        DirSucceeds(before, out, done, st, x);
      } else {
        FileSucceeds(before, out, done, st, x);
      }
      ConsistentAppend(done, x);
      var first := PlaceItem(out, st, x);
      assert PlaceAll(out, st, items).ok <==> first.ok && PlaceAll(out, first.state, rest).ok;
      if first.ok {
        ReachedAppend(before, out, done, st, x);
        SucceedsFrom(before, out, now, first.state, rest);
      } else if Consistent(done + items) {
        ConsistentPrefix(now, rest);
        assert false;
      }
    }
  }

  /** A fresh run succeeds if and only if no file of the archive is cut short and no path in it is
      wanted both as a file and as a directory: names that already exist never make it fail. */
  lemma SucceedsIffConsistent(before: Tree, out: Path, items: seq<Item>)
    requires Ready(before, out) && Placeable(items)
    ensures PlaceAll(out, State(before, map[], []), items).ok <==> Consistent(items)
  {
    SucceedsFrom(before, out, [], State(before, map[], []), items);
    assert [] + items == items;
  }
}
