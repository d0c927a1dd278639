/** BuildPkgTreeImplL: unpacking a compound package and, recursively, every
    reference package embedded in it, into a flat pre-order list. */
module PkgTree {
  import opened Platform
  import opened BinFormat
  import opened Unpack

  const BIN_PKG_EXT := ".sifrefbinpkg"

  /** A node of the flat list. `parent` is the position of the parent in the
      list, or -1 for the root. */
  datatype Aux = Aux(fileName: string, foreign: bool, parent: int)

  datatype Built = Built(store: Store, flat: seq<Aux>)

  /** The recognizer: only the extension of a path makes it a reference package. */
  predicate IsRefPath(path: string) {
    var dot := AfterLast(path, '.');
    dot > 0 && Fold(path[dot - 1..]) == BIN_PKG_EXT
  }

  ghost predicate Stored(store: Store, files: seq<string>, bound: int) {
    forall f :: f in files ==> Fold(f) in store && |store[Fold(f)]| < bound
  }

  ghost predicate Kept(before: Store, after: Store) {
    forall k :: k in before ==> k in after && after[k] == before[k]
  }

  /** Every embedded file is strictly shorter than the package it came from, so
      the recursion ends. */
  ghost function Build(store: Store, path: string, data: seq<byte>, dir: string, flat: seq<Aux>, parent: int): (r: Outcome<Built>)
    ensures r.Ok? ==> Kept(store, r.value.store)
    decreases |data|, 1, 0
  {
    if IsRefPath(path) then
      var u :- Extract(store, data, path, dir);
      ExtractGrows(store, data, path, dir);
      BuildAll(u.store, u.files, |data|, flat + [Aux(PkgFileName(dir, path), false, parent)], |flat|)
    else if parent < 0 then Fail(Leave(ERR_CORRUPT))
    else Ok(Built(store, flat + [Aux(path, true, parent)]))
  }

  ghost function BuildAll(store: Store, files: seq<string>, bound: nat, flat: seq<Aux>, parent: int): (r: Outcome<Built>)
    requires Stored(store, files, bound)
    ensures r.Ok? ==> Kept(store, r.value.store)
    decreases bound, 0, |files|
  {
    if files == [] then Ok(Built(store, flat)) else
    var b :- Build(store, files[0], store[Fold(files[0])], DirOf(files[0]), flat, parent);
    BuildAll(b.store, files[1..], bound, b.flat, parent)
  }

  lemma BuildAllStep(store: Store, files: seq<string>, i: nat, bound: nat, flat: seq<Aux>, parent: int)
    requires i < |files| && Stored(store, files[i..], bound)
    ensures Fold(files[i]) in store && |store[Fold(files[i])]| < bound
    ensures var b := Build(store, files[i], store[Fold(files[i])], DirOf(files[i]), flat, parent);
            if b.Ok? then
              && Stored(b.value.store, files[i + 1..], bound)
              && BuildAll(store, files[i..], bound, flat, parent) == BuildAll(b.value.store, files[i + 1..], bound, b.value.flat, parent)
            else BuildAll(store, files[i..], bound, flat, parent) == b
  {
    hide Fold, Build, DirOf;
    assert files[i..] == [files[i]] + files[i + 1..];
  }

  // ---------------------------------------------------------------------------
  // What a package tree is, apart from the code
  // ---------------------------------------------------------------------------

  /** A package together with the packages found inside its reference items. */
  datatype Pack = Pack(wire: Wire, subs: seq<Sub>)

  datatype Sub = Opaque | Inner(pack: Pack)

  /** Each item named as a reference package starts with the package recorded for it;
      the others are opaque. */
  ghost predicate Coherent(p: Pack, dir: string)
    decreases p, 0
  {
    && ValidWire(p.wire)
    && |p.subs| == |p.wire.items|
    && forall i :: 0 <= i < |p.subs| ==>
         Fits(p.subs[i], ItemPath(dir + CHILDREN_DIR, p.wire.items[i].name), DirOf(ItemPath(dir + CHILDREN_DIR, p.wire.items[i].name)), p.wire.items[i].body)
  }

  ghost predicate Fits(s: Sub, path: string, dir: string, data: seq<byte>)
    decreases s, 1
  {
    match s
    case Opaque => !IsRefPath(path)
    case Inner(p) => IsRefPath(path) && Coherent(p, dir) && Bytes(p.wire) <= data
  }

  /** Every file written for a package and all it contains, in order of creation. */
  function SubEntries(s: Sub, path: string, dir: string): seq<Entry>
    decreases s, 1
  {
    match s
    case Opaque => []
    case Inner(p) => WireEntries(p.wire, path, dir) + SubsEntries(p.subs, p.wire.items, dir + CHILDREN_DIR)
  }

  function SubsEntries(subs: seq<Sub>, items: seq<Item>, embDir: string): seq<Entry>
    decreases subs, 0
  {
    if subs == [] || items == [] then []
    else
      var path := ItemPath(embDir, items[0].name);
      SubEntries(subs[0], path, DirOf(path)) + SubsEntries(subs[1..], items[1..], embDir)
  }

  /** The pre-order list of a package whose root stands at position base. */
  function SubOrder(s: Sub, path: string, dir: string, parent: int, base: nat): seq<Aux>
    decreases s, 1
  {
    match s
    case Opaque => [Aux(path, true, parent)]
    case Inner(p) =>
      [Aux(PkgFileName(dir, path), false, parent)] + SubsOrder(p.subs, p.wire.items, dir + CHILDREN_DIR, base, base + 1)
  }

  function SubsOrder(subs: seq<Sub>, items: seq<Item>, embDir: string, parent: int, base: nat): seq<Aux>
    decreases subs, 0
  {
    if subs == [] || items == [] then []
    else
      var path := ItemPath(embDir, items[0].name);
      var first := SubOrder(subs[0], path, DirOf(path), parent, base);
      first + SubsOrder(subs[1..], items[1..], embDir, parent, base + |first|)
  }

  lemma {:induction false} CreateAllContent(store: Store, entries: seq<Entry>)
    requires CreateAll(store, entries).Ok?
    ensures var s := CreateAll(store, entries).value;
            && Kept(store, s)
            && forall i :: 0 <= i < |entries| ==> Fold(entries[i].path) in s && s[Fold(entries[i].path)] == entries[i].content
    decreases |entries|
  {
    if entries != [] {
      CreateAllContent(store[Fold(entries[0].path) := entries[0].content], entries[1..]);
    }
  }

  ghost predicate Holds(store: Store, items: seq<Item>, embDir: string) {
    forall i :: 0 <= i < |items| ==>
      Fold(ItemPath(embDir, items[i].name)) in store && store[Fold(ItemPath(embDir, items[i].name))] == items[i].body
  }

  ghost predicate AllFit(subs: seq<Sub>, items: seq<Item>, embDir: string) {
    && |subs| == |items|
    && forall i :: 0 <= i < |subs| ==>
         Fits(subs[i], ItemPath(embDir, items[i].name), DirOf(ItemPath(embDir, items[i].name)), items[i].body)
  }

  /** Exactness: a file that holds a package tree is built into precisely the
      tree's files and its pre-order list, unless two of the files collide. */
  lemma {:induction false} BuildComplete(s: Sub, store: Store, path: string, data: seq<byte>, dir: string, flat: seq<Aux>, parent: int)
    requires Fits(s, path, dir, data)
    requires s.Opaque? ==> parent >= 0
    ensures var created := CreateAll(store, SubEntries(s, path, dir));
            Build(store, path, data, dir, flat, parent) ==
            if created.Ok? then Ok(Built(created.value, flat + SubOrder(s, path, dir, parent, |flat|))) else Fail(created.fault)
    decreases s, 1
  {
    hide Extract, CreateAll, IsRefPath, PkgFileName, DirOf, ItemPath, Bytes, ValidWire, Fold;
    match s
    case Opaque =>
      CreateAllEmpty(store);
    case Inner(p) =>
      var embDir := dir + CHILDREN_DIR;
      var node := Aux(PkgFileName(dir, path), false, parent);
      ExtractComplete(store, p.wire, data, path, dir);
      CreateAllConcat(store, WireEntries(p.wire, path, dir), SubsEntries(p.subs, p.wire.items, embDir));
      var r := CreateAll(store, WireEntries(p.wire, path, dir));
      if r.Ok? {
        CreateAllContent(store, WireEntries(p.wire, path, dir));
        WireHeld(r.value, p.wire, path, dir);
        ExtractGrows(store, data, path, dir);
        BuildAllComplete(p.subs, p.wire.items, r.value, |data|, embDir, flat + [node], |flat|);
        assert flat + SubOrder(s, path, dir, parent, |flat|)
            == flat + [node] + SubsOrder(p.subs, p.wire.items, embDir, |flat|, |flat| + 1);
      }
  }

  lemma WireHeld(st: Store, w: Wire, path: string, dir: string)
    requires forall i :: 0 <= i < |WireEntries(w, path, dir)| ==>
               Fold(WireEntries(w, path, dir)[i].path) in st && st[Fold(WireEntries(w, path, dir)[i].path)] == WireEntries(w, path, dir)[i].content
    ensures Holds(st, w.items, dir + CHILDREN_DIR)
  {
    hide Fold, ItemPath, PkgFileName;
    var embDir := dir + CHILDREN_DIR;
    forall i | 0 <= i < |w.items|
      ensures Fold(ItemPath(embDir, w.items[i].name)) in st && st[Fold(ItemPath(embDir, w.items[i].name))] == w.items[i].body
    {
      assert WireEntries(w, path, dir)[i + 1] == ItemEntry(embDir, w.items[i]);
    }
  }

  lemma TailFits(subs: seq<Sub>, items: seq<Item>, embDir: string)
    requires AllFit(subs, items, embDir) && subs != []
    ensures Fits(subs[0], ItemPath(embDir, items[0].name), DirOf(ItemPath(embDir, items[0].name)), items[0].body)
    ensures AllFit(subs[1..], items[1..], embDir)
  {
    hide Fits;
  }

  lemma TailHolds(before: Store, after: Store, items: seq<Item>, embDir: string, bound: nat)
    requires Holds(before, items, embDir) && Kept(before, after) && items != []
    requires Stored(before, Paths(ItemEntries(embDir, items)), bound)
    ensures var key := Fold(ItemPath(embDir, items[0].name));
            key in before && before[key] == items[0].body
    ensures Holds(after, items[1..], embDir)
    ensures Stored(after, Paths(ItemEntries(embDir, items[1..])), bound)
  {
    hide Fold, ItemPath, ItemEntries, Paths, Stored;
    EntriesCons(embDir, items);
    var (first, rest) := (ItemPath(embDir, items[0].name), Paths(ItemEntries(embDir, items[1..])));
    StoredTail(before, after, first, rest, bound);
  }

  lemma StoredTail(before: Store, after: Store, first: string, rest: seq<string>, bound: nat)
    requires Stored(before, [first] + rest, bound) && Kept(before, after)
    ensures Stored(after, rest, bound)
  {
    hide Fold;
    forall f | f in rest ensures Fold(f) in after && |after[Fold(f)]| < bound {
      assert f in [first] + rest;
    }
  }

  lemma {:induction false} BuildAllComplete(subs: seq<Sub>, items: seq<Item>, store: Store, bound: nat, embDir: string, flat: seq<Aux>, parent: nat)
    requires AllFit(subs, items, embDir) && Holds(store, items, embDir)
    requires Stored(store, Paths(ItemEntries(embDir, items)), bound)
    ensures var created := CreateAll(store, SubsEntries(subs, items, embDir));
            BuildAll(store, Paths(ItemEntries(embDir, items)), bound, flat, parent) ==
            if created.Ok? then Ok(Built(created.value, flat + SubsOrder(subs, items, embDir, parent, |flat|))) else Fail(created.fault)
    decreases subs, 0
  {
    hide CreateAll, IsRefPath, DirOf, ItemPath, Fits, Holds, Stored, Fold, SubEntries, SubOrder, Build, ItemEntries, Paths;
    if subs == [] {
      CreateAllEmpty(store);
      assert Paths(ItemEntries(embDir, items)) == [];
      assert flat + SubsOrder(subs, items, embDir, parent, |flat|) == flat;
    } else {
      var path := ItemPath(embDir, items[0].name);
      EntriesCons(embDir, items);
      TailFits(subs, items, embDir);
      TailHolds(store, store, items, embDir, bound);
      BuildComplete(subs[0], store, path, items[0].body, DirOf(path), flat, parent);
      CreateAllConcat(store, SubEntries(subs[0], path, DirOf(path)), SubsEntries(subs[1..], items[1..], embDir));
      var r := CreateAll(store, SubEntries(subs[0], path, DirOf(path)));
      if r.Ok? {
        CreateAllContent(store, SubEntries(subs[0], path, DirOf(path)));
        TailHolds(store, r.value, items, embDir, bound);
        var first := SubOrder(subs[0], path, DirOf(path), parent, |flat|);
        BuildAllComplete(subs[1..], items[1..], r.value, bound, embDir, flat + first, parent);
        assert flat + SubsOrder(subs, items, embDir, parent, |flat|)
            == flat + first + SubsOrder(subs[1..], items[1..], embDir, parent, |flat + first|);
      }
    }
  }

  // ---------------------------------------------------------------------------
  // Acceptance is sound
  // ---------------------------------------------------------------------------

  /** Whatever is built, the file holds a package tree that accounts for it. */
  lemma {:induction false} BuildSound(store: Store, path: string, data: seq<byte>, dir: string, flat: seq<Aux>, parent: int) returns (s: Sub)
    requires Build(store, path, data, dir, flat, parent).Ok?
    ensures Fits(s, path, dir, data)
    ensures s.Opaque? ==> parent >= 0
    decreases |data|, 1, 0
  {
    hide Extract, CreateAll, IsRefPath, PkgFileName, DirOf, ItemPath, Bytes, ValidWire, Fold;
    if IsRefPath(path) {
      var embDir := dir + CHILDREN_DIR;
      var u := Extract(store, data, path, dir).value;
      ExtractGrows(store, data, path, dir);
      var w := ExtractSound(store, data, path, dir);
      ExtractComplete(store, w, data, path, dir);
      CreateAllContent(store, WireEntries(w, path, dir));
      WireHeld(u.store, w, path, dir);
      var subs := BuildAllSound(w.items, u.store, |data|, embDir, flat + [Aux(PkgFileName(dir, path), false, parent)], |flat|);
      s := Inner(Pack(w, subs));
    } else {
      s := Opaque;
    }
  }

  lemma {:induction false} BuildAllSound(items: seq<Item>, store: Store, bound: nat, embDir: string, flat: seq<Aux>, parent: nat) returns (subs: seq<Sub>)
    requires Holds(store, items, embDir)
    requires Stored(store, Paths(ItemEntries(embDir, items)), bound)
    requires BuildAll(store, Paths(ItemEntries(embDir, items)), bound, flat, parent).Ok?
    ensures AllFit(subs, items, embDir)
    decreases bound, 0, |items|
  {
    hide IsRefPath, DirOf, ItemPath, Fits, Holds, Stored, Fold, Build, ItemEntries, Paths;
    if items == [] {
      subs := [];
    } else {
      var path := ItemPath(embDir, items[0].name);
      EntriesCons(embDir, items);
      TailHolds(store, store, items, embDir, bound);
      assert |items[0].body| < bound by { FirstStored(store, items, embDir, bound); }
      var b := Build(store, path, items[0].body, DirOf(path), flat, parent).value;
      TailHolds(store, b.store, items, embDir, bound);
      var s := BuildSound(store, path, items[0].body, DirOf(path), flat, parent);
      var more := BuildAllSound(items[1..], b.store, bound, embDir, b.flat, parent);
      subs := [s] + more;
      ConsFits(s, more, items, embDir);
    }
  }

  lemma ConsFits(s: Sub, more: seq<Sub>, items: seq<Item>, embDir: string)
    requires items != [] && AllFit(more, items[1..], embDir)
    requires Fits(s, ItemPath(embDir, items[0].name), DirOf(ItemPath(embDir, items[0].name)), items[0].body)
    ensures AllFit([s] + more, items, embDir)
  {
    hide Fits, DirOf, ItemPath, AfterLast;
    forall i | 1 <= i < |items|
      ensures Fits(([s] + more)[i], ItemPath(embDir, items[i].name), DirOf(ItemPath(embDir, items[i].name)), items[i].body)
    {
      assert items[i] == items[1..][i - 1] && ([s] + more)[i] == more[i - 1];
    }
  }

  lemma FirstStored(store: Store, items: seq<Item>, embDir: string, bound: nat)
    requires items != [] && Holds(store, items, embDir)
    requires Stored(store, Paths(ItemEntries(embDir, items)), bound)
    ensures |items[0].body| < bound
  {
    hide Fold, ItemPath;
    assert Paths(ItemEntries(embDir, items))[0] == ItemPath(embDir, items[0].name);
  }

  // ---------------------------------------------------------------------------
  // Size of the list
  // ---------------------------------------------------------------------------

  /** Each node of the list accounts for eight bytes of the package it came from. */
  lemma {:induction false} OrderBound(s: Sub, path: string, data: seq<byte>, dir: string, parent: int, base: nat)
    requires Fits(s, path, dir, data)
    ensures 8 * |SubOrder(s, path, dir, parent, base)| <= |data| + 8
    decreases s, 1
  {
    hide IsRefPath, PkgFileName, DirOf, ItemPath, Fold;
    if s.Inner? {
      var p := s.pack;
      assert AllFit(p.subs, p.wire.items, dir + CHILDREN_DIR);
      OrdersBound(p.subs, p.wire.items, dir + CHILDREN_DIR, base, base + 1);
    }
  }

  lemma {:induction false} OrdersBound(subs: seq<Sub>, items: seq<Item>, embDir: string, parent: int, base: nat)
    requires AllFit(subs, items, embDir) && ValidItems(items)
    ensures 8 * |SubsOrder(subs, items, embDir, parent, base)| <= |ItemsBytes(items)|
    decreases subs, 0
  {
    hide IsRefPath, DirOf, ItemPath, Fold, Fits, SubOrder;
    if subs != [] {
      var path := ItemPath(embDir, items[0].name);
      TailFits(subs, items, embDir);
      OrderBound(subs[0], path, items[0].body, DirOf(path), parent, base);
      var first := SubOrder(subs[0], path, DirOf(path), parent, base);
      OrdersBound(subs[1..], items[1..], embDir, parent, base + |first|);
    }
  }

  /** The flat list of an accepted file of n bytes has at most n / 8 + 1 nodes. */
  lemma ListBound(store: Store, path: string, data: seq<byte>, dir: string)
    requires Build(store, path, data, dir, [], -1).Ok?
    ensures |Build(store, path, data, dir, [], -1).value.flat| <= |data| / 8 + 1
  {
    hide Fits, Build, SubOrder, CreateAll;
    var s := BuildSound(store, path, data, dir, [], -1);
    BuildComplete(s, store, path, data, dir, [], -1);
    OrderBound(s, path, data, dir, -1, 0);
    assert [] + SubOrder(s, path, dir, -1, 0) == SubOrder(s, path, dir, -1, 0);
  }

  // ---------------------------------------------------------------------------
  // Shape of the list
  // ---------------------------------------------------------------------------

  /** A run of a flat list that starts at position base: each node has the given
      outer parent, or a reference package earlier in the run. */
  ghost predicate WellParented(run: seq<Aux>, outer: int, base: nat) {
    forall i :: 0 <= i < |run| ==> run[i].parent == outer || WithinRun(run, i, base)
  }

  predicate WithinRun(run: seq<Aux>, i: nat, base: nat)
    requires i < |run|
  {
    var p := run[i].parent - base;
    0 <= p < i && !run[p].foreign
  }

  lemma {:induction false} OrderShape(s: Sub, path: string, dir: string, parent: int, base: nat)
    requires parent < base
    ensures var run := SubOrder(s, path, dir, parent, base);
            && run != [] && run[0].parent == parent && run[0].foreign == s.Opaque?
            && (forall i :: 1 <= i < |run| ==> WithinRun(run, i, base))
    decreases s, 1
  {
    hide PkgFileName, DirOf, ItemPath;
    if s.Inner? {
      var rest := SubsOrder(s.pack.subs, s.pack.wire.items, dir + CHILDREN_DIR, base, base + 1);
      OrdersShape(s.pack.subs, s.pack.wire.items, dir + CHILDREN_DIR, base, base + 1);
      var run := SubOrder(s, path, dir, parent, base);
      forall i | 1 <= i < |run| ensures WithinRun(run, i, base) {
        assert run[i] == rest[i - 1];
        assert rest[i - 1].parent == base || WithinRun(rest, i - 1, base + 1);
      }
    }
  }

  lemma {:induction false} OrdersShape(subs: seq<Sub>, items: seq<Item>, embDir: string, parent: int, base: nat)
    requires parent < base
    ensures WellParented(SubsOrder(subs, items, embDir, parent, base), parent, base)
    decreases subs, 0
  {
    hide PkgFileName, DirOf, ItemPath, SubOrder;
    if subs != [] && items != [] {
      var path := ItemPath(embDir, items[0].name);
      var first := SubOrder(subs[0], path, DirOf(path), parent, base);
      OrderShape(subs[0], path, DirOf(path), parent, base);
      OrdersShape(subs[1..], items[1..], embDir, parent, base + |first|);
      ShapeConcat(first, SubsOrder(subs[1..], items[1..], embDir, parent, base + |first|), parent, base);
    }
  }

  lemma ShapeConcat(xs: seq<Aux>, ys: seq<Aux>, outer: int, base: nat)
    requires outer < base
    requires WellParented(xs, outer, base) && WellParented(ys, outer, base + |xs|)
    ensures WellParented(xs + ys, outer, base)
  {
    var run := xs + ys;
    forall i | 0 <= i < |run| && run[i].parent != outer
      ensures WithinRun(run, i, base)
    {
      if i < |xs| {
        assert run[i] == xs[i] && WithinRun(xs, i, base);
      } else {
        assert run[i] == ys[i - |xs|] && WithinRun(ys, i - |xs|, base + |xs|);
      }
    }
  }

  /** The list of every accepted file: its first node is the root and a reference
      package, it is the only root, and every other node comes after its parent,
      which is a reference package. */
  ghost predicate TreeShaped(flat: seq<Aux>) {
    && flat != [] && flat[0].parent == -1 && !flat[0].foreign
    && forall i :: 1 <= i < |flat| ==> WithinRun(flat, i, 0)
  }

  lemma ListShape(store: Store, path: string, data: seq<byte>, dir: string)
    requires Build(store, path, data, dir, [], -1).Ok?
    ensures TreeShaped(Build(store, path, data, dir, [], -1).value.flat)
  {
    hide Fits, Build, SubOrder, CreateAll;
    var s := BuildSound(store, path, data, dir, [], -1);
    BuildComplete(s, store, path, data, dir, [], -1);
    OrderShape(s, path, dir, -1, 0);
    assert s.Inner? by { hide Coherent; assert Fits(s, path, dir, data); }
    assert [] + SubOrder(s, path, dir, -1, 0) == SubOrder(s, path, dir, -1, 0);
  }
}
