/** From a tree of packages to its bytes and back. */
module PkgRoundTrip {
  import opened Platform
  import opened BinFormat
  import opened Unpack
  import opened PkgTree
  import opened PkgPaths

  /** What a package author puts together: a text package and named components,
      each a file of another installer or a reference package. */
  datatype Tree = Tree(text: seq<byte>, kids: seq<Kid>)

  datatype Kid = Kid(name: seq<byte>, content: Content)

  datatype Content = File(body: seq<byte>) | Package(tree: Tree)

  /** The limits of the format, and the naming convention that tells the two kinds
      of components apart. */
  ghost predicate Limits(t: Tree)
    decreases t, 1
  {
    && |t.text| <= BUFFER_LENGTH
    && |t.kids| <= MAX_EMBEDDED
    && forall i :: 0 <= i < |t.kids| ==> KidLimits(t.kids[i])
  }

  ghost predicate KidLimits(k: Kid)
    decreases k, 2
  {
    && |k.name| <= MAX_PATH
    && match k.content
       case File(body) => !IsRefPath(k.name) && |body| <= MAX_EMBEDDED_SIZE
       case Package(t) => IsRefPath(k.name) && Limits(t) && |Encode(t)| <= MAX_EMBEDDED_SIZE
  }

  /** The bytes of a package, as the packaging script lays them out. */
  ghost function Encode(t: Tree): seq<byte>
    requires Limits(t)
    decreases t, 4
  {
    Bytes(ToWire(t))
  }

  ghost function ToWire(t: Tree): (w: Wire)
    requires Limits(t)
    ensures ValidWire(w)
    decreases t, 3
  {
    Canonical(t.text, seq(|t.kids|, i requires 0 <= i < |t.kids| => ToItem(t, i)))
  }

  ghost function ToItem(t: Tree, i: nat): (e: Item)
    requires Limits(t) && i < |t.kids|
    ensures ValidItem(e) && e.name == t.kids[i].name
    decreases t, 2
  {
    assert KidLimits(t.kids[i]);
    var body := match t.kids[i].content case File(body) => body case Package(sub) => Encode(sub);
    Item(t.kids[i].name, |body|, body)
  }

  ghost function ToPack(t: Tree): Pack
    requires Limits(t)
    decreases t, 3
  {
    Pack(ToWire(t), seq(|t.kids|, i requires 0 <= i < |t.kids| => ToSub(t, i)))
  }

  ghost function ToSub(t: Tree, i: nat): Sub
    requires Limits(t) && i < |t.kids|
    decreases t, 2
  {
    assert KidLimits(t.kids[i]);
    match t.kids[i].content
    case File(_) => Opaque
    case Package(sub) => Inner(ToPack(sub))
  }

  ghost predicate GoodKids(t: Tree)
    decreases t
  {
    && (forall i :: 0 <= i < |t.kids| ==> GoodName(t.kids[i].name))
    && (forall i, j :: 0 <= i < j < |t.kids| ==> Fold(t.kids[i].name) != Fold(t.kids[j].name))
    && (forall i :: 0 <= i < |t.kids| ==> t.kids[i].content.Package? ==> GoodKids(t.kids[i].content.tree))
  }

  /** The extension of a path is that of its last name. */
  lemma RefName(embDir: string, name: string)
    requires GoodName(name)
    ensures IsRefPath(ItemPath(embDir, name)) == IsRefPath(name)
  {
    hide IsRefPath, Fold;
    if IsRefPath(ItemPath(embDir, name)) {
      RefItemName(embDir, name);
      ExtensionFound(name);
    }
    if IsRefPath(name) {
      assert ItemPath(embDir, name) == embDir + name + DIR_SEPARATOR + name;
      RefSuffix(embDir + name + DIR_SEPARATOR, name);
    }
  }

  lemma RefSuffix(front: string, name: string)
    requires IsRefPath(name)
    ensures IsRefPath(front + name)
  {
    hide Fold, AfterLast;
    var dot := AfterLast(name, '.');
    var path := front + name;
    assert path[|front| + dot..] == name[dot..];
    assert path[|front| + dot - 1..] == name[dot - 1..];
    AfterLastUnique(path, '.', |front| + dot);
  }

  lemma ExtensionFound(name: string)
    requires |name| >= 13 && Fold(name)[|name| - 13..] == BIN_PKG_EXT
    ensures IsRefPath(name)
  {
    hide AfterLast;
    var k := |name| - 13;
    var ext := name[k..];
    assert Fold(ext) == Fold(name)[k..];
    ExtensionDots(ext);
    assert name[k + 1..] == ext[1..] && name[k] == ext[0];
    AfterLastUnique(name, '.', k + 1);
  }

  lemma ExtensionDots(ext: string)
    requires Fold(ext) == BIN_PKG_EXT
    ensures |ext| == 13 && ext[0] == '.' && '.' !in ext[1..]
  {
    assert FoldChar(ext[0]) == BIN_PKG_EXT[0];
    forall i | 1 <= i < |ext| ensures ext[i] != '.' {
      assert FoldChar(ext[i]) == BIN_PKG_EXT[i];
      assert BIN_PKG_EXT[i] != '.';
    }
  }

  lemma {:induction false} PackFits(t: Tree, dir: string)
    requires Limits(t) && GoodKids(t)
    ensures Coherent(ToPack(t), dir)
    ensures GoodNames(Inner(ToPack(t)))
    decreases t, 1
  {
    hide IsRefPath, Fold, Bytes, ItemPath, DirOf;
    var p := ToPack(t);
    var embDir := dir + CHILDREN_DIR;
    forall i | 0 <= i < |t.kids|
      ensures Fits(p.subs[i], ItemPath(embDir, p.wire.items[i].name), DirOf(ItemPath(embDir, p.wire.items[i].name)), p.wire.items[i].body)
      ensures GoodNames(p.subs[i])
    {
      KidFits(t, i, embDir);
      assert p.subs[i] == ToSub(t, i) && p.wire.items[i] == ToItem(t, i);
    }
    assert GoodItems(p.wire.items);
  }

  lemma {:induction false} KidFits(t: Tree, i: nat, embDir: string)
    requires Limits(t) && GoodKids(t) && i < |t.kids|
    ensures var path := ItemPath(embDir, t.kids[i].name);
            Fits(ToSub(t, i), path, DirOf(path), ToItem(t, i).body)
    ensures GoodNames(ToSub(t, i))
    decreases t, 0
  {
    hide IsRefPath, Fold, Bytes, ItemPath, DirOf;
    var path := ItemPath(embDir, t.kids[i].name);
    assert KidLimits(t.kids[i]) && GoodName(t.kids[i].name);
    RefName(embDir, t.kids[i].name);
    match t.kids[i].content
    case File(_) =>
    case Package(sub) =>
      PackFits(sub, DirOf(path));
      assert ToItem(t, i).body == Encode(sub) == Bytes(ToPack(sub).wire);
  }

  /** Round trip: encoding a tree of packages and building it again, whatever bytes
      follow, gives the tree's pre-order list and all its files with their contents,
      unless, and only if, one of the tree's own paths is taken. */
  lemma PackageRoundTrip(t: Tree, junk: seq<byte>, store: Store, path: string, dir: string)
    requires Limits(t) && GoodKids(t) && IsRefPath(path)
    ensures var r := Build(store, path, Encode(t) + junk, dir, [], -1);
            var s := Inner(ToPack(t));
            && (if Free(store, SubEntries(s, path, dir)) then r.Ok? else r == Fail(Leave(ERR_ALREADY_EXISTS)))
            && (r.Ok? ==> Holding(s, path, dir, r.value))
  {
    hide Fold, Bytes, Build, IsRefPath, SubOrder, SubEntries, Limits, Free, Holding;
    PackFits(t, dir);
    assert Encode(t) <= Encode(t) + junk;
    BuildGoodTree(Inner(ToPack(t)), store, path, Encode(t) + junk, dir);
  }

  /** The encoding determines the tree: a component's name tells its kind, and equal
      bytes of a nested package mean an equal package. */
  lemma {:induction false} EncodeInjective(t: Tree, u: Tree)
    requires Limits(t) && Limits(u) && Encode(t) == Encode(u)
    ensures t == u
    decreases t
  {
    hide Bytes, IsRefPath, ToWire;
    assert Encode(t) + [] == Encode(t) && Encode(u) + [] == Encode(u);
    WireUnique(ToWire(t), ToWire(u), [], []);
    WireParts(t);
    WireParts(u);
    forall i | 0 <= i < |t.kids| ensures t.kids[i] == u.kids[i] {
      assert KidLimits(t.kids[i]) && KidLimits(u.kids[i]);
      assert ToItem(t, i) == ToItem(u, i);
      if t.kids[i].content.Package? {
        EncodeInjective(t.kids[i].content.tree, u.kids[i].content.tree);
      }
    }
    assert t.kids == u.kids;
  }

  lemma WireParts(t: Tree)
    requires Limits(t)
    ensures ToWire(t).text == t.text && |ToWire(t).items| == |t.kids|
    ensures forall i :: 0 <= i < |t.kids| ==> ToWire(t).items[i] == ToItem(t, i)
  {
    hide ToItem;
  }
}
