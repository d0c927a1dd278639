/** Where the files of a package tree go, and what its list says: the names that the
    extractor makes, written out. */
module PkgLayout {
  import opened Platform
  import opened BinFormat
  import opened Unpack
  import opened PkgTree
  import opened PkgPaths
  import opened PkgRoundTrip

  // ---------------------------------------------------------------------------
  // Single names
  // ---------------------------------------------------------------------------

  /** A front that ends a directory, if there is one. */
  predicate IsFront(front: string) {
    front == "" || front[|front| - 1] == '\\'
  }

  lemma LastSeparator(front: string, name: string)
    requires IsFront(front) && '\\' !in name
    ensures AfterLast(front + name, '\\') == |front|
    ensures (front + name)[|front|..] == name && DirOf(front + name) == front
  {
    hide AfterLast;
    var s := front + name;
    assert s[|front|..] == name && s[..|front|] == front;
    AfterLastUnique(s, '\\', |front|);
  }

  lemma LastDot(stem: string, ext: string)
    requires '.' !in ext
    ensures AfterLast(stem + "." + ext, '.') == |stem| + 1 && (stem + "." + ext)[..|stem|] == stem
  {
    hide AfterLast;
    var file := stem + "." + ext;
    assert file[|stem| + 1..] == ext && file[|stem|] == '.';
    AfterLastUnique(file, '.', |stem| + 1);
  }

  lemma NameInDirectory(front: string, file: string)
    requires IsFront(front) && '\\' !in file
    ensures NameOf(front + file) == if AfterLast(file, '.') == 0 then file else file[..AfterLast(file, '.') - 1]
  {
    hide AfterLast;
    LastSeparator(front, file);
  }

  /** The text package of a compound package has its name with another extension. */
  lemma TextPackageName(dir: string, front: string, stem: string, ext: string)
    requires IsFront(front) && '\\' !in stem && '\\' !in ext && '.' !in ext
    ensures PkgFileName(dir, front + stem + "." + ext) == dir + stem + ".sifrefpkg"
  {
    hide AfterLast, NameOf, IsFront;
    var file := stem + "." + ext;
    assert '\\' !in file by {
      assert '\\' !in ".";
    }
    assert front + stem + "." + ext == front + file;
    NameInDirectory(front, file);
    LastDot(stem, ext);
  }

  lemma PlainName(dir: string, front: string, name: string)
    requires IsFront(front) && '\\' !in name && '.' !in name
    ensures PkgFileName(dir, front + name) == dir + name + ".sifrefpkg"
  {
    hide AfterLast, NameOf, IsFront;
    NameInDirectory(front, name);
    assert name[0..] == name;
    AfterLastUnique(name, '.', 0);
  }

  /** A component goes into a directory of its own name. */
  lemma KidName(dir: string, name: string)
    requires GoodName(name)
    ensures ItemPath(dir + CHILDREN_DIR, name) == dir + "children\\" + name + "\\" + name
    ensures DirOf(ItemPath(dir + CHILDREN_DIR, name)) == dir + "children\\" + name + "\\"
  {
    hide AfterLast, DirOf;
    var front := dir + "children\\" + name + "\\";
    assert front[|front| - 1] == '\\';
    LastSeparator(front, name);
    assert ItemPath(dir + CHILDREN_DIR, name) == front + name;
  }

  /** What IsRefPath recognizes: a dot and twelve letters, in either case. */
  lemma RefParts(name: string)
    requires IsRefPath(name)
    ensures |name| >= 13 && '.' !in name[|name| - 12..] && name == name[..|name| - 13] + "." + name[|name| - 12..]
  {
    hide AfterLast;
    var dot := AfterLast(name, '.');
    assert |Fold(name[dot - 1..])| == 13;
    assert name[dot - 1..] == "." + name[dot..];
    assert name == name[..dot - 1] + name[dot - 1..];
  }

  // ---------------------------------------------------------------------------
  // Whole trees
  // ---------------------------------------------------------------------------

  /** A package's name without its extension. */
  function Stem(name: string): string {
    if |name| >= 13 then name[..|name| - 13] else name
  }

  function KidDir(dir: string, name: string): string {
    dir + "children\\" + name + "\\"
  }

  ghost function KidBytes(k: Kid): seq<byte>
    requires KidLimits(k)
  {
    match k.content
    case File(body) => body
    case Package(sub) => Encode(sub)
  }

  ghost function KidFile(t: Tree, dir: string, k: nat): Entry
    requires Limits(t) && k < |t.kids|
  {
    assert KidLimits(t.kids[k]);
    Entry(KidDir(dir, t.kids[k].name) + t.kids[k].name, KidBytes(t.kids[k]))
  }

  /** The files of a tree below a directory: its text, its components, and then the
      files of each component that is a package, below the component's directory. */
  ghost function Layout(t: Tree, dir: string, stem: string): seq<Entry>
    requires Limits(t)
    decreases t, 2, 0
  {
    [Entry(dir + stem + ".sifrefpkg", t.text)]
    + seq(|t.kids|, k requires 0 <= k < |t.kids| => KidFile(t, dir, k))
    + KidLayouts(t, dir, 0)
  }

  ghost function KidLayouts(t: Tree, dir: string, k: nat): seq<Entry>
    requires Limits(t)
    decreases t, 1, |t.kids| - k
  {
    if k >= |t.kids| then [] else KidLayout(t, dir, k) + KidLayouts(t, dir, k + 1)
  }

  ghost function KidLayout(t: Tree, dir: string, k: nat): seq<Entry>
    requires Limits(t) && k < |t.kids|
    decreases t, 0, 0
  {
    assert KidLimits(t.kids[k]);
    match t.kids[k].content
    case File(_) => []
    case Package(sub) => Layout(sub, KidDir(dir, t.kids[k].name), Stem(t.kids[k].name))
  }

  /** The list of a tree: its text, and below it each component or, for a package, the
      package's own list. */
  function NodeList(t: Tree, dir: string, stem: string, parent: int, base: nat): seq<Aux>
    decreases t, 2, 0
  {
    [Aux(dir + stem + ".sifrefpkg", false, parent)] + KidLists(t, dir, 0, base, base + 1)
  }

  function KidLists(t: Tree, dir: string, k: nat, parent: int, base: nat): seq<Aux>
    decreases t, 1, |t.kids| - k
  {
    if k >= |t.kids| then []
    else
      var first := KidList(t, dir, k, parent, base);
      first + KidLists(t, dir, k + 1, parent, base + |first|)
  }

  function KidList(t: Tree, dir: string, k: nat, parent: int, base: nat): seq<Aux>
    requires k < |t.kids|
    decreases t, 0, 0
  {
    var name := t.kids[k].name;
    match t.kids[k].content
    case File(_) => [Aux(KidDir(dir, name) + name, true, parent)]
    case Package(sub) => NodeList(sub, KidDir(dir, name), Stem(name), parent, base)
  }

  /** The path of a package ends in its stem and the extension. */
  ghost predicate NamedBy(path: string, stem: string) {
    exists front, ext :: NameParts(path, front, stem, ext)
  }

  predicate NameParts(path: string, front: string, stem: string, ext: string) {
    IsFront(front) && '\\' !in stem && '\\' !in ext && '.' !in ext && path == front + stem + "." + ext
  }

  /** What is built from an encoded tree, path by path. */
  lemma {:induction false} LaidOut(t: Tree, path: string, dir: string, stem: string, parent: int, base: nat)
    requires Limits(t) && GoodKids(t) && NamedBy(path, stem)
    ensures SubEntries(Inner(ToPack(t)), path, dir) == Layout(t, dir, stem)
    ensures SubOrder(Inner(ToPack(t)), path, dir, parent, base) == NodeList(t, dir, stem, parent, base)
    decreases t, 1, 0
  {
    hide Limits, ToWire, Bytes, PkgFileName, IsRefPath, Fold;
    var front, ext :| NameParts(path, front, stem, ext);
    TextPackageName(dir, front, stem, ext);
    KidsLaidOut(t, dir, 0, base, base + 1);
    OwnFiles(t, path, dir, stem);
    var p := ToPack(t);
    assert p.subs[0..] == p.subs && p.wire.items[0..] == p.wire.items;
  }

  lemma OwnFiles(t: Tree, path: string, dir: string, stem: string)
    requires Limits(t) && GoodKids(t) && PkgFileName(dir, path) == dir + stem + ".sifrefpkg"
    ensures WireEntries(ToPack(t).wire, path, dir)
         == [Entry(dir + stem + ".sifrefpkg", t.text)] + seq(|t.kids|, k requires 0 <= k < |t.kids| => KidFile(t, dir, k))
  {
    hide ItemPath, PkgFileName, Fold, GoodName, Bytes;
    WireParts(t);
    forall k | 0 <= k < |t.kids| ensures ItemEntry(dir + CHILDREN_DIR, ToWire(t).items[k]) == KidFile(t, dir, k) {
      assert KidLimits(t.kids[k]) && GoodName(t.kids[k].name);
      KidName(dir, t.kids[k].name);
    }
  }

  lemma {:induction false} KidsLaidOut(t: Tree, dir: string, k: nat, parent: int, base: nat)
    requires Limits(t) && GoodKids(t) && k <= |t.kids|
    ensures |ToPack(t).subs| == |ToPack(t).wire.items| == |t.kids|
    ensures var p := ToPack(t);
            && SubsEntries(p.subs[k..], p.wire.items[k..], dir + CHILDREN_DIR) == KidLayouts(t, dir, k)
            && SubsOrder(p.subs[k..], p.wire.items[k..], dir + CHILDREN_DIR, parent, base) == KidLists(t, dir, k, parent, base)
    decreases t, 0, |t.kids| - k
  {
    hide ToWire, Bytes, PkgFileName, ItemPath, DirOf, IsRefPath, Fold, SubEntries, SubOrder, KidLayout, KidList, ToSub, ToItem, Limits, GoodKids;
    PackParts(t);
    if k < |t.kids| {
      var (subs, items) := (ToPack(t).subs[k..], ToPack(t).wire.items[k..]);
      assert subs[0] == ToSub(t, k) && items[0] == ToItem(t, k) && subs[1..] == ToPack(t).subs[k + 1..] && items[1..] == ToPack(t).wire.items[k + 1..];
      KidLaidOut(t, dir, k, parent, base);
      hide ToPack;
      KidsLaidOut(t, dir, k + 1, parent, base + |KidList(t, dir, k, parent, base)|);
    }
  }

  lemma PackParts(t: Tree)
    requires Limits(t)
    ensures |ToPack(t).subs| == |ToPack(t).wire.items| == |t.kids|
    ensures forall k :: 0 <= k < |t.kids| ==> ToPack(t).subs[k] == ToSub(t, k) && ToPack(t).wire.items[k] == ToItem(t, k)
  {
    hide ToItem, ToSub;
    WireParts(t);
  }

  lemma {:induction false} KidLaidOut(t: Tree, dir: string, k: nat, parent: int, base: nat)
    requires Limits(t) && GoodKids(t) && k < |t.kids|
    ensures var path := ItemPath(dir + CHILDREN_DIR, ToItem(t, k).name);
            && SubEntries(ToSub(t, k), path, DirOf(path)) == KidLayout(t, dir, k)
            && SubOrder(ToSub(t, k), path, DirOf(path), parent, base) == KidList(t, dir, k, parent, base)
    decreases t, 0, 0
  {
    hide ToWire, Bytes, PkgFileName, ItemPath, DirOf, IsRefPath, Fold, NamedBy, GoodName;
    assert KidLimits(t.kids[k]) && GoodName(t.kids[k].name);
    var name := t.kids[k].name;
    KidName(dir, name);
    match t.kids[k].content
    case File(_) =>
    case Package(sub) =>
      KidNamed(KidDir(dir, name), name);
      LaidOut(sub, KidDir(dir, name) + name, KidDir(dir, name), Stem(name), parent, base);
  }

  lemma KidNamed(front: string, name: string)
    requires IsFront(front) && GoodName(name) && IsRefPath(name)
    ensures NamedBy(front + name, Stem(name))
  {
    hide IsRefPath;
    RefParts(name);
    var ext := name[|name| - 12..];
    assert front + name == front + Stem(name) + "." + ext;
    assert NameParts(front + name, front, Stem(name), ext);
  }

  /** Round trip, path by path: encoding a tree and building it gives exactly the files
      and the list written out above, and succeeds exactly if none of the paths is
      taken. */
  lemma RoundTripLaidOut(t: Tree, junk: seq<byte>, store: Store, front: string, name: string, dir: string)
    requires Limits(t) && GoodKids(t) && IsFront(front) && GoodName(name) && IsRefPath(name)
    ensures var (r, files) := (Build(store, front + name, Encode(t) + junk, dir, [], -1), Layout(t, dir, Stem(name)));
            && (if Free(store, files) then r.Ok? else r == Fail(Leave(ERR_ALREADY_EXISTS)))
            && (r.Ok? ==> && r.value.flat == NodeList(t, dir, Stem(name), -1, 0)
                          && Written(files, r.value.store) && NothingElse(store, files, r.value.store))
  {
    hide Fold, Bytes, Build, IsRefPath, SubOrder, SubEntries, Limits, GoodKids, Free, Layout, NodeList, NamedBy, CreateAll, Fits, Encode;
    RefSuffix(front, name);
    KidNamed(front, name);
    LaidOut(t, front + name, dir, Stem(name), -1, 0);
    PackageRoundTrip(t, junk, store, front + name, dir);
    TreeFits(t, junk, front + name, dir);
    BuildComplete(Inner(ToPack(t)), store, front + name, Encode(t) + junk, dir, [], -1);
    if CreateAll(store, Layout(t, dir, Stem(name))).Ok? {
      CreatesOnly(store, Layout(t, dir, Stem(name)));
    }
  }

  lemma TreeFits(t: Tree, junk: seq<byte>, path: string, dir: string)
    requires Limits(t) && GoodKids(t) && IsRefPath(path)
    ensures Fits(Inner(ToPack(t)), path, dir, Encode(t) + junk)
  {
    hide Bytes, IsRefPath, Limits, GoodKids, Coherent, ToWire;
    PackFits(t, dir);
    assert Encode(t) <= Encode(t) + junk;
  }

  ghost predicate NothingElse(before: Store, files: seq<Entry>, after: Store) {
    forall key :: key in after ==> (key in before && after[key] == before[key]) || exists i :: 0 <= i < |files| && Fold(files[i].path) == key
  }

  lemma {:induction false} CreatesOnly(store: Store, files: seq<Entry>)
    requires CreateAll(store, files).Ok?
    ensures NothingElse(store, files, CreateAll(store, files).value)
    decreases |files|
  {
    hide Fold;
    if files != [] {
      var next := store[Fold(files[0].path) := files[0].content];
      CreatesOnly(next, files[1..]);
      forall key | key in CreateAll(store, files).value
        ensures (key in store && CreateAll(store, files).value[key] == store[key]) || exists i :: 0 <= i < |files| && Fold(files[i].path) == key
      {
        if key !in next || CreateAll(store, files).value[key] != next[key] {
          var i :| 0 <= i < |files[1..]| && Fold(files[1..][i].path) == key;
          assert Fold(files[i + 1].path) == key;
        } else if key == Fold(files[0].path) {
          assert Fold(files[0].path) == key;
        }
      }
    }
  }

  ghost predicate Written(files: seq<Entry>, store: Store) {
    forall i :: 0 <= i < |files| ==> Fold(files[i].path) in store && store[Fold(files[i].path)] == files[i].content
  }
}
