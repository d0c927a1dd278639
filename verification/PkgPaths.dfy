/** Where extracted files go: with well-chosen names no two files of a package
    tree share a path, and none is a directory of another. */
module PkgPaths {
  import opened Platform
  import opened BinFormat
  import opened Unpack
  import opened PkgTree

  predicate GoodName(name: string) {
    name != "" && '\\' !in name
  }

  /** Names are non-empty and separator-free, and siblings differ under case folding. */
  predicate GoodItems(items: seq<Item>) {
    && (forall i :: 0 <= i < |items| ==> GoodName(items[i].name))
    && (forall i, j :: 0 <= i < j < |items| ==> Fold(items[i].name) != Fold(items[j].name))
  }

  ghost predicate GoodNames(s: Sub)
    decreases s
  {
    s.Inner? ==> GoodItems(s.pack.wire.items) && forall i :: 0 <= i < |s.pack.subs| ==> GoodNames(s.pack.subs[i])
  }

  /** One path is the other, or a directory on the way to it. */
  predicate Clash(a: string, b: string) {
    a == b || a + "\\" <= b || b + "\\" <= a
  }

  predicate Apart(xs: seq<Entry>, ys: seq<Entry>) {
    forall i, j :: 0 <= i < |xs| && 0 <= j < |ys| ==> !Clash(Fold(xs[i].path), Fold(ys[j].path))
  }

  predicate AllApart(xs: seq<Entry>) {
    forall i, j :: 0 <= i < j < |xs| ==> !Clash(Fold(xs[i].path), Fold(xs[j].path))
  }

  predicate Under(dir: string, xs: seq<Entry>) {
    forall i :: 0 <= i < |xs| ==> dir <= Fold(xs[i].path)
  }

  /** The directory of a child, folded. */
  function ChildDir(embDir: string, name: string): string {
    Fold(embDir) + Fold(name) + "\\"
  }

  lemma AllApartConcat(xs: seq<Entry>, ys: seq<Entry>)
    requires AllApart(xs) && AllApart(ys) && Apart(xs, ys)
    ensures AllApart(xs + ys)
  {
    hide Fold, Clash;
  }

  lemma ApartConcat(xs: seq<Entry>, ys: seq<Entry>, zs: seq<Entry>)
    requires Apart(xs, ys) && Apart(xs, zs)
    ensures Apart(xs, ys + zs)
  {
    hide Fold, Clash;
  }

  lemma FoldSeparatorFree(name: string)
    requires '\\' !in name
    ensures '\\' !in Fold(name)
  {
    forall i | 0 <= i < |name| ensures Fold(name)[i] != '\\' {
      assert name[i] in name;
    }
  }

  lemma FoldItemPath(embDir: string, name: string)
    ensures Fold(ItemPath(embDir, name)) == ChildDir(embDir, name) + Fold(name)
    ensures Fold(embDir + name + "\\") == ChildDir(embDir, name)
  {
    FoldConcat(embDir, name);
    FoldConcat(embDir + name, "\\");
    FoldConcat(embDir + name + "\\", name);
    assert Fold("\\") == "\\";
  }

  lemma NotAmong(s: string, c: char)
    requires c !in s
    ensures forall i :: 0 <= i < |s| ==> s[i] != c
  {
  }

  /** Different separator-free names open directories that share nothing. */
  lemma ForkedNames(base: string, n: string, m: string, p: string)
    requires '\\' !in n && '\\' !in m
    requires base + n + "\\" <= p && base + m + "\\" <= p
    ensures n == m
  {
    var b := |base|;
    NotAmong(n, '\\');
    NotAmong(m, '\\');
    assert p[b + |n|] == '\\' && p[b + |m|] == '\\';
    assert forall i :: 0 <= i < |n| ==> p[b + i] == n[i];
    assert forall i :: 0 <= i < |m| ==> p[b + i] == m[i];
    assert forall i :: b <= i < b + |n| ==> p[i] == n[i - b];
    assert forall i :: b <= i < b + |m| ==> p[i] == m[i - b];
  }

  lemma ForkedDirs(embDir: string, n: string, m: string, xs: seq<Entry>, ys: seq<Entry>)
    requires '\\' !in n && '\\' !in m && Fold(n) != Fold(m)
    requires Under(ChildDir(embDir, n), xs) && Under(ChildDir(embDir, m), ys)
    ensures Apart(xs, ys)
  {
    FoldSeparatorFree(n);
    FoldSeparatorFree(m);
    forall i, j | 0 <= i < |xs| && 0 <= j < |ys|
      ensures !Clash(Fold(xs[i].path), Fold(ys[j].path))
    {
      var (a, b) := (Fold(xs[i].path), Fold(ys[j].path));
      if Clash(a, b) {
        var longer := if |a| <= |b| then b else a;
        assert ChildDir(embDir, n) <= longer && ChildDir(embDir, m) <= longer;
        ForkedNames(Fold(embDir), Fold(n), Fold(m), longer);
      }
    }
  }

  /** The directory in which a child is unpacked. */
  lemma ItemDir(embDir: string, name: string)
    requires '\\' !in name
    ensures DirOf(ItemPath(embDir, name)) == embDir + name + "\\"
    ensures '\\' !in NameOf(ItemPath(embDir, name))
  {
    var path := ItemPath(embDir, name);
    var k := |embDir + name + "\\"|;
    assert path[k..] == name;
    AfterLastUnique(path, '\\', k);
    assert path[..k] == embDir + name + "\\";
  }

  lemma NameClean(path: string)
    ensures '\\' !in NameOf(path)
  {
    var file := path[AfterLast(path, '\\')..];
    assert forall c :: c in NameOf(path) ==> c in file;
  }

  lemma TextName(dir: string, path: string) returns (t: string)
    ensures Fold(PkgFileName(dir, path)) == Fold(dir) + t
    ensures '\\' !in t && |t| >= 10 && t[|t| - 10..] == PKG_FILE_EXT
  {
    hide NameOf, Fold;
    var name := NameOf(path);
    NameClean(path);
    FoldConcat(dir + name, PKG_FILE_EXT);
    FoldConcat(dir, name);
    FoldSeparatorFree(name);
    assert Fold(PKG_FILE_EXT) == PKG_FILE_EXT;
    t := Fold(name) + PKG_FILE_EXT;
  }

  /** Only names with the package extension are unpacked. */
  lemma RefItemName(embDir: string, name: string)
    requires IsRefPath(ItemPath(embDir, name))
    ensures |name| >= 13 && Fold(name)[|name| - 13..] == BIN_PKG_EXT
  {
    hide Fold;
    var path := ItemPath(embDir, name);
    var dot := AfterLast(path, '.');
    var ext := path[dot - 1..];
    var k := |embDir + name|;
    assert |ext| == 13;
    assert path[k] == '\\' && path[k + 1..] == name;
    assert forall i :: 0 <= i < 13 ==> FoldChar(ext[i]) == BIN_PKG_EXT[i];
    assert forall i :: 0 <= i < 13 ==> BIN_PKG_EXT[i] != '\\';
    assert forall i :: dot - 1 <= i < dot + 12 ==> path[i] == ext[i - (dot - 1)];
    assert dot - 1 > k;
    assert ext == name[|name| - 13..];
  }

  // ---------------------------------------------------------------------------
  // The files of one package tree
  // ---------------------------------------------------------------------------

  /** Below its directory, a file of the tree is a package text or lies under children. */
  predicate Placed(dir: string, e: Entry) {
    var (d, k) := (Fold(dir), Fold(e.path));
    && d <= k
    && var r := k[|d|..];
       (CHILDREN_DIR <= r) || ('\\' !in r && |r| >= 10 && r[|r| - 10..] == PKG_FILE_EXT)
  }

  predicate AllPlaced(dir: string, xs: seq<Entry>) {
    forall i :: 0 <= i < |xs| ==> Placed(dir, xs[i])
  }

  lemma InChildren(dir: string, name: string, xs: seq<Entry>)
    requires Under(ChildDir(dir + CHILDREN_DIR, name), xs)
    ensures AllPlaced(dir, xs)
    ensures Under(Fold(dir) + CHILDREN_DIR, xs)
  {
    FoldConcat(dir, CHILDREN_DIR);
    assert Fold(CHILDREN_DIR) == CHILDREN_DIR;
    forall i | 0 <= i < |xs| ensures Placed(dir, xs[i]) && Fold(dir) + CHILDREN_DIR <= Fold(xs[i].path) {
      var k := Fold(xs[i].path);
      assert ChildDir(dir + CHILDREN_DIR, name) <= k;
      assert ChildDir(dir + CHILDREN_DIR, name) == (Fold(dir) + CHILDREN_DIR) + (Fold(name) + "\\");
      assert k[|Fold(dir)|..][..|CHILDREN_DIR|] == CHILDREN_DIR;
    }
  }

  /** A child's own file against the files unpacked from it. */
  lemma ChildApart(embDir: string, name: string, body: seq<byte>, xs: seq<Entry>)
    requires GoodName(name) && IsRefPath(ItemPath(embDir, name))
    requires AllPlaced(embDir + name + "\\", xs)
    ensures Apart([Entry(ItemPath(embDir, name), body)], xs)
  {
    FoldItemPath(embDir, name);
    RefItemName(embDir, name);
    FoldSeparatorFree(name);
    var (d, n) := (ChildDir(embDir, name), Fold(name));
    forall j | 0 <= j < |xs| ensures !Clash(d + n, Fold(xs[j].path)) {
      assert Placed(embDir + name + "\\", xs[j]);
      var k := Fold(xs[j].path);
      var r := k[|d|..];
      assert k == d + r;
      OwnFileApart(d, n, r);
    }
  }

  lemma OwnFileApart(d: string, n: string, r: string)
    requires '\\' !in n && |n| >= 13 && n[|n| - 13..] == BIN_PKG_EXT
    requires (CHILDREN_DIR <= r) || ('\\' !in r && |r| >= 10 && r[|r| - 10..] == PKG_FILE_EXT)
    ensures !Clash(d + n, d + r)
  {
    NotAmong(n, '\\');
    assert CHILDREN_DIR <= r ==> r[8] == CHILDREN_DIR[8];
    assert n[|n| - 10] == BIN_PKG_EXT[3];
    assert !(CHILDREN_DIR <= r) ==> r[|r| - 10] == PKG_FILE_EXT[0];
    assert n != r;
    assert n == (d + n)[|d|..] && r == (d + r)[|d|..];
    PrefixShift(d, n, r);
    if n + "\\" <= r {
      PrefixAt(n + "\\", r, if CHILDREN_DIR <= r then 8 else |n|);
    }
    PrefixShift(d, r, n);
    if r + "\\" <= n {
      PrefixAt(r + "\\", n, |r|);
    }
  }

  lemma PrefixAt(a: string, b: string, i: nat)
    requires a <= b && i < |a|
    ensures a[i] == b[i]
  {
  }

  lemma PrefixShift(d: string, a: string, b: string)
    ensures d + a + "\\" <= d + b <==> a + "\\" <= b
  {
    assert d + a + "\\" == d + (a + "\\");
    assert (d + (a + "\\"))[|d|..] == a + "\\";
    assert (d + b)[|d|..] == b;
    if a + "\\" <= b {
      assert b == (a + "\\") + b[|a| + 1..];
      assert d + b == d + (a + "\\") + b[|a| + 1..];
    }
    if d + a + "\\" <= d + b {
      assert a + "\\" == (d + b)[..|d| + |a| + 1][|d|..] == b[..|a| + 1];
    }
  }

  /** A package's text file against everything under its children directory. */
  lemma TextApart(dir: string, path: string, text: seq<byte>, xs: seq<Entry>)
    requires Under(Fold(dir) + CHILDREN_DIR, xs)
    ensures Apart([Entry(PkgFileName(dir, path), text)], xs)
    ensures Placed(dir, Entry(PkgFileName(dir, path), text))
  {
    hide Fold, NameOf, PkgFileName;
    var d := Fold(dir);
    var t := TextName(dir, path);
    NotAmong(t, '\\');
    assert (d + t)[|d|..] == t && (d + t)[|d| + 8] == t[8];
    forall j | 0 <= j < |xs| ensures !Clash(d + t, Fold(xs[j].path)) {
      var k := Fold(xs[j].path);
      assert d + CHILDREN_DIR <= k;
      assert k[|d| + 8] == (d + CHILDREN_DIR)[|d| + 8] == '\\';
      if d + t + "\\" <= k {
        PrefixAt(d + t + "\\", k, |d| + 8);
      }
      if k + "\\" <= d + t {
        PrefixAt(k + "\\", d + t, |d| + 8);
      }
    }
  }

  // ---------------------------------------------------------------------------
  // Induction over the tree
  // ---------------------------------------------------------------------------

  lemma ItemEntryUnder(embDir: string, e: Item)
    ensures Under(ChildDir(embDir, e.name), [ItemEntry(embDir, e)])
  {
    FoldItemPath(embDir, e.name);
  }

  lemma SubUnder(embDir: string, name: string, xs: seq<Entry>)
    requires AllPlaced(embDir + name + "\\", xs)
    ensures Under(ChildDir(embDir, name), xs)
  {
    FoldItemPath(embDir, name);
    forall i | 0 <= i < |xs| ensures ChildDir(embDir, name) <= Fold(xs[i].path) {
      assert Placed(embDir + name + "\\", xs[i]);
    }
  }

  lemma ItemsApart(embDir: string, items: seq<Item>)
    requires GoodItems(items)
    ensures AllApart(ItemEntries(embDir, items))
  {
    hide Fold, ItemPath, Clash;
    var es := ItemEntries(embDir, items);
    forall i, j | 0 <= i < j < |es| ensures !Clash(Fold(es[i].path), Fold(es[j].path)) {
      ItemEntryUnder(embDir, items[i]);
      ItemEntryUnder(embDir, items[j]);
      assert GoodName(items[i].name) && GoodName(items[j].name);
      ForkedDirs(embDir, items[i].name, items[j].name, [es[i]], [es[j]]);
      assert !Clash(Fold([es[i]][0].path), Fold([es[j]][0].path));
    }
  }

  lemma ItemsUnder(dir: string, items: seq<Item>)
    ensures Under(Fold(dir) + CHILDREN_DIR, ItemEntries(dir + CHILDREN_DIR, items))
    ensures AllPlaced(dir, ItemEntries(dir + CHILDREN_DIR, items))
  {
    hide Fold, ItemPath, Placed;
    var embDir := dir + CHILDREN_DIR;
    var es := ItemEntries(embDir, items);
    forall i | 0 <= i < |es| ensures Fold(dir) + CHILDREN_DIR <= Fold(es[i].path) && Placed(dir, es[i]) {
      ItemEntryUnder(embDir, items[i]);
      InChildren(dir, items[i].name, [es[i]]);
      assert [es[i]][0] == es[i];
    }
  }

  lemma PlacedConcat(dir: string, xs: seq<Entry>, ys: seq<Entry>)
    requires AllPlaced(dir, xs) && AllPlaced(dir, ys)
    ensures AllPlaced(dir, xs + ys)
  {
    hide Placed;
  }

  /** The files of a tree are apart from one another, and all lie in their places. */
  lemma {:induction false} TreeApart(s: Sub, path: string, data: seq<byte>, dir: string)
    requires Fits(s, path, dir, data) && GoodNames(s)
    ensures AllApart(SubEntries(s, path, dir)) && AllPlaced(dir, SubEntries(s, path, dir))
    decreases s, 1
  {
    hide Fold, Clash, Placed, PkgFileName, IsRefPath, ItemPath, DirOf, Under, GoodItems, ItemEntries, SubsEntries;
    if s.Inner? {
      var p := s.pack;
      var embDir := dir + CHILDREN_DIR;
      var text := [Entry(PkgFileName(dir, path), p.wire.text)];
      var files := ItemEntries(embDir, p.wire.items);
      var inner := SubsEntries(p.subs, p.wire.items, embDir);
      SubsApart(p.subs, p.wire.items, dir);
      ItemsApart(embDir, p.wire.items);
      ItemsUnder(dir, p.wire.items);
      assert p.wire.items == p.wire.items[|p.wire.items| - |p.wire.items|..];
      SubsApartFromItems(p.subs, p.wire.items, p.wire.items, dir);
      TreeApartJoin(dir, path, p.wire.text, files, inner);
      assert SubEntries(s, path, dir) == text + (files + inner);
    }
  }

  lemma TreeApartJoin(dir: string, path: string, text: seq<byte>, files: seq<Entry>, inner: seq<Entry>)
    requires AllApart(files) && AllApart(inner) && Apart(files, inner)
    requires AllPlaced(dir, files) && AllPlaced(dir, inner)
    requires Under(Fold(dir) + CHILDREN_DIR, files) && Under(Fold(dir) + CHILDREN_DIR, inner)
    ensures AllApart([Entry(PkgFileName(dir, path), text)] + (files + inner))
    ensures AllPlaced(dir, [Entry(PkgFileName(dir, path), text)] + (files + inner))
  {
    hide Fold, Clash, Placed, PkgFileName, Under;
    var first := [Entry(PkgFileName(dir, path), text)];
    AllApartConcat(files, inner);
    UnderConcat(Fold(dir) + CHILDREN_DIR, files, inner);
    TextApart(dir, path, text, files + inner);
    AllApartConcat(first, files + inner);
    PlacedConcat(dir, files, inner);
    PlacedConcat(dir, first, files + inner);
  }

  lemma UnderConcat(dir: string, xs: seq<Entry>, ys: seq<Entry>)
    requires Under(dir, xs) && Under(dir, ys)
    ensures Under(dir, xs + ys)
  {
    hide Fold;
  }

  /** What is unpacked from one child is apart and under the child's directory. */
  lemma {:induction false} ChildTree(s: Sub, e: Item, embDir: string)
    requires GoodName(e.name) && GoodNames(s)
    requires Fits(s, ItemPath(embDir, e.name), DirOf(ItemPath(embDir, e.name)), e.body)
    ensures var xs := SubEntries(s, ItemPath(embDir, e.name), DirOf(ItemPath(embDir, e.name)));
            && AllApart(xs)
            && Under(ChildDir(embDir, e.name), xs)
            && Apart([ItemEntry(embDir, e)], xs)
    decreases s, 2
  {
    hide Fold, Clash, Placed, PkgFileName, IsRefPath, ItemPath, DirOf, Under;
    var path := ItemPath(embDir, e.name);
    ItemDir(embDir, e.name);
    TreeApart(s, path, e.body, DirOf(path));
    var xs := SubEntries(s, path, DirOf(path));
    SubUnder(embDir, e.name, xs);
    if s.Inner? {
      ChildApart(embDir, e.name, e.body, xs);
    }
  }

  lemma {:induction false} SubsApart(subs: seq<Sub>, items: seq<Item>, dir: string)
    requires AllFit(subs, items, dir + CHILDREN_DIR) && GoodItems(items)
    requires forall i :: 0 <= i < |subs| ==> GoodNames(subs[i])
    ensures var xs := SubsEntries(subs, items, dir + CHILDREN_DIR);
            && AllApart(xs)
            && AllPlaced(dir, xs)
            && Under(Fold(dir) + CHILDREN_DIR, xs)
    decreases subs, 0
  {
    hide Fold, Clash, Placed, IsRefPath, ItemPath, DirOf, Fits, SubEntries;
    if subs != [] {
      var embDir := dir + CHILDREN_DIR;
      TailFits(subs, items, embDir);
      assert GoodName(items[0].name);
      ChildTree(subs[0], items[0], embDir);
      GoodTail(items);
      SubsApart(subs[1..], items[1..], dir);
      var path := ItemPath(embDir, items[0].name);
      var first := SubEntries(subs[0], path, DirOf(path));
      var rest := SubsEntries(subs[1..], items[1..], embDir);
      InChildren(dir, items[0].name, first);
      SubsForked(subs[1..], items[1..], dir, items[0].name, first);
      AllApartConcat(first, rest);
    }
  }

  lemma GoodTail(items: seq<Item>)
    requires items != [] && GoodItems(items)
    ensures GoodItems(items[1..])
    ensures forall i :: 0 <= i < |items[1..]| ==> Fold(items[1..][i].name) != Fold(items[0].name)
  {
    hide Fold;
  }

  /** Files under one child's directory against what is unpacked from other children. */
  lemma {:induction false} SubsForked(subs: seq<Sub>, items: seq<Item>, dir: string, name: string, xs: seq<Entry>)
    requires AllFit(subs, items, dir + CHILDREN_DIR) && GoodItems(items) && GoodName(name)
    requires forall i :: 0 <= i < |subs| ==> GoodNames(subs[i])
    requires forall i :: 0 <= i < |items| ==> Fold(items[i].name) != Fold(name)
    requires Under(ChildDir(dir + CHILDREN_DIR, name), xs)
    ensures Apart(xs, SubsEntries(subs, items, dir + CHILDREN_DIR))
    decreases subs, 0
  {
    hide Fold, Clash, Placed, IsRefPath, ItemPath, DirOf, Fits, SubEntries, Under;
    if subs != [] {
      var embDir := dir + CHILDREN_DIR;
      TailFits(subs, items, embDir);
      assert GoodName(items[0].name);
      ChildTree(subs[0], items[0], embDir);
      GoodTail(items);
      SubsForked(subs[1..], items[1..], dir, name, xs);
      var path := ItemPath(embDir, items[0].name);
      var first := SubEntries(subs[0], path, DirOf(path));
      ForkedDirs(embDir, name, items[0].name, xs, first);
      ApartConcat(xs, first, SubsEntries(subs[1..], items[1..], embDir));
    }
  }

  /** The children's own files against what is unpacked from any of them. */
  lemma {:induction false} SubsApartFromItems(subs: seq<Sub>, items: seq<Item>, all: seq<Item>, dir: string)
    requires AllFit(subs, items, dir + CHILDREN_DIR) && GoodItems(all)
    requires |items| <= |all| && items == all[|all| - |items|..]
    requires forall i :: 0 <= i < |subs| ==> GoodNames(subs[i])
    ensures Apart(ItemEntries(dir + CHILDREN_DIR, all), SubsEntries(subs, items, dir + CHILDREN_DIR))
    decreases subs, 0
  {
    hide Fold, Clash, Placed, IsRefPath, ItemPath, DirOf, Fits, SubEntries, Under;
    if subs != [] {
      var embDir := dir + CHILDREN_DIR;
      TailFits(subs, items, embDir);
      assert items[0] == all[|all| - |items|];
      assert GoodName(items[0].name);
      ChildTree(subs[0], items[0], embDir);
      SubsApartFromItems(subs[1..], items[1..], all, dir);
      var path := ItemPath(embDir, items[0].name);
      var first := SubEntries(subs[0], path, DirOf(path));
      ItemsApartFromChild(all, |all| - |items|, embDir, first);
      ApartConcat(ItemEntries(embDir, all), first, SubsEntries(subs[1..], items[1..], embDir));
    }
  }

  lemma ItemsApartFromChild(all: seq<Item>, k: nat, embDir: string, xs: seq<Entry>)
    requires k < |all| && GoodItems(all)
    requires Under(ChildDir(embDir, all[k].name), xs) && Apart([ItemEntry(embDir, all[k])], xs)
    ensures Apart(ItemEntries(embDir, all), xs)
  {
    hide Fold, Clash, ItemPath, Under;
    var es := ItemEntries(embDir, all);
    forall i, j | 0 <= i < |es| && 0 <= j < |xs| ensures !Clash(Fold(es[i].path), Fold(xs[j].path)) {
      if i == k {
        assert !Clash(Fold([ItemEntry(embDir, all[k])][0].path), Fold(xs[j].path));
      } else {
        ItemEntryUnder(embDir, all[i]);
        assert GoodName(all[i].name) && GoodName(all[k].name);
        ForkedDirs(embDir, all[i].name, all[k].name, [es[i]], xs);
        assert !Clash(Fold([es[i]][0].path), Fold(xs[j].path));
      }
    }
  }

  /** Files apart from one another and new to the store can all be created. */
  lemma {:induction false} ApartCreates(store: Store, entries: seq<Entry>)
    requires AllApart(entries)
    requires forall i :: 0 <= i < |entries| ==> Fold(entries[i].path) !in store
    ensures CreateAll(store, entries).Ok?
    decreases |entries|
  {
    hide Fold;
    if entries != [] {
      var more := store[Fold(entries[0].path) := entries[0].content];
      forall i | 0 <= i < |entries[1..]| ensures Fold(entries[1..][i].path) !in more {
        assert !Clash(Fold(entries[0].path), Fold(entries[i + 1].path));
      }
      ApartCreates(more, entries[1..]);
    }
  }

  ghost predicate Free(store: Store, entries: seq<Entry>) {
    forall i :: 0 <= i < |entries| ==> Fold(entries[i].path) !in store
  }

  /** What could be created was not there. */
  lemma {:induction false} CreatedWasFree(store: Store, entries: seq<Entry>)
    requires CreateAll(store, entries).Ok?
    ensures Free(store, entries)
    decreases |entries|
  {
    hide Fold;
    if entries != [] {
      CreatedWasFree(store[Fold(entries[0].path) := entries[0].content], entries[1..]);
      forall i | 0 <= i < |entries| ensures Fold(entries[i].path) !in store {
        assert i > 0 ==> entries[i] == entries[1..][i - 1];
      }
    }
  }

  /** For every package tree with good names, building it succeeds exactly if none of
      its paths is taken: it writes each file of the tree once, with its own content,
      and lists the tree in pre-order. */
  lemma BuildGoodTree(s: Sub, store: Store, path: string, data: seq<byte>, dir: string)
    requires s.Inner? && Fits(s, path, dir, data) && GoodNames(s)
    ensures var r := Build(store, path, data, dir, [], -1);
            && (if Free(store, SubEntries(s, path, dir)) then r.Ok? else r == Fail(Leave(ERR_ALREADY_EXISTS)))
            && (r.Ok? ==> Holding(s, path, dir, r.value))
  {
    hide Fold, Fits, GoodNames, SubEntries, SubOrder, Build, Clash;
    var es := SubEntries(s, path, dir);
    TreeApart(s, path, data, dir);
    if Free(store, es) {
      ApartCreates(store, es);
    }
    BuildComplete(s, store, path, data, dir, [], -1);
    if CreateAll(store, es).Ok? {
      CreatedWasFree(store, es);
      CreateAllContent(store, es);
    } else {
      OnlyTaken(store, es);
    }
    assert [] + SubOrder(s, path, dir, -1, 0) == SubOrder(s, path, dir, -1, 0);
  }

  /** The list is the tree's, and each of its files holds its own content. */
  ghost predicate Holding(s: Sub, path: string, dir: string, b: Built) {
    && b.flat == SubOrder(s, path, dir, -1, 0)
    && forall i :: 0 <= i < |SubEntries(s, path, dir)| ==>
         var e := SubEntries(s, path, dir)[i];
         Fold(e.path) in b.store && b.store[Fold(e.path)] == e.content
  }

  lemma {:induction false} OnlyTaken(store: Store, entries: seq<Entry>)
    requires CreateAll(store, entries).Fail?
    ensures CreateAll(store, entries) == Fail(Leave(ERR_ALREADY_EXISTS))
    decreases |entries|
  {
    if entries != [] && Fold(entries[0].path) !in store {
      OnlyTaken(store[Fold(entries[0].path) := entries[0].content], entries[1..]);
    }
  }
}
