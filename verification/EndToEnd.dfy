/** From what a package author writes to what the device registers: the format, the
    parser and the task put together. */
module EndToEnd {
  import opened Platform
  import opened PkgText
  import opened PkgTextLaws
  import opened Unpack
  import opened PkgTree
  import opened PkgPaths
  import opened PkgRoundTrip
  import opened Registry
  import opened InstallModel
  import opened InstallSpec
  import opened InstallSafety
  import opened InstallLaws
  import InstallRuns
  import BinFormat

  /** A package without components, with a record for a text, and bytes after its end. */
  ghost function Written(rec: Record, final: bool, junk: seq<byte>): seq<byte>
    requires |Join(Lines(rec), final)| <= BinFormat.BUFFER_LENGTH
  {
    Encode(Tree(Join(Lines(rec), final), [])) + junk
  }

  function TextKey(env: Env): string {
    Fold(PkgFileName(PRIVATE_DIR, env.path))
  }

  /** Such a package is unpacked into its text alone. */
  lemma SingleBuilt(text: seq<byte>, junk: seq<byte>, store: Store, path: string, dir: string)
    requires |text| <= BinFormat.BUFFER_LENGTH && IsRefPath(path)
    ensures Build(store, path, Encode(Tree(text, [])) + junk, dir, [], -1) ==
            if Fold(PkgFileName(dir, path)) in store then Fail(Leave(ERR_ALREADY_EXISTS))
            else Ok(Built(store[Fold(PkgFileName(dir, path)) := text], [Aux(PkgFileName(dir, path), false, -1)]))
  {
    hide Fold, BinFormat.Bytes, Build, IsRefPath, PkgFileName, BinFormat.ValidWire;
    var t := Tree(text, []);
    PackFits(t, dir);
    var s := Inner(ToPack(t));
    assert BinFormat.Bytes(ToWire(t)) <= Encode(t) + junk;
    assert Fits(s, path, dir, Encode(t) + junk);
    BuildComplete(s, store, path, Encode(t) + junk, dir, [], -1);
    var entries := SubEntries(s, path, dir);
    assert entries == [Entry(PkgFileName(dir, path), text)];
    assert entries[1..] == [];
    assert [] + SubOrder(s, path, dir, -1, 0) == [Aux(PkgFileName(dir, path), false, -1)];
  }

  lemma SortOne(list: seq<Listed>, sorted: seq<Listed>)
    requires |list| == 1 && Sorts(list, sorted)
    ensures sorted == list
  {
    assert |multiset(sorted)| == |multiset(list)| == 1;
    assert list[0] in multiset(sorted);
    assert sorted[0] in sorted;
  }

  lemma OneListed(env: Env, w: World, text: seq<byte>, junk: seq<byte>)
    requires Lawful(env) && |text| <= BinFormat.BUFFER_LENGTH && IsRefPath(env.path)
    requires env.data == Encode(Tree(text, [])) + junk
    requires TextKey(env) !in w.disk
    ensures var fileName := PkgFileName(PRIVATE_DIR, env.path);
            && Build(DiskStore(w.disk), env.path, env.data, PRIVATE_DIR, [], -1).Ok?
            && ListOf(env, w) == [Listed(fileName, false, true)]
            && TempsOf(env, w) == map[TextKey(env) := text]
  {
    hide Fold, Build, IsRefPath, PkgFileName, Encode;
    SingleBuilt(text, junk, DiskStore(w.disk), env.path, PRIVATE_DIR);
    var flat := [Aux(PkgFileName(PRIVATE_DIR, env.path), false, -1)];
    SortOne(Listing(flat), env.sort(Listing(flat)));
    assert Listing(flat) == [Listed(PkgFileName(PRIVATE_DIR, env.path), false, true)];
  }

  /** Installing what was written comes to registering the record, or to a refusal
      that leaves the device alone; which of them, the device and the user decide. */
  lemma WrittenInstalls(env: Env, w: World, rec: Record, final: bool, junk: seq<byte>)
    requires Lawful(env) && IsRefPath(env.path) && Valid(rec) && OneLine(rec)
    requires |Join(Lines(rec), final)| <= BinFormat.BUFFER_LENGTH && env.data == Written(rec, final, junk)
    requires TextKey(env) !in w.disk
    ensures var found := Lookup(env, w.scr.comps, rec);
            var verdict := Verdict(env, 0, w, map[TextKey(env) := Join(Lines(rec), final)], rec);
            if verdict.Fail? then Install(env, w) == Failure(verdict.fault, w)
            else
              && Install(env, w).Success?
              && Install(env, w).world == Added(Cleared(w, found), rec, env.inactive)
              && Install(env, w).ids == [w.scr.nextId]
              && Install(env, w).executions == |rec.files| + 7 + if found.status == UPGRADE then |FilesOf(w.scr, found.id)| + 2 else 0
  {
    hide Fold, Build, IsRefPath, PkgFileName, Encode, Lawful, Valid, OneLine, Lines, Join, Lookup, Verdict, Added, Parse;
    var text := Join(Lines(rec), final);
    OneListed(env, w, text, junk);
    TextRoundTrip(rec, final);
    var list := ListOf(env, w);
    var temps := TempsOf(env, w);
    assert Heads(list) == 0;
    assert RecordAt(temps, list[0].fileName) == Ok(rec);
    assert IdsFrom(list, 1, w.scr.nextId + 1) == [];
    OneOnly(env, list, w, temps);
  }

  lemma OneOnly(env: Env, list: seq<Listed>, w: World, temps: Store)
    requires |list| == 1
    ensures InstallFrom(env, list, 0, w, temps) == InstallOne(env, 0, w, temps, list[0].fileName)
    ensures InstallFrom(env, list, 0, w, temps).Ok? ==> CostFrom(env, list, 0, w, temps) == CostOne(env, 0, w, temps, list[0].fileName)
  {
    hide InstallOne, CostOne;
    var r := InstallOne(env, 0, w, temps, list[0].fileName);
    if r.Ok? {
      assert InstallFrom(env, list, 1, r.value, temps) == Ok(r.value);
      assert CostFrom(env, list, 1, r.value, temps) == 0;
    }
  }

  // ---------------------------------------------------------------------------
  // Whole trees
  // ---------------------------------------------------------------------------

  /** The text of each package of a tree in pre-order; none for another installer's
      file. */
  function Texts(t: Tree): seq<Option<Text>>
    decreases t, 1
  {
    [Some(t.text)] + KidTexts(t, 0)
  }

  function KidTexts(t: Tree, k: nat): seq<Option<Text>>
    decreases t, 0, |t.kids| - k
  {
    if k >= |t.kids| then []
    else KidText(t, k) + KidTexts(t, k + 1)
  }

  function KidText(t: Tree, k: nat): seq<Option<Text>>
    requires k < |t.kids|
    decreases t, 0, 0
  {
    match t.kids[k].content
    case File(_) => [None]
    case Package(sub) => Texts(sub)
  }

  /** Node by node, a list of nodes goes with texts that are among the entries. */
  ghost predicate Carries(flat: seq<Aux>, texts: seq<Option<Text>>, entries: seq<Entry>) {
    && |flat| == |texts|
    && forall i :: 0 <= i < |flat| ==>
         if texts[i].None? then flat[i].foreign else !flat[i].foreign && Entry(flat[i].fileName, texts[i].value) in entries
  }

  lemma CarriesConcat(a: seq<Aux>, b: seq<Aux>, s: seq<Option<Text>>, t: seq<Option<Text>>, xs: seq<Entry>, ys: seq<Entry>)
    requires Carries(a, s, xs) && Carries(b, t, ys)
    ensures Carries(a + b, s + t, xs + ys)
  {
    forall i | 0 <= i < |a| + |b|
      ensures if (s + t)[i].None? then (a + b)[i].foreign
              else !(a + b)[i].foreign && Entry((a + b)[i].fileName, (s + t)[i].value) in xs + ys
    {
    }
  }

  lemma {:induction false} TreeCarries(t: Tree, path: string, dir: string, parent: int, base: nat)
    requires Limits(t)
    ensures var s := Inner(ToPack(t));
            Carries(SubOrder(s, path, dir, parent, base), Texts(t), SubEntries(s, path, dir))
    decreases t, 1
  {
    hide Limits, ToWire, BinFormat.Bytes, PkgFileName, DirOf, ItemPath;
    var p := ToPack(t);
    KidsCarry(t, 0, dir + CHILDREN_DIR, base, base + 1);
    assert p.subs[0..] == p.subs && p.wire.items[0..] == p.wire.items;
    var own := WireEntries(p.wire, path, dir);
    FirstEntry(t, path, dir);
    var root := Aux(PkgFileName(dir, path), false, parent);
    assert Carries([root], [Some(t.text)], own);
    CarriesConcat([root], SubsOrder(p.subs, p.wire.items, dir + CHILDREN_DIR, base, base + 1), [Some(t.text)], KidTexts(t, 0),
                  own, SubsEntries(p.subs, p.wire.items, dir + CHILDREN_DIR));
  }

  lemma FirstEntry(t: Tree, path: string, dir: string)
    requires Limits(t)
    ensures Entry(PkgFileName(dir, path), t.text) in WireEntries(ToPack(t).wire, path, dir)
    ensures |ToPack(t).subs| == |ToPack(t).wire.items| == |t.kids|
    ensures forall k :: 0 <= k < |t.kids| ==> ToPack(t).subs[k] == ToSub(t, k) && ToPack(t).wire.items[k] == ToItem(t, k)
  {
    hide ToItem, ToSub, PkgFileName, ItemPath;
    WireParts(t);
    var own := WireEntries(ToPack(t).wire, path, dir);
    assert own[0] == Entry(PkgFileName(dir, path), t.text);
  }

  lemma {:induction false} KidsCarry(t: Tree, k: nat, embDir: string, parent: int, base: nat)
    requires Limits(t) && k <= |t.kids|
    ensures |ToPack(t).subs| == |ToPack(t).wire.items| == |t.kids|
    ensures var p := ToPack(t);
            Carries(SubsOrder(p.subs[k..], p.wire.items[k..], embDir, parent, base), KidTexts(t, k), SubsEntries(p.subs[k..], p.wire.items[k..], embDir))
    decreases t, 0, |t.kids| - k
  {
    hide ToWire, BinFormat.Bytes, PkgFileName, DirOf, ItemPath, ToPack, ToItem, ToSub, Texts, KidText, SubOrder, SubsOrder, SubEntries,
         SubsEntries, Carries, Limits;
    FirstEntry(t, "", "");
    var p := ToPack(t);
    var (subs, items) := (p.subs[k..], p.wire.items[k..]);
    if k < |t.kids| {
      NextKid(t, k);
      var path := ItemPath(embDir, items[0].name);
      KidCarries(t, k, path, parent, base);
      KidsCarry(t, k + 1, embDir, parent, base + |SubOrder(subs[0], path, DirOf(path), parent, base)|);
      CarriesStep(subs, items, embDir, parent, base, KidText(t, k), KidTexts(t, k + 1));
    } else {
      NoKids(subs, items, embDir, parent, base);
    }
  }

  lemma NextKid(t: Tree, k: nat)
    requires Limits(t) && k < |t.kids| == |ToPack(t).subs| == |ToPack(t).wire.items|
    ensures ToPack(t).subs[k..][0] == ToSub(t, k) && ToPack(t).subs[k..][1..] == ToPack(t).subs[k + 1..]
    ensures ToPack(t).wire.items[k..][1..] == ToPack(t).wire.items[k + 1..]
  {
    hide ToWire, ToSub;
  }

  lemma NoKids(subs: seq<Sub>, items: seq<BinFormat.Item>, embDir: string, parent: int, base: nat)
    requires subs == [] && items == []
    ensures Carries(SubsOrder(subs, items, embDir, parent, base), [], SubsEntries(subs, items, embDir))
  {
  }

  lemma CarriesStep(subs: seq<Sub>, items: seq<BinFormat.Item>, embDir: string, parent: int, base: nat,
                    first: seq<Option<Text>>, rest: seq<Option<Text>>)
    requires subs != [] && items != []
    requires var path := ItemPath(embDir, items[0].name);
             var order := SubOrder(subs[0], path, DirOf(path), parent, base);
             && Carries(order, first, SubEntries(subs[0], path, DirOf(path)))
             && Carries(SubsOrder(subs[1..], items[1..], embDir, parent, base + |order|), rest, SubsEntries(subs[1..], items[1..], embDir))
    ensures Carries(SubsOrder(subs, items, embDir, parent, base), first + rest, SubsEntries(subs, items, embDir))
  {
    hide Carries, DirOf, ItemPath, SubOrder, SubEntries;
    var path := ItemPath(embDir, items[0].name);
    var order := SubOrder(subs[0], path, DirOf(path), parent, base);
    CarriesConcat(order, SubsOrder(subs[1..], items[1..], embDir, parent, base + |order|), first, rest,
                  SubEntries(subs[0], path, DirOf(path)), SubsEntries(subs[1..], items[1..], embDir));
  }

  lemma {:induction false} KidCarries(t: Tree, k: nat, path: string, parent: int, base: nat)
    requires Limits(t) && k < |t.kids|
    ensures Carries(SubOrder(ToSub(t, k), path, DirOf(path), parent, base), KidText(t, k), SubEntries(ToSub(t, k), path, DirOf(path)))
    decreases t, 0, 0
  {
    hide ToWire, BinFormat.Bytes, PkgFileName, DirOf, ItemPath, ToPack, Texts;
    assert KidLimits(t.kids[k]);
    match t.kids[k].content
    case File(_) =>
    case Package(sub) => TreeCarries(sub, path, DirOf(path), parent, base);
  }

  /** The request is to install the file of a tree of packages. */
  ghost predicate TreeData(env: Env, t: Tree, junk: seq<byte>) {
    Limits(t) && GoodKids(t) && IsRefPath(env.path) && env.data == Encode(t) + junk
  }

  /** No path of the tree is taken. */
  ghost predicate Unpacks(env: Env, w: World, t: Tree)
    requires Limits(t)
  {
    Free(DiskStore(w.disk), SubEntries(Inner(ToPack(t)), env.path, PRIVATE_DIR))
  }

  ghost predicate TreeFile(env: Env, w: World, t: Tree, junk: seq<byte>) {
    TreeData(env, t, junk) && Unpacks(env, w, t)
  }

  /** The nodes of the tree in pre-order. */
  ghost function Nodes(env: Env, t: Tree): seq<Listed>
    requires Limits(t)
  {
    Listing(SubOrder(Inner(ToPack(t)), env.path, PRIVATE_DIR, -1, 0))
  }

  /** A node reads as the parser reads its text. */
  ghost predicate Reads(node: Listed, text: Option<Text>, temps: Store) {
    if text.None? then node.foreign else !node.foreign && RecordAt(temps, node.fileName) == Parse(text.value)
  }

  /** What the task works through is a sort of the nodes of the tree, and at each of
      them it reads that package's own text. */
  lemma TreeListed(env: Env, w: World, t: Tree, junk: seq<byte>)
    requires Lawful(env) && TreeFile(env, w, t, junk)
    ensures ListOf(env, w) == env.sort(Nodes(env, t)) && Sorts(Nodes(env, t), ListOf(env, w)) && |Nodes(env, t)| == |Texts(t)|
    ensures forall i :: 0 <= i < |Texts(t)| ==> Reads(Nodes(env, t)[i], Texts(t)[i], TempsOf(env, w))
    ensures Nodes(env, t)[0].root && forall i :: 1 <= i < |Texts(t)| ==> !Nodes(env, t)[i].root
    ensures var b := Build(DiskStore(w.disk), env.path, env.data, PRIVATE_DIR, [], -1);
            b.Ok? && b.value.flat == SubOrder(Inner(ToPack(t)), env.path, PRIVATE_DIR, -1, 0)
  {
    hide Limits, GoodKids, Fold, Build, IsRefPath, Encode, ToPack, SubOrder, SubEntries, Sorts, Parse, Texts;
    var (s, store) := (Inner(ToPack(t)), DiskStore(w.disk));
    PackageRoundTrip(t, junk, store, env.path, PRIVATE_DIR);
    var b := Build(store, env.path, env.data, PRIVATE_DIR, [], -1).value;
    TreeCarries(t, env.path, PRIVATE_DIR, -1, 0);
    var entries := SubEntries(s, env.path, PRIVATE_DIR);
    assert Holding(s, env.path, PRIVATE_DIR, b);
    assert Carries(b.flat, Texts(t), entries);
    RootOnly(store, env.path, env.data);
    forall i | 0 <= i < |Texts(t)| ensures Reads(Nodes(env, t)[i], Texts(t)[i], TempsOf(env, w)) {
      if Texts(t)[i].Some? {
        var e := Entry(b.flat[i].fileName, Texts(t)[i].value);
        var k :| 0 <= k < |entries| && entries[k] == e;
        assert Fold(e.path) in b.store && b.store[Fold(e.path)] == e.content;
        assert Fold(e.path) !in store;
      }
    }
  }

  lemma RootOnly(store: Store, path: string, data: seq<byte>)
    requires Build(store, path, data, PRIVATE_DIR, [], -1).Ok?
    ensures var flat := Build(store, path, data, PRIVATE_DIR, [], -1).value.flat;
            && flat != [] && flat[0].parent < 0 && forall i :: 1 <= i < |flat| ==> flat[i].parent >= 0
  {
    hide Build, Fold, IsRefPath;
    ListShape(store, path, data, PRIVATE_DIR);
    var flat := Build(store, path, data, PRIVATE_DIR, [], -1).value.flat;
    forall i | 1 <= i < |flat| ensures flat[i].parent >= 0 {
      assert WithinRun(flat, i, 0);
    }
  }

  /** What an author printed as one text. */
  datatype Page = Page(rec: Record, final: bool)

  predicate Printed(text: Option<Text>, page: Option<Page>) {
    match page
    case None => text.None?
    case Some(p) => Valid(p.rec) && OneLine(p.rec) && text == Some(Join(Lines(p.rec), p.final))
  }

  ghost predicate AllPrinted(t: Tree, pages: seq<Option<Page>>) {
    |pages| == |Texts(t)| && forall i :: 0 <= i < |pages| ==> Printed(Texts(t)[i], pages[i])
  }

  /** What is read at a node: nothing for another installer's file. */
  function ReadAt(node: Listed, temps: Store): Option<Record> {
    if node.foreign || RecordAt(temps, node.fileName).Fail? then None else Some(RecordAt(temps, node.fileName).value)
  }

  function ReadAll(list: seq<Listed>, temps: Store): (r: seq<Option<Record>>)
    ensures |r| == |list|
    ensures forall i :: 0 <= i < |r| ==> r[i] == ReadAt(list[i], temps)
  {
    seq(|list|, i requires 0 <= i < |list| => ReadAt(list[i], temps))
  }

  function RecordsOf(pages: seq<Option<Page>>): (r: seq<Option<Record>>)
    ensures |r| == |pages|
    ensures forall i :: 0 <= i < |r| ==> r[i] == if pages[i].None? then None else Some(pages[i].value.rec)
  {
    seq(|pages|, i requires 0 <= i < |pages| => if pages[i].None? then None else Some(pages[i].value.rec))
  }

  function Without<T>(s: seq<T>, k: nat): seq<T>
    requires k < |s|
  {
    s[..k] + s[k + 1..]
  }

  lemma Taken<T>(s: seq<T>, k: nat)
    requires k < |s|
    ensures multiset(s) == multiset(Without(s, k)) + multiset{s[k]}
  {
    assert s == s[..k] + [s[k]] + s[k + 1..];
  }

  lemma SameLeft<T>(a: seq<T>, b: seq<T>, k: nat)
    requires a != [] && k < |b| && b[k] == a[0] && multiset(a) == multiset(b)
    ensures multiset(a[1..]) == multiset(Without(b, k))
  {
    Taken(b, k);
    assert a == [a[0]] + a[1..];
    hide Without;
    assert multiset(a) == multiset(a[1..]) + multiset{a[0]};
    assert multiset(a[1..]) == multiset(a) - multiset{a[0]};
    assert multiset(Without(b, k)) == multiset(b) - multiset{a[0]};
  }

  lemma ReadWithout(s: seq<Listed>, k: nat, temps: Store)
    requires k < |s|
    ensures Without(ReadAll(s, temps), k) == ReadAll(Without(s, k), temps)
  {
    hide ReadAt;
  }

  lemma ReadFirst(a: seq<Listed>, temps: Store)
    requires a != []
    ensures ReadAll(a, temps) == [ReadAt(a[0], temps)] + ReadAll(a[1..], temps)
  {
    hide ReadAt;
  }

  lemma {:induction false} SameReads(a: seq<Listed>, b: seq<Listed>, temps: Store)
    requires multiset(a) == multiset(b)
    ensures multiset(ReadAll(a, temps)) == multiset(ReadAll(b, temps))
    decreases |a|
  {
    hide ReadAt, ReadAll, Without;
    if a == [] {
      assert |multiset(b)| == 0;
    } else {
      var k := PlaceIn(a[0], a, b);
      SameLeft(a, b, k);
      SameReads(a[1..], Without(b, k), temps);
      ReadFirst(a, temps);
      ReadWithout(b, k, temps);
      Taken(ReadAll(b, temps), k);
    }
  }

  lemma PlaceIn<T>(x: T, a: seq<T>, b: seq<T>) returns (k: nat)
    requires x in a && multiset(a) == multiset(b)
    ensures k < |b| && b[k] == x
  {
    assert x in multiset(a);
    k :| 0 <= k < |b| && b[k] == x;
  }

  lemma ReadsPages(nodes: seq<Listed>, list: seq<Listed>, texts: seq<Option<Text>>, pages: seq<Option<Page>>, temps: Store)
    requires Sorts(nodes, list) && |nodes| == |texts| == |pages|
    requires forall i :: 0 <= i < |texts| ==> Reads(nodes[i], texts[i], temps)
    requires forall i :: 0 <= i < |pages| ==> Printed(texts[i], pages[i])
    ensures multiset(ReadAll(list, temps)) == multiset(RecordsOf(pages))
  {
    hide Printed, Reads, RecordAt;
    assert Sorts(nodes, list) ==> multiset(nodes) == multiset(list);
    SameReads(nodes, list, temps);
    var (x, y) := (ReadAll(nodes, temps), RecordsOf(pages));
    forall i | 0 <= i < |pages| ensures x[i] == y[i] {
      PrintedReads(nodes[i], texts[i], pages[i], temps);
    }
    assert x == y;
  }

  lemma PrintedReads(node: Listed, text: Option<Text>, page: Option<Page>, temps: Store)
    requires Reads(node, text, temps) && Printed(text, page)
    ensures node.foreign == page.None?
    ensures page.Some? ==> RecordAt(temps, node.fileName) == Ok(page.value.rec)
  {
    hide Valid, OneLine, Lines, Join, Parse, RecordAt;
    if page.Some? {
      TextRoundTrip(page.value.rec, page.value.final);
    }
  }

  /** The record has an identifier of its own in the list, and is registered under it
      unless, and only if, a later package replaces it. */
  ghost predicate InPlace(env: Env, list: seq<Listed>, f: nat, before: World, temps: Store, node: Listed, rec: Record,
                          offset: int, after: Components, j: int)
  {
    && f <= j < |list| && list[j] == node
    && RecordAt(temps, node.fileName) == Ok(rec)
    && RegisteredOrReplaced(env, list, f, before, temps, j, offset, after)
  }

  ghost predicate HasPlace(env: Env, list: seq<Listed>, f: nat, before: World, temps: Store, node: Listed, rec: Record,
                           offset: int, after: Components)
  {
    exists j :: InPlace(env, list, f, before, temps, node, rec, offset, after, j)
  }

  lemma FindPlace(env: Env, list: seq<Listed>, f: nat, before: World, temps: Store, nodes: seq<Listed>, i: nat, rec: Record,
                  offset: int, after: Components)
    requires Sorts(nodes, list) && i < |nodes| && !nodes[i].foreign && RecordAt(temps, nodes[i].fileName) == Ok(rec)
    requires f <= |list| && forall k :: 0 <= k < f ==> list[k].foreign
    requires forall j :: f <= j < |list| ==> RegisteredOrReplaced(env, list, f, before, temps, j, offset, after)
    ensures HasPlace(env, list, f, before, temps, nodes[i], rec, offset, after)
  {
    hide RecordAt, RegisteredOrReplaced, Sorts;
    var j := InSorted(nodes, list, f, i);
    assert InPlace(env, list, f, before, temps, nodes[i], rec, offset, after, j);
  }

  /** Installing a tree of written packages: what a successful run reads from its list
      are the records of the tree, each as often as it is there; every one of them is
      registered, under the identifier of its position, with its names, version and
      files, unless and only if a later package of the tree replaces it; and the
      identifier reported is that of the root's record. */
  lemma TreeInstalls(env: Env, w: World, t: Tree, pages: seq<Option<Page>>, junk: seq<byte>) returns (f: nat, root: nat, offset: int)
    requires Lawful(env) && TreeFile(env, w, t, junk) && AllPrinted(t, pages) && Install(env, w).Success?
    requires IdsBelow(AfterNested(env, Heads(ListOf(env, w)), w).scr)
    ensures f == Heads(ListOf(env, w)) && |Nodes(env, t)| == |pages| && |pages| > 0 && pages[0].Some?
    ensures multiset(ReadAll(ListOf(env, w), TempsOf(env, w))) == multiset(RecordsOf(pages))
    ensures var (list, before, after) := (ListOf(env, w), AfterNested(env, f, w), Install(env, w).world.scr.comps);
            && (forall j :: f <= j < |list| ==> RegisteredOrReplaced(env, list, f, before, TempsOf(env, w), j, offset, after))
            && (forall i :: 0 <= i < |pages| && pages[i].Some? ==>
                  HasPlace(env, list, f, before, TempsOf(env, w), Nodes(env, t)[i], pages[i].value.rec, offset, after))
            && InPlace(env, list, f, before, TempsOf(env, w), Nodes(env, t)[0], pages[0].value.rec, offset, after, root)
            && offset == before.scr.nextId - f && Install(env, w).ids == [offset + root]
  {
    hide Lawful, Install, TempsOf, ListOf, Nodes, TreeFile, Encode, Texts, Printed, Reads, Sorts, RegisteredOrReplaced,
         KeptOrReplaced, AfterNested, IdsBelow, RecordAt, Heads, HasPlace, InPlace, InstallRuns.Ordered, Lookup, ComponentOf, Replaced, Build,
         GoodKids, Free, IsRefPath, SubEntries, ToPack, Parse, Fold, Valid, OneLine;
    LimitsOf(env, w, t, junk);
    hide Limits;
    TreeListed(env, w, t, junk);
    FirstPage(t, pages);
    f, root, offset := InstallEffect(env, w);
    ReadsPages(Nodes(env, t), ListOf(env, w), Texts(t), pages, TempsOf(env, w));
    EachPlaced(env, ListOf(env, w), f, root, AfterNested(env, f, w), TempsOf(env, w), Nodes(env, t), Texts(t), pages, offset,
               Install(env, w).world.scr.comps);
  }

  lemma LimitsOf(env: Env, w: World, t: Tree, junk: seq<byte>)
    requires TreeFile(env, w, t, junk)
    ensures Limits(t)
  {
  }

  lemma EachPlaced(env: Env, list: seq<Listed>, f: nat, root: nat, before: World, temps: Store, nodes: seq<Listed>,
                   texts: seq<Option<Text>>, pages: seq<Option<Page>>, offset: int, after: Components)
    requires Sorts(nodes, list) && InstallRuns.Ordered(list, f, root) && |nodes| == |texts| == |pages| > 0 && pages[0].Some?
    requires forall i :: 1 <= i < |nodes| ==> !nodes[i].root
    requires forall i :: 0 <= i < |texts| ==> Reads(nodes[i], texts[i], temps)
    requires forall i :: 0 <= i < |pages| ==> Printed(texts[i], pages[i])
    requires forall j :: f <= j < |list| ==> RegisteredOrReplaced(env, list, f, before, temps, j, offset, after)
    ensures forall i :: 0 <= i < |pages| && pages[i].Some? ==>
              HasPlace(env, list, f, before, temps, nodes[i], pages[i].value.rec, offset, after)
    ensures InPlace(env, list, f, before, temps, nodes[0], pages[0].value.rec, offset, after, root)
  {
    hide Sorts, InstallRuns.Ordered, Printed, Reads, HasPlace, RegisteredOrReplaced, RecordAt;
    ForeignHead(list, f, root);
    OneRoot(nodes, list, f, root);
    PrintedReads(nodes[0], texts[0], pages[0], temps);
    forall i | 0 <= i < |pages| && pages[i].Some?
      ensures HasPlace(env, list, f, before, temps, nodes[i], pages[i].value.rec, offset, after)
    {
      PrintedReads(nodes[i], texts[i], pages[i], temps);
      FindPlace(env, list, f, before, temps, nodes, i, pages[i].value.rec, offset, after);
    }
  }

  lemma ForeignHead(list: seq<Listed>, f: nat, root: nat)
    requires InstallRuns.Ordered(list, f, root)
    ensures f <= root < |list| && forall k :: 0 <= k < f ==> list[k].foreign
  {
  }

  lemma FirstPage(t: Tree, pages: seq<Option<Page>>)
    requires AllPrinted(t, pages)
    ensures |pages| > 0 && pages[0].Some?
  {
    hide Valid, OneLine, Lines, Join;
    assert Texts(t)[0] == Some(t.text);
    assert Printed(Texts(t)[0], pages[0]);
  }

  lemma OneRoot(nodes: seq<Listed>, list: seq<Listed>, f: nat, root: nat)
    requires Sorts(nodes, list) && InstallRuns.Ordered(list, f, root)
    requires nodes != [] && forall i :: 1 <= i < |nodes| ==> !nodes[i].root
    ensures list[root] == nodes[0]
  {
    assert list[root] in multiset(list);
    assert list[root] in nodes;
  }

  lemma InSorted(nodes: seq<Listed>, list: seq<Listed>, f: nat, i: nat) returns (j: nat)
    requires Sorts(nodes, list) && i < |nodes| && !nodes[i].foreign
    requires f <= |list| && forall k :: 0 <= k < f ==> list[k].foreign
    ensures f <= j < |list| && list[j] == nodes[i]
  {
    assert nodes[i] in multiset(nodes);
    assert nodes[i] in list;
    j :| 0 <= j < |list| && list[j] == nodes[i];
  }

  // ---------------------------------------------------------------------------
  // When a tree installs
  // ---------------------------------------------------------------------------

  /** The records one after the other, the first of them at position i of the list: each
      must be let through in the state to which those before it have led. */
  function AdmitFrom(env: Env, records: seq<Record>, i: nat, view: World, temps: Store): Outcome<World>
    requires forall k :: 0 <= k < |records| ==> Complete(records[k])
    decreases |records|
  {
    if records == [] then Ok(view) else
    var _ :- Verdict(env, i, view, temps, records[0]);
    AdmitFrom(env, records[1..], i + 1, Added(Cleared(view, Lookup(env, view.scr.comps, records[0])), records[0], env.inactive), temps)
  }

  /** The nodes from position i on are those of the records. */
  ghost predicate ReadFrom(list: seq<Listed>, i: nat, temps: Store, records: seq<Record>) {
    && i <= |list| && |records| == |list| - i
    && forall j, k :: i <= j < |list| && k == j - i ==> RecordAt(temps, list[j].fileName) == Ok(records[k])
  }

  lemma ReadComplete(list: seq<Listed>, i: nat, temps: Store, records: seq<Record>)
    requires ReadFrom(list, i, temps, records)
    ensures forall k :: 0 <= k < |records| ==> Complete(records[k])
  {
    hide Complete, RecordAt;
    forall k | 0 <= k < |records| ensures Complete(records[k]) {
      var j := i + k;
      assert RecordAt(temps, list[j].fileName) == Ok(records[k]);
    }
  }

  lemma {:induction false} AdmitsAsInstalls(env: Env, list: seq<Listed>, i: nat, view: World, temps: Store, records: seq<Record>)
    requires ReadFrom(list, i, temps, records)
    ensures forall k :: 0 <= k < |records| ==> Complete(records[k])
    ensures AdmitFrom(env, records, i, view, temps) == InstallFrom(env, list, i, view, temps)
    decreases |records|
  {
    ReadComplete(list, i, temps, records);
    hide Complete, RecordAt, Verdict, Added, Cleared, Lookup;
    if records != [] {
      assert RecordAt(temps, list[i].fileName) == Ok(records[0]);
      var one := InstallOne(env, i, view, temps, list[i].fileName);
      assert ReadFrom(list, i + 1, temps, records[1..]);
      if one.Ok? {
        AdmitsAsInstalls(env, list, i + 1, one.value, temps, records[1..]);
      }
    }
  }

  /** The records that are read from position i on. */
  function ReadRecords(list: seq<Listed>, i: nat, temps: Store): (r: seq<Record>)
    requires i <= |list| && forall j :: i <= j < |list| ==> RecordAt(temps, list[j].fileName).Ok?
    ensures |r| == |list| - i
    decreases |list| - i
  {
    if i == |list| then [] else [RecordAt(temps, list[i].fileName).value] + ReadRecords(list, i + 1, temps)
  }

  lemma {:induction false} ReadInOrder(list: seq<Listed>, i: nat, temps: Store)
    requires i <= |list| && forall j :: i <= j < |list| ==> RecordAt(temps, list[j].fileName).Ok?
    ensures ReadFrom(list, i, temps, ReadRecords(list, i, temps))
    decreases |list| - i
  {
    hide RecordAt;
    if i < |list| {
      ReadInOrder(list, i + 1, temps);
      var (rest, all) := (ReadRecords(list, i + 1, temps), ReadRecords(list, i, temps));
      forall j, k | i <= j < |list| && k == j - i ensures RecordAt(temps, list[j].fileName) == Ok(all[k]) {
        var before := k - 1;
        assert j > i ==> all[k] == rest[before] && before == j - (i + 1);
      }
    }
  }

  /** A node that is not foreign has a record in it. */
  lemma AllReadable(nodes: seq<Listed>, list: seq<Listed>, f: nat, texts: seq<Option<Text>>, pages: seq<Option<Page>>, temps: Store)
    requires Sorts(nodes, list) && |nodes| == |texts| == |pages|
    requires f <= |list| && forall j :: f <= j < |list| ==> !list[j].foreign
    requires forall i :: 0 <= i < |texts| ==> Reads(nodes[i], texts[i], temps)
    requires forall i :: 0 <= i < |pages| ==> Printed(texts[i], pages[i])
    ensures forall j :: f <= j < |list| ==> RecordAt(temps, list[j].fileName).Ok?
  {
    hide Printed, Reads, RecordAt;
    forall j | f <= j < |list| ensures RecordAt(temps, list[j].fileName).Ok? {
      assert list[j] in multiset(list);
      assert list[j] in nodes;
      var i :| 0 <= i < |nodes| && nodes[i] == list[j];
      PrintedReads(nodes[i], texts[i], pages[i], temps);
    }
  }

  /** A request for a tree of written packages as a whole: it is refused if a path of the
      tree is taken; otherwise a failed nested installation ends it; otherwise the
      records are taken in the order of the list, and it succeeds exactly if each of them
      is let through. The first that is not gives the fault. */
  lemma TreeOutcome(env: Env, w: World, t: Tree, pages: seq<Option<Page>>, junk: seq<byte>) returns (f: nat, records: seq<Record>)
    requires Lawful(env) && TreeData(env, t, junk) && AllPrinted(t, pages)
    ensures f == Heads(ListOf(env, w)) && forall k :: 0 <= k < |records| ==> Complete(records[k])
    ensures !Unpacks(env, w, t) ==> Install(env, w) == Failure(Leave(ERR_ALREADY_EXISTS), w)
    ensures Unpacks(env, w, t) ==>
              && ReadFrom(ListOf(env, w), f, TempsOf(env, w), records)
              && multiset(ReadAll(ListOf(env, w), TempsOf(env, w))) == multiset(RecordsOf(pages))
              && var phase := Foreign(env, 0, f, w);
                 if phase.Stopped? then Install(env, w) == Failure(Leave(phase.status), phase.world)
                 else
                   var last := AdmitFrom(env, records, f, phase.world, TempsOf(env, w));
                   if last.Fail? then Install(env, w) == Failure(last.fault, phase.world)
                   else Install(env, w).Success? && Install(env, w).world == last.value && |Install(env, w).ids| == 1
  {
    hide Lawful, Install, InstallFrom, AdmitFrom, Foreign, TempsOf, ListOf, Nodes, Limits, GoodKids, Encode, Texts, Printed, Reads, Sorts,
         RecordAt, Heads, Unpacks, IsRefPath, Complete, Build;
    f := Heads(ListOf(env, w));
    if Unpacks(env, w, t) {
      TreeListed(env, w, t, junk);
      ReadsPages(Nodes(env, t), ListOf(env, w), Texts(t), pages, TempsOf(env, w));
      OwnLast(env, w, f);
      AllReadable(Nodes(env, t), ListOf(env, w), f, Texts(t), pages, TempsOf(env, w));
      records := ReadRecords(ListOf(env, w), f, TempsOf(env, w));
      ReadInOrder(ListOf(env, w), f, TempsOf(env, w));
      InstallParts(env, w, f);
      if Foreign(env, 0, f, w).Through? {
        AdmitsAsInstalls(env, ListOf(env, w), f, Foreign(env, 0, f, w).world, TempsOf(env, w), records);
      } else {
        ReadComplete(ListOf(env, w), f, TempsOf(env, w), records);
      }
      if Install(env, w).Success? {
        var _, _ := SuccessParts(env, w);
      }
    } else {
      records := [];
      TakenPath(env, w, t, junk);
    }
  }

  lemma TakenPath(env: Env, w: World, t: Tree, junk: seq<byte>)
    requires TreeData(env, t, junk) && !Unpacks(env, w, t)
    ensures Install(env, w) == Failure(Leave(ERR_ALREADY_EXISTS), w)
  {
    hide Limits, GoodKids, Fold, Build, IsRefPath, Encode, ToPack, SubOrder, SubEntries, Free, InstallFrom, Foreign;
    PackageRoundTrip(t, junk, DiskStore(w.disk), env.path, PRIVATE_DIR);
  }

  /** The foreign packages are at the head of the list. */
  lemma OwnLast(env: Env, w: World, f: nat)
    requires Lawful(env) && f == Heads(ListOf(env, w))
    requires Build(DiskStore(w.disk), env.path, env.data, PRIVATE_DIR, [], -1).Ok?
    ensures f <= |ListOf(env, w)| && forall j :: f <= j < |ListOf(env, w)| ==> !ListOf(env, w)[j].foreign
  {
    hide Build, Sorts, Listing, Heads;
    var b := Build(DiskStore(w.disk), env.path, env.data, PRIVATE_DIR, [], -1).value;
    ListShape(DiskStore(w.disk), env.path, env.data, PRIVATE_DIR);
    var _ := InstallRuns.SortedList(b.flat, ListOf(env, w));
  }

  lemma InstallParts(env: Env, w: World, f: nat)
    requires Build(DiskStore(w.disk), env.path, env.data, PRIVATE_DIR, [], -1).Ok? && f == Heads(ListOf(env, w))
    ensures var phase := Foreign(env, 0, f, w);
            if phase.Stopped? then Install(env, w) == Failure(Leave(phase.status), phase.world)
            else
              var last := InstallFrom(env, ListOf(env, w), f, phase.world, TempsOf(env, w));
              if last.Fail? then Install(env, w) == Failure(last.fault, phase.world)
              else Install(env, w).Success? && Install(env, w).world == last.value
  {
    hide Build, InstallFrom, Foreign, Heads, Listing, NewTemps, DiskStore, CostFrom, IdsFrom;
  }
}
