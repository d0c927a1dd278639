/** ExtractBinPkgFileL: reading one compound package and writing its parts as
    temporary files. `rest` is the part of the file after the read position. */
module Unpack {
  import opened Platform
  import opened BinFormat

  /** Temporary files of the transaction, keyed by case-folded path. */
  type Store = map<string, seq<byte>>

  datatype Entry = Entry(path: string, content: seq<byte>)

  const PKG_FILE_EXT := ".sifrefpkg"
  const CHILDREN_DIR := "children\\"
  const DIR_SEPARATOR := "\\"

  /** The file name in a path, without its directory and its last extension. */
  function NameOf(path: string): string {
    var file := path[AfterLast(path, '\\')..];
    var dot := AfterLast(file, '.');
    if dot == 0 then file else file[..dot - 1]
  }

  /** Drive and directory of a path, up to and including the last separator. */
  function DirOf(path: string): string {
    path[..AfterLast(path, '\\')]
  }

  function PkgFileName(dir: string, path: string): string {
    dir + NameOf(path) + PKG_FILE_EXT
  }

  function ItemPath(embDir: string, name: string): string {
    embDir + name + DIR_SEPARATOR + name
  }

  /** Creating a temporary file fails when a file of that name exists. */
  function CreateTemporary(store: Store, path: string): Outcome<Store> {
    if Fold(path) in store then Fail(Leave(ERR_ALREADY_EXISTS)) else Ok(store[Fold(path) := []])
  }

  /** RFile::Read: short at the end of the file without an error, KErrArgument
      for a negative length. */
  function Read(rest: seq<byte>, n: int): Outcome<(seq<byte>, seq<byte>)> {
    if n < 0 then Fail(Leave(ERR_ARGUMENT)) else Ok(Take(rest, n))
  }

  function Take(rest: seq<byte>, n: nat): (seq<byte>, seq<byte>) {
    if n <= |rest| then (rest[..n], rest[n..]) else (rest, [])
  }

  /** ReadInt32L: fewer than four bytes leave the buffer short, and indexing it panics. */
  function ReadInt32(rest: seq<byte>): Outcome<(int, seq<byte>)> {
    if |rest| < 4 then Fail(Panic) else Ok((FromLe32(rest[..4]), rest[4..]))
  }

  /** Copying a body. A negative size makes no whole chunks and a remainder that
      is negative, unless the size is a multiple of the buffer length. */
  function ReadBody(rest: seq<byte>, size: int): Outcome<(seq<byte>, seq<byte>)> {
    if size >= 0 then Read(rest, size)
    else if size % BUFFER_LENGTH == 0 then Ok(([], rest))
    else Fail(Leave(ERR_ARGUMENT))
  }

  datatype Unpacked = Unpacked(store: Store, files: seq<string>, rest: seq<byte>)

  function UnpackItem(store: Store, rest: seq<byte>, embDir: string): Outcome<Unpacked> {
    var (strLen, rest1) :- ReadInt32(rest);
    if strLen > MAX_PATH then Fail(Leave(ERR_CORRUPT)) else
    var (name, rest2) :- Read(rest1, strLen);
    var path := ItemPath(embDir, name);
    var (fileSize, rest3) :- ReadInt32(rest2);
    if fileSize > MAX_EMBEDDED_SIZE then Fail(Leave(ERR_CORRUPT)) else
    var created :- CreateTemporary(store, path);
    var (body, rest4) :- ReadBody(rest3, fileSize);
    Ok(Unpacked(created[Fold(path) := body], [path], rest4))
  }

  function UnpackItems(store: Store, rest: seq<byte>, n: nat, embDir: string): Outcome<Unpacked>
    decreases n
  {
    if n == 0 then Ok(Unpacked(store, [], rest)) else
    var u :- UnpackItem(store, rest, embDir);
    var v :- UnpackItems(u.store, u.rest, n - 1, embDir);
    Ok(v.(files := u.files + v.files))
  }

  function CheckFooter(u: Unpacked): Outcome<Unpacked> {
    var (footer, rest) := Take(u.rest, |FOOTER|);
    if footer != FOOTER then Fail(Leave(ERR_CORRUPT)) else Ok(u.(rest := rest))
  }

  /** The count, the components and the footer. */
  function ExtractItems(store: Store, rest: seq<byte>, embDir: string): Outcome<Unpacked> {
    var (count, rest1) :- ReadInt32(rest);
    if count > MAX_EMBEDDED then Fail(Leave(ERR_CORRUPT)) else
    var u :- UnpackItems(store, rest1, if count < 0 then 0 else count, embDir);
    CheckFooter(u)
  }

  /** The text package, and what follows it. */
  function ExtractText(store: Store, rest: seq<byte>, path: string, outDir: string): Outcome<Unpacked> {
    var (pkgSize, rest1) :- ReadInt32(rest);
    if pkgSize > BUFFER_LENGTH then Fail(Leave(ERR_CORRUPT)) else
    var created :- CreateTemporary(store, PkgFileName(outDir, path));
    var (text, rest2) :- Read(rest1, pkgSize);
    ExtractItems(created[Fold(PkgFileName(outDir, path)) := text], rest2, outDir + CHILDREN_DIR)
  }

  /** ExtractBinPkgFileL on a file of the given bytes and path. */
  function Extract(store: Store, data: seq<byte>, path: string, outDir: string): Outcome<Unpacked> {
    if |data| < |HEADER| + |FOOTER| + 4 then Fail(Leave(ERR_CORRUPT)) else
    var (header, rest) := Take(data, |HEADER|);
    if header != HEADER then Fail(Leave(ERR_CORRUPT)) else ExtractText(store, rest, path, outDir)
  }

  /** Nothing is lost from the store, and every new file is shorter than what was read. */
  ghost predicate Grown(store: Store, u: Unpacked, bound: int) {
    && (forall k :: k in store ==> k in u.store && u.store[k] == store[k])
    && (forall f :: f in u.files ==> Fold(f) in u.store && |u.store[Fold(f)]| < bound)
  }

  lemma UnpackItemGrows(store: Store, rest: seq<byte>, embDir: string)
    requires UnpackItem(store, rest, embDir).Ok?
    ensures Grown(store, UnpackItem(store, rest, embDir).value, |rest|)
    ensures |UnpackItem(store, rest, embDir).value.rest| < |rest|
  {
    hide FromLe32, Fold;
  }

  lemma {:induction false} UnpackItemsGrows(store: Store, rest: seq<byte>, n: nat, embDir: string)
    requires UnpackItems(store, rest, n, embDir).Ok?
    ensures Grown(store, UnpackItems(store, rest, n, embDir).value, |rest| + 1)
    decreases n
  {
    hide UnpackItem, Fold;
    if n > 0 {
      var u := UnpackItem(store, rest, embDir).value;
      UnpackItemGrows(store, rest, embDir);
      UnpackItemsGrows(u.store, u.rest, n - 1, embDir);
    }
  }

  lemma ExtractGrows(store: Store, data: seq<byte>, path: string, outDir: string)
    requires Extract(store, data, path, outDir).Ok?
    ensures Grown(store, Extract(store, data, path, outDir).value, |data|)
  {
    hide FromLe32, Fold, UnpackItems;
    var rest1 := Take(data, |HEADER|).1;
    var (pkgSize, rest2) := ReadInt32(rest1).value;
    var (text, rest3) := Read(rest2, pkgSize).value;
    var (count, rest4) := ReadInt32(rest3).value;
    var written := store[Fold(PkgFileName(outDir, path)) := []][Fold(PkgFileName(outDir, path)) := text];
    UnpackItemsGrows(written, rest4, if count < 0 then 0 else count, outDir + CHILDREN_DIR);
  }

  /** Creating files one after the other; the first whose name is taken ends it. */
  function CreateAll(store: Store, entries: seq<Entry>): Outcome<Store>
    decreases |entries|
  {
    if entries == [] then Ok(store)
    else if Fold(entries[0].path) in store then Fail(Leave(ERR_ALREADY_EXISTS))
    else CreateAll(store[Fold(entries[0].path) := entries[0].content], entries[1..])
  }

  lemma CreateAllEmpty(store: Store)
    ensures CreateAll(store, []) == Ok(store)
  {
  }

  lemma CreateAllConcat(store: Store, a: seq<Entry>, b: seq<Entry>)
    ensures var first := CreateAll(store, a);
            CreateAll(store, a + b) == if first.Ok? then CreateAll(first.value, b) else first
    decreases |a|
  {
    if a == [] {
      assert a + b == b;
    } else {
      assert (a + b)[1..] == a[1..] + b;
      CreateAllConcat(store[Fold(a[0].path) := a[0].content], a[1..], b);
    }
  }

  function ItemEntry(embDir: string, e: Item): Entry {
    Entry(ItemPath(embDir, e.name), e.body)
  }

  function ItemEntries(embDir: string, items: seq<Item>): (r: seq<Entry>)
    ensures |r| == |items|
    ensures forall i :: 0 <= i < |items| ==> r[i] == ItemEntry(embDir, items[i])
  {
    seq(|items|, i requires 0 <= i < |items| => ItemEntry(embDir, items[i]))
  }

  function Paths(entries: seq<Entry>): (r: seq<string>)
    ensures |r| == |entries|
    ensures forall i :: 0 <= i < |r| ==> r[i] == entries[i].path
  {
    seq(|entries|, i requires 0 <= i < |entries| => entries[i].path)
  }

  /** The files one package is unpacked into, in the order of their creation. */
  function WireEntries(w: Wire, path: string, outDir: string): seq<Entry> {
    [Entry(PkgFileName(outDir, path), w.text)] + ItemEntries(outDir + CHILDREN_DIR, w.items)
  }

  lemma ReadBack(a: seq<byte>, b: seq<byte>)
    ensures Take(a + b, |a|) == (a, b)
  {
    assert (a + b)[..|a|] == a && (a + b)[|a|..] == b;
  }

  lemma ReadInt32Back(n: int, b: seq<byte>)
    requires IsInt32(n)
    ensures ReadInt32(Le32(n) + b) == Ok((n, b))
  {
    Le32RoundTrip(n);
    assert (Le32(n) + b)[..4] == Le32(n) && (Le32(n) + b)[4..] == b;
  }

  lemma UnpackItemBack(store: Store, e: Item, tail: seq<byte>, embDir: string)
    requires ValidItem(e)
    ensures var created := CreateAll(store, [ItemEntry(embDir, e)]);
            UnpackItem(store, ItemBytes(e) + tail, embDir) ==
            if created.Ok? then Ok(Unpacked(created.value, [ItemPath(embDir, e.name)], tail)) else Fail(created.fault)
  {
    hide Le32, Take, ReadInt32, Fold;
    var key := Fold(ItemPath(embDir, e.name));
    assert store[key := []][key := e.body] == store[key := e.body];
    var rest3 := e.body + tail;
    var rest2 := Le32(e.size) + rest3;
    var rest1 := e.name + rest2;
    assert ItemBytes(e) + tail == Le32(|e.name|) + rest1;
    ReadInt32Back(|e.name|, rest1);
    ReadBack(e.name, rest2);
    ReadInt32Back(e.size, rest3);
    ReadBack(e.body, tail);
    if e.size < 0 {
      assert rest3 == tail;
    }
    assert [ItemEntry(embDir, e)][1..] == [];
  }

  lemma EntriesCons(embDir: string, items: seq<Item>)
    requires items != []
    ensures ItemEntries(embDir, items) == [ItemEntry(embDir, items[0])] + ItemEntries(embDir, items[1..])
    ensures Paths(ItemEntries(embDir, items)) == [ItemPath(embDir, items[0].name)] + Paths(ItemEntries(embDir, items[1..]))
  {
  }

  /** Well-formed items are unpacked into exactly their files; only a name
      that is already taken can stop it. */
  lemma {:induction false} UnpackItemsBack(store: Store, items: seq<Item>, tail: seq<byte>, embDir: string)
    requires ValidItems(items)
    ensures var created := CreateAll(store, ItemEntries(embDir, items));
            UnpackItems(store, ItemsBytes(items) + tail, |items|, embDir) ==
            if created.Ok? then Ok(Unpacked(created.value, Paths(ItemEntries(embDir, items)), tail)) else Fail(created.fault)
    decreases |items|
  {
    hide UnpackItem, ItemBytes, ItemEntry, ItemEntries, Paths, CreateAll, ValidItem;
    if items == [] {
      assert ItemsBytes(items) + tail == tail;
      assert CreateAll(store, []) == Ok(store) by { CreateAllEmpty(store); }
      assert ItemEntries(embDir, items) == [];
    } else {
      var more := ItemsBytes(items[1..]) + tail;
      assert ItemsBytes(items) + tail == ItemBytes(items[0]) + more;
      UnpackItemBack(store, items[0], more, embDir);
      var first := [ItemEntry(embDir, items[0])];
      EntriesCons(embDir, items);
      CreateAllConcat(store, first, ItemEntries(embDir, items[1..]));
      var r := CreateAll(store, first);
      if r.Ok? {
        UnpackItemsBack(r.value, items[1..], tail, embDir);
      }
    }
  }

  lemma BytesNested(w: Wire, tail: seq<byte>)
    requires ValidWire(w)
    ensures Bytes(w) + tail == HEADER + (Le32(|w.text|) + (w.text + (Le32(w.count) + (ItemsBytes(w.items) + (FOOTER + tail)))))
  {
    hide Le32, ItemsBytes;
  }

  lemma HeaderBack(store: Store, rest: seq<byte>, path: string, outDir: string)
    requires |rest| >= |FOOTER| + 4
    ensures Extract(store, HEADER + rest, path, outDir) == ExtractText(store, rest, path, outDir)
  {
    hide Take, ExtractText, HEADER, FOOTER;
    ReadBack(HEADER, rest);
  }

  lemma TextBack(store: Store, text: seq<byte>, rest: seq<byte>, path: string, outDir: string)
    requires |text| <= BUFFER_LENGTH
    ensures var key := Fold(PkgFileName(outDir, path));
            ExtractText(store, Le32(|text|) + (text + rest), path, outDir) ==
            if key in store then Fail(Leave(ERR_ALREADY_EXISTS)) else ExtractItems(store[key := text], rest, outDir + CHILDREN_DIR)
  {
    hide Le32, Take, ReadInt32, ExtractItems, PkgFileName, Fold;
    ReadInt32Back(|text|, text + rest);
    ReadBack(text, rest);
    var key := Fold(PkgFileName(outDir, path));
    assert store[key := []][key := text] == store[key := text];
  }

  lemma CountBack(store: Store, count: int, rest: seq<byte>, embDir: string)
    requires IsInt32(count) && count <= MAX_EMBEDDED
    ensures var u := UnpackItems(store, rest, if count < 0 then 0 else count, embDir);
            ExtractItems(store, Le32(count) + rest, embDir) == if u.Fail? then u else CheckFooter(u.value)
  {
    hide Le32, ReadInt32, UnpackItems, CheckFooter;
    ReadInt32Back(count, rest);
  }

  lemma FooterBack(u: Unpacked, tail: seq<byte>)
    requires u.rest == FOOTER + tail
    ensures CheckFooter(u) == Ok(u.(rest := tail))
  {
    hide Take;
    ReadBack(FOOTER, tail);
  }

  lemma CreateFirst(store: Store, first: Entry, more: seq<Entry>)
    ensures CreateAll(store, [first] + more) ==
            if Fold(first.path) in store then Fail(Leave(ERR_ALREADY_EXISTS))
            else CreateAll(store[Fold(first.path) := first.content], more)
  {
    assert ([first] + more)[1..] == more;
  }

  /** Completeness: any data that starts with a well-formed package is accepted
      and unpacked into exactly that package's files, unless a name is taken.
      What follows the footer plays no part. */
  lemma ExtractComplete(store: Store, w: Wire, data: seq<byte>, path: string, outDir: string)
    requires ValidWire(w) && Bytes(w) <= data
    ensures var created := CreateAll(store, WireEntries(w, path, outDir));
            Extract(store, data, path, outDir) ==
            if created.Ok? then Ok(Unpacked(created.value, Paths(ItemEntries(outDir + CHILDREN_DIR, w.items)), data[|Bytes(w)|..]))
            else Fail(created.fault)
  {
    hide Le32, Extract, ExtractText, ExtractItems, UnpackItems, CheckFooter, ItemsBytes, ItemEntries, Paths, Bytes, CreateAll, PkgFileName, Fold, HEADER, FOOTER;
    var tail := data[|Bytes(w)|..];
    var rest := ItemsBytes(w.items) + (FOOTER + tail);
    var rest1 := Le32(w.count) + rest;
    assert data == Bytes(w) + tail;
    BytesNested(w, tail);
    HeaderBack(store, Le32(|w.text|) + (w.text + rest1), path, outDir);
    TextBack(store, w.text, rest1, path, outDir);
    var key := Fold(PkgFileName(outDir, path));
    CreateFirst(store, Entry(PkgFileName(outDir, path), w.text), ItemEntries(outDir + CHILDREN_DIR, w.items));
    if key !in store {
      CountBack(store[key := w.text], w.count, rest, outDir + CHILDREN_DIR);
      UnpackItemsBack(store[key := w.text], w.items, FOOTER + tail, outDir + CHILDREN_DIR);
      var u := UnpackItems(store[key := w.text], rest, |w.items|, outDir + CHILDREN_DIR);
      if u.Ok? {
        FooterBack(u.value, tail);
      }
    }
  }

  lemma TakeParts(rest: seq<byte>, n: nat)
    ensures rest == Take(rest, n).0 + Take(rest, n).1
    ensures |Take(rest, n).0| <= n
    ensures Take(rest, n).1 != [] || n <= |rest| ==> |Take(rest, n).0| == n
  {
  }

  lemma ReadInt32Parts(rest: seq<byte>)
    requires ReadInt32(rest).Ok?
    ensures IsInt32(ReadInt32(rest).value.0)
    ensures rest == Le32(ReadInt32(rest).value.0) + ReadInt32(rest).value.1
  {
    FromLe32RoundTrip(rest[..4]);
    assert rest == rest[..4] + rest[4..];
  }

  lemma UnpackItemSound(store: Store, rest: seq<byte>, embDir: string) returns (e: Item)
    requires UnpackItem(store, rest, embDir).Ok?
    ensures UnpackItem(store, rest, embDir).value.rest != [] ==>
              ValidItem(e) && rest == ItemBytes(e) + UnpackItem(store, rest, embDir).value.rest
    ensures rest != []
  {
    hide Le32, Take, ReadInt32, Fold;
    var last := UnpackItem(store, rest, embDir).value.rest;
    var (strLen, rest1) := ReadInt32(rest).value;
    var (name, rest2) := Take(rest1, strLen);
    var (fileSize, rest3) := ReadInt32(rest2).value;
    var (body, rest4) := ReadBody(rest3, fileSize).value;
    ReadInt32Parts(rest);
    TakeParts(rest1, strLen);
    ReadInt32Parts(rest2);
    if fileSize >= 0 {
      TakeParts(rest3, fileSize);
    }
    e := Item(name, fileSize, body);
    assert |rest2| > 0;
    if last != [] {
      assert rest == Le32(|name|) + (name + (Le32(fileSize) + (body + last)));
    }
  }

  /** If unpacking items does not reach the end of the file, nothing was read short. */
  lemma {:induction false} UnpackItemsSound(store: Store, rest: seq<byte>, n: nat, embDir: string) returns (items: seq<Item>)
    requires UnpackItems(store, rest, n, embDir).Ok?
    requires UnpackItems(store, rest, n, embDir).value.rest != []
    ensures |items| == n && ValidItems(items)
    ensures rest == ItemsBytes(items) + UnpackItems(store, rest, n, embDir).value.rest
    decreases n
  {
    hide UnpackItem, ItemBytes, Fold;
    var last := UnpackItems(store, rest, n, embDir).value.rest;
    if n == 0 {
      items := [];
    } else {
      var u := UnpackItem(store, rest, embDir).value;
      var more := UnpackItemsSound(u.store, u.rest, n - 1, embDir);
      var e := UnpackItemSound(store, rest, embDir);
      if n > 1 {
        var _ := UnpackItemSound(u.store, u.rest, embDir);
      }
      items := [e] + more;
      ItemsCons(e, more, last);
    }
  }

  lemma ItemsCons(e: Item, more: seq<Item>, last: seq<byte>)
    requires ValidItem(e) && ValidItems(more)
    ensures ValidItems([e] + more)
    ensures ItemsBytes([e] + more) + last == ItemBytes(e) + (ItemsBytes(more) + last)
  {
    hide ItemBytes;
    var items := [e] + more;
    assert items[0] == e && items[1..] == more;
  }

  /** Soundness: an accepted file starts with a well-formed package, because a
      short read anywhere makes the footer comparison fail. */
  lemma ExtractSound(store: Store, data: seq<byte>, path: string, outDir: string) returns (w: Wire)
    requires Extract(store, data, path, outDir).Ok?
    ensures ValidWire(w) && Bytes(w) <= data
  {
    hide Le32, Take, ReadInt32, Fold, UnpackItems, ItemsBytes;
    var (header, rest1) := Take(data, |HEADER|);
    var (pkgSize, rest2) := ReadInt32(rest1).value;
    var (text, rest3) := Take(rest2, pkgSize);
    var (count, rest4) := ReadInt32(rest3).value;
    var written := store[Fold(PkgFileName(outDir, path)) := []][Fold(PkgFileName(outDir, path)) := text];
    var n := if count < 0 then 0 else count;
    var u := UnpackItems(written, rest4, n, outDir + CHILDREN_DIR).value;
    var (footer, rest5) := Take(u.rest, |FOOTER|);
    TakeParts(data, |HEADER|);
    ReadInt32Parts(rest1);
    TakeParts(rest2, pkgSize);
    ReadInt32Parts(rest3);
    TakeParts(u.rest, |FOOTER|);
    var items := UnpackItemsSound(written, rest4, n, outDir + CHILDREN_DIR);
    w := Wire(text, count, items);
    assert rest3 != [];
    BytesNested(w, rest5);
    assert u.rest == FOOTER + rest5;
    assert rest3 == Le32(count) + (ItemsBytes(items) + (FOOTER + rest5));
    assert rest1 == Le32(|text|) + (text + rest3);
    assert data == Bytes(w) + rest5;
  }
}
