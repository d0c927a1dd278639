/** Why a package file is refused: each defect, wherever the file has it, and the error
    that the extractor reports. */
module ExtractRefusals {
  import opened Platform
  import opened BinFormat
  import opened Unpack
  import opened PkgTree

  // ---------------------------------------------------------------------------
  // Up to the text
  // ---------------------------------------------------------------------------

  /** A file that cannot hold the header, a length and the footer, or that does not start
      with the header. */
  lemma WrongHeader(store: Store, data: seq<byte>, path: string, dir: string)
    requires |data| < 76 || !("_SifReferenceInstallerPackageHeader_" <= data)
    ensures Extract(store, data, path, dir) == Fail(Leave(ERR_CORRUPT))
  {
    hide ExtractText;
    HeaderLength();
    assert |data| >= 36 ==> (data[..36] == HEADER <==> HEADER <= data);
  }

  lemma HeaderLength()
    ensures |HEADER| == 36 && |FOOTER| == 36
    ensures HEADER == "_SifReferenceInstallerPackageHeader_" && FOOTER == "_SifReferenceInstallerPackageFooter_"
  {
  }

  /** A length of the text over the size of the buffer, or a negative one. A negative one
      is noticed only when the text package has been created. */
  lemma WrongTextLength(store: Store, n: int, rest: seq<byte>, path: string, dir: string)
    requires IsInt32(n) && |rest| >= 36 && (n < 0 || n > 16380)
    ensures Extract(store, HEADER + (Le32(n) + rest), path, dir) ==
            if n > 16380 then Fail(Leave(ERR_CORRUPT))
            else if Fold(PkgFileName(dir, path)) in store then Fail(Leave(ERR_ALREADY_EXISTS))
            else Fail(Leave(ERR_ARGUMENT))
  {
    hide Le32, ReadInt32, Fold, PkgFileName, Extract, ExtractItems, Take;
    HeaderBack(store, Le32(n) + rest, path, dir);
    ReadInt32Back(n, rest);
  }

  // ---------------------------------------------------------------------------
  // After the text
  // ---------------------------------------------------------------------------

  /** The rest of a file whose beginning is well-formed decides. */
  lemma AfterText(store: Store, text: seq<byte>, rest: seq<byte>, path: string, dir: string)
    requires |text| <= 16380 && |text| + |rest| >= 36
    ensures var key := Fold(PkgFileName(dir, path));
            Extract(store, HEADER + (Le32(|text|) + (text + rest)), path, dir) ==
            if key in store then Fail(Leave(ERR_ALREADY_EXISTS)) else ExtractItems(store[key := text], rest, dir + "children\\")
  {
    hide Le32, Fold, PkgFileName, Extract, ExtractText, ExtractItems;
    HeaderBack(store, Le32(|text|) + (text + rest), path, dir);
    TextBack(store, text, rest, path, dir);
  }

  /** More than sixteen components, or too little of the file left for their number. */
  lemma WrongCount(store: Store, n: int, rest: seq<byte>, embDir: string)
    requires IsInt32(n)
    ensures n > 16 ==> ExtractItems(store, Le32(n) + rest, embDir) == Fail(Leave(ERR_CORRUPT))
    ensures |rest| < 4 ==> ExtractItems(store, rest, embDir) == Fail(Panic)
  {
    hide Le32, ReadInt32, UnpackItems, CheckFooter;
    ReadInt32Back(n, rest);
    ShortInteger(rest);
  }

  lemma ShortInteger(rest: seq<byte>)
    ensures |rest| < 4 ==> ReadInt32(rest) == Fail(Panic)
  {
  }

  /** After well-formed components that could be created, something else than the
      footer, or nothing. */
  lemma WrongFooter(store: Store, items: seq<Item>, rest: seq<byte>, embDir: string)
    requires ValidItems(items) && |items| <= 16 && CreateAll(store, ItemEntries(embDir, items)).Ok?
    requires !("_SifReferenceInstallerPackageFooter_" <= rest)
    ensures ExtractItems(store, Le32(|items|) + (ItemsBytes(items) + rest), embDir) == Fail(Leave(ERR_CORRUPT))
  {
    hide Le32, UnpackItems, ItemsBytes, ItemEntries, CreateAll, Paths, CheckFooter, ExtractItems;
    CountBack(store, |items|, ItemsBytes(items) + rest, embDir);
    UnpackItemsBack(store, items, rest, embDir);
    NoFooter(UnpackItems(store, ItemsBytes(items) + rest, |items|, embDir).value);
  }

  lemma NoFooter(u: Unpacked)
    requires !("_SifReferenceInstallerPackageFooter_" <= u.rest)
    ensures CheckFooter(u) == Fail(Leave(ERR_CORRUPT))
  {
    HeaderLength();
    assert |u.rest| >= 36 ==> (u.rest[..36] == FOOTER <==> FOOTER <= u.rest);
  }

  // ---------------------------------------------------------------------------
  // Components
  // ---------------------------------------------------------------------------

  /** A component that cannot be unpacked gives its fault, after any number of
      well-formed components that could be created. */
  lemma BadComponent(store: Store, items: seq<Item>, rest: seq<byte>, count: nat, embDir: string)
    requires ValidItems(items) && |items| < count <= 16
    requires CreateAll(store, ItemEntries(embDir, items)).Ok?
    requires UnpackItem(CreateAll(store, ItemEntries(embDir, items)).value, rest, embDir).Fail?
    ensures ExtractItems(store, Le32(count) + (ItemsBytes(items) + rest), embDir)
         == Fail(UnpackItem(CreateAll(store, ItemEntries(embDir, items)).value, rest, embDir).fault)
  {
    hide Le32, UnpackItem, UnpackItems, ItemsBytes, ItemEntries, CreateAll, CheckFooter, ExtractItems;
    CountBack(store, count, ItemsBytes(items) + rest, embDir);
    ItemsThenBad(store, items, rest, count, embDir);
  }

  lemma {:induction false} ItemsThenBad(store: Store, items: seq<Item>, rest: seq<byte>, n: nat, embDir: string)
    requires ValidItems(items) && |items| < n
    requires CreateAll(store, ItemEntries(embDir, items)).Ok?
    requires UnpackItem(CreateAll(store, ItemEntries(embDir, items)).value, rest, embDir).Fail?
    ensures UnpackItems(store, ItemsBytes(items) + rest, n, embDir)
         == Fail(UnpackItem(CreateAll(store, ItemEntries(embDir, items)).value, rest, embDir).fault)
    decreases |items|
  {
    hide UnpackItem, ItemBytes, ItemEntry, ItemEntries, Paths, CreateAll, ValidItem;
    if items == [] {
      assert ItemsBytes(items) + rest == rest;
      assert ItemEntries(embDir, items) == [];
      CreateAllEmpty(store);
    } else {
      var more := ItemsBytes(items[1..]) + rest;
      assert ItemsBytes(items) + rest == ItemBytes(items[0]) + more;
      UnpackItemBack(store, items[0], more, embDir);
      EntriesCons(embDir, items);
      CreateAllConcat(store, [ItemEntry(embDir, items[0])], ItemEntries(embDir, items[1..]));
      var r := CreateAll(store, [ItemEntry(embDir, items[0])]);
      ItemsThenBad(r.value, items[1..], rest, n - 1, embDir);
    }
  }

  /** The length of a name: over 256 it is refused, a negative one cannot be read. */
  lemma WrongNameLength(store: Store, n: int, rest: seq<byte>, embDir: string)
    requires IsInt32(n) && (n < 0 || n > 256)
    ensures UnpackItem(store, Le32(n) + rest, embDir) == Fail(Leave(if n > 256 then ERR_CORRUPT else ERR_ARGUMENT))
  {
    hide Le32, ReadInt32, Fold, Take;
    ReadInt32Back(n, rest);
  }

  /** The size of a component: over 0xFFFFFF it is refused before anything is created;
      otherwise its path must be free; and a negative size must be a multiple of the
      length of the buffer. */
  lemma WrongSize(store: Store, name: seq<byte>, n: int, rest: seq<byte>, embDir: string)
    requires |name| <= 256 && IsInt32(n)
    ensures var r := UnpackItem(store, Le32(|name|) + (name + (Le32(n) + rest)), embDir);
            if n > 0xFFFFFF then r == Fail(Leave(ERR_CORRUPT))
            else if Fold(embDir + name + "\\" + name) in store then r == Fail(Leave(ERR_ALREADY_EXISTS))
            else if n < 0 && n % 16380 != 0 then r == Fail(Leave(ERR_ARGUMENT))
            else r.Ok?
  {
    hide Le32, ReadInt32, Fold, Take;
    ReadInt32Back(|name|, name + (Le32(n) + rest));
    ReadBack(name, Le32(n) + rest);
    ReadInt32Back(n, rest);
  }

  // ---------------------------------------------------------------------------
  // The file as a whole
  // ---------------------------------------------------------------------------

  /** A file that is not named as a reference package is refused as a request, and is a
      foreign component inside a package; in neither case is it read. */
  lemma NotAPackage(store: Store, path: string, data: seq<byte>, dir: string, flat: seq<Aux>, parent: int)
    requires !IsRefPath(path)
    ensures parent < 0 ==> Build(store, path, data, dir, flat, parent) == Fail(Leave(ERR_CORRUPT))
    ensures parent >= 0 ==> Build(store, path, data, dir, flat, parent) == Ok(Built(store, flat + [Aux(path, true, parent)]))
  {
    hide IsRefPath, Extract;
  }

  /** What makes a name that of a reference package: it ends in the extension, in either
      case. */
  lemma PackageNames(path: string)
    ensures IsRefPath(path) <==> |path| >= 13 && Fold(path[|path| - 13..]) == ".sifrefbinpkg"
  {
    hide AfterLast;
    var dot := AfterLast(path, '.');
    if IsRefPath(path) {
      assert |Fold(path[dot - 1..])| == 13;
    }
    if |path| >= 13 && Fold(path[|path| - 13..]) == ".sifrefbinpkg" {
      var ext := path[|path| - 13..];
      ExtensionLetters(ext);
      assert ext[1..] == path[|path| - 12..] && ext[0] == path[|path| - 13];
      AfterLastUnique(path, '.', |path| - 12);
      assert path[|path| - 12 - 1..] == ext;
    }
  }

  lemma ExtensionLetters(ext: string)
    requires |ext| == 13 && Fold(ext) == ".sifrefbinpkg"
    ensures ext[0] == '.' && '.' !in ext[1..]
  {
    var letters := ".sifrefbinpkg";
    assert FoldChar(ext[0]) == letters[0];
    forall i | 1 <= i < |ext| ensures ext[i] != '.' {
      assert FoldChar(ext[i]) == letters[i];
      assert letters[i] != '.';
    }
  }
}
