/** What the theorems ask of a request can be met, and a first package installs: an
    order of components, a sort, a record, its bytes, and a device that takes them. */
module Witness {
  import opened Platform
  import opened PkgText
  import opened PkgTextLaws
  import opened Unpack
  import opened PkgTree
  import opened Registry
  import opened Orders
  import opened InstallModel
  import opened InstallSpec
  import opened EndToEnd
  import opened History
  import BinFormat
  import InstallLaws

  function Only(list: seq<Listed>, foreign: bool): (r: seq<Listed>)
    ensures forall i :: 0 <= i < |r| ==> r[i].foreign == foreign
  {
    if list == [] then []
    else (if list[0].foreign == foreign then [list[0]] else []) + Only(list[1..], foreign)
  }

  /** The foreign packages, then the others, each in the order of the list. */
  function ForeignThenOwn(list: seq<Listed>): seq<Listed> {
    Only(list, true) + Only(list, false)
  }

  lemma {:induction false} Partition(list: seq<Listed>)
    ensures multiset(Only(list, true)) + multiset(Only(list, false)) == multiset(list)
    decreases |list|
  {
    if list != [] {
      Partition(list[1..]);
      assert list == [list[0]] + list[1..];
    }
  }

  lemma ForeignThenOwnSorts(list: seq<Listed>)
    ensures Sorts(list, ForeignThenOwn(list))
  {
    Partition(list);
    assert multiset(ForeignThenOwn(list)) == multiset(list);
  }

  ghost function SilentRequest(path: string, data: seq<byte>): Env {
    Env(path, data, LANG_ENGLISH, true, false, _ => true, (comps: Components, _, _) => Ascending(comps.Keys),
        ForeignThenOwn, _ => Nested(ERR_NOT_FOUND, w => w))
  }

  /** Such a request is lawful, and considerate of the others. */
  lemma RequestLawful(path: string, data: seq<byte>)
    ensures Lawful(SilentRequest(path, data)) && Considerate(SilentRequest(path, data))
  {
    hide Agreement;
    var env := SilentRequest(path, data);
    forall list ensures Sorts(list, env.sort(list)) {
      ForeignThenOwnSorts(list);
    }
    forall comps: Components ensures Distinct(Ascending(comps.Keys)) {
      AscendingDistinct(comps.Keys);
    }
  }

  const RECORD := Record([LANG_ENGLISH], ["A"], ["B"], Version(1, 0, 0), ["c:\\c"])
  const PATH := "a.sifrefbinpkg"
  const NEW_DEVICE := World(map[], Scr(map[], 1))

  lemma PathGood()
    ensures IsRefPath(PATH)
  {
    assert PATH[1..] == BIN_PKG_EXT;
    assert forall i :: 1 <= i < 13 ==> BIN_PKG_EXT[i] != '.';
    AfterLastUnique(PATH, '.', 2);
    assert Fold(PATH[1..]) == BIN_PKG_EXT;
  }

  lemma RecordGood()
    ensures Valid(RECORD) && OneLine(RECORD) && Named(Locs(RECORD))
  {
  }

  lemma RecordLines()
    ensures Lines(RECORD) == ["Languages: \"EN\"", "ComponentName: \"A\"", "ComponentVersion: 1.00(0)", "ComponentVendor: \"B\"", "File: c:\\c"]
  {
    QuotedOne("EN");
    QuotedOne("A");
    QuotedOne("B");
    VersionLine();
    assert Codes([LANG_ENGLISH]) == ["EN"];
    var files: seq<Text> := ["c:\\c"];
    assert " " + files[0] == " c:\\c" && TagLine(TXT_FILE, " c:\\c") == "File: c:\\c";
    assert FileLines(files) == ["File: c:\\c"];
    assert TagLine(TXT_LANGUAGES, Quoted(["EN"])) == "Languages: \"EN\"";
    assert TagLine(TXT_COMPONENT_NAME, Quoted(["A"])) == "ComponentName: \"A\"";
    assert TagLine(TXT_COMPONENT_VERSION, " " + "1.00(0)") == "ComponentVersion: 1.00(0)";
    assert TagLine(TXT_COMPONENT_VENDOR, Quoted(["B"])) == "ComponentVendor: \"B\"";
  }

  lemma VersionLine()
    ensures VersionText(Version(1, 0, 0)) == "1.00(0)"
  {
    assert Decimal(0) == ['0'] && Decimal(1) == ['1'];
    assert Signed(0) == "0" && Signed(1) == "1";
  }

  lemma QuotedOne(v: Text)
    ensures Quoted([v]) == " \"" + v + "\""
  {
    assert [v][1..] == [] && Quoted([]) == [];
  }

  lemma {:induction false} JoinedLength(lines: seq<Text>, final: bool)
    requires forall i :: 0 <= i < |lines| ==> |lines[i]| <= 100
    ensures |Join(lines, final)| <= 102 * |lines|
    decreases |lines|
  {
    if |lines| > 1 || (|lines| == 1 && final) {
      JoinedLength(lines[1..], final);
    }
  }

  lemma RecordShort(final: bool)
    ensures |Join(Lines(RECORD), final)| <= BinFormat.BUFFER_LENGTH
  {
    hide Lines, Join;
    RecordLines();
    JoinedLength(Lines(RECORD), final);
  }

  /** On a new device the package of a record with one file installs: one component
      with the first identifier, one file, eight executions. */
  lemma FirstInstall()
    ensures |Join(Lines(RECORD), true)| <= BinFormat.BUFFER_LENGTH
    ensures var env := SilentRequest(PATH, Written(RECORD, true, []));
            Lawful(env) && Install(env, NEW_DEVICE) ==
            Success(World(map["c:\\c" := FILE_SIZE], Scr(map[1 := ComponentOf(RECORD, false)], 2)), [1], 8)
  {
    hide Lawful, Install, Lines, Join, Valid, OneLine, Written, Lookup, ComponentOf, PkgFileName, IsRefPath, Complete, Locs, Named, Enumerates;
    RecordShort(true);
    RecordGood();
    PathGood();
    var env := SilentRequest(PATH, Written(RECORD, true, []));
    RequestLawful(PATH, Written(RECORD, true, []));
    WrittenInstalls(env, NEW_DEVICE, RECORD, true, []);
    InstallLaws.NoDowngrade(env, map[], RECORD);
    NothingTaken(env, Join(Lines(RECORD), true));
    FirstAdded();
  }

  lemma NothingTaken(env: Env, text: Text)
    requires env.path == PATH
    ensures Fresh(RECORD.files, NEW_DEVICE.disk.Keys + (map[TextKey(env) := text]).Keys)
  {
    hide NameOf;
    assert |TextKey(env)| >= |PRIVATE_DIR| > |Fold("c:\\c")|;
  }

  lemma FirstAdded()
    requires Complete(RECORD)
    ensures Added(NEW_DEVICE, RECORD, false) == World(map["c:\\c" := FILE_SIZE], Scr(map[1 := ComponentOf(RECORD, false)], 2))
  {
    hide ComponentOf, Complete;
    assert Fold("c:\\c") == "c:\\c";
    assert KeysOf(["c:\\c"]) == {"c:\\c"} by {
      assert Fold(["c:\\c"][0]) in KeysOf(["c:\\c"]);
    }
  }
}
