/** The GetComponentInfo task: what it reports, and how it gathers it. */
module InfoTasks {
  import opened Platform
  import opened PkgText
  import opened Unpack
  import opened PkgTree
  import opened AuxNodes
  import opened Registry
  import opened InstallModel
  import InstallSpec
  import InstallLaws
  import opened InfoTree
  import opened Sessions
  import PkgParser
  import Extractor

  const EXAMPLE_FILE_SIZE := 1024

  /** How a nested request for information ends. */
  datatype Reply = Reply(status: int, info: ComponentInfo)

  /** What is reported about one reference package. */
  function Describe(env: Env, comps: Components, rec: Record): Info
    requires Complete(rec)
  {
    var found := Lookup(env, comps, rec);
    Info(InstallLaws.NameOfRecord(env, rec), InstallLaws.VendorOfRecord(env, rec), rec.version,
         found.activated, found.status, found.id, EXAMPLE_FILE_SIZE * |rec.files|)
  }

  /** What the i-th node of the list holds before the tree is built. */
  function SlotFor(env: Env, replies: int -> Reply, comps: Components, temps: Store, a: Aux, i: int): Outcome<Slot> {
    if a.foreign then
      if replies(i).status < 0 then Fail(Leave(replies(i).status)) else Ok(Slot(None, Some(replies(i).info)))
    else
      var rec :- InstallSpec.RecordAt(temps, a.fileName);
      Ok(Slot(Some(InfoNode(Describe(env, comps, rec), [])), None))
  }

  function SlotsFrom(env: Env, replies: int -> Reply, comps: Components, temps: Store, flat: seq<Aux>, i: nat): (r: Outcome<seq<Slot>>)
    requires i <= |flat|
    ensures r.Ok? ==> |r.value| == |flat| - i
    decreases |flat| - i
  {
    if i == |flat| then Ok([]) else
    var first :- SlotFor(env, replies, comps, temps, flat[i], i);
    var more :- SlotsFrom(env, replies, comps, temps, flat, i + 1);
    Ok([first] + more)
  }

  ghost function Assemble(slots: seq<Slot>, flat: seq<Aux>): Outcome<InfoNode>
    requires |slots| == |flat| > 0
  {
    var t :- Process(slots, ParentsIn(flat), 1, |flat|);
    if t[0].node == None then Fail(Leave(ERR_NOT_FOUND)) else Ok(t[0].node.value)
  }

  /** The answer to a GetComponentInfo request. */
  ghost function Report(env: Env, replies: int -> Reply, w: World): Outcome<InfoNode> {
    var b :- Build(DiskStore(w.disk), env.path, env.data, PRIVATE_DIR, [], -1);
    if b.flat == [] then Fail(Panic) else
    var slots :- SlotsFrom(env, replies, w.scr.comps, NewTemps(b.store, w.disk), b.flat, 0);
    Assemble(slots, b.flat)
  }

  lemma {:induction false} SlotsSupplied(env: Env, replies: int -> Reply, comps: Components, temps: Store, flat: seq<Aux>, i: nat)
    requires i <= |flat| && SlotsFrom(env, replies, comps, temps, flat, i).Ok?
    requires forall j :: i <= j < |flat| && flat[j].foreign ==> replies(j).info.root != None
    ensures var slots := SlotsFrom(env, replies, comps, temps, flat, i).value;
            forall j :: i <= j < |flat| ==> Supplied(flat[j], slots[j - i])
    decreases |flat| - i
  {
    hide InstallSpec.RecordAt, Describe;
    if i < |flat| {
      SlotsSupplied(env, replies, comps, temps, flat, i + 1);
      var slots := SlotsFrom(env, replies, comps, temps, flat, i).value;
      var rest := SlotsFrom(env, replies, comps, temps, flat, i + 1).value;
      forall j | i <= j < |flat| ensures Supplied(flat[j], slots[j - i]) {
        if j > i {
          assert slots[j - i] == rest[j - (i + 1)];
        }
      }
    }
  }

  /** If every package of the tree can be described, the answer is the package tree,
      each reference node with its own description. */
  lemma ReportIsTree(env: Env, replies: int -> Reply, w: World) returns (sh: Shape, slots: seq<Slot>)
    requires Build(DiskStore(w.disk), env.path, env.data, PRIVATE_DIR, [], -1).Ok?
    requires var b := Build(DiskStore(w.disk), env.path, env.data, PRIVATE_DIR, [], -1).value;
             && SlotsFrom(env, replies, w.scr.comps, NewTemps(b.store, w.disk), b.flat, 0).Ok?
             && forall j :: 0 <= j < |b.flat| && b.flat[j].foreign ==> replies(j).info.root != None
    ensures var b := Build(DiskStore(w.disk), env.path, env.data, PRIVATE_DIR, [], -1).value;
            && SlotsFrom(env, replies, w.scr.comps, NewTemps(b.store, w.disk), b.flat, 0) == Ok(slots)
            && sh.Reference? && Parents(sh, -1, 0) == ParentsIn(b.flat) && Ready(sh, slots, 0)
            && Report(env, replies, w) == Ok(Expected(sh, slots, 0))
  {
    hide Build, SlotsFrom, Process, Parents, Ready, Expected, Supplied, DiskStore, NewTemps;
    var b := Build(DiskStore(w.disk), env.path, env.data, PRIVATE_DIR, [], -1).value;
    ListShape(DiskStore(w.disk), env.path, env.data, PRIVATE_DIR);
    slots := SlotsFrom(env, replies, w.scr.comps, NewTemps(b.store, w.disk), b.flat, 0).value;
    SlotsSupplied(env, replies, w.scr.comps, NewTemps(b.store, w.disk), b.flat, 0);
    forall j | 0 <= j < |b.flat| ensures Supplied(b.flat[j], slots[j]) {
      assert Supplied(b.flat[j], slots[j - 0]);
    }
    sh := WalkYieldsTree(DiskStore(w.disk), env.path, env.data, PRIVATE_DIR, slots);
  }

  // ---------------------------------------------------------------------------
  // The task as it runs
  // ---------------------------------------------------------------------------

  const EXTRACT := 1
  const PARSE := 2
  const FIND := 3
  const CREATE_NODE := 4
  const SET_INFO := 5

  /** The answer, when the first nodes have been given what they hold. */
  ghost function Rest(env: Env, replies: int -> Reply, comps: Components, temps: Store, flat: seq<Aux>, done: seq<Slot>): Outcome<InfoNode>
    requires |done| <= |flat| && flat != []
  {
    var more :- SlotsFrom(env, replies, comps, temps, flat, |done|);
    Assemble(done + more, flat)
  }

  lemma RestStep(env: Env, replies: int -> Reply, comps: Components, temps: Store, flat: seq<Aux>, done: seq<Slot>)
    requires |done| < |flat|
    ensures var r := SlotFor(env, replies, comps, temps, flat[|done|], |done|);
            Rest(env, replies, comps, temps, flat, done) ==
            if r.Ok? then Rest(env, replies, comps, temps, flat, done + [r.value]) else Fail(r.fault)
  {
    hide SlotFor, Assemble;
    var r := SlotFor(env, replies, comps, temps, flat[|done|], |done|);
    var more := SlotsFrom(env, replies, comps, temps, flat, |done| + 1);
    if r.Ok? && more.Ok? {
      assert done + ([r.value] + more.value) == done + [r.value] + more.value;
    }
  }

  lemma RestDone(env: Env, replies: int -> Reply, comps: Components, temps: Store, flat: seq<Aux>, done: seq<Slot>)
    requires |done| == |flat| > 0
    ensures Rest(env, replies, comps, temps, flat, done) == Assemble(done, flat)
  {
    hide Assemble;
    assert done + [] == done;
  }

  /** The executions that one package takes: to parse it or to ask about it, to search if
      it is a reference package, and to fill its node. */
  function CostAt(flat: seq<Aux>, i: int): nat {
    if 0 <= i < |flat| && !flat[i].foreign then 3 else 2
  }

  function CostFrom(flat: seq<Aux>, i: int): nat
    decreases |flat| - i
  {
    if i >= |flat| then 0 else CostAt(flat, i) + CostFrom(flat, i + 1)
  }

  lemma CostNext(flat: seq<Aux>, i: int)
    ensures CostFrom(flat, i) == if i >= |flat| then 0 else CostAt(flat, i) + CostFrom(flat, i + 1)
  {
  }

  ghost predicate FlatFor(env: Env, w: World, flat: seq<Aux>) {
    var b := Build(DiskStore(w.disk), env.path, env.data, PRIVATE_DIR, [], -1);
    b.Ok? && flat == b.value.flat
  }

  /** The executions that a request with an answer takes. */
  ghost function ReportCost(env: Env, w: World): nat {
    match Build(DiskStore(w.disk), env.path, env.data, PRIVATE_DIR, [], -1)
    case Fail(_) => 0
    case Ok(b) => 2 + CostFrom(b.flat, 0)
  }

  lemma BuiltCost(env: Env, w: World, flat: seq<Aux>)
    requires FlatFor(env, w, flat)
    ensures ReportCost(env, w) == 2 + CostFrom(flat, 0)
  {
  }

  class InfoTask {
    const env: Env
    const replies: int -> Reply
    const device: Device
    var iStep: int
    var iTemps: Store
    var iParser: PkgParser.PkgParser?
    var iCompSearchData: Found
    var iEmbeddedComponents: seq<AuxNode>
    var iCurrentComponent: int
    var iSifRequestInProgress: bool
    ghost var flat: seq<Aux>

    constructor (env: Env, replies: int -> Reply, device: Device)
      ensures this.env == env && this.replies == replies && this.device == device
      ensures Heading(Report(env, replies, device.State()))
      ensures iEmbeddedComponents == [] && iParser == null && iStep == EXTRACT
    {
      hide Report;
      this.env := env;
      this.replies := replies;
      this.device := device;
      iStep := EXTRACT;
      iTemps := map[];
      iParser := null;
      iCompSearchData := NOTHING;
      iEmbeddedComponents := [];
      iCurrentComponent := 0;
      iSifRequestInProgress := false;
      flat := [];
    }

    ghost predicate Listed()
      reads this, iEmbeddedComponents
    {
      && Extractor.Shows(iEmbeddedComponents, flat) && TreeShaped(flat)
      && 0 <= iCurrentComponent <= |flat|
      && forall j :: iCurrentComponent <= j < |flat| ==> Slots(iEmbeddedComponents)[j] == EMPTY
    }

    ghost predicate ReferenceAt()
      reads this, iParser, device, iEmbeddedComponents
    {
      && Listed() && iCurrentComponent < |flat| && !flat[iCurrentComponent].foreign && !iSifRequestInProgress
      && iParser != null && Complete(iParser.Current())
      && InstallSpec.RecordAt(iTemps, flat[iCurrentComponent].fileName) == Ok(iParser.Current())
    }

    /** The answer that is still to come is the given one. */
    ghost predicate Heading(answer: Outcome<InfoNode>)
      reads this, iParser, device, iEmbeddedComponents
    {
      if iStep == EXTRACT then
        iCurrentComponent == 0 && !iSifRequestInProgress && answer == Report(env, replies, device.State())
      else
        && Listed()
        && answer == Rest(env, replies, device.scr.comps, iTemps, flat, Slots(iEmbeddedComponents)[..iCurrentComponent])
        && (iStep == PARSE ==> iCurrentComponent < |flat| && !iSifRequestInProgress)
        && (iStep == FIND ==> ReferenceAt())
        && (iStep == CREATE_NODE ==>
              if iSifRequestInProgress then iCurrentComponent < |flat| && flat[iCurrentComponent].foreign
              else ReferenceAt() && iCompSearchData == Lookup(env, device.scr.comps, iParser.Current()))
        && (iStep == SET_INFO ==> iCurrentComponent == |flat|)
        && PARSE <= iStep <= SET_INFO
    }

    method ExtractEmbeddedPkgsL() returns (r: Outcome<()>)
      requires iStep == EXTRACT && iCurrentComponent == 0 && !iSifRequestInProgress
      modifies this
      ensures var answer := Report(env, replies, device.State());
              if r.Ok? then Listed() && flat != [] && iCurrentComponent == 0 && !iSifRequestInProgress && iStep == EXTRACT
                   && answer == Rest(env, replies, device.scr.comps, iTemps, flat, [])
              else answer == Fail(r.fault)
      ensures r.Ok? ==> FlatFor(env, device.State(), flat)
      ensures iParser == old(iParser)
      ensures r.Ok? ==> forall i :: 0 <= i < |iEmbeddedComponents| ==> fresh(iEmbeddedComponents[i])
      ensures r.Fail? ==> iEmbeddedComponents == old(iEmbeddedComponents)
    {
      hide Build, Assemble, SlotsFrom, Extractor.Shows;
      var session := new Extractor.StsSession();
      session.temps := DiskStore(device.disk);
      var nodes :- Extractor.BuildPkgTreeL(session, env.path, env.data, PRIVATE_DIR);
      ghost var b := Build(DiskStore(device.disk), env.path, env.data, PRIVATE_DIR, [], -1).value;
      iTemps := NewTemps(session.temps, device.disk);
      assert forall i :: 0 <= i < |nodes| ==> nodes[i] in nodes;
      iEmbeddedComponents := nodes;
      flat := b.flat;
      Extractor.ShowsLength(nodes, flat);
      RestStart(env, replies, device.scr.comps, iTemps, flat);
      return Ok(());
    }

    /** Parses a reference package, or asks for information about a foreign one. */
    method ParsePkgFileL(ghost answer: Outcome<InfoNode>) returns (r: Outcome<int>)
      requires iStep == PARSE && Heading(answer)
      modifies this`iParser, this`iSifRequestInProgress
      ensures match r
              case Ok(next) => if flat[iCurrentComponent].foreign then next == CREATE_NODE && iSifRequestInProgress
                               else next == FIND && ReferenceAt()
              case Fail(f) => answer == Fail(f)
      ensures iParser != null && iParser != old(iParser) ==> fresh(iParser)
    {
      hide Parse, Assemble, SlotsFrom, Rest, Fold, TreeShaped, Extractor.Shows, Lookup;
      Extractor.ShowsLength(iEmbeddedComponents, flat);
      NodeAt();
      iParser := null;
      var node := iEmbeddedComponents[iCurrentComponent];
      RestStep(env, replies, device.scr.comps, iTemps, flat, Slots(iEmbeddedComponents)[..iCurrentComponent]);
      if node.foreign {
        iSifRequestInProgress := true;
        return Ok(CREATE_NODE);
      }
      if Fold(node.fileName) !in iTemps {
        return Fail(Leave(ERR_NOT_FOUND));
      }
      var parser := new PkgParser.PkgParser();
      var _ :- parser.ParseL(iTemps[Fold(node.fileName)]);
      iParser := parser;
      return Ok(FIND);
    }

    lemma NodeAt()
      requires Listed() && iCurrentComponent < |flat|
      ensures |iEmbeddedComponents| == |flat|
      ensures iEmbeddedComponents[iCurrentComponent].foreign == flat[iCurrentComponent].foreign
      ensures iEmbeddedComponents[iCurrentComponent].fileName == flat[iCurrentComponent].fileName
    {
      assert Extractor.ShowsNode(iEmbeddedComponents, iEmbeddedComponents[iCurrentComponent], flat[iCurrentComponent]);
    }

    method FindComponentL()
      requires ReferenceAt()
      modifies this`iCompSearchData
      ensures iCompSearchData == Lookup(env, device.scr.comps, iParser.Current())
    {
      hide CompareVersions, View, Registry.Search;
      var langIndex := iParser.GetLanguageIndex(env.language);
      if langIndex == ERR_NOT_FOUND {
        langIndex := 0;
      }
      var name := iParser.iComponentNames[langIndex];
      var vendor := iParser.iVendorNames[langIndex];
      var view := View(device.scr.comps, env.order(device.scr.comps, name, vendor), name, vendor);
      iCompSearchData := Registry.FindComponentL(device.scr.comps, view, iParser.iVersion);
    }

    /** Gives the node at hand what it is to hold. */
    method FillNodeL() returns (r: Outcome<()>)
      requires Listed() && iCurrentComponent < |flat|
      requires if iSifRequestInProgress then flat[iCurrentComponent].foreign
               else ReferenceAt() && iCompSearchData == Lookup(env, device.scr.comps, iParser.Current())
      modifies this`iSifRequestInProgress, iEmbeddedComponents
      ensures !iSifRequestInProgress
      ensures match SlotFor(env, replies, device.scr.comps, iTemps, flat[iCurrentComponent], iCurrentComponent)
              case Ok(slot) => r == Ok(()) && Slots(iEmbeddedComponents) == old(Slots(iEmbeddedComponents))[iCurrentComponent := slot]
              case Fail(f) => r == Fail(f)
    {
      hide Lookup, InstallSpec.RecordAt, Complete, TreeShaped, Describe;
      NodeAt();
      ghost var i := iCurrentComponent;
      ghost var before := Slots(iEmbeddedComponents);
      var auxNode := iEmbeddedComponents[iCurrentComponent];
      assert before[i] == EMPTY;
      if iSifRequestInProgress {
        iSifRequestInProgress := false;
        var reply := replies(iCurrentComponent);
        if reply.status < 0 {
          return Fail(Leave(reply.status));
        }
        var held := auxNode.SetCompInfoL(reply.info);
      } else {
        var held := auxNode.SetNodeL(DescriptionNode());
      }
      assert forall j :: 0 <= j < |before| && j != i ==> Slots(iEmbeddedComponents)[j] == before[j];
      return Ok(());
    }

    method CreateComponentInfoNodeL(ghost answer: Outcome<InfoNode>) returns (r: Outcome<int>)
      requires iStep == CREATE_NODE && Heading(answer)
      modifies this`iCurrentComponent, this`iSifRequestInProgress, iEmbeddedComponents
      ensures match r
              case Ok(next) =>
                && Listed() && !iSifRequestInProgress && iCurrentComponent == old(iCurrentComponent) + 1
                && next == (if iCurrentComponent < |flat| then PARSE else SET_INFO)
                && answer == Rest(env, replies, device.scr.comps, iTemps, flat, Slots(iEmbeddedComponents)[..iCurrentComponent])
              case Fail(f) => answer == Fail(f)
    {
      hide Assemble, SlotsFrom, Rest, Lookup, InstallSpec.RecordAt, Complete, TreeShaped, SlotFor, Extractor.Shows;
      Extractor.ShowsLength(iEmbeddedComponents, flat);
      ghost var i := iCurrentComponent;
      ghost var before := Slots(iEmbeddedComponents);
      RestStep(env, replies, device.scr.comps, iTemps, flat, before[..i]);
      var _ :- FillNodeL();
      ghost var now := Slots(iEmbeddedComponents);
      assert now[..i + 1] == before[..i] + [now[i]];
      iCurrentComponent := iCurrentComponent + 1;
      return Ok(if iCurrentComponent < |iEmbeddedComponents| then PARSE else SET_INFO);
    }

    /** The description of the package that has been looked up. */
    function DescriptionNode(): InfoNode
      requires ReferenceAt() && iCompSearchData == Lookup(env, device.scr.comps, iParser.Current())
      reads this, iParser, device, iEmbeddedComponents
      ensures DescriptionNode() == InfoNode(Describe(env, device.scr.comps, iParser.Current()), [])
    {
      var rec := iParser.Current();
      InfoNode(Info(InstallLaws.NameOfRecord(env, rec), InstallLaws.VendorOfRecord(env, rec), rec.version,
                    iCompSearchData.activated, iCompSearchData.status, iCompSearchData.id, EXAMPLE_FILE_SIZE * |rec.files|), [])
    }

    /** The first execution. */
    method StartL(ghost answer: Outcome<InfoNode>) returns (r: Outcome<()>)
      requires iStep == EXTRACT && Heading(answer)
      modifies this
      ensures r.Ok? ==> Heading(answer) && iStep == PARSE && FlatFor(env, device.State(), flat) && Ahead() == 1 + CostFrom(flat, 0)
      ensures r.Fail? ==> answer == Fail(r.fault)
      ensures iParser == old(iParser)
      ensures r.Ok? ==> forall i :: 0 <= i < |iEmbeddedComponents| ==> fresh(iEmbeddedComponents[i])
      ensures r.Fail? ==> iEmbeddedComponents == old(iEmbeddedComponents)
    {
      hide FlatFor, CostFrom, Assemble, SlotsFrom, Rest, Report, Complete, Extractor.Shows, TreeShaped, Slots;
      var _ :- ExtractEmbeddedPkgsL();
      NoSlots(iEmbeddedComponents);
      iStep := PARSE;
      return Ok(());
    }

    /** One execution. Unless it fails or finishes, the answer stays the same. */
    method ExecuteImplL(ghost answer: Outcome<InfoNode>) returns (r: Outcome<Option<InfoNode>>)
      requires Heading(answer)
      modifies this, iEmbeddedComponents
      ensures match r
              case Ok(None) => Heading(answer)
              case Ok(Some(tree)) => answer == Ok(tree)
              case Fail(f) => answer == Fail(f)
      ensures iEmbeddedComponents == old(iEmbeddedComponents) || forall i :: 0 <= i < |iEmbeddedComponents| ==> fresh(iEmbeddedComponents[i])
      ensures iParser != null && iParser != old(iParser) ==> fresh(iParser)
      ensures r.Ok? && r.value.None? ==>
                iStep > EXTRACT && if old(iStep) == EXTRACT then FlatFor(env, device.State(), flat) && Ahead() == 1 + CostFrom(flat, 0)
                                   else flat == old(flat) && Ahead() == old(Ahead()) - 1
      ensures r.Ok? && r.value.Some? ==> old(iStep) == SET_INFO && old(Ahead()) == 1
    {
      hide FlatFor, CostFrom, Assemble, SlotsFrom, Rest, Report, Lookup, InstallSpec.RecordAt, Complete, Extractor.Shows, TreeShaped, Slots, InstallSpec.KeysOf, Fold, Parse;
      if iStep == EXTRACT {
        var _ :- StartL(answer);
      } else if iStep == PARSE {
        var next :- ParsePkgFileL(answer);
        iStep := next;
      } else if iStep == FIND {
        FindComponentL();
        iStep := CREATE_NODE;
      } else if iStep == CREATE_NODE {
        CostNext(flat, iCurrentComponent);
        var next :- CreateComponentInfoNodeL(answer);
        iStep := next;
      } else {
        CostNext(flat, iCurrentComponent);
        var tree :- Finish(answer);
        return Ok(Some(tree));
      }
      return Ok(None);
    }

    /** Builds the tree and hands it to the client. */
    method Finish(ghost answer: Outcome<InfoNode>) returns (r: Outcome<InfoNode>)
      requires iStep == SET_INFO && Heading(answer)
      modifies iEmbeddedComponents
      ensures r == answer
    {
      hide Process, SlotsFrom, Rest, Extractor.Shows, TreeShaped;
      ghost var slots := Slots(iEmbeddedComponents);
      Extractor.ShowsLength(iEmbeddedComponents, flat);
      FlatNotEmpty(flat);
      assert slots[..|flat|] == slots;
      RestDone(env, replies, device.scr.comps, iTemps, flat, slots);
      r := SetComponentInfoL(iEmbeddedComponents, flat);
    }

    /** The executions that are left, once the list is there. */
    ghost function Ahead(): int
      reads this
    {
      CostFrom(flat, iCurrentComponent) + 1
      - (if iStep == FIND then 1 else if iStep == CREATE_NODE then CostAt(flat, iCurrentComponent) - 1 else 0)
    }
  }

  lemma FlatNotEmpty(flat: seq<Aux>)
    requires TreeShaped(flat)
    ensures flat != []
  {
  }

  lemma NoSlots(list: seq<AuxNode>)
    ensures Slots(list)[..0] == []
  {
  }

  /** A whole GetComponentInfo request: the answer is the Report, the device stays as
      it is, and an answer takes two executions, two more for each foreign package and
      three for each reference package. */
  method GetComponentInfo(env: Env, replies: int -> Reply, device: Device) returns (r: Outcome<InfoNode>, executions: nat)
    ensures r == Report(env, replies, device.State())
    ensures r.Ok? ==> executions == ReportCost(env, device.State())
  {
    hide Report, InfoTask.Heading, InfoTask.Ahead, CostFrom, FlatFor, ReportCost;
    ghost var answer := Report(env, replies, device.State());
    var task := new InfoTask(env, replies, device);
    var step := task.ExecuteImplL(answer);
    executions := 1;
    while step.Ok? && step.value.None?
      invariant fresh(task) && task.env == env && task.replies == replies && task.device == device
      invariant forall i :: 0 <= i < |task.iEmbeddedComponents| ==> fresh(task.iEmbeddedComponents[i])
      invariant task.iParser != null ==> fresh(task.iParser)
      invariant match step
                case Ok(None) =>
                  && task.Heading(answer) && task.iStep > EXTRACT
                  && FlatFor(env, device.State(), task.flat) && executions + task.Ahead() == 2 + CostFrom(task.flat, 0)
                case Ok(Some(tree)) => answer == Ok(tree) && executions == ReportCost(env, device.State())
                case Fail(f) => answer == Fail(f)
      decreases if step.Ok? && step.value.None? then 1 else 0, task.Ahead()
    {
      BuiltCost(env, device.State(), task.flat);
      AheadPositive(task, answer);
      step := task.ExecuteImplL(answer);
      executions := executions + 1;
    }
    if step.Fail? {
      return Fail(step.fault), executions;
    }
    return Ok(step.value.value), executions;
  }

  lemma AheadPositive(task: InfoTask, answer: Outcome<InfoNode>)
    requires task.Heading(answer) && task.iStep > EXTRACT
    ensures task.Ahead() >= 1
  {
    hide Rest;
  }

  lemma RestStart(env: Env, replies: int -> Reply, comps: Components, temps: Store, flat: seq<Aux>)
    requires flat != []
    ensures var slots := SlotsFrom(env, replies, comps, temps, flat, 0);
            Rest(env, replies, comps, temps, flat, []) == if slots.Ok? then Assemble(slots.value, flat) else Fail(slots.fault)
  {
    hide SlotsFrom, Assemble;
    var slots := SlotsFrom(env, replies, comps, temps, flat, 0);
    assert slots.Ok? ==> [] + slots.value == slots.value;
  }
}
