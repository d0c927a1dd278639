/** What GetComponentInfo tells about each package of a request. */
module InfoLaws {
  import opened Platform
  import opened PkgText
  import opened PkgTextLaws
  import opened Unpack
  import opened PkgTree
  import opened PkgRoundTrip
  import opened AuxNodes
  import opened Registry
  import opened InstallModel
  import opened InstallSafety
  import opened InstallLaws
  import InstallSpec
  import opened EndToEnd
  import opened InfoTree
  import opened InfoTasks
  import BinFormat

  /** The information agrees with the package and the device: name and vendor of the
      k-th language, the package's version, 1024 bytes for each file, and the status
      that the matching components give, with the data of one that gives it. */
  ghost predicate Tells(info: Info, comps: Components, rec: Record, k: int) {
    && 0 <= k < |rec.names| && k < |rec.vendors|
    && info.name == rec.names[k] && info.vendor == rec.vendors[k] && info.version == rec.version
    && info.maxInstalledSize == 1024 * |rec.files|
    && if SomeNewer(comps, rec.names[k], rec.vendors[k], rec.version) then info.status == NEWER_INSTALLED && FromMatch(info, comps, rec, k, 1)
       else if SomeEqual(comps, rec.names[k], rec.vendors[k], rec.version) then info.status == ALREADY_INSTALLED && FromMatch(info, comps, rec, k, 0)
       else if SomeMatch(comps, rec.names[k], rec.vendors[k]) then info.status == UPGRADE && FromMatch(info, comps, rec, k, -1)
       else info.status == NEW_COMPONENT && info.id == 0 && !info.activated
  }

  /** The information names a matching component whose comparison has this sign, and
      its state. */
  ghost predicate FromMatch(info: Info, comps: Components, rec: Record, k: int, sign: int)
    requires 0 <= k < |rec.names| && k < |rec.vendors|
  {
    FoundThere(comps, rec.names[k], rec.vendors[k], rec.version, Found(info.status, info.activated, info.id), sign)
  }

  lemma DescribeMeans(env: Env, comps: Components, rec: Record, k: int)
    requires Lawful(env) && Complete(rec) && Chosen(rec.languages, env.language, k)
    ensures Tells(Describe(env, comps, rec), comps, rec, k)
  {
    hide Lookup, Matches, CompareVersions, SomeNewer, SomeEqual, SomeMatch, Lawful;
    LookupMeans(env, comps, rec, k);
    ChosenIsIndex(rec, env.language, k);
  }

  // ---------------------------------------------------------------------------
  // All packages of a request
  // ---------------------------------------------------------------------------

  /** The foreign packages from position i up to j have answered. */
  ghost predicate Answered(flat: seq<Aux>, replies: int -> Reply, i: nat, j: nat) {
    forall m :: i <= m < j && m < |flat| && flat[m].foreign ==> replies(m).status >= 0
  }

  /** What a node holds before the tree is built: the information about its own package,
      or the answer of the other installer. */
  ghost predicate Holds(slot: Slot, a: Aux, env: Env, replies: int -> Reply, comps: Components, temps: Store, m: int) {
    if a.foreign then slot == Slot(None, Some(replies(m).info))
    else
      && InstallSpec.RecordAt(temps, a.fileName).Ok?
      && slot.node.Some? && slot.compInfo.None? && slot.node.value.children == []
      && slot.node.value.info == Describe(env, comps, InstallSpec.RecordAt(temps, a.fileName).value)
  }

  /** With readable packages, the first foreign package that answers with an error gives
      the fault; if none does, each node holds its own. */
  lemma {:induction false} SlotsMean(env: Env, replies: int -> Reply, comps: Components, temps: Store, flat: seq<Aux>, i: nat)
    requires i <= |flat|
    requires forall m :: i <= m < |flat| && !flat[m].foreign ==> InstallSpec.RecordAt(temps, flat[m].fileName).Ok?
    ensures SlotsFrom(env, replies, comps, temps, flat, i).Ok? <==> Answered(flat, replies, i, |flat|)
    ensures forall m :: i <= m < |flat| && flat[m].foreign && replies(m).status < 0 && Answered(flat, replies, i, m) ==>
              SlotsFrom(env, replies, comps, temps, flat, i) == Fail(Leave(replies(m).status))
    ensures SlotsFrom(env, replies, comps, temps, flat, i).Ok? ==>
              forall m, n :: i <= m < |flat| && n == m - i ==>
                Holds(SlotsFrom(env, replies, comps, temps, flat, i).value[n], flat[m], env, replies, comps, temps, m)
    decreases |flat| - i
  {
    hide InstallSpec.RecordAt, Describe;
    if i < |flat| {
      SlotsMean(env, replies, comps, temps, flat, i + 1);
      var first := SlotFor(env, replies, comps, temps, flat[i], i);
      var rest := SlotsFrom(env, replies, comps, temps, flat, i + 1);
      var all := SlotsFrom(env, replies, comps, temps, flat, i);
      assert first.Ok? <==> Answered(flat, replies, i, i + 1);
      forall m | i <= m < |flat| && flat[m].foreign && replies(m).status < 0 && Answered(flat, replies, i, m)
        ensures all == Fail(Leave(replies(m).status))
      {
        assert m > i ==> Answered(flat, replies, i + 1, m);
      }
      if all.Ok? {
        forall m, n | i <= m < |flat| && n == m - i ensures Holds(all.value[n], flat[m], env, replies, comps, temps, m) {
          var before := n - 1;
          assert m > i ==> all.value[n] == rest.value[before] && before == m - (i + 1);
        }
      }
    }
  }

  /** A request about a tree of written packages, as a whole: the first foreign package
      that answers with an error gives the fault; otherwise the answer is the package
      tree, and each package is told about by its own record. */
  lemma TreeReported(env: Env, replies: int -> Reply, w: World, t: Tree, pages: seq<Option<Page>>, junk: seq<byte>)
      returns (sh: Shape, slots: seq<Slot>)
    requires Lawful(env) && TreeFile(env, w, t, junk) && AllPrinted(t, pages)
    requires forall m :: 0 <= m < |pages| && pages[m].None? ==> replies(m).info.root != None
    ensures forall m :: 0 <= m < |pages| && pages[m].None? && replies(m).status < 0
                        && (forall j :: 0 <= j < m && pages[j].None? ==> replies(j).status >= 0) ==>
              Report(env, replies, w) == Fail(Leave(replies(m).status))
    ensures (forall m :: 0 <= m < |pages| && pages[m].None? ==> replies(m).status >= 0) ==>
              && |slots| == |pages| > 0 && Ready(sh, slots, 0) && sh.Reference?
              && Parents(sh, -1, 0) == ParentsIn(SubOrder(Inner(ToPack(t)), env.path, PRIVATE_DIR, -1, 0))
              && Report(env, replies, w) == Ok(Expected(sh, slots, 0))
              && (forall m :: 0 <= m < |pages| && pages[m].None? ==> slots[m] == Slot(None, Some(replies(m).info)))
              && (forall m, k :: 0 <= m < |pages| && pages[m].Some? && Chosen(pages[m].value.rec.languages, env.language, k) ==>
                    slots[m].node.Some? && Tells(slots[m].node.value.info, w.scr.comps, pages[m].value.rec, k))
  {
    hide Lawful, TreeFile, Build, Limits, Encode, Texts, Printed, Reads, Sorts, ListOf, InstallSpec.RecordAt, Tells, Describe, Complete,
         Chosen, Ready, Expected, Parents, Report, SlotsFrom, SubOrder, ToPack, Valid, OneLine, NewTemps, TempsOf;
    TreeLimits(env, w, t, junk);
    TreeListed(env, w, t, junk);
    var b := Build(DiskStore(w.disk), env.path, env.data, PRIVATE_DIR, [], -1).value;
    var (flat, temps) := (b.flat, TempsOf(env, w));
    SameTemps(env, w);
    sh, slots := Foreign, [];
    NodesRead(env, t, flat, pages, temps);
    SlotsMean(env, replies, w.scr.comps, temps, flat, 0);
    SomePage(t, pages);
    ReportFaults(env, replies, w);
    if forall m :: 0 <= m < |pages| && pages[m].None? ==> replies(m).status >= 0 {
      sh, slots := ReportIsTree(env, replies, w);
      forall m | 0 <= m < |pages| ensures Holds(slots[m], flat[m], env, replies, w.scr.comps, temps, m) {
        assert m == m - 0;
      }
      forall m, k | 0 <= m < |pages| && pages[m].Some? && Chosen(pages[m].value.rec.languages, env.language, k)
        ensures Tells(slots[m].node.value.info, w.scr.comps, pages[m].value.rec, k)
      {
        DescribeMeans(env, w.scr.comps, pages[m].value.rec, k);
      }
    }
  }

  lemma TreeLimits(env: Env, w: World, t: Tree, junk: seq<byte>)
    requires TreeFile(env, w, t, junk)
    ensures Limits(t)
  {
  }

  lemma SameTemps(env: Env, w: World)
    requires Build(DiskStore(w.disk), env.path, env.data, PRIVATE_DIR, [], -1).Ok?
    ensures TempsOf(env, w) == NewTemps(Build(DiskStore(w.disk), env.path, env.data, PRIVATE_DIR, [], -1).value.store, w.disk)
  {
    hide Build, NewTemps, DiskStore;
  }

  lemma SomePage(t: Tree, pages: seq<Option<Page>>)
    requires AllPrinted(t, pages)
    ensures |pages| > 0
  {
  }

  /** Each node of the list reads as its page. */
  lemma NodesRead(env: Env, t: Tree, flat: seq<Aux>, pages: seq<Option<Page>>, temps: Store)
    requires Limits(t) && flat == SubOrder(Inner(ToPack(t)), env.path, PRIVATE_DIR, -1, 0) && AllPrinted(t, pages)
    requires |Nodes(env, t)| == |Texts(t)| && forall m :: 0 <= m < |Texts(t)| ==> Reads(Nodes(env, t)[m], Texts(t)[m], temps)
    ensures |flat| == |pages|
    ensures forall m :: 0 <= m < |pages| ==>
              && flat[m].foreign == pages[m].None?
              && (pages[m].Some? ==> InstallSpec.RecordAt(temps, flat[m].fileName) == Ok(pages[m].value.rec) && Complete(pages[m].value.rec))
  {
    hide Limits, SubOrder, ToPack, Texts, Reads, Printed, InstallSpec.RecordAt, Complete;
    forall m | 0 <= m < |pages|
      ensures flat[m].foreign == pages[m].None?
      ensures pages[m].Some? ==> InstallSpec.RecordAt(temps, flat[m].fileName) == Ok(pages[m].value.rec) && Complete(pages[m].value.rec)
    {
      PrintedReads(Nodes(env, t)[m], Texts(t)[m], pages[m], temps);
    }
  }

  lemma ReportFaults(env: Env, replies: int -> Reply, w: World)
    requires Build(DiskStore(w.disk), env.path, env.data, PRIVATE_DIR, [], -1).Ok?
    requires Build(DiskStore(w.disk), env.path, env.data, PRIVATE_DIR, [], -1).value.flat != []
    ensures var flat := Build(DiskStore(w.disk), env.path, env.data, PRIVATE_DIR, [], -1).value.flat;
            var slots := SlotsFrom(env, replies, w.scr.comps, TempsOf(env, w), flat, 0);
            slots.Fail? ==> Report(env, replies, w) == Fail(slots.fault)
  {
    hide Build, SlotsFrom, NewTemps, DiskStore, Assemble;
  }

  /** The root of an answer tells about the root package. */
  lemma RootReported(env: Env, replies: int -> Reply, w: World, t: Tree, pages: seq<Option<Page>>, junk: seq<byte>, k: int)
    requires Lawful(env) && TreeFile(env, w, t, junk) && AllPrinted(t, pages)
    requires forall m :: 0 <= m < |pages| && pages[m].None? ==> replies(m).info.root != None && replies(m).status >= 0
    ensures |pages| > 0 && pages[0].Some?
    ensures Chosen(pages[0].value.rec.languages, env.language, k) ==>
              Report(env, replies, w).Ok? && Tells(Report(env, replies, w).value.info, w.scr.comps, pages[0].value.rec, k)
  {
    hide Lawful, TreeFile, Printed, Tells, Report, SubOrder, ToPack, Chosen, Parents, ParentsIn;
    FirstPage(t, pages);
    var sh, slots := TreeReported(env, replies, w, t, pages, junk);
  }
}
