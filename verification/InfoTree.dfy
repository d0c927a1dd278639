/** Building the component information tree: the flat list is walked from its
    last node to its second, each node handing what it holds to its parent. */
module InfoTree {
  import opened Platform
  import opened Unpack
  import opened PkgTree
  import opened AuxNodes
  import Extractor
  import BinFormat

  /** What a node of the flat list holds. */
  datatype Slot = Slot(node: Option<InfoNode>, compInfo: Option<ComponentInfo>)

  const EMPTY := Slot(None, None)

  /** RegisterChildToParentL of node i. */
  function Attach(slots: seq<Slot>, parents: seq<int>, i: nat): Outcome<seq<Slot>>
    requires i < |slots| == |parents|
  {
    var p := parents[i];
    if !(0 <= p < i) then Fail(Panic) else
    var grown :- Handover(slots[i].node, slots[i].compInfo, slots[p].node);
    Ok(slots[p := slots[p].(node := Some(grown))]
            [i := Slot(if slots[i].compInfo != None then slots[i].node else None, None)])
  }

  /** Nodes hi - 1 down to lo, in that order. */
  function Process(slots: seq<Slot>, parents: seq<int>, lo: nat, hi: nat): (r: Outcome<seq<Slot>>)
    requires lo <= hi <= |slots| == |parents|
    ensures r.Ok? ==> |r.value| == |slots|
    decreases hi - lo
  {
    if lo == hi then Ok(slots) else
    var s :- Attach(slots, parents, hi - 1);
    Process(s, parents, lo, hi - 1)
  }

  lemma {:induction false} ProcessSplit(slots: seq<Slot>, parents: seq<int>, lo: nat, mid: nat, hi: nat)
    requires lo <= mid <= hi <= |slots| == |parents|
    ensures var upper := Process(slots, parents, mid, hi);
            Process(slots, parents, lo, hi) == if upper.Ok? then Process(upper.value, parents, lo, mid) else upper
    decreases hi - mid
  {
    hide Attach;
    if mid < hi {
      var r := Attach(slots, parents, hi - 1);
      if r.Ok? {
        AttachLength(slots, parents, hi - 1);
        ProcessSplit(r.value, parents, lo, mid, hi - 1);
      }
    }
  }

  lemma AttachLength(slots: seq<Slot>, parents: seq<int>, i: nat)
    requires i < |slots| == |parents|
    ensures Attach(slots, parents, i).Ok? ==> |Attach(slots, parents, i).value| == |slots|
  {
  }

  // ---------------------------------------------------------------------------
  // The tree behind the list
  // ---------------------------------------------------------------------------

  /** The shape of a package tree: foreign components are leaves. */
  datatype Shape = Foreign | Reference(kids: seq<Shape>)

  function Size(sh: Shape): (n: nat)
    ensures n >= 1
    decreases sh, 1
  {
    match sh
    case Foreign => 1
    case Reference(kids) => 1 + SizeAll(kids)
  }

  function SizeAll(kids: seq<Shape>): nat
    decreases kids, 0
  {
    if kids == [] then 0 else Size(kids[0]) + SizeAll(kids[1..])
  }

  /** Positions of the parents in the pre-order list of a shape that starts at base. */
  function Parents(sh: Shape, parent: int, base: nat): (r: seq<int>)
    ensures |r| == Size(sh)
    decreases sh, 1
  {
    match sh
    case Foreign => [parent]
    case Reference(kids) => [parent] + ParentsAll(kids, base, base + 1)
  }

  function ParentsAll(kids: seq<Shape>, parent: int, base: nat): (r: seq<int>)
    ensures |r| == SizeAll(kids)
    decreases kids, 0
  {
    if kids == [] then [] else Parents(kids[0], parent, base) + ParentsAll(kids[1..], parent, base + Size(kids[0]))
  }

  /** What each node holds before the walk: a foreign node the information its own
      installer returned, a reference node a childless node. */
  ghost predicate Ready(sh: Shape, slots: seq<Slot>, base: nat)
    decreases sh, 1
  {
    base + Size(sh) <= |slots| &&
    match sh
    case Foreign =>
      slots[base].node == None && slots[base].compInfo != None && slots[base].compInfo.value.root != None
    case Reference(kids) =>
      && slots[base].node != None && slots[base].node.value.children == [] && slots[base].compInfo == None
      && ReadyAll(kids, slots, base + 1)
  }

  ghost predicate ReadyAll(kids: seq<Shape>, slots: seq<Slot>, base: nat)
    decreases kids, 0
  {
    kids == [] || (Ready(kids[0], slots, base) && ReadyAll(kids[1..], slots, base + Size(kids[0])))
  }

  /** The tree the walk must produce: each reference node with its own information
      and its children's trees, last child first. */
  ghost function Expected(sh: Shape, slots: seq<Slot>, base: nat): InfoNode
    requires Ready(sh, slots, base)
    decreases sh, 1
  {
    match sh
    case Foreign => slots[base].compInfo.value.root.value
    case Reference(kids) => InfoNode(slots[base].node.value.info, ExpectedAll(kids, slots, base + 1))
  }

  ghost function ExpectedAll(kids: seq<Shape>, slots: seq<Slot>, base: nat): seq<InfoNode>
    requires ReadyAll(kids, slots, base)
    decreases kids, 0
  {
    if kids == [] then []
    else ExpectedAll(kids[1..], slots, base + Size(kids[0])) + [Expected(kids[0], slots, base)]
  }

  /** slots with positions lo to hi emptied. */
  ghost function Cleared(slots: seq<Slot>, lo: nat, hi: nat): seq<Slot>
    requires lo <= hi <= |slots|
  {
    slots[..lo] + seq(hi - lo, _ => EMPTY) + slots[hi..]
  }

  /** The slot of a node once all its descendants have reached it. */
  ghost function Gathered(sh: Shape, slots: seq<Slot>, base: nat): Slot
    requires Ready(sh, slots, base)
  {
    if sh.Foreign? then slots[base] else Slot(Some(Expected(sh, slots, base)), None)
  }

  lemma {:induction false} ReadyKept(sh: Shape, s: seq<Slot>, t: seq<Slot>, base: nat)
    requires Ready(sh, s, base) && |s| == |t|
    requires s[base..base + Size(sh)] == t[base..base + Size(sh)]
    ensures Ready(sh, t, base) && Expected(sh, s, base) == Expected(sh, t, base)
    decreases sh, 1
  {
    assert s[base] == s[base..base + Size(sh)][0] == t[base];
    if sh.Reference? {
      assert s[base + 1..base + Size(sh)] == s[base..base + Size(sh)][1..] == t[base + 1..base + Size(sh)];
      ReadyAllKept(sh.kids, s, t, base + 1);
    }
  }

  lemma {:induction false} ReadyAllKept(kids: seq<Shape>, s: seq<Slot>, t: seq<Slot>, base: nat)
    requires base + SizeAll(kids) <= |s| == |t|
    requires ReadyAll(kids, s, base)
    requires s[base..base + SizeAll(kids)] == t[base..base + SizeAll(kids)]
    ensures ReadyAll(kids, t, base) && ExpectedAll(kids, s, base) == ExpectedAll(kids, t, base)
    decreases kids, 0
  {
    hide Ready, Expected;
    if kids != [] {
      var (n, m) := (Size(kids[0]), SizeAll(kids));
      assert s[base..base + n] == s[base..base + m][..n] == t[base..base + n];
      assert s[base + n..base + m] == s[base..base + m][n..] == t[base + n..base + m];
      ReadyKept(kids[0], s, t, base);
      ReadyAllKept(kids[1..], s, t, base + n);
    }
  }

  /** slots with positions lo to hi emptied and more children at node p. */
  ghost function Fed(slots: seq<Slot>, p: nat, lo: nat, hi: nat, more: seq<InfoNode>): (r: seq<Slot>)
    requires p < lo <= hi <= |slots| && slots[p].node != None
    ensures |r| == |slots|
  {
    var m := slots[p].node.value;
    Cleared(slots, lo, hi)[p := slots[p].(node := Some(InfoNode(m.info, m.children + more)))]
  }

  lemma FedSame(slots: seq<Slot>, p: nat, lo: nat)
    requires p < lo <= |slots| && slots[p].node != None
    ensures Fed(slots, p, lo, lo, []) == slots
  {
    var m := slots[p].node.value;
    assert m.children + [] == m.children;
  }

  lemma FedElsewhere(slots: seq<Slot>, p: nat, lo: nat, hi: nat, more: seq<InfoNode>, from: nat)
    requires p < from <= lo <= hi <= |slots| && slots[p].node != None
    ensures Fed(slots, p, lo, hi, more)[from..lo] == slots[from..lo]
  {
  }

  /** One tree: walking its nodes from the last to the second gathers the whole
      tree in its first node and leaves nothing in the others. */
  lemma {:induction false} ProcessTree(sh: Shape, slots: seq<Slot>, parents: seq<int>, parent: int, base: nat)
    requires |slots| == |parents| && Ready(sh, slots, base)
    requires parents[base..base + Size(sh)] == Parents(sh, parent, base)
    ensures Process(slots, parents, base + 1, base + Size(sh)) ==
            Ok(Cleared(slots, base + 1, base + Size(sh))[base := Gathered(sh, slots, base)])
    decreases sh, 1
  {
    hide Attach, ParentsAll, ReadyAll, ExpectedAll;
    match sh
    case Foreign =>
      assert Cleared(slots, base + 1, base + 1)[base := slots[base]] == slots;
    case Reference(kids) =>
      var n := Size(sh);
      assert parents[base + 1..base + n] == parents[base..base + n][1..] == ParentsAll(kids, base, base + 1);
      ProcessForest(kids, slots, parents, base, base + 1);
      assert [] + ExpectedAll(kids, slots, base + 1) == ExpectedAll(kids, slots, base + 1);
      assert slots[base].(node := Some(Expected(sh, slots, base))) == Gathered(sh, slots, base);
  }

  /** A run of siblings: each is gathered and handed to the parent, last one first. */
  lemma {:induction false} ProcessForest(kids: seq<Shape>, slots: seq<Slot>, parents: seq<int>, p: nat, base: nat)
    requires p < base && base + SizeAll(kids) <= |slots| == |parents|
    requires ReadyAll(kids, slots, base)
    requires slots[p].node != None
    requires parents[base..base + SizeAll(kids)] == ParentsAll(kids, p, base)
    ensures Process(slots, parents, base, base + SizeAll(kids)) ==
            Ok(Fed(slots, p, base, base + SizeAll(kids), ExpectedAll(kids, slots, base)))
    decreases kids, 0
  {
    hide Attach, Ready, Expected, Parents, Gathered, Fed, Cleared, Process;
    if kids == [] {
      FedSame(slots, p, base);
      ProcessNothing(slots, parents, base);
    } else {
      var (n, hi) := (Size(kids[0]), base + SizeAll(kids));
      var more := kids[1..];
      ForestRest(kids, slots, parents, p, base);
      ProcessForest(more, slots, parents, p, base + n);
      ProcessSplit(slots, parents, base, base + n, hi);
      var s1 := Process(slots, parents, base + n, hi).value;
      FedElsewhere(slots, p, base + n, hi, ExpectedAll(more, slots, base + n), base);
      ReadyKept(kids[0], slots, s1, base);
      ProcessTree(kids[0], s1, parents, p, base);
      ProcessSplit(s1, parents, base, base + 1, base + n);
      LastHandover(kids, slots, s1, parents, p, base);
    }
  }

  lemma ProcessNothing(slots: seq<Slot>, parents: seq<int>, lo: nat)
    requires lo <= |slots| == |parents|
    ensures Process(slots, parents, lo, lo) == Ok(slots)
  {
  }

  lemma ForestRest(kids: seq<Shape>, slots: seq<Slot>, parents: seq<int>, p: nat, base: nat)
    requires kids != [] && base + SizeAll(kids) <= |slots| == |parents|
    requires parents[base..base + SizeAll(kids)] == ParentsAll(kids, p, base)
    ensures var n := Size(kids[0]);
            && parents[base..base + n] == Parents(kids[0], p, base)
            && parents[base + n..base + SizeAll(kids)] == ParentsAll(kids[1..], p, base + n)
            && parents[base] == p
  {
    var (n, m) := (Size(kids[0]), SizeAll(kids));
    assert parents[base..base + n] == parents[base..base + m][..n];
    assert parents[base + n..base + m] == parents[base..base + m][n..];
    assert parents[base] == parents[base..base + n][0];
  }

  /** The first sibling, gathered, is handed to the parent after the others. */
  lemma LastHandover(kids: seq<Shape>, slots: seq<Slot>, s1: seq<Slot>, parents: seq<int>, p: nat, base: nat)
    requires kids != [] && p < base && base + SizeAll(kids) <= |slots| == |parents|
    requires ReadyAll(kids, slots, base) && slots[p].node != None && parents[base] == p
    requires s1 == Fed(slots, p, base + Size(kids[0]), base + SizeAll(kids), ExpectedAll(kids[1..], slots, base + Size(kids[0])))
    requires Ready(kids[0], s1, base) && Expected(kids[0], s1, base) == Expected(kids[0], slots, base)
    ensures Process(Cleared(s1, base + 1, base + Size(kids[0]))[base := Gathered(kids[0], s1, base)], parents, base, base + 1) ==
            Ok(Fed(slots, p, base, base + SizeAll(kids), ExpectedAll(kids, slots, base)))
  {
    var n := Size(kids[0]);
    var s2 := Cleared(s1, base + 1, base + n)[base := Gathered(kids[0], s1, base)];
    FirstHandover(kids[0], s1, s2, parents, p, base);
    var others := ExpectedAll(kids[1..], slots, base + n);
    var first := [Expected(kids[0], slots, base)];
    FedAgain(slots, p, base, base + n, base + SizeAll(kids), others, first);
  }

  lemma FirstHandover(kid: Shape, s1: seq<Slot>, s2: seq<Slot>, parents: seq<int>, p: nat, base: nat)
    requires p < base && Ready(kid, s1, base) && |s1| == |parents| && s1[p].node != None && parents[base] == p
    requires s2 == Cleared(s1, base + 1, base + Size(kid))[base := Gathered(kid, s1, base)]
    ensures Process(s2, parents, base, base + 1) == Ok(Fed(s1, p, base, base + Size(kid), [Expected(kid, s1, base)]))
  {
    hide ReadyAll, ExpectedAll;
    assert s2[p] == s1[p];
    ProcessNothing(Attach(s2, parents, base).value, parents, base);
    assert Attach(s2, parents, base).value == Fed(s1, p, base, base + Size(kid), [Expected(kid, s1, base)]);
  }

  lemma FedAgain(slots: seq<Slot>, p: nat, lo: nat, mid: nat, hi: nat, others: seq<InfoNode>, first: seq<InfoNode>)
    requires p < lo <= mid <= hi <= |slots| && slots[p].node != None
    ensures Fed(slots, p, mid, hi, others)[p].node != None
    ensures Fed(Fed(slots, p, mid, hi, others), p, lo, mid, first) == Fed(slots, p, lo, hi, others + first)
  {
    var m := slots[p].node.value;
    assert m.children + others + first == m.children + (others + first);
  }

  /** The whole list: afterwards the root holds the tree and no other node holds anything. */
  lemma ProcessWhole(sh: Shape, slots: seq<Slot>, parents: seq<int>)
    requires sh.Reference? && |slots| == |parents| == Size(sh)
    requires Ready(sh, slots, 0) && parents == Parents(sh, -1, 0)
    ensures Process(slots, parents, 1, |slots|).Ok?
    ensures var t := Process(slots, parents, 1, |slots|).value;
            && t[0] == Slot(Some(Expected(sh, slots, 0)), None)
            && forall i :: 1 <= i < |t| ==> t[i] == EMPTY
  {
    hide Process, Expected;
    assert parents[0..0 + Size(sh)] == parents;
    ProcessTree(sh, slots, parents, -1, 0);
  }

  // ---------------------------------------------------------------------------
  // From the extractor's list
  // ---------------------------------------------------------------------------

  ghost function ShapeOf(s: Sub): Shape
    decreases s, 1
  {
    match s
    case Opaque => Foreign
    case Inner(p) => Reference(ShapesOf(p.subs))
  }

  ghost function ShapesOf(subs: seq<Sub>): seq<Shape>
    decreases subs, 0
  {
    if subs == [] then [] else [ShapeOf(subs[0])] + ShapesOf(subs[1..])
  }

  ghost function ParentsIn(flat: seq<Aux>): (r: seq<int>)
    ensures |r| == |flat|
    ensures forall i :: 0 <= i < |r| ==> r[i] == flat[i].parent
  {
    seq(|flat|, i requires 0 <= i < |flat| => flat[i].parent)
  }

  /** The list of a package tree names the parents of the tree's shape. */
  lemma {:induction false} OrderParents(s: Sub, path: string, data: seq<byte>, dir: string, parent: int, base: nat)
    requires Fits(s, path, dir, data)
    ensures ParentsIn(SubOrder(s, path, dir, parent, base)) == Parents(ShapeOf(s), parent, base)
    decreases s, 1
  {
    hide IsRefPath, PkgFileName, DirOf, ItemPath, BinFormat.Bytes, BinFormat.ValidWire;
    if s.Inner? {
      var embDir := dir + CHILDREN_DIR;
      assert AllFit(s.pack.subs, s.pack.wire.items, embDir);
      OrdersParents(s.pack.subs, s.pack.wire.items, embDir, base, base + 1);
    }
  }

  lemma {:induction false} OrdersParents(subs: seq<Sub>, items: seq<BinFormat.Item>, embDir: string, parent: int, base: nat)
    requires AllFit(subs, items, embDir)
    ensures ParentsIn(SubsOrder(subs, items, embDir, parent, base)) == ParentsAll(ShapesOf(subs), parent, base)
    decreases subs, 0
  {
    hide IsRefPath, PkgFileName, DirOf, ItemPath, Fits, SubOrder, Parents, ParentsAll, ShapeOf, ShapesOf, Size, ParentsIn;
    if subs == [] {
      NoParents(parent, base);
    } else {
      var path := ItemPath(embDir, items[0].name);
      var first := SubOrder(subs[0], path, DirOf(path), parent, base);
      TailFits(subs, items, embDir);
      OrderParents(subs[0], path, items[0].body, DirOf(path), parent, base);
      OrdersParents(subs[1..], items[1..], embDir, parent, base + |first|);
      var rest := SubsOrder(subs[1..], items[1..], embDir, parent, base + |first|);
      assert |first| == Size(ShapeOf(subs[0]));
      ParentsConcat(first, rest);
      ParentsCons(subs, parent, base);
    }
  }

  lemma NoParents(parent: int, base: nat)
    ensures ParentsIn([]) == ParentsAll(ShapesOf([]), parent, base)
  {
  }

  lemma ParentsConcat(a: seq<Aux>, b: seq<Aux>)
    ensures ParentsIn(a + b) == ParentsIn(a) + ParentsIn(b)
  {
  }

  lemma ParentsCons(subs: seq<Sub>, parent: int, base: nat)
    requires subs != []
    ensures ParentsAll(ShapesOf(subs), parent, base)
         == Parents(ShapeOf(subs[0]), parent, base) + ParentsAll(ShapesOf(subs[1..]), parent, base + Size(ShapeOf(subs[0])))
  {
    hide Parents, ShapeOf, Size;
    assert ShapesOf(subs)[0] == ShapeOf(subs[0]) && ShapesOf(subs)[1..] == ShapesOf(subs[1..]);
  }

  /** Every accepted package has a shape, and its list is the list of that shape. */
  lemma BuiltShape(store: Store, path: string, data: seq<byte>, dir: string) returns (sh: Shape)
    requires Build(store, path, data, dir, [], -1).Ok?
    ensures sh.Reference?
    ensures ParentsIn(Build(store, path, data, dir, [], -1).value.flat) == Parents(sh, -1, 0)
  {
    hide Build, Fits, SubOrder, CreateAll, Parents, ShapesOf;
    var s := BuildSound(store, path, data, dir, [], -1);
    BuildComplete(s, store, path, data, dir, [], -1);
    OrderParents(s, path, data, dir, -1, 0);
    sh := ShapeOf(s);
    assert [] + SubOrder(s, path, dir, -1, 0) == SubOrder(s, path, dir, -1, 0);
  }

  function Slots(list: seq<AuxNode>): (r: seq<Slot>)
    reads list
    ensures |r| == |list|
    ensures forall i :: 0 <= i < |r| ==> r[i] == Slot(list[i].node, list[i].compInfo)
  {
    seq(|list|, i requires 0 <= i < |list| reads list => Slot(list[i].node, list[i].compInfo))
  }

  /** Step i of the walk on the objects is step i of the walk on their slots. */
  method RegisterAt(list: seq<AuxNode>, ghost flat: seq<Aux>, i: nat) returns (r: Outcome<()>)
    requires Extractor.Shows(list, flat) && 1 <= i < |list|
    requires 0 <= flat[i].parent < i
    modifies list
    ensures match Attach(old(Slots(list)), ParentsIn(flat), i)
            case Ok(t) => r == Ok(()) && Slots(list) == t
            case Fail(f) => r == Fail(f)
  {
    ghost var p := flat[i].parent;
    assert Extractor.ShowsNode(list, list[i], flat[i]);
    assert list[p] == list[i].parent && list[p] != list[i];
    ghost var before := Slots(list);
    r := list[i].RegisterChildToParentL();
    if r.Ok? {
      ghost var t := Attach(before, ParentsIn(flat), i).value;
      assert forall k :: 0 <= k < |list| && k != p && k != i ==> Slots(list)[k] == before[k];
      assert Slots(list) == t;
    }
  }

  /** SetComponentInfoL: the walk over the whole list, and the root taken out at the end. */
  method SetComponentInfoL(list: seq<AuxNode>, ghost flat: seq<Aux>) returns (r: Outcome<InfoNode>)
    requires Extractor.Shows(list, flat) && TreeShaped(flat)
    modifies list
    ensures match Process(old(Slots(list)), ParentsIn(flat), 1, |flat|)
            case Ok(t) =>
              && r == (if t[0].node == None then Fail(Leave(ERR_NOT_FOUND)) else Ok(t[0].node.value))
              && Slots(list) == t[0 := t[0].(node := None)]
            case Fail(f) => r == Fail(f)
  {
    hide Attach;
    ghost var parents := ParentsIn(flat);
    ghost var answer := Process(Slots(list), parents, 1, |list|);
    var i := |list| - 1;
    while i >= 1
      invariant 0 <= i < |list|
      invariant answer == Process(Slots(list), parents, 1, i + 1)
      decreases i
    {
      assert WithinRun(flat, i, 0);
      var _ :- RegisterAt(list, flat, i);
      i := i - 1;
    }
    ghost var t := Slots(list);
    r := list[0].SetAsRootNodeL();
    assert forall k :: 1 <= k < |list| ==> Slots(list)[k] == t[k];
    assert Slots(list) == t[0 := t[0].(node := None)];
  }

  /** The two together: on the list of any accepted package whose nodes have been
      given their information, the walk succeeds and the root is the whole tree. */
  lemma WalkYieldsTree(store: Store, path: string, data: seq<byte>, dir: string, slots: seq<Slot>) returns (sh: Shape)
    requires Build(store, path, data, dir, [], -1).Ok?
    requires var flat := Build(store, path, data, dir, [], -1).value.flat;
             && |slots| == |flat|
             && forall i :: 0 <= i < |flat| ==> Supplied(flat[i], slots[i])
    ensures var flat := Build(store, path, data, dir, [], -1).value.flat;
            && sh.Reference? && ParentsIn(flat) == Parents(sh, -1, 0) && Ready(sh, slots, 0)
            && Process(slots, ParentsIn(flat), 1, |flat|).Ok?
            && var t := Process(slots, ParentsIn(flat), 1, |flat|).value;
               && t[0] == Slot(Some(Expected(sh, slots, 0)), None)
               && forall i :: 1 <= i < |t| ==> t[i] == EMPTY
  {
    hide Build, Fits, SubOrder, CreateAll, Parents, Process, Expected, Ready;
    var s := BuildSound(store, path, data, dir, [], -1);
    BuildComplete(s, store, path, data, dir, [], -1);
    var flat := SubOrder(s, path, dir, -1, 0);
    assert [] + flat == flat;
    OrderParents(s, path, data, dir, -1, 0);
    sh := ShapeOf(s);
    assert flat[0..] == flat;
    OrderReady(s, path, data, dir, -1, 0, flat, slots);
    ProcessWhole(sh, slots, ParentsIn(flat));
  }

  /** A node of the list holds what its kind calls for. */
  predicate Supplied(a: Aux, slot: Slot) {
    if a.foreign then slot.node == None && slot.compInfo != None && slot.compInfo.value.root != None
    else slot.node != None && slot.node.value.children == [] && slot.compInfo == None
  }

  lemma {:induction false} OrderReady(s: Sub, path: string, data: seq<byte>, dir: string, parent: int, base: nat, flat: seq<Aux>, slots: seq<Slot>)
    requires Fits(s, path, dir, data)
    requires |slots| == |flat| && forall i :: 0 <= i < |flat| ==> Supplied(flat[i], slots[i])
    requires base <= |flat| && SubOrder(s, path, dir, parent, base) <= flat[base..]
    ensures Ready(ShapeOf(s), slots, base)
    ensures |SubOrder(s, path, dir, parent, base)| == Size(ShapeOf(s))
    decreases s, 1
  {
    hide IsRefPath, PkgFileName, DirOf, ItemPath, BinFormat.Bytes, BinFormat.ValidWire, SubsOrder, ReadyAll;
    OrderParents(s, path, data, dir, parent, base);
    var run := SubOrder(s, path, dir, parent, base);
    assert flat[base] == flat[base..][0] == run[0];
    assert Supplied(flat[base], slots[base]);
    if s.Inner? {
      var embDir := dir + CHILDREN_DIR;
      assert AllFit(s.pack.subs, s.pack.wire.items, embDir);
      assert flat[base + 1..] == flat[base..][1..];
      assert SubsOrder(s.pack.subs, s.pack.wire.items, embDir, base, base + 1) == run[1..];
      OrdersReady(s.pack.subs, s.pack.wire.items, embDir, base, base + 1, flat, slots);
    }
  }

  lemma {:induction false} OrdersReady(subs: seq<Sub>, items: seq<BinFormat.Item>, embDir: string, parent: int, base: nat, flat: seq<Aux>, slots: seq<Slot>)
    requires AllFit(subs, items, embDir)
    requires |slots| == |flat| && forall i :: 0 <= i < |flat| ==> Supplied(flat[i], slots[i])
    requires base <= |flat| && SubsOrder(subs, items, embDir, parent, base) <= flat[base..]
    ensures ReadyAll(ShapesOf(subs), slots, base)
    decreases subs, 0
  {
    hide IsRefPath, PkgFileName, DirOf, ItemPath, Fits, SubOrder, Ready, Supplied;
    if subs != [] {
      var path := ItemPath(embDir, items[0].name);
      var first := SubOrder(subs[0], path, DirOf(path), parent, base);
      var rest := SubsOrder(subs[1..], items[1..], embDir, parent, base + |first|);
      TailFits(subs, items, embDir);
      assert first + rest <= flat[base..];
      assert first <= flat[base..];
      OrderReady(subs[0], path, items[0].body, DirOf(path), parent, base, flat, slots);
      assert flat[base + |first|..] == flat[base..][|first|..];
      assert rest == (first + rest)[|first|..];
      OrdersReady(subs[1..], items[1..], embDir, parent, base + |first|, flat, slots);
      assert ShapesOf(subs)[0] == ShapeOf(subs[0]) && ShapesOf(subs)[1..] == ShapesOf(subs[1..]);
    }
  }
}
