/** The extractor as it runs: a file with a read position, a session that
    creates temporary files, and a flat list that grows. */
module Extractor {
  import opened Platform
  import opened BinFormat
  import opened Unpack
  import opened PkgTree
  import opened AuxNodes

  /** Integer division and remainder that truncate toward zero. */
  function CDiv(a: int, b: int): int
    requires b > 0
  {
    if a >= 0 then a / b else -((-a) / b)
  }

  function CMod(a: int, b: int): int
    requires b > 0
  {
    a - b * CDiv(a, b)
  }

  /** A negative size makes no whole chunk, and its remainder is negative unless
      the size is a multiple of the buffer length. */
  lemma NegativeRemainder(size: int)
    requires size < 0
    ensures CDiv(size, BUFFER_LENGTH) <= 0 && CMod(size, BUFFER_LENGTH) <= 0
    ensures CMod(size, BUFFER_LENGTH) == 0 <==> size % BUFFER_LENGTH == 0
  {
  }

  class RFile {
    const data: seq<byte>
    var pos: nat

    constructor (data: seq<byte>)
      ensures this.data == data && pos == 0
    {
      this.data := data;
      pos := 0;
    }

    function Rest(): seq<byte>
      reads this
    {
      if pos <= |data| then data[pos..] else []
    }

    method Read(len: int) returns (r: Outcome<seq<byte>>)
      modifies this
      ensures match Unpack.Read(old(Rest()), len)
              case Ok((bytes, rest)) => r == Ok(bytes) && Rest() == rest
              case Fail(f) => r == Fail(f)
    {
      if len < 0 {
        return Fail(Leave(ERR_ARGUMENT));
      }
      var rest := Rest();
      var n := if len <= |rest| then len else |rest|;
      r := Ok(rest[..n]);
      pos := pos + n;
      assert n == |rest| ==> rest[..n] == rest;
    }
  }

  class StsSession {
    var temps: Store

    constructor ()
      ensures temps == map[]
    {
      temps := map[];
    }

    method CreateTemporaryL(path: string) returns (r: Outcome<()>)
      modifies this
      ensures match CreateTemporary(old(temps), path)
              case Ok(s) => r == Ok(()) && temps == s
              case Fail(f) => r == Fail(f) && temps == old(temps)
    {
      if Fold(path) in temps {
        return Fail(Leave(ERR_ALREADY_EXISTS));
      }
      temps := temps[Fold(path) := []];
      return Ok(());
    }

    /** Appends to the file that was created last under this path. */
    method Write(path: string, bytes: seq<byte>)
      requires Fold(path) in temps
      modifies this
      ensures temps == old(temps)[Fold(path) := old(temps)[Fold(path)] + bytes]
    {
      temps := temps[Fold(path) := temps[Fold(path)] + bytes];
    }
  }

  method ReadInt32L(file: RFile) returns (r: Outcome<int>)
    modifies file
    ensures match ReadInt32(old(file.Rest()))
            case Ok((n, rest)) => r == Ok(n) && file.Rest() == rest
            case Fail(f) => r == Fail(f)
  {
    ghost var rest := file.Rest();
    var read := file.Read(4);
    var buf := read.value;
    assert if |rest| >= 4 then buf == rest[..4] && file.Rest() == rest[4..] else buf == rest;
    if |buf| < 4 {
      return Fail(Panic);
    }
    return Ok(FromLe32(buf));
  }

  /** Reading on from a position inside a file, up to k bytes or its end. */
  lemma TakeFrom(whole: seq<byte>, pos: nat, k: nat)
    requires pos <= |whole|
    ensures var end := if pos + k <= |whole| then pos + k else |whole|;
            Take(whole[pos..], k) == (whole[pos..end], whole[end..])
  {
    if pos + k <= |whole| {
      assert whole[pos..][..k] == whole[pos..pos + k] && whole[pos..][k..] == whole[pos + k..];
    } else {
      assert whole[pos..] == whole[pos..|whole|] && whole[|whole|..] == [];
    }
  }

  ghost function EndOf(whole: seq<byte>, pos: nat, k: nat): (end: nat)
    requires pos <= |whole|
    ensures end <= |whole|
  {
    if pos + k <= |whole| then pos + k else |whole|
  }

  /** Reads up to len bytes and appends them to the file under this path. */
  method CopyChunk(sts: StsSession, file: RFile, path: string, len: int, ghost whole: seq<byte>, ghost pos: nat) returns (r: Outcome<()>)
    requires pos <= |whole| && file.Rest() == whole[pos..]
    requires Fold(path) in sts.temps && sts.temps[Fold(path)] == whole[..pos]
    modifies sts, file
    ensures if len < 0 then r == Fail(Leave(ERR_ARGUMENT)) else
            && r == Ok(())
            && file.Rest() == whole[EndOf(whole, pos, len)..]
            && sts.temps == old(sts.temps)[Fold(path) := whole[..EndOf(whole, pos, len)]]
  {
    hide Fold;
    var buf :- file.Read(len);
    TakeFrom(whole, pos, len);
    sts.Write(path, buf);
    assert whole[..pos] + whole[pos..EndOf(whole, pos, len)] == whole[..EndOf(whole, pos, len)];
    return Ok(());
  }

  /** Copies a body in chunks of the buffer length and a remainder. */
  method CopyContent(sts: StsSession, file: RFile, path: string, fileSize: int) returns (r: Outcome<()>)
    requires Fold(path) in sts.temps && sts.temps[Fold(path)] == []
    modifies sts, file
    ensures match ReadBody(old(file.Rest()), fileSize)
            case Ok((body, rest)) =>
              && r == Ok(()) && file.Rest() == rest
              && sts.temps == old(sts.temps)[Fold(path) := body]
            case Fail(f) => r == Fail(f)
  {
    hide Fold;
    ghost var whole := file.Rest();
    ghost var key := Fold(path);
    assert whole[0..] == whole && whole[..0] == [];
    if fileSize < 0 {
      NegativeRemainder(fileSize);
    }
    var numChunks := CDiv(fileSize, BUFFER_LENGTH);
    var remainder := CMod(fileSize, BUFFER_LENGTH);
    var c := 0;
    ghost var done := 0;
    while c < numChunks
      invariant 0 <= c && (c <= numChunks || (c == 0 && fileSize < 0))
      invariant done == EndOf(whole, 0, c * BUFFER_LENGTH)
      invariant file.Rest() == whole[done..]
      invariant sts.temps == old(sts.temps)[key := whole[..done]]
    {
      var _ := CopyChunk(sts, file, path, BUFFER_LENGTH, whole, done);
      done := EndOf(whole, done, BUFFER_LENGTH);
      c := c + 1;
    }
    var _ :- CopyChunk(sts, file, path, remainder, whole, done);
    if fileSize >= 0 {
      TakeFrom(whole, 0, fileSize);
    }
    return Ok(());
  }

  /** One embedded component: the name, the size and the body. */
  method ExtractComponent(sts: StsSession, file: RFile, embDir: string) returns (r: Outcome<string>)
    modifies sts, file
    ensures match UnpackItem(old(sts.temps), old(file.Rest()), embDir)
            case Ok(u) => r.Ok? && u.files == [r.value] && sts.temps == u.store && file.Rest() == u.rest
            case Fail(f) => r == Fail(f)
  {
    hide Fold, FromLe32;
    var strLen :- ReadInt32L(file);
    if strLen > MAX_PATH {
      return Fail(Leave(ERR_CORRUPT));
    }
    var name :- file.Read(strLen);
    var path := ItemPath(embDir, name);
    var fileSize :- ReadInt32L(file);
    if fileSize > MAX_EMBEDDED_SIZE {
      return Fail(Leave(ERR_CORRUPT));
    }
    var _ :- sts.CreateTemporaryL(path);
    var _ :- CopyContent(sts, file, path, fileSize);
    return Ok(path);
  }

  /** What is left to unpack, put after what has been unpacked. */
  ghost function Prepend(files: seq<string>, r: Outcome<Unpacked>): Outcome<Unpacked> {
    match r
    case Ok(u) => Ok(u.(files := files + u.files))
    case Fail(f) => Fail(f)
  }

  method ExtractComponents(sts: StsSession, file: RFile, count: int, embDir: string) returns (r: Outcome<seq<string>>)
    modifies sts, file
    ensures match UnpackItems(old(sts.temps), old(file.Rest()), if count < 0 then 0 else count, embDir)
            case Ok(u) => r == Ok(u.files) && sts.temps == u.store && file.Rest() == u.rest
            case Fail(f) => r == Fail(f)
  {
    hide UnpackItem;
    ghost var n := if count < 0 then 0 else count;
    ghost var answer := UnpackItems(sts.temps, file.Rest(), n, embDir);
    var outFiles: seq<string> := [];
    var i := 0;
    assert answer.Ok? ==> [] + answer.value.files == answer.value.files;
    while i < count
      invariant 0 <= i <= n
      invariant answer == Prepend(outFiles, UnpackItems(sts.temps, file.Rest(), n - i, embDir))
    {
      ghost var before := outFiles;
      var path :- ExtractComponent(sts, file, embDir);
      outFiles := outFiles + [path];
      i := i + 1;
      assert forall more: seq<string> :: before + ([path] + more) == outFiles + more;
    }
    assert outFiles + [] == outFiles;
    return Ok(outFiles);
  }

  method ExtractBinPkgFileL(sts: StsSession, file: RFile, path: string, outPath: string) returns (r: Outcome<seq<string>>)
    requires file.pos == 0
    modifies sts, file
    ensures match Extract(old(sts.temps), file.data, path, outPath)
            case Ok(u) => r == Ok(u.files) && sts.temps == u.store && file.Rest() == u.rest
            case Fail(f) => r == Fail(f)
  {
    hide Fold, FromLe32, UnpackItems, NameOf;
    if |file.data| < |HEADER| + |FOOTER| + 4 {
      return Fail(Leave(ERR_CORRUPT));
    }
    var header := file.Read(|HEADER|);
    if header.value != HEADER {
      return Fail(Leave(ERR_CORRUPT));
    }
    var pkgSizeRead := ReadInt32L(file);
    var pkgSize := pkgSizeRead.value;
    if pkgSize > BUFFER_LENGTH {
      return Fail(Leave(ERR_CORRUPT));
    }
    var pkgFileName := PkgFileName(outPath, path);
    var _ :- sts.CreateTemporaryL(pkgFileName);
    var text :- file.Read(pkgSize);
    sts.Write(pkgFileName, text);
    assert [] + text == text;
    var numEmbComps :- ReadInt32L(file);
    if numEmbComps > MAX_EMBEDDED {
      return Fail(Leave(ERR_CORRUPT));
    }
    var outFiles :- ExtractComponents(sts, file, numEmbComps, outPath + CHILDREN_DIR);
    var footer := file.Read(|FOOTER|);
    if footer.value != FOOTER {
      return Fail(Leave(ERR_CORRUPT));
    }
    return Ok(outFiles);
  }

  // ---------------------------------------------------------------------------
  // The flat list
  // ---------------------------------------------------------------------------

  class FlatTree {
    var nodes: seq<AuxNode>

    constructor ()
      ensures nodes == []
    {
      nodes := [];
    }
  }

  /** The list of objects is the given list of records, parent pointers included. */
  ghost predicate Shows(nodes: seq<AuxNode>, flat: seq<Aux>) {
    && |nodes| == |flat|
    && (forall i, j :: 0 <= i < j < |nodes| ==> nodes[i] != nodes[j])
    && forall i :: 0 <= i < |flat| ==> ShowsNode(nodes, nodes[i], flat[i])
  }

  ghost predicate ShowsNode(nodes: seq<AuxNode>, node: AuxNode, aux: Aux) {
    && node.fileName == aux.fileName
    && node.foreign == aux.foreign
    && (if node.parent == null then aux.parent == -1 else 0 <= aux.parent < |nodes| && nodes[aux.parent] == node.parent)
  }

  /** No node has been given anything yet. */
  ghost predicate Blank(nodes: seq<AuxNode>)
    reads nodes
  {
    forall i :: 0 <= i < |nodes| ==> nodes[i].node == None && nodes[i].compInfo == None
  }

  lemma ShowsLength(nodes: seq<AuxNode>, flat: seq<Aux>)
    requires Shows(nodes, flat)
    ensures |nodes| == |flat|
  {
  }

  lemma ShowsAppend(nodes: seq<AuxNode>, flat: seq<Aux>, node: AuxNode, aux: Aux)
    requires Shows(nodes, flat) && node !in nodes && ShowsNode(nodes, node, aux)
    ensures Shows(nodes + [node], flat + [aux])
  {
    forall i | 0 <= i < |flat| ensures ShowsNode(nodes + [node], nodes[i], flat[i]) {
      assert ShowsNode(nodes, nodes[i], flat[i]);
    }
    assert ShowsNode(nodes + [node], node, aux);
  }

  /** Unpacks a package, lists it, and goes on with every file it contained. The
      pure function Build says what the session and the list end up with. */
  method BuildPkgTreeImplL(sts: StsSession, path: string, data: seq<byte>, dir: string, tree: FlatTree, parent: AuxNode?,
                           ghost flat: seq<Aux>, ghost at: int) returns (r: Outcome<()>)
    requires Shows(tree.nodes, flat) && Blank(tree.nodes)
    requires if parent == null then at == -1 else 0 <= at < |tree.nodes| && tree.nodes[at] == parent
    modifies sts, tree
    ensures match Build(old(sts.temps), path, data, dir, flat, at)
            case Ok(b) => r == Ok(()) && sts.temps == b.store && Shows(tree.nodes, b.flat) && Blank(tree.nodes) && old(tree.nodes) <= tree.nodes
            case Fail(f) => r == Fail(f)
    ensures forall n :: n in tree.nodes && n !in old(tree.nodes) ==> fresh(n)
    decreases |data|, 1, 0
  {
    hide Fold, Extract, PkgFileName, Shows, IsRefPath, DirOf;
    ShowsLength(tree.nodes, flat);
    if !IsRefPath(path) {
      if parent == null {
        return Fail(Leave(ERR_CORRUPT));
      }
      var node := new AuxNode(path, true, parent);
      ShowsAppend(tree.nodes, flat, node, Aux(path, true, at));
      tree.nodes := tree.nodes + [node];
      return Ok(());
    }
    ghost var before := sts.temps;
    var file := new RFile(data);
    var embFiles :- ExtractBinPkgFileL(sts, file, path, dir);
    ExtractGrows(before, data, path, dir);
    var node := new AuxNode(PkgFileName(dir, path), false, parent);
    ghost var now := flat + [Aux(PkgFileName(dir, path), false, at)];
    ShowsAppend(tree.nodes, flat, node, Aux(PkgFileName(dir, path), false, at));
    tree.nodes := tree.nodes + [node];
    r := BuildEmbedded(sts, embFiles, |data|, tree, node, now, |flat|);
  }

  method BuildEmbedded(sts: StsSession, embFiles: seq<string>, ghost bound: nat, tree: FlatTree, parent: AuxNode,
                       ghost flat: seq<Aux>, ghost at: nat) returns (r: Outcome<()>)
    requires Shows(tree.nodes, flat) && Blank(tree.nodes)
    requires at < |tree.nodes| && tree.nodes[at] == parent
    requires Stored(sts.temps, embFiles, bound)
    modifies sts, tree
    ensures match BuildAll(old(sts.temps), embFiles, bound, flat, at)
            case Ok(b) => r == Ok(()) && sts.temps == b.store && Shows(tree.nodes, b.flat) && Blank(tree.nodes) && old(tree.nodes) <= tree.nodes
            case Fail(f) => r == Fail(f)
    ensures forall n :: n in tree.nodes && n !in old(tree.nodes) ==> fresh(n)
    decreases bound, 0, 1
  {
    hide Fold, Build, BuildAll, DirOf, Shows, Stored;
    ghost var now := flat;
    ghost var answer := BuildAll(sts.temps, embFiles, bound, flat, at);
    var i := 0;
    assert embFiles[0..] == embFiles;
    while i < |embFiles|
      invariant 0 <= i <= |embFiles|
      invariant Stored(sts.temps, embFiles[i..], bound)
      invariant answer == BuildAll(sts.temps, embFiles[i..], bound, now, at)
      invariant Shows(tree.nodes, now) && Blank(tree.nodes) && old(tree.nodes) <= tree.nodes
      invariant forall n :: n in tree.nodes && n !in old(tree.nodes) ==> fresh(n)
    {
      var fileName := embFiles[i];
      BuildAllStep(sts.temps, embFiles, i, bound, now, at);
      assert tree.nodes[at] == parent;
      ghost var b := Build(sts.temps, fileName, sts.temps[Fold(fileName)], DirOf(fileName), now, at);
      var _ :- BuildPkgTreeImplL(sts, fileName, sts.temps[Fold(fileName)], DirOf(fileName), tree, parent, now, at);
      now := b.value.flat;
      i := i + 1;
    }
    assert embFiles[i..] == [];
    BuildAllEmpty(sts.temps, bound, now, at);
    return Ok(());
  }

  lemma BuildAllEmpty(store: Store, bound: nat, flat: seq<Aux>, parent: int)
    ensures BuildAll(store, [], bound, flat, parent) == Ok(Built(store, flat))
  {
  }

  /** The whole extraction: from the bytes of a package to its flat list of nodes.
      On success the list is a tree below its first node. */
  method BuildPkgTreeL(sts: StsSession, path: string, data: seq<byte>, dir: string) returns (r: Outcome<seq<AuxNode>>)
    modifies sts
    ensures match Build(old(sts.temps), path, data, dir, [], -1)
            case Ok(b) => r.Ok? && sts.temps == b.store && Shows(r.value, b.flat) && TreeShaped(b.flat) && Blank(r.value)
            case Fail(f) => r == Fail(f)
    ensures r.Ok? ==> forall n :: n in r.value ==> fresh(n)
  {
    hide Build, TreeShaped;
    ghost var before := sts.temps;
    var tree := new FlatTree();
    var _ :- BuildPkgTreeImplL(sts, path, data, dir, tree, null, [], -1);
    ListShape(before, path, data, dir);
    return Ok(tree.nodes);
  }
}
