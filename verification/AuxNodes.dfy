/** CAuxNode: a node of the flat list, which carries the component information
    of its package until it is handed to the parent. */
module AuxNodes {
  import opened Platform
  import opened PkgText

  /** What GetComponentInfo reports about one package. */
  datatype Info = Info(name: string, vendor: string, version: Version, activated: bool, status: int, id: int, maxInstalledSize: int)

  /** CComponentInfo::CNode. A node is owned by one holder at a time, so it is a value. */
  datatype InfoNode = InfoNode(info: Info, children: seq<InfoNode>)

  /** CComponentInfo: a holder of a root node. */
  datatype ComponentInfo = ComponentInfo(root: Option<InfoNode>)

  class AuxNode {
    const fileName: string
    const foreign: bool
    const parent: AuxNode?
    var node: Option<InfoNode>
    var compInfo: Option<ComponentInfo>

    constructor (fileName: string, foreign: bool, parent: AuxNode?)
      ensures this.fileName == fileName && this.foreign == foreign && this.parent == parent
      ensures node == None && compInfo == None
    {
      this.fileName := fileName;
      this.foreign := foreign;
      this.parent := parent;
      node := None;
      compInfo := None;
    }

    predicate Root() {
      parent == null
    }

    method SetNodeL(n: InfoNode) returns (r: Outcome<()>)
      modifies this`node
      ensures r == (if old(node) == None then Ok(()) else Fail(Leave(ERR_ALREADY_EXISTS)))
      ensures node == (if old(node) == None then Some(n) else old(node))
    {
      if node != None {
        return Fail(Leave(ERR_ALREADY_EXISTS));
      }
      node := Some(n);
      return Ok(());
    }

    method SetCompInfoL(c: ComponentInfo) returns (r: Outcome<()>)
      modifies this`compInfo
      ensures r == (if old(compInfo) == None then Ok(()) else Fail(Leave(ERR_ALREADY_EXISTS)))
      ensures compInfo == (if old(compInfo) == None then Some(c) else old(compInfo))
    {
      if compInfo != None {
        return Fail(Leave(ERR_ALREADY_EXISTS));
      }
      compInfo := Some(c);
      return Ok(());
    }

    /** Hands this node's information to the parent's node. A parent without a
        node of its own would be a null dereference, and so would a missing node. */
    method RegisterChildToParentL() returns (r: Outcome<()>)
      requires parent != this
      modifies this, parent
      ensures match Handover(old(node), old(compInfo), if parent == null then None else old(parent.node))
              case Ok(grown) =>
                && r == Ok(()) && parent != null && parent.node == Some(grown)
                && compInfo == None && node == (if old(compInfo) != None then old(node) else None)
                && parent.compInfo == old(parent.compInfo)
              case Fail(f) => r == Fail(f)
    {
      if compInfo != None {
        if parent == null || parent.node == None {
          return Fail(Panic);
        }
        var root := compInfo.value.root;
        if root == None {
          return Fail(Leave(ERR_NOT_FOUND));
        }
        parent.node := Some(InfoNode(parent.node.value.info, parent.node.value.children + [root.value]));
        compInfo := None;
      } else {
        if parent == null || parent.node == None {
          return Fail(Panic);
        }
        if node == None {
          return Fail(Leave(ERR_ARGUMENT));
        }
        parent.node := Some(InfoNode(parent.node.value.info, parent.node.value.children + [node.value]));
        node := None;
      }
      return Ok(());
    }

    method SetAsRootNodeL() returns (r: Outcome<InfoNode>)
      modifies this`node
      ensures r == (if old(node) == None then Fail(Leave(ERR_NOT_FOUND)) else Ok(old(node).value))
      ensures node == None
    {
      if node == None {
        return Fail(Leave(ERR_NOT_FOUND));
      }
      r := Ok(node.value);
      node := None;
    }
  }

  /** The parent's node after a child with the given node and information joins it. */
  function Handover(node: Option<InfoNode>, compInfo: Option<ComponentInfo>, parent: Option<InfoNode>): Outcome<InfoNode> {
    if parent == None then Fail(Panic)
    else match compInfo
      case Some(c) =>
        if c.root == None then Fail(Leave(ERR_NOT_FOUND))
        else Ok(InfoNode(parent.value.info, parent.value.children + [c.root.value]))
      case None =>
        if node == None then Fail(Leave(ERR_ARGUMENT))
        else Ok(InfoNode(parent.value.info, parent.value.children + [node.value]))
  }
}
