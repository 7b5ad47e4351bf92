/** NodeCommitInfo: what the trie hands to the store when it commits a node: the node, its
    path, and its parent with the child position there. A missing node marks an empty
    block; a node without a parent is the root. Nodes and paths are type parameters. */
module NodeCommitInfo {

  import opened Prelude

  datatype CommitInfo<N, P> = CommitInfo(node: Option<N>, path: P, nodeParent: Option<N>, childPositionAtParent: int)

  /** The two-argument constructor: a node with no parent, at child position zero. */
  function ForRoot<N, P>(node: N, path: P): (r: CommitInfo<N, P>)
    ensures r.node == Some(node) && r.path == path
    ensures r.nodeParent == None && r.childPositionAtParent == 0
  {
    CommitInfo(Some(node), path, None, 0)
  }

  /** The four-argument constructor: every argument stored as given. */
  function ForChild<N, P>(node: N, nodeParent: N, path: P, childPositionAtParent: int): (r: CommitInfo<N, P>)
    ensures r.node == Some(node) && r.path == path
    ensures r.nodeParent == Some(nodeParent) && r.childPositionAtParent == childPositionAtParent
  {
    CommitInfo(Some(node), path, Some(nodeParent), childPositionAtParent)
  }

  /** The value of a default (zero-initialised) struct: no node, no parent. */
  function EmptyBlockMarker<N, P>(path: P): (r: CommitInfo<N, P>)
    ensures r.node == None && r.nodeParent == None && r.childPositionAtParent == 0
  {
    CommitInfo(None, path, None, 0)
  }

  predicate IsEmptyBlockMarker<N, P>(info: CommitInfo<N, P>)
  {
    info.node.None?
  }

  predicate IsRoot<N, P>(info: CommitInfo<N, P>)
  {
    !IsEmptyBlockMarker(info) && info.nodeParent.None?
  }

  /** An empty-block marker is never the root, and the root is a node without parent. */
  lemma MarkerIsNotRoot<N, P>(info: CommitInfo<N, P>)
    ensures IsEmptyBlockMarker(info) ==> !IsRoot(info)
    ensures IsRoot(info) <==> info.node.Some? && info.nodeParent.None?
  {
  }

  /** What each constructor builds: the two-argument one a root, the four-argument one a
      non-root node, the default an empty-block marker. */
  lemma ConstructorsClassify<N, P>(node: N, nodeParent: N, path: P, childPositionAtParent: int)
    ensures IsRoot(ForRoot(node, path)) && !IsEmptyBlockMarker(ForRoot(node, path))
    ensures !IsRoot(ForChild(node, nodeParent, path, childPositionAtParent))
    ensures !IsEmptyBlockMarker(ForChild(node, nodeParent, path, childPositionAtParent))
    ensures IsEmptyBlockMarker(EmptyBlockMarker<N, P>(path)) && !IsRoot(EmptyBlockMarker<N, P>(path))
  {
  }
}
