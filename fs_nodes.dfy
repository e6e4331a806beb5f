/**
 * The node model of the in-memory FUSE tree (main.c, fs_node_t and its constructors).
 *
 * Every node lives in an arena (a sequence of nodes); a node pointer becomes its index.
 * The intrusive `next_sibling` list of a directory becomes the directory's `children`
 * sequence, whose order is the sibling-list order: newest child first.
 */
module FsNodes {

  /** mode_t: 32 unsigned bits. */
  type Mode = bv32

  /** A node pointer, as an index into the arena. */
  type NodeId = nat

  /** S_IFDIR and S_IFREG (octal 0040000, 0100000). */
  const DirectoryTypeBit: Mode := 0x4000
  const RegularTypeBit: Mode := 0x8000

  /** The permission bits a chmod may set (octal 07777). */
  const PermissionMask: Mode := 0xFFF

  /** ENOENT. */
  const NoEntry: int := 2

  /** The global `root` is the first node allocated. */
  const Root: NodeId := 0

  /** The one file whose reads are served from /bin/head instead of its own buffer. */
  const HeadName: string := "head"

  /** The two arms of the node's union: a file's size and buffer, a directory's child list. */
  datatype Kind =
    | File(size: nat, data: seq<char>)
    | Directory(children: seq<NodeId>)

  datatype Node = Node(name: string, mode: Mode, nLinks: nat, kind: Kind)

  /** Every child index of a directory names a node of the arena. */
  ghost predicate ChildrenInRange(nodes: seq<Node>, children: seq<NodeId>) {
    forall k :: 0 <= k < |children| ==> children[k] < |nodes|
  }

  /**
   * A node is well formed in its arena when a directory's children are nodes of the arena
   * and a file's buffer holds at least `size` bytes. The file named "head" is the
   * exception: its size comes from /bin/head and its buffer stays NULL.
   */
  ghost predicate WellFormed(nodes: seq<Node>, n: Node) {
    match n.kind
    case Directory(children) => ChildrenInRange(nodes, children)
    case File(size, data) => n.name != HeadName ==> size <= |data|
  }

  /** The arena holds the root directory at index 0 and only well-formed nodes. */
  ghost predicate ValidArena(nodes: seq<Node>) {
    && |nodes| > 0
    && nodes[Root].kind.Directory?
    && forall i :: 0 <= i < |nodes| ==> WellFormed(nodes, nodes[i])
  }

  predicate IsDirectory(nodes: seq<Node>, id: NodeId)
    requires id < |nodes|
  {
    nodes[id].kind.Directory?
  }

  /** A node just returned by create_directory_with_perm: "." and ".." links, no children. */
  function NewDirectory(name: string, mode: Mode): Node {
    Node(name, mode, 2, Directory([]))
  }

  /** A node just returned by create_file_with_perm: no links, size 0, NULL data. */
  function NewFile(name: string, mode: Mode): Node {
    Node(name, mode, 0, File(0, []))
  }

  /** add_child_node: `child` becomes the head of `parent`'s sibling list. */
  function AttachChild(nodes: seq<Node>, parent: NodeId, child: NodeId): (r: seq<Node>)
    requires parent < |nodes| && IsDirectory(nodes, parent)
    ensures |r| == |nodes|
    ensures r[parent].kind == Directory([child] + nodes[parent].kind.children)
    ensures r[parent].name == nodes[parent].name && r[parent].mode == nodes[parent].mode
    ensures r[parent].nLinks == nodes[parent].nLinks
    ensures forall i :: 0 <= i < |nodes| && i != parent ==> r[i] == nodes[i]
  {
    nodes[parent := nodes[parent].(kind := Directory([child] + nodes[parent].kind.children))]
  }

  /** The `n_links++` that add_*_with_perm applies to the parent. */
  function BumpLinks(nodes: seq<Node>, id: NodeId): (r: seq<Node>)
    requires id < |nodes|
    ensures |r| == |nodes| && r[id].nLinks == nodes[id].nLinks + 1
    ensures r[id].name == nodes[id].name && r[id].mode == nodes[id].mode && r[id].kind == nodes[id].kind
    ensures forall i :: 0 <= i < |nodes| && i != id ==> r[i] == nodes[i]
  {
    nodes[id := nodes[id].(nLinks := nodes[id].nLinks + 1)]
  }

  /** do_chmod's store into `node->mode`. */
  function SetMode(nodes: seq<Node>, id: NodeId, mode: Mode): (r: seq<Node>)
    requires id < |nodes|
    ensures |r| == |nodes| && r[id].mode == mode
    ensures r[id].name == nodes[id].name && r[id].nLinks == nodes[id].nLinks && r[id].kind == nodes[id].kind
    ensures forall i :: 0 <= i < |nodes| && i != id ==> r[i] == nodes[i]
  {
    nodes[id := nodes[id].(mode := mode)]
  }

  /** Two arenas agree on everything path resolution and listing look at. */
  ghost predicate SameShape(a: seq<Node>, b: seq<Node>) {
    && |a| == |b|
    && forall i :: 0 <= i < |a| ==> a[i].name == b[i].name && a[i].kind == b[i].kind
  }

  /**
   * strlen: the number of characters before the first NUL. A buffer without a NUL
   * counts in full (the C buffers of this program are always terminated).
   */
  function StrLen(s: seq<char>): (n: nat)
    ensures n <= |s|
    ensures forall i :: 0 <= i < n ==> s[i] != '\0'
    ensures n < |s| ==> s[n] == '\0'
  {
    if s == [] || s[0] == '\0' then 0 else 1 + StrLen(s[1..])
  }

  /** A string with no NUL, followed by a NUL, has the string's length. */
  lemma {:induction false} StrLenOfTerminated(text: seq<char>, rest: seq<char>)
    requires forall i :: 0 <= i < |text| ==> text[i] != '\0'
    ensures StrLen(text + ['\0'] + rest) == |text|
  {
    var s := text + ['\0'] + rest;
    assert s[|text|] == '\0';
    assert forall i :: 0 <= i < |text| ==> s[i] == text[i];
  }

  /** A directory entry of the arena mentions `id`: the node is already on some sibling list. */
  ghost predicate OnSiblingList(nodes: seq<Node>, id: NodeId) {
    exists i, k :: 0 <= i < |nodes| && nodes[i].kind.Directory? &&
      0 <= k < |nodes[i].kind.children| && nodes[i].kind.children[k] == id
  }

  /** Appending a node that is well formed in the grown arena keeps the arena valid. */
  lemma AppendKeepsValid(nodes: seq<Node>, n: Node)
    requires ValidArena(nodes) && WellFormed(nodes + [n], n)
    ensures ValidArena(nodes + [n])
  {
    var after := nodes + [n];
    forall i | 0 <= i < |after| ensures WellFormed(after, after[i]) {
      if i < |nodes| {
        assert WellFormed(nodes, nodes[i]);
      }
    }
  }

  /** The index the next allocation gets is on no sibling list yet. */
  lemma NextIndexUnlisted(nodes: seq<Node>)
    requires ValidArena(nodes)
    ensures !OnSiblingList(nodes, |nodes|)
  {
    forall i, k | 0 <= i < |nodes| && nodes[i].kind.Directory? && 0 <= k < |nodes[i].kind.children|
      ensures nodes[i].kind.children[k] != |nodes|
    {
      assert WellFormed(nodes, nodes[i]);
    }
  }

  /** Bumping a link count keeps the arena valid and its shape. */
  lemma BumpKeepsValid(nodes: seq<Node>, id: NodeId)
    requires ValidArena(nodes) && id < |nodes|
    ensures ValidArena(BumpLinks(nodes, id))
    ensures SameShape(nodes, BumpLinks(nodes, id))
  {
    var after := BumpLinks(nodes, id);
    forall i | 0 <= i < |after| ensures WellFormed(after, after[i]) {
      assert WellFormed(nodes, nodes[i]);
    }
  }

  /** Attaching a node of the arena to a directory keeps the arena valid. */
  lemma AttachKeepsValid(nodes: seq<Node>, parent: NodeId, child: NodeId)
    requires ValidArena(nodes) && parent < |nodes| && IsDirectory(nodes, parent) && child < |nodes|
    ensures ValidArena(AttachChild(nodes, parent, child))
  {
    var after := AttachChild(nodes, parent, child);
    forall i | 0 <= i < |after| ensures WellFormed(after, after[i]) {
      assert WellFormed(nodes, nodes[i]);
    }
  }

  /** Changing a mode keeps the arena valid and its shape. */
  lemma SetModeKeepsShape(nodes: seq<Node>, id: NodeId, mode: Mode)
    requires ValidArena(nodes) && id < |nodes|
    ensures ValidArena(SetMode(nodes, id, mode))
    ensures SameShape(nodes, SetMode(nodes, id, mode))
  {
    var after := SetMode(nodes, id, mode);
    forall i | 0 <= i < |after| ensures WellFormed(after, after[i]) {
      assert WellFormed(nodes, nodes[i]);
    }
  }
}
