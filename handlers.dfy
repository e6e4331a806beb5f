/**
 * The FUSE request handlers of main.c that only read the tree: do_getattr, do_read and
 * do_readdir. do_chmod changes the tree and lives with the tree object (fs_tree.dfy);
 * the facts about what it changes are stated here through SetMode.
 *
 * The C code reads the union of a node without looking at its type in two places:
 * do_readdir takes `info.dir.child` of whatever it found and do_read takes
 * `info.file.size`. The model gives a file no listing entries and a directory no bytes.
 */
module Handlers {
  import opened Wrappers
  import opened FsNodes
  import opened PathResolver

  /** The fields of `struct stat` that do_getattr fills in. */
  datatype Stat = Stat(mode: Mode, size: nat, nLinks: nat, uid: nat, gid: nat)

  /** do_getattr's return: 0 with the attributes, or a negative errno. */
  datatype AttrResult = Attributes(stat: Stat) | Failed(code: int)

  /** do_read's return. `HeadImage` is the branch that re-reads /bin/head. */
  datatype ReadResult = Copied(count: nat, bytes: seq<char>) | HeadImage

  /** The type bit do_getattr ORs into the stored mode. */
  function TypeBit(kind: Kind): (bit: Mode)
    ensures (bit == DirectoryTypeBit) == kind.Directory?
    ensures (bit == RegularTypeBit) == kind.File?
  {
    if kind.Directory? then DirectoryTypeBit else RegularTypeBit
  }

  /** ORing a type bit in keeps the permission bits and sets that type bit. */
  lemma TypeBitKeepsPermissions(mode: Mode, kind: Kind)
    ensures (mode | TypeBit(kind)) & PermissionMask == mode & PermissionMask
    ensures (mode | TypeBit(kind)) & TypeBit(kind) == TypeBit(kind)
  {
  }

  /**
   * do_getattr. The owner and group are the caller's process ids, passed in.
   * A directory's size is the 0 of the stat buffer the FUSE library hands over zeroed.
   */
  function Getattr(nodes: seq<Node>, path: string, uid: nat, gid: nat): (r: AttrResult)
    requires ValidArena(nodes)
    ensures r.Failed? <==> FindNode(nodes, path, Some(Root)).None?
    ensures r.Failed? ==> r.code == -NoEntry
    ensures r.Attributes? ==>
              var n := nodes[FindNode(nodes, path, Some(Root)).value];
              && r.stat.mode == n.mode | TypeBit(n.kind)
              && r.stat.size == (if n.kind.File? then n.kind.size else 0)
              && r.stat.nLinks == n.nLinks
              && r.stat.uid == uid && r.stat.gid == gid
  {
    match FindNode(nodes, path, Some(Root))
    case None => Failed(-NoEntry)
    case Some(i) =>
      var n := nodes[i];
      if n.kind.Directory? then
        Attributes(Stat(n.mode | DirectoryTypeBit, 0, n.nLinks, uid, gid))
      else
        Attributes(Stat(n.mode | RegularTypeBit, n.kind.size, n.nLinks, uid, gid))
  }

  /**
   * What do_getattr reports for a node it finds: the stored permission bits unchanged,
   * and the type bit of the node's kind set.
   */
  lemma GetattrReportsPermissions(nodes: seq<Node>, path: string, uid: nat, gid: nat)
    requires ValidArena(nodes) && FindNode(nodes, path, Some(Root)).Some?
    ensures var n := nodes[FindNode(nodes, path, Some(Root)).value];
            var st := Getattr(nodes, path, uid, gid).stat;
            && st.mode & PermissionMask == n.mode & PermissionMask
            && st.mode & TypeBit(n.kind) == TypeBit(n.kind)
  {
    var n := nodes[FindNode(nodes, path, Some(Root)).value];
    TypeBitKeepsPermissions(n.mode, n.kind);
  }

  /** bytes_read of do_read's generic branch: `size - offset` bytes are available. */
  function BytesToRead(size: nat, requested: nat, offset: nat): (n: nat)
    requires offset < size
    ensures n <= requested && offset + n <= size
    ensures n == requested || offset + n == size
  {
    var available := size - offset;
    if available >= requested then requested else available
  }

  /**
   * do_read. The generic branch copies `bytes_read` bytes from `data_ptr` itself, not from
   * `data_ptr + offset`: the bytes returned are always the start of the content.
   */
  function Read(nodes: seq<Node>, path: string, requested: nat, offset: nat): (r: ReadResult)
    requires ValidArena(nodes)
    ensures r.Copied? ==> |r.bytes| == r.count <= requested
    ensures match FindNode(nodes, path, Some(Root))
            case None => r == Copied(0, [])
            case Some(i) =>
              var n := nodes[i];
              if !n.kind.File? || offset >= n.kind.size then r == Copied(0, [])
              else if n.name == HeadName then r == HeadImage
              else && r.Copied?
                   && offset + r.count <= n.kind.size
                   && (r.count == requested || offset + r.count == n.kind.size)
                   && r.bytes == n.kind.data[..r.count]
  {
    match FindNode(nodes, path, Some(Root))
    case None => Copied(0, [])
    case Some(i) =>
      var n := nodes[i];
      if !n.kind.File? || offset >= n.kind.size then Copied(0, [])
      else if n.name == HeadName then HeadImage
      else
        assert WellFormed(nodes, n);
        var count := BytesToRead(n.kind.size, requested, offset);
        Copied(count, n.kind.data[..count])
  }

  /**
   * do_read on a path that resolves to an ordinary file with the offset inside it: the
   * clamped count, copied from the start of the content.
   */
  lemma ReadOfFoundFile(nodes: seq<Node>, path: string, requested: nat, offset: nat, i: NodeId)
    requires ValidArena(nodes) && FindNode(nodes, path, Some(Root)) == Some(i)
    requires nodes[i].kind.File? && nodes[i].name != HeadName && offset < nodes[i].kind.size
    ensures nodes[i].kind.size <= |nodes[i].kind.data|
    ensures var count := BytesToRead(nodes[i].kind.size, requested, offset);
            Read(nodes, path, requested, offset) == Copied(count, nodes[i].kind.data[..count])
  {
    assert WellFormed(nodes, nodes[i]);
  }

  /** The copy do_read evidently means: `count` bytes of the content from `offset` on. */
  function ReadAtOffset(size: nat, data: seq<char>, requested: nat, offset: nat): (bytes: seq<char>)
    requires size <= |data|
    ensures offset >= size ==> bytes == []
    ensures offset < size ==>
              |bytes| == BytesToRead(size, requested, offset) &&
              bytes == data[offset..offset + |bytes|]
  {
    if offset >= size then [] else
      var count := BytesToRead(size, requested, offset);
      data[offset..offset + count]
  }

  /**
   * At offset 0 the copy as written and the corrected copy agree: a reader that starts at
   * the beginning gets the file's first bytes either way.
   */
  lemma ReadAtStartIsCorrect(nodes: seq<Node>, path: string, requested: nat)
    requires ValidArena(nodes) && FindNode(nodes, path, Some(Root)).Some?
    requires var n := nodes[FindNode(nodes, path, Some(Root)).value];
             n.kind.File? && n.name != HeadName
    ensures var n := nodes[FindNode(nodes, path, Some(Root)).value];
            && n.kind.size <= |n.kind.data|
            && Read(nodes, path, requested, 0).Copied?
            && Read(nodes, path, requested, 0).bytes == ReadAtOffset(n.kind.size, n.kind.data, requested, 0)
  {
    var n := nodes[FindNode(nodes, path, Some(Root)).value];
    assert WellFormed(nodes, n);
  }

  /**
   * With the offset honoured, a full read followed by a read from where it stopped
   * returns what one read of both lengths returns: consecutive reads reassemble the file.
   */
  lemma ReadAtOffsetConsecutive(size: nat, data: seq<char>, first: nat, second: nat, offset: nat)
    requires size <= |data| && offset + first <= size
    ensures ReadAtOffset(size, data, first, offset) + ReadAtOffset(size, data, second, offset + first)
            == ReadAtOffset(size, data, first + second, offset)
  {
    if offset < size {
      var a := ReadAtOffset(size, data, first, offset);
      var b := ReadAtOffset(size, data, second, offset + first);
      assert |a| == first;
      if offset + first < size {
        assert a + b == data[offset..offset + first + |b|];
      } else {
        assert b == [];
        assert a + b == a;
      }
    }
  }

  /** The names of the nodes on a sibling list, in list order. */
  function Names(nodes: seq<Node>, ids: seq<NodeId>): seq<string>
    requires ChildrenInRange(nodes, ids)
  {
    seq(|ids|, k requires 0 <= k < |ids| => nodes[ids[k]].name)
  }

  /** What do_readdir passes to the filler after "." and ".." for the node it found. */
  function Listing(nodes: seq<Node>, found: Option<NodeId>): (names: seq<string>)
    requires ValidArena(nodes)
    requires found.Some? ==> found.value < |nodes|
    ensures found.None? || !IsDirectory(nodes, found.value) ==> names == []
    ensures found.Some? && IsDirectory(nodes, found.value) ==>
              var children := nodes[found.value].kind.children;
              && ChildrenInRange(nodes, children)
              && |names| == |children|
              && forall k :: 0 <= k < |children| ==> names[k] == nodes[children[k]].name
  {
    if found.Some? && IsDirectory(nodes, found.value) then
      assert WellFormed(nodes, nodes[found.value]);
      Names(nodes, nodes[found.value].kind.children)
    else []
  }

  /** do_readdir: fills the entries in the order the filler receives them. */
  method Readdir(nodes: seq<Node>, path: string) returns (entries: seq<string>)
    requires ValidArena(nodes)
    ensures entries == [".", ".."] + Listing(nodes, FindNode(nodes, path, Some(Root)))
  {
    entries := [".", ".."];
    var found := FindNodeLoop(nodes, path, Some(Root));
    if found.Some? && IsDirectory(nodes, found.value) {
      var children := nodes[found.value].kind.children;
      assert WellFormed(nodes, nodes[found.value]);
      var k := 0;
      while k < |children|
        invariant k <= |children|
        invariant |entries| == 2 + k && entries[..2] == [".", ".."]
        invariant forall j :: 0 <= j < k ==> entries[2 + j] == nodes[children[j]].name
      {
        entries := entries + [nodes[children[k]].name];
        k := k + 1;
      }
      assert entries == [".", ".."] + Names(nodes, children);
    }
  }

  /** add_child_node puts the new child's name in front of the directory's listing. */
  lemma ListingAfterAttach(nodes: seq<Node>, dir: NodeId, child: NodeId)
    requires ValidArena(nodes) && dir < |nodes| && IsDirectory(nodes, dir) && child < |nodes|
    ensures ValidArena(AttachChild(nodes, dir, child))
    ensures Listing(AttachChild(nodes, dir, child), Some(dir)) == [nodes[child].name] + Listing(nodes, Some(dir))
  {
    AttachKeepsValid(nodes, dir, child);
    var after := AttachChild(nodes, dir, child);
    assert WellFormed(nodes, nodes[dir]);
    var old_ := nodes[dir].kind.children;
    assert forall i :: 0 <= i < |nodes| ==> after[i].name == nodes[i].name;
    assert Names(after, [child] + old_) == [nodes[child].name] + Names(nodes, old_);
  }

  /** Children attached as a, then b, then c are listed c, b, a. */
  lemma ListingNewestFirst(nodes: seq<Node>, dir: NodeId, a: NodeId, b: NodeId, c: NodeId)
    requires ValidArena(nodes) && dir < |nodes| && IsDirectory(nodes, dir)
    requires nodes[dir].kind.children == []
    requires a < |nodes| && b < |nodes| && c < |nodes|
    ensures var after := AttachChild(AttachChild(AttachChild(nodes, dir, a), dir, b), dir, c);
            ValidArena(after) &&
            Listing(after, Some(dir)) == [nodes[c].name, nodes[b].name, nodes[a].name]
  {
    ListingAfterAttach(nodes, dir, a);
    var one := AttachChild(nodes, dir, a);
    ListingAfterAttach(one, dir, b);
    var two := AttachChild(one, dir, b);
    ListingAfterAttach(two, dir, c);
  }

  /**
   * do_chmod then do_getattr on the same path: the path still resolves to the same node,
   * the reported permission bits are exactly the new mode's and the type bit is the one
   * the node's unchanged kind gives; size and link count are untouched.
   */
  lemma GetattrAfterChmod(nodes: seq<Node>, path: string, mode: Mode, uid: nat, gid: nat)
    requires ValidArena(nodes) && FindNode(nodes, path, Some(Root)).Some?
    ensures var i := FindNode(nodes, path, Some(Root)).value;
            var after := SetMode(nodes, i, mode);
            && ValidArena(after)
            && FindNode(after, path, Some(Root)) == Some(i)
            && Getattr(after, path, uid, gid).Attributes?
            && var st := Getattr(after, path, uid, gid).stat;
               && st.mode & PermissionMask == mode & PermissionMask
               && st.mode == mode | TypeBit(nodes[i].kind)
               && st.size == Getattr(nodes, path, uid, gid).stat.size
               && st.nLinks == nodes[i].nLinks
  {
    var i := FindNode(nodes, path, Some(Root)).value;
    SetModeKeepsShape(nodes, i, mode);
    ResolveSameShape(nodes, SetMode(nodes, i, mode), path, Some(Root));
    TypeBitKeepsPermissions(mode, nodes[i].kind);
  }

  /** do_getattr depends only on the node the path resolves to. */
  lemma GetattrReadsFoundNode(a: seq<Node>, b: seq<Node>, path: string, uid: nat, gid: nat)
    requires ValidArena(a) && ValidArena(b)
    requires FindNode(a, path, Some(Root)) == FindNode(b, path, Some(Root))
    requires FindNode(a, path, Some(Root)).Some? ==>
               a[FindNode(a, path, Some(Root)).value] == b[FindNode(a, path, Some(Root)).value]
    ensures Getattr(a, path, uid, gid) == Getattr(b, path, uid, gid)
  {
  }

  /** do_chmod on one node leaves do_getattr unchanged on every path that does not reach it. */
  lemma GetattrOtherPathAfterChmod(nodes: seq<Node>, id: NodeId, mode: Mode, path: string, uid: nat, gid: nat)
    requires ValidArena(nodes) && id < |nodes|
    requires FindNode(nodes, path, Some(Root)) != Some(id)
    ensures ValidArena(SetMode(nodes, id, mode))
    ensures Getattr(SetMode(nodes, id, mode), path, uid, gid) == Getattr(nodes, path, uid, gid)
  {
    var after := SetMode(nodes, id, mode);
    SetModeKeepsShape(nodes, id, mode);
    ResolveSameShape(nodes, after, path, Some(Root));
    var found := FindNode(nodes, path, Some(Root));
    if found.Some? {
      assert after[found.value] == nodes[found.value];
    }
    GetattrReadsFoundNode(after, nodes, path, uid, gid);
  }

  /** A second do_chmod with the same bits finds the same node and changes nothing more. */
  lemma ChmodTwiceIsOnce(nodes: seq<Node>, path: string, mode: Mode)
    requires ValidArena(nodes) && FindNode(nodes, path, Some(Root)).Some?
    ensures var i := FindNode(nodes, path, Some(Root)).value;
            var after := SetMode(nodes, i, mode);
            && ValidArena(after)
            && FindNode(after, path, Some(Root)) == Some(i)
            && SetMode(after, i, mode) == after
  {
    var i := FindNode(nodes, path, Some(Root)).value;
    SetModeKeepsShape(nodes, i, mode);
    ResolveSameShape(nodes, SetMode(nodes, i, mode), path, Some(Root));
  }
}
