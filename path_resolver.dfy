/**
 * find_node (main.c:62-98): resolves a slash-separated path one segment at a time.
 *
 * Two quirks of the C code are kept on purpose:
 *  - a start node that is NULL or not a directory is returned as it is, and whatever is
 *    left of the path is dropped;
 *  - a segment of length L is compared with `strncmp(name, path, L)`, so a child whose
 *    name merely starts with the segment matches, and the first match in sibling order
 *    (newest child first) wins.
 *
 * Paths are C strings: a NUL ends the path just as the end of the sequence does.
 */
module PathResolver {
  import opened Wrappers
  import opened FsNodes

  /** The number of '/' characters the first loop of find_node skips. */
  function LeadingSlashes(path: string): (n: nat)
    ensures n <= |path|
    ensures forall i :: 0 <= i < n ==> path[i] == '/'
    ensures n == |path| || path[n] != '/'
  {
    if path != [] && path[0] == '/' then 1 + LeadingSlashes(path[1..]) else 0
  }

  /** entry_len: the length of the segment before the next '/' or the terminating NUL. */
  function EntryLength(path: string): (n: nat)
    ensures n <= |path|
    ensures forall i :: 0 <= i < n ==> path[i] != '/' && path[i] != '\0'
    ensures n == |path| || path[n] == '/' || path[n] == '\0'
  {
    if path == [] || path[0] == '/' || path[0] == '\0' then 0 else 1 + EntryLength(path[1..])
  }

  /**
   * `strncmp(name, segment, |segment|) == 0` for a segment without NUL: the name agrees
   * with the segment on its first |segment| characters (and may go on after them).
   */
  predicate NameMatches(name: string, segment: string) {
    |segment| <= |name| && name[..|segment|] == segment
  }

  /**
   * The sibling walk of find_node: the position of the first sibling whose name matches
   * the segment, or None when the walk reaches NULL.
   */
  function FirstMatch(nodes: seq<Node>, siblings: seq<NodeId>, segment: string): (r: Option<nat>)
    requires ChildrenInRange(nodes, siblings)
    ensures r.Some? ==> r.value < |siblings| && NameMatches(nodes[siblings[r.value]].name, segment)
    ensures forall k :: 0 <= k < |siblings| && (r.None? || k < r.value) ==>
              !NameMatches(nodes[siblings[k]].name, segment)
  {
    if siblings == [] then None
    else if NameMatches(nodes[siblings[0]].name, segment) then Some(0)
    else match FirstMatch(nodes, siblings[1..], segment)
      case None => None
      case Some(k) => Some(k + 1)
  }

  /** find_node(path, parent): the resolved node, or None for the NULL it returns. */
  function FindNode(nodes: seq<Node>, path: string, parent: Option<NodeId>): (r: Option<NodeId>)
    requires ValidArena(nodes)
    requires parent.Some? ==> parent.value < |nodes|
    ensures r.Some? ==> r.value < |nodes|
    ensures parent.None? ==> r.None?
    decreases |path|
  {
    var rest := path[LeadingSlashes(path)..];
    var len := EntryLength(rest);
    if parent.None? || !IsDirectory(nodes, parent.value) then parent
    else if len == 0 then parent
    else
      var children := nodes[parent.value].kind.children;
      assert WellFormed(nodes, nodes[parent.value]);
      match FirstMatch(nodes, children, rest[..len])
      case None => None
      case Some(k) => FindNode(nodes, rest[len..], Some(children[k]))
  }

  /**
   * find_node written as the C code runs it: a loop over the leading slashes, a loop
   * measuring the entry, a loop along the sibling list, and the recursive call.
   */
  method FindNodeLoop(nodes: seq<Node>, path: string, parent: Option<NodeId>) returns (result: Option<NodeId>)
    requires ValidArena(nodes)
    requires parent.Some? ==> parent.value < |nodes|
    ensures result == FindNode(nodes, path, parent)
    decreases |path|
  {
    var start := 0;
    while start < |path| && path[start] == '/'
      invariant start <= |path|
      invariant forall i :: 0 <= i < start ==> path[i] == '/'
    {
      start := start + 1;
    }
    assert start == LeadingSlashes(path);
    var rest := path[start..];

    var entryLen := 0;
    while entryLen < |rest| && rest[entryLen] != '\0' && rest[entryLen] != '/'
      invariant entryLen <= |rest|
      invariant forall i :: 0 <= i < entryLen ==> rest[i] != '/' && rest[i] != '\0'
    {
      entryLen := entryLen + 1;
    }
    assert entryLen == EntryLength(rest);

    if parent.None? || !IsDirectory(nodes, parent.value) {
      result := parent;
    } else if entryLen == 0 {
      result := parent;
    } else {
      var children := nodes[parent.value].kind.children;
      assert WellFormed(nodes, nodes[parent.value]);
      var segment := rest[..entryLen];
      var k := 0;
      while k < |children| && !NameMatches(nodes[children[k]].name, segment)
        invariant k <= |children|
        invariant forall j :: 0 <= j < k ==> !NameMatches(nodes[children[j]].name, segment)
      {
        k := k + 1;
      }
      ghost var found := FirstMatch(nodes, children, segment);
      if k < |children| {
        assert found == Some(k);
        result := FindNodeLoop(nodes, rest[entryLen..], Some(children[k]));
      } else {
        assert found == None;
        result := None;
      }
    }
  }

  /** Resolving "" or a path of slashes only returns the start node itself. */
  lemma ResolveSlashesOnly(nodes: seq<Node>, path: string, start: NodeId)
    requires ValidArena(nodes) && start < |nodes|
    requires forall i :: 0 <= i < |path| ==> path[i] == '/'
    ensures FindNode(nodes, path, Some(start)) == Some(start)
  {
    assert LeadingSlashes(path) == |path|;
  }

  /** From NULL or from a file, resolution returns the start whatever the path. */
  lemma ResolveFromNonDirectory(nodes: seq<Node>, path: string, start: Option<NodeId>)
    requires ValidArena(nodes)
    requires start.Some? ==> start.value < |nodes| && !IsDirectory(nodes, start.value)
    ensures FindNode(nodes, path, start) == start
  {
  }

  /** Slashes, then a segment, then a tail that starts at a separator or the end. */
  lemma {:induction false} SplitPath(lead: string, segment: string, tail: string)
    requires forall i :: 0 <= i < |lead| ==> lead[i] == '/'
    requires segment != []
    requires forall i :: 0 <= i < |segment| ==> segment[i] != '/' && segment[i] != '\0'
    requires tail == [] || tail[0] == '/' || tail[0] == '\0'
    ensures LeadingSlashes(lead + segment + tail) == |lead|
    ensures var rest := (lead + segment + tail)[|lead|..];
            rest == segment + tail && EntryLength(rest) == |segment|
  {
    var path := lead + segment + tail;
    assert forall i :: 0 <= i < |lead| ==> path[i] == lead[i];
    assert path[|lead|] == segment[0];
    var rest := path[|lead|..];
    assert rest == segment + tail;
    assert forall i :: 0 <= i < |segment| ==> rest[i] == segment[i];
    assert |segment| < |rest| ==> rest[|segment|] == tail[0];
  }

  /**
   * One step of resolution from a directory: the segment selects the first child in
   * sibling order whose name starts with it, and resolution goes on with the tail from
   * that child; when no child matches, the result is NULL.
   */
  lemma ResolveStep(nodes: seq<Node>, dir: NodeId, lead: string, segment: string, tail: string)
    requires ValidArena(nodes) && dir < |nodes| && IsDirectory(nodes, dir)
    requires forall i :: 0 <= i < |lead| ==> lead[i] == '/'
    requires segment != []
    requires forall i :: 0 <= i < |segment| ==> segment[i] != '/' && segment[i] != '\0'
    requires tail == [] || tail[0] == '/' || tail[0] == '\0'
    ensures WellFormed(nodes, nodes[dir])
    ensures FindNode(nodes, lead + segment + tail, Some(dir)) ==
            match FirstMatch(nodes, nodes[dir].kind.children, segment)
            case None => None
            case Some(k) => FindNode(nodes, tail, Some(nodes[dir].kind.children[k]))
  {
    assert WellFormed(nodes, nodes[dir]);
    SplitPath(lead, segment, tail);
    var rest := (lead + segment + tail)[|lead|..];
    assert rest[..|segment|] == segment && rest[|segment|..] == tail;
  }

  /**
   * The prefix quirk: a segment selects a child whose name only starts with it, as long
   * as no newer sibling matches first ("/foo" resolves into a child named "foobar").
   */
  lemma ResolvePrefixMatch(nodes: seq<Node>, dir: NodeId, segment: string, suffix: string, k: nat)
    requires ValidArena(nodes) && dir < |nodes| && IsDirectory(nodes, dir)
    requires segment != []
    requires forall i :: 0 <= i < |segment| ==> segment[i] != '/' && segment[i] != '\0'
    requires k < |nodes[dir].kind.children|
    requires nodes[nodes[dir].kind.children[k]].name == segment + suffix
    requires forall j :: 0 <= j < k ==> !NameMatches(nodes[nodes[dir].kind.children[j]].name, segment)
    ensures FindNode(nodes, "/" + segment, Some(dir)) == Some(nodes[dir].kind.children[k])
  {
    var children := nodes[dir].kind.children;
    ResolveStep(nodes, dir, "/", segment, "");
    assert "/" + segment + "" == "/" + segment;
    assert (segment + suffix)[..|segment|] == segment;
    var r := FirstMatch(nodes, children, segment);
    assert r == Some(k);
    ResolveSlashesOnly(nodes, "", children[k]);
  }

  /** Resolution reads only names and kinds: arenas of the same shape resolve alike. */
  lemma {:induction false} FirstMatchSameShape(a: seq<Node>, b: seq<Node>, siblings: seq<NodeId>, segment: string)
    requires SameShape(a, b) && ChildrenInRange(a, siblings)
    ensures ChildrenInRange(b, siblings)
    ensures FirstMatch(a, siblings, segment) == FirstMatch(b, siblings, segment)
    decreases |siblings|
  {
    if siblings != [] {
      assert a[siblings[0]].name == b[siblings[0]].name;
      FirstMatchSameShape(a, b, siblings[1..], segment);
    }
  }

  lemma {:induction false} ResolveSameShape(a: seq<Node>, b: seq<Node>, path: string, start: Option<NodeId>)
    requires ValidArena(a) && ValidArena(b) && SameShape(a, b)
    requires start.Some? ==> start.value < |a|
    ensures FindNode(a, path, start) == FindNode(b, path, start)
    decreases |path|
  {
    var rest := path[LeadingSlashes(path)..];
    var len := EntryLength(rest);
    if start.Some? && IsDirectory(a, start.value) && len > 0 {
      var children := a[start.value].kind.children;
      assert children == b[start.value].kind.children;
      assert WellFormed(a, a[start.value]);
      FirstMatchSameShape(a, b, children, rest[..len]);
      match FirstMatch(a, children, rest[..len])
      case None =>
      case Some(k) => ResolveSameShape(a, b, rest[len..], Some(children[k]));
    }
  }
}
