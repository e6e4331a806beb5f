/**
 * What the handlers answer on the tree generate_tree builds: the link counts it leaves,
 * the listing order, the two resolution quirks, a missing path, and the read that ignores
 * its offset.
 */
module TreeExamples {
  import opened Wrappers
  import opened FsNodes
  import opened PathResolver
  import opened Handlers
  import opened MemoryFs

  lemma GeneratedTreeValid(headSize: nat)
    ensures ValidArena(GeneratedTree(headSize))
  {
    var t := GeneratedTree(headSize);
    LiteralLengths();
    assert |ReadmeLiteral| == 38 && |TestBuffer()| == 93 && |ExampleLiteral| == 13;
    assert WellFormed(t, t[0]) && WellFormed(t, t[1]) && WellFormed(t, t[2]);
    assert WellFormed(t, t[5]) && WellFormed(t, t[7]);
    assert WellFormed(t, t[4]) && WellFormed(t, t[6]) && WellFormed(t, t[8]);
  }

  /**
   * Link counts after generate_tree: each directory has 2 plus one per child added under
   * it, so the root has 4; files keep the 0 they were created with.
   */
  lemma GeneratedLinkCounts(headSize: nat)
    ensures var t := GeneratedTree(headSize);
            && t[Root].nLinks == 2 + |t[Root].kind.children| == 4
            && t[1].nLinks == 2 + |t[1].kind.children| == 3
            && t[2].nLinks == 2 + |t[2].kind.children| == 4
            && t[5].nLinks == 2 + |t[5].kind.children| == 4
            && t[7].nLinks == 2 + |t[7].kind.children| == 3
            && t[3].nLinks == t[4].nLinks == t[6].nLinks == t[8].nLinks == 0
  {
  }

  /** readdir("/") lists ".", "..", then foo before bar: the later child comes first. */
  lemma GeneratedRootListing(headSize: nat)
    ensures ValidArena(GeneratedTree(headSize))
    ensures Listing(GeneratedTree(headSize), FindNode(GeneratedTree(headSize), "/", Some(Root))) == ["foo", "bar"]
  {
    var t := GeneratedTree(headSize);
    GeneratedTreeValid(headSize);
    ResolveSlashesOnly(t, "/", Root);
    assert WellFormed(t, t[Root]);
  }

  /** "/fo" resolves to the directory foo: a segment matches any name it begins. */
  lemma GeneratedPrefixMatch(headSize: nat)
    ensures ValidArena(GeneratedTree(headSize))
    ensures FindNode(GeneratedTree(headSize), "/fo", Some(Root)) == Some(5)
  {
    var t := GeneratedTree(headSize);
    GeneratedTreeValid(headSize);
    ResolvePrefixMatch(t, Root, "fo", "o", 0);
  }

  /** One step from a directory of the generated tree: "/" + segment + tail. */
  lemma GeneratedStep(headSize: nat, dir: NodeId, segment: string, tail: string, k: nat)
    requires dir < 9 && GeneratedTree(headSize)[dir].kind.Directory?
    requires segment != []
    requires forall i :: 0 <= i < |segment| ==> segment[i] != '/' && segment[i] != '\0'
    requires tail == [] || tail[0] == '/'
    requires ValidArena(GeneratedTree(headSize))
    requires FirstMatch(GeneratedTree(headSize), GeneratedTree(headSize)[dir].kind.children, segment) == Some(k)
    ensures k < |GeneratedTree(headSize)[dir].kind.children|
    ensures FindNode(GeneratedTree(headSize), "/" + segment + tail, Some(dir)) ==
            FindNode(GeneratedTree(headSize), tail, Some(GeneratedTree(headSize)[dir].kind.children[k]))
  {
    ResolveStep(GeneratedTree(headSize), dir, "/", segment, tail);
  }

  /** The paths below, spelled as the separator, the segment and the tail they split into. */
  lemma PathSpellings()
    ensures "/" + "test.txt" + "/extra" == "/test.txt/extra"
    ensures "/" + "foo" + "/test.txt/extra" == "/foo/test.txt/extra"
    ensures "/" + "qux" + "" == "/qux"
    ensures "/" + "example" + "" == "/example"
    ensures "/" + "baz" + "/example" == "/baz/example"
    ensures "/" + "foo" + "/baz/example" == "/foo/baz/example"
  {
  }

  /** "/test.txt/extra" from foo stops at the file test.txt and drops "/extra". */
  lemma ResolveThroughFileFromFoo(headSize: nat)
    ensures ValidArena(GeneratedTree(headSize))
    ensures FindNode(GeneratedTree(headSize), "/test.txt/extra", Some(5)) == Some(6)
  {
    var t := GeneratedTree(headSize);
    GeneratedTreeValid(headSize);
    assert !NameMatches("baz", "test.txt");
    assert FirstMatch(t, [7, 6], "test.txt") == Some(1);
    GeneratedStep(headSize, 5, "test.txt", "/extra", 1);
    PathSpellings();
    ResolveFromNonDirectory(t, "/extra", Some(6));
  }

  /** The step from the root into foo, on the way to test.txt and on the way to example. */
  lemma StepIntoFooTowardsTest(headSize: nat)
    ensures ValidArena(GeneratedTree(headSize))
    ensures FindNode(GeneratedTree(headSize), "/foo/test.txt/extra", Some(Root)) ==
            FindNode(GeneratedTree(headSize), "/test.txt/extra", Some(5))
  {
    var t := GeneratedTree(headSize);
    GeneratedTreeValid(headSize);
    assert FirstMatch(t, [5, 1], "foo") == Some(0);
    GeneratedStep(headSize, Root, "foo", "/test.txt/extra", 0);
    PathSpellings();
  }

  lemma StepIntoFooTowardsExample(headSize: nat)
    ensures ValidArena(GeneratedTree(headSize))
    ensures FindNode(GeneratedTree(headSize), "/foo/baz/example", Some(Root)) ==
            FindNode(GeneratedTree(headSize), "/baz/example", Some(5))
  {
    var t := GeneratedTree(headSize);
    GeneratedTreeValid(headSize);
    assert FirstMatch(t, [5, 1], "foo") == Some(0);
    GeneratedStep(headSize, Root, "foo", "/baz/example", 0);
    PathSpellings();
  }

  /** "/foo/test.txt/extra" resolves to the file test.txt. */
  lemma GeneratedPathThroughFile(headSize: nat)
    ensures ValidArena(GeneratedTree(headSize))
    ensures FindNode(GeneratedTree(headSize), "/foo/test.txt/extra", Some(Root)) == Some(6)
  {
    StepIntoFooTowardsTest(headSize);
    PathSpellings();
    ResolveThroughFileFromFoo(headSize);
  }

  /** "/qux" matches no child of the root. */
  lemma MissingPathUnresolved(headSize: nat)
    ensures ValidArena(GeneratedTree(headSize))
    ensures FindNode(GeneratedTree(headSize), "/qux", Some(Root)).None?
  {
    var t := GeneratedTree(headSize);
    GeneratedTreeValid(headSize);
    assert "foo"[..3][0] != "qux"[0] && "bar"[..3][0] != "qux"[0];
    assert !NameMatches("foo", "qux") && !NameMatches("bar", "qux");
    assert FirstMatch(t, [5, 1], "qux") == None;
    ResolveStep(t, Root, "/", "qux", "");
    PathSpellings();
  }

  /** On a path that does not resolve, do_getattr answers -ENOENT, here for "/qux". */
  lemma GeneratedMissingPath(headSize: nat, uid: nat, gid: nat)
    ensures ValidArena(GeneratedTree(headSize))
    ensures FindNode(GeneratedTree(headSize), "/qux", Some(Root)).None?
    ensures Getattr(GeneratedTree(headSize), "/qux", uid, gid) == Failed(-2)
  {
    MissingPathUnresolved(headSize);
  }

  /** "/example" from baz reaches the file example. */
  lemma ResolveExampleFromBaz(headSize: nat)
    ensures ValidArena(GeneratedTree(headSize))
    ensures FindNode(GeneratedTree(headSize), "/example", Some(7)) == Some(8)
  {
    var t := GeneratedTree(headSize);
    GeneratedTreeValid(headSize);
    assert FirstMatch(t, [8], "example") == Some(0);
    GeneratedStep(headSize, 7, "example", "", 0);
    PathSpellings();
    ResolveSlashesOnly(t, "", 8);
  }

  /** The step from foo into baz on the way to example. */
  lemma StepIntoBaz(headSize: nat)
    ensures ValidArena(GeneratedTree(headSize))
    ensures FindNode(GeneratedTree(headSize), "/baz/example", Some(5)) ==
            FindNode(GeneratedTree(headSize), "/example", Some(7))
  {
    var t := GeneratedTree(headSize);
    GeneratedTreeValid(headSize);
    assert FirstMatch(t, [7, 6], "baz") == Some(0);
    GeneratedStep(headSize, 5, "baz", "/example", 0);
    PathSpellings();
  }

  /** "/baz/example" from foo and "/foo/baz/example" from the root reach the file example. */
  lemma ResolveExample(headSize: nat)
    ensures ValidArena(GeneratedTree(headSize))
    ensures FindNode(GeneratedTree(headSize), "/baz/example", Some(5)) == Some(8)
    ensures FindNode(GeneratedTree(headSize), "/foo/baz/example", Some(Root)) == Some(8)
  {
    StepIntoBaz(headSize);
    ResolveExampleFromBaz(headSize);
    StepIntoFooTowardsExample(headSize);
    PathSpellings();
  }

  /**
   * do_read as written, on any path that reaches a node like example: reading 5 bytes at
   * offset 6 of "Hello world\n" returns "Hello", the start of the file.
   */
  lemma ReadOfExampleNode(nodes: seq<Node>, path: string, i: NodeId)
    requires ValidArena(nodes) && FindNode(nodes, path, Some(Root)) == Some(i)
    requires nodes[i] == Node("example", ExampleMode, 0, File(12, ExampleLiteral))
    ensures Read(nodes, path, 5, 6) == Copied(5, "Hello")
  {
    ReadOfFoundFile(nodes, path, 5, 6, i);
    assert BytesToRead(12, 5, 6) == 5;
    assert ExampleLiteral[..5] == "Hello";
  }

  /**
   * do_read as written: reading 5 bytes of "/foo/baz/example" at offset 6 returns "Hello",
   * where the bytes at offset 6 are "world".
   */
  lemma ReadIgnoresOffset(headSize: nat)
    ensures ValidArena(GeneratedTree(headSize))
    ensures Read(GeneratedTree(headSize), "/foo/baz/example", 5, 6) == Copied(5, "Hello")
  {
    ResolveExample(headSize);
    ReadOfExampleNode(GeneratedTree(headSize), "/foo/baz/example", 8);
  }

  /** The corrected copy reads the bytes that are at offset 6: "world". */
  lemma CorrectedReadOfExample()
    ensures ReadAtOffset(12, ExampleLiteral, 5, 6) == "world"
  {
    assert ExampleLiteral[6..11] == "world";
  }
}
