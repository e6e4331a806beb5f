/**
 * The mutable tree of main.c: the global `root` with everything reachable from it, and the
 * global `testText[93]` buffer. The methods are the C functions that change nodes in place:
 * create_*_with_perm (allocation), add_*_with_perm (`n_links++`), add_child_node (pointer
 * rewiring), do_chmod (`node->mode = mode`), and generate_tree with its fill loop.
 */
module MemoryFs {
  import opened Wrappers
  import opened FsNodes
  import opened PathResolver

  /** Permission bits of the nodes main and generate_tree create (octal in the comments). */
  const RootMode: Mode := 0x1B6     // 0666
  const BarMode: Mode := 0x115      // 0425
  const BinMode: Mode := 0x17F      // 0577
  const HeadMode: Mode := 0x1ED     // 0755
  const ReadmeMode: Mode := 0x124   // 0444
  const FooMode: Mode := 0x9B       // 0233
  const TestMode: Mode := 0x1C7     // 0707
  const BazMode: Mode := 0x7        // 0007
  const ExampleMode: Mode := 0x92   // 0222

  /** The literal readme.txt points at, with its explicit NUL (C adds one more). */
  const ReadmeText: string := "Student Валентина Ендовицкая, 3-1946\n"
  const ReadmeLiteral: string := ReadmeText + "\0"

  /** The literal example points at. */
  const ExampleText: string := "Hello world\n"
  const ExampleLiteral: string := ExampleText + "\0"

  /** What the fill loop leaves in testText[0..92]: 46 pairs of 'a' and a newline. */
  function TestText(): (s: string)
    ensures |s| == 92
    ensures forall i :: 0 <= i < 92 ==> s[i] == (if i % 2 == 0 then 'a' else '\n')
    ensures '\0' !in s
  {
    seq(92, i => if i % 2 == 0 then 'a' else '\n')
  }

  /** The whole testText buffer after generate_tree stores its terminating NUL. */
  function TestBuffer(): string {
    TestText() + ['\0']
  }

  lemma {:induction false} TestTextIsPairs()
    ensures forall k :: 0 <= k < 46 ==> TestText()[2 * k .. 2 * k + 2] == "a\n"
    ensures StrLen(TestBuffer()) == 92
  {
    var t := TestText();
    forall k | 0 <= k < 46 ensures t[2 * k .. 2 * k + 2] == "a\n" {
      assert t[2 * k] == 'a' && t[2 * k + 1] == '\n';
    }
    StrLenOfTerminated(t, []);
    assert t + ['\0'] + [] == TestBuffer();
  }

  /** The two literals have no NUL before their explicit one, so strlen stops there. */
  lemma LiteralLengths()
    ensures StrLen(ReadmeLiteral) == |ReadmeText| == 37
    ensures StrLen(ExampleLiteral) == |ExampleText| == 12
  {
    assert '\0' !in ReadmeText;
    forall i | 0 <= i < |ReadmeText| ensures ReadmeText[i] != '\0' {
      assert ReadmeText[i] in ReadmeText;
    }
    StrLenOfTerminated(ReadmeText, []);
    assert ReadmeText + ['\0'] + [] == ReadmeLiteral;
    assert '\0' !in ExampleText;
    forall i | 0 <= i < |ExampleText| ensures ExampleText[i] != '\0' {
      assert ExampleText[i] in ExampleText;
    }
    StrLenOfTerminated(ExampleText, []);
    assert ExampleText + ['\0'] + [] == ExampleLiteral;
  }

  /**
   * The arena generate_tree builds after main created the root. Indices follow the order of
   * allocation; every child list is newest first. `head` keeps a NULL buffer and the size
   * of /bin/head.
   */
  function GeneratedTree(headSize: nat): seq<Node> {
    [ Node("", RootMode, 4, Directory([5, 1])),
      Node("bar", BarMode, 3, Directory([2])),
      Node("bin", BinMode, 4, Directory([4, 3])),
      Node("head", HeadMode, 0, File(headSize, [])),
      Node("readme.txt", ReadmeMode, 0, File(37, ReadmeLiteral)),
      Node("foo", FooMode, 4, Directory([7, 6])),
      Node("test.txt", TestMode, 0, File(92, TestBuffer())),
      Node("baz", BazMode, 3, Directory([8])),
      Node("example", ExampleMode, 0, File(12, ExampleLiteral)) ]
  }

  /** The arena after the directories section of generate_tree: every file still empty. */
  function GeneratedSkeleton(): seq<Node> {
    [ Node("", RootMode, 4, Directory([5, 1])),
      Node("bar", BarMode, 3, Directory([2])),
      Node("bin", BinMode, 4, Directory([4, 3])),
      NewFile("head", HeadMode),
      NewFile("readme.txt", ReadmeMode),
      Node("foo", FooMode, 4, Directory([7, 6])),
      NewFile("test.txt", TestMode),
      Node("baz", BazMode, 3, Directory([8])),
      NewFile("example", ExampleMode) ]
  }

  /** The arena after bar, bin, head and readme.txt are added under the root. */
  function BarSubtree(): seq<Node> {
    [ Node("", RootMode, 3, Directory([1])),
      Node("bar", BarMode, 3, Directory([2])),
      Node("bin", BinMode, 4, Directory([4, 3])),
      NewFile("head", HeadMode),
      NewFile("readme.txt", ReadmeMode) ]
  }

  class FsTree {
    /** Every node malloc'd so far; index 0 is the global `root`. */
    var nodes: seq<Node>
    /** The global `char testText[93]` that test.txt's data_ptr points into. */
    const testText: array<char>

    ghost predicate Valid()
      reads this
    {
      ValidArena(nodes) && testText.Length == 93
    }

    /** main's `root = create_directory_with_perm("", 0666)`; testText starts zeroed. */
    constructor ()
      ensures Valid() && fresh(testText)
      ensures nodes == [NewDirectory("", RootMode)]
      ensures forall i :: 0 <= i < testText.Length ==> testText[i] == '\0'
    {
      nodes := [NewDirectory("", RootMode)];
      testText := new char[93](_ => '\0');
    }

    /** create_directory_with_perm: a new directory with two links and no children. */
    method CreateDirectoryWithPerm(name: string, mode: Mode) returns (id: NodeId)
      requires Valid()
      modifies this
      ensures Valid()
      ensures id == |old(nodes)| && nodes == old(nodes) + [NewDirectory(name, mode)]
      ensures nodes[id].nLinks == 2 && nodes[id].kind == Directory([])
      ensures !OnSiblingList(nodes, id)
    {
      id := |nodes|;
      NextIndexUnlisted(nodes);
      AppendKeepsValid(nodes, NewDirectory(name, mode));
      nodes := nodes + [NewDirectory(name, mode)];
    }

    /** create_file_with_perm: a new file with no links, size 0 and a NULL buffer. */
    method CreateFileWithPerm(name: string, mode: Mode) returns (id: NodeId)
      requires Valid()
      modifies this
      ensures Valid()
      ensures id == |old(nodes)| && nodes == old(nodes) + [NewFile(name, mode)]
      ensures nodes[id].nLinks == 0 && nodes[id].kind == File(0, [])
      ensures !OnSiblingList(nodes, id)
    {
      id := |nodes|;
      NextIndexUnlisted(nodes);
      AppendKeepsValid(nodes, NewFile(name, mode));
      nodes := nodes + [NewFile(name, mode)];
    }

    /**
     * add_child_node: the child becomes the head of the parent's sibling list and the old
     * list follows it. The parent must be a directory, as the C code assumes; the child is
     * one no list holds yet, as every caller passes a node it has just created.
     */
    method AddChildNode(parent: NodeId, child: NodeId)
      requires Valid() && parent < |nodes| && IsDirectory(nodes, parent)
      requires child < |nodes| && !OnSiblingList(nodes, child)
      modifies this
      ensures Valid()
      ensures nodes == AttachChild(old(nodes), parent, child)
      ensures nodes[parent].kind.children == [child] + old(nodes[parent].kind.children)
    {
      AttachKeepsValid(nodes, parent, child);
      nodes := AttachChild(nodes, parent, child);
    }

    /** The `n_links++` on the parent. */
    method BumpParentLinks(parent: NodeId)
      requires Valid() && parent < |nodes|
      modifies this
      ensures Valid()
      ensures nodes == BumpLinks(old(nodes), parent)
      ensures nodes[parent].nLinks == old(nodes[parent].nLinks) + 1
    {
      BumpKeepsValid(nodes, parent);
      nodes := BumpLinks(nodes, parent);
    }

    /**
     * add_directory_with_perm: the parent gains exactly one link and a new newest child,
     * a fresh directory whose own link count stays 2; no other node changes.
     */
    method AddDirectoryWithPerm(parent: NodeId, name: string, mode: Mode) returns (id: NodeId)
      requires Valid() && parent < |nodes| && IsDirectory(nodes, parent)
      modifies this
      ensures Valid()
      ensures id == |old(nodes)| && |nodes| == id + 1
      ensures nodes == AttachChild(BumpLinks(old(nodes) + [NewDirectory(name, mode)], parent), parent, id)
      ensures nodes[id] == NewDirectory(name, mode)
      ensures nodes[parent] == old(nodes[parent]).(nLinks := old(nodes[parent].nLinks) + 1,
                                                   kind := Directory([id] + old(nodes[parent].kind.children)))
      ensures forall i :: 0 <= i < |old(nodes)| && i != parent ==> nodes[i] == old(nodes[i])
    {
      id := CreateDirectoryWithPerm(name, mode);
      BumpParentLinks(parent);
      AddChildNode(parent, id);
    }

    /**
     * add_file_with_perm: the parent gains exactly one link and a new newest child, a
     * fresh file whose own link count stays 0; no other node changes.
     */
    method AddFileWithPerm(parent: NodeId, name: string, mode: Mode) returns (id: NodeId)
      requires Valid() && parent < |nodes| && IsDirectory(nodes, parent)
      modifies this
      ensures Valid()
      ensures id == |old(nodes)| && |nodes| == id + 1
      ensures nodes == AttachChild(BumpLinks(old(nodes) + [NewFile(name, mode)], parent), parent, id)
      ensures nodes[id] == NewFile(name, mode)
      ensures nodes[parent] == old(nodes[parent]).(nLinks := old(nodes[parent].nLinks) + 1,
                                                   kind := Directory([id] + old(nodes[parent].kind.children)))
      ensures forall i :: 0 <= i < |old(nodes)| && i != parent ==> nodes[i] == old(nodes[i])
    {
      id := CreateFileWithPerm(name, mode);
      BumpParentLinks(parent);
      AddChildNode(parent, id);
    }

    /**
     * do_chmod: when the path resolves, the node's mode becomes exactly `mode` and 0 is
     * returned; otherwise -1 is returned and nothing changes.
     */
    method Chmod(path: string, mode: Mode) returns (status: int)
      requires Valid()
      modifies this
      ensures Valid()
      ensures var found := FindNode(old(nodes), path, Some(Root));
              && (found.None? ==> status == -1 && nodes == old(nodes))
              && (found.Some? ==> status == 0 && nodes == SetMode(old(nodes), found.value, mode))
    {
      var found := FindNodeLoop(nodes, path, Some(Root));
      if found.Some? {
        SetModeKeepsShape(nodes, found.value, mode);
        nodes := SetMode(nodes, found.value, mode);
        status := 0;
      } else {
        status := -1;
      }
    }

    /** The loop of generate_tree that writes 46 "a\n" pairs into testText. */
    method FillTestText()
      requires Valid()
      modifies testText
      ensures testText[..92] == TestText()
      ensures testText[92] == old(testText[92])
    {
      var i := 0;
      while i < 46
        invariant 0 <= i <= 46
        invariant forall j :: 0 <= j < 2 * i ==> testText[j] == if j % 2 == 0 then 'a' else '\n'
        invariant forall j :: 2 * i <= j < 93 ==> testText[j] == old(testText[j])
      {
        testText[i * 2] := 'a';
        testText[i * 2 + 1] := '\n';
        i := i + 1;
      }
      assert forall j :: 0 <= j < 92 ==> testText[..92][j] == TestText()[j];
    }

    /**
     * `file->info.file.data_ptr = buffer; file->info.file.size = strlen(buffer)`.
     */
    method SetContent(file: NodeId, buffer: string)
      requires Valid() && file < |nodes| && nodes[file].kind.File?
      modifies this
      ensures Valid()
      ensures nodes == old(nodes)[file := old(nodes[file]).(kind := File(StrLen(buffer), buffer))]
    {
      var after := nodes[file := nodes[file].(kind := File(StrLen(buffer), buffer))];
      forall i | 0 <= i < |after| ensures WellFormed(after, after[i]) {
        assert WellFormed(nodes, nodes[i]);
      }
      nodes := after;
    }

    /**
     * The directories section of generate_tree: the nodes and links, before any content.
     */
    method AddGeneratedNodes()
      requires Valid() && nodes == [NewDirectory("", RootMode)]
      modifies this
      ensures Valid() && nodes == GeneratedSkeleton()
    {
      AddBarSubtree();
      AddFooSubtree();
    }

    /** The first half of the directories section: bar, bin, head and readme.txt. */
    method AddBarSubtree()
      requires Valid() && nodes == [NewDirectory("", RootMode)]
      modifies this
      ensures Valid() && nodes == BarSubtree()
    {
      var bar := AddDirectoryWithPerm(Root, "bar", BarMode);
      assert nodes[Root] == Node("", RootMode, 3, Directory([bar]));
      var bin := AddDirectoryWithPerm(bar, "bin", BinMode);
      assert nodes[bar] == Node("bar", BarMode, 3, Directory([bin]));
      var head := AddFileWithPerm(bin, "head", HeadMode);
      assert nodes[bin] == Node("bin", BinMode, 3, Directory([head]));
      var readme := AddFileWithPerm(bin, "readme.txt", ReadmeMode);
      assert nodes[bin] == Node("bin", BinMode, 4, Directory([readme, head]));
      var expected := BarSubtree();
      assert forall i :: 0 <= i < 5 ==> nodes[i] == expected[i];
    }

    /** The second half: foo, test.txt, baz and example. */
    method AddFooSubtree()
      requires Valid() && nodes == BarSubtree()
      modifies this
      ensures Valid() && nodes == GeneratedSkeleton()
    {
      var foo := AddDirectoryWithPerm(Root, "foo", FooMode);
      assert nodes[Root] == Node("", RootMode, 4, Directory([foo, 1]));
      var test := AddFileWithPerm(foo, "test.txt", TestMode);
      assert nodes[foo] == Node("foo", FooMode, 3, Directory([test]));
      var baz := AddDirectoryWithPerm(foo, "baz", BazMode);
      assert nodes[foo] == Node("foo", FooMode, 4, Directory([baz, test]));
      var example := AddFileWithPerm(baz, "example", ExampleMode);
      assert nodes[baz] == Node("baz", BazMode, 3, Directory([example]));
      var expected := GeneratedSkeleton();
      assert forall i :: 0 <= i < 9 ==> nodes[i] == expected[i];
    }

    /**
     * The test.txt section of generate_tree: fill testText, terminate it, and point the
     * file at it with its strlen as the size.
     */
    method SetTestContent(test: NodeId)
      requires Valid() && test < |nodes| && nodes[test].kind.File?
      modifies this, testText
      ensures Valid() && testText[..] == TestBuffer()
      ensures nodes == old(nodes)[test := old(nodes[test]).(kind := File(92, TestBuffer()))]
    {
      FillTestText();
      testText[92] := '\0';
      assert testText[..] == TestBuffer();
      TestTextIsPairs();
      SetContent(test, testText[..]);
    }

    /**
     * generate_tree, run by main right after the root is created. The size of /bin/head,
     * which the C code measures with fopen/fseek/ftell, is the parameter `headSize`.
     */
    method GenerateTree(headSize: nat)
      requires Valid() && nodes == [NewDirectory("", RootMode)]
      modifies this, testText
      ensures Valid() && nodes == GeneratedTree(headSize)
      ensures testText[..] == TestBuffer() == nodes[6].kind.data
    {
      var expected := GeneratedTree(headSize);
      LiteralLengths();
      AddGeneratedNodes();
      assert forall i :: 0 <= i < 9 && i !in {3, 4, 6, 8} ==> nodes[i] == expected[i];

      SetContent(4, ReadmeLiteral);
      assert nodes[4] == expected[4];

      SetTestContent(6);
      assert nodes[6] == expected[6];

      SetContent(8, ExampleLiteral);
      assert nodes[8] == expected[8];

      // head->info.file.size = fsize: the buffer stays NULL.
      nodes := nodes[3 := nodes[3].(kind := File(headSize, []))];
      assert nodes[3] == expected[3];
      assert forall i :: 0 <= i < 9 ==> nodes[i] == expected[i];
    }
  }
}
