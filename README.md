# In-memory FUSE directory tree

This project models the core of `main.c`, a small FUSE file system. The program keeps a
fixed tree of directories and files in memory and answers four requests about it:
getattr, readdir, read and chmod.

The model covers the following parts of the program:

- **Nodes.** `fs_node_t` is a tagged union of a file (size and buffer) and a directory
  (first child). Each node also has a name, a mode and a link count. Nodes live in an arena
  (`seq<Node>`), so a node pointer becomes an index, and the global `root` is index 0. The
  intrusive `next_sibling` list of a directory becomes the directory's `children` sequence,
  in sibling order: newest child first. The file `fs_nodes.dfy` holds this, together with
  the arena invariant and the three updates the program makes: attach a child, bump a link
  count, set a mode.
- **Path resolution.** `find_node` is modelled twice, in `path_resolver.dfy`. `FindNode` is
  a recursive function. `FindNodeLoop` is a method that runs the C loops: skip the slashes,
  measure the segment, walk the sibling list, then recurse. Its contract says it computes
  `FindNode`. Both of the program's quirks are kept:
  - a start node that is NULL or not a directory is returned as it is, and the rest of the
    path is dropped;
  - a segment is compared with `strncmp` over its own length, so it matches any child whose
    name begins with it, and the first such child in sibling order wins.
- **Handlers.** `do_getattr`, `do_read` and `do_readdir` are in `handlers.dfy`, together
  with the facts that relate chmod to getattr.
- **The mutable tree.** The class `FsTree` in `fs_tree.dfy` holds the arena and the global
  `testText` buffer. Its methods are the C functions that change things in place:
  - the `create_*_with_perm` constructors;
  - `add_*_with_perm`, which bump the parent's `n_links`;
  - `add_child_node`, which prepends the child to the parent's list;
  - `do_chmod`;
  - `generate_tree`, including its fill loop.
  `GenerateTree` is proved to leave exactly the arena `GeneratedTree(headSize)`.
- **The generated tree.** `tree_examples.dfy` states what the handlers answer on that tree.

Modes are `bv32`, as `mode_t` is. Paths and contents are strings of characters. A NUL in a
path ends it, as it does for a C string.

## Model

| member | source | states |
|---|---|---|
| FsNodes.StrLen | main.c:284 | strlen: every character before the result is non-NUL, and the character at the result is NUL (or the buffer ends there) |
| FsNodes.StrLenOfTerminated | main.c:283-284 | a NUL-free text followed by a NUL has strlen equal to the text's length, whatever follows the NUL |
| FsNodes.NewDirectory | main.c:213-227 | the node create_directory_with_perm returns: the given name and mode, 2 links, no children |
| FsNodes.NewFile | main.c:236-251 | the node create_file_with_perm returns: the given name and mode, 0 links, size 0, a NULL buffer |
| FsNodes.AttachChild | main.c:260-265 | the child goes in front of the parent's child list and the old list follows; the parent's name, mode and link count and every other node stay as they were |
| FsNodes.BumpLinks | main.c:231 | the node's link count goes up by exactly one; its name, mode and kind and every other node stay as they were |
| FsNodes.SetMode | main.c:200 | the node's mode becomes exactly the given bits; its name, link count and kind and every other node stay as they were |
| FsNodes.AppendKeepsValid | main.c:216-225 | allocating a node that is well formed keeps the arena invariant: the root is a directory, every child index is in range, and every file's buffer covers its size |
| FsNodes.NextIndexUnlisted | main.c:222 | a freshly allocated node is on no sibling list yet (its `next_sibling` is NULL and no list points to it) |
| FsNodes.BumpKeepsValid | main.c:231 | `n_links++` keeps the arena invariant and changes no name or kind |
| FsNodes.AttachKeepsValid | main.c:260-265 | linking a node of the arena into a directory keeps the arena invariant |
| FsNodes.SetModeKeepsShape | main.c:200 | storing a mode keeps the arena invariant and changes no name or kind |
| PathResolver.LeadingSlashes | main.c:68-71 | the number of leading '/' characters: all of them are '/', and the next character is not |
| PathResolver.EntryLength | main.c:73-77 | `entry_len`: no '/' or NUL before it; at it the path ends, or has a '/' or a NUL |
| PathResolver.NameMatches | main.c:88 | `strncmp(name, segment, \|segment\|) == 0` for a segment without NUL: the name is at least as long as the segment and begins with it |
| PathResolver.FirstMatch | main.c:86-90 | the sibling walk: the position found names a child that matches the segment, and no earlier sibling matches; None means no sibling matches |
| PathResolver.FindNode | main.c:62-98 | find_node: a result is always a node of the arena, and a NULL start gives NULL |
| PathResolver.FindNodeLoop | main.c:62-98 | the three loops and the recursive call of find_node compute exactly `FindNode` |
| PathResolver.ResolveSlashesOnly | main.c:82-84 | resolving "" or a path made only of '/' returns the start node itself |
| PathResolver.ResolveFromNonDirectory | main.c:79-81 | from NULL or from a file, find_node returns the start node unchanged, whatever path remains |
| PathResolver.SplitPath | main.c:68-77 | a path made of slashes, a segment and a tail that starts at '/' or the end is cut into exactly that segment and that tail |
| PathResolver.ResolveStep | main.c:86-94 | one step from a directory: resolution continues with the tail from the first matching child, and gives NULL when no child matches |
| PathResolver.ResolvePrefixMatch | main.c:88-93 | a segment selects a child whose name only begins with it ("fo" reaches "foo") when no newer sibling matches first |
| PathResolver.FirstMatchSameShape | main.c:86-90 | the sibling walk reads only names and child lists |
| PathResolver.ResolveSameShape | main.c:62-98 | two arenas that agree on names and kinds resolve every path alike, so modes and link counts never affect resolution |
| Handlers.TypeBit | main.c:134-137 | the bit do_getattr ORs in is S_IFDIR exactly for a directory and S_IFREG exactly for a file |
| Handlers.TypeBitKeepsPermissions | main.c:133-137 | ORing S_IFDIR or S_IFREG into a mode keeps its permission bits and sets that type bit |
| Handlers.Getattr | main.c:125-150 | -ENOENT exactly when the path does not resolve; otherwise mode is the stored mode OR the type bit, size is the file size (0 for a directory), and nlink is the node's count |
| Handlers.GetattrReportsPermissions | main.c:133-138 | for a node that is found, the reported mode has the stored permission bits and the node kind's type bit |
| Handlers.BytesToRead | main.c:181-186 | `bytes_read` is at most the request and at most `size - offset`, and equals one of the two |
| Handlers.Read | main.c:152-195 | 0 bytes when the path does not resolve, the node is not a file, or the offset is at or past the size; the /bin/head branch for a file named "head"; otherwise the clamped count of bytes, taken from the start of the content |
| Handlers.ReadOfFoundFile | main.c:181-189 | on a path that reaches an ordinary file with the offset inside it, do_read returns the clamped count of bytes, copied from the start of the content |
| Handlers.ReadAtOffset | main.c:189 | the corrected copy: the clamped count of bytes starting at the offset, and nothing at or past the end |
| Handlers.ReadAtStartIsCorrect | main.c:181-189 | at offset 0, the read as written returns the same bytes as the corrected copy |
| Handlers.ReadAtOffsetConsecutive | main.c:181-189 | with the corrected copy, a read followed by a read from where it stopped returns what one longer read returns |
| Handlers.Listing | main.c:110-117 | what readdir fills after "." and "..": nothing for a missing path or a file; for a directory, one name per child, each the name of the child at that position of the sibling list |
| Handlers.Readdir | main.c:100-123 | readdir fills ".", "..", then the names of the found directory's children in sibling order; for a missing path or a file, only "." and ".." |
| Handlers.ListingAfterAttach | main.c:260-265 | after add_child_node, the directory's listing is the new child's name followed by the old listing |
| Handlers.ListingNewestFirst | main.c:113-117 | children added a, b, c in that order into an empty directory are listed c, b, a |
| Handlers.GetattrAfterChmod | main.c:197-204 | after chmod on a path, the path still resolves to the same node; getattr then reports exactly the new mode with the type bit of the unchanged kind, and the same size and link count |
| Handlers.GetattrReadsFoundNode | main.c:131-147 | two arenas in which a path resolves alike, to nodes that are equal, give the same getattr answer on that path |
| Handlers.GetattrOtherPathAfterChmod | main.c:197-204 | chmod on one node leaves getattr unchanged for every path that does not reach that node |
| Handlers.ChmodTwiceIsOnce | main.c:197-204 | a second chmod with the same mode finds the same node and changes nothing |
| MemoryFs.TestText | main.c:287-290 | the 92 characters the fill loop writes: 'a' at even positions, '\n' at odd ones, and no NUL |
| MemoryFs.GeneratedTree | main.c:267-313 | the nine nodes generate_tree leaves: names, modes, link counts, newest-first child lists, the three contents and head's measured size |
| MemoryFs.TestTextIsPairs | main.c:287-293 | the fill loop's text is 46 pairs of "a\n", and strlen of the terminated buffer is 92 |
| MemoryFs.LiteralLengths | main.c:283-297 | strlen of the readme literal is 37 characters, and of "Hello world\n" is 12 |
| MemoryFs.FsTree.constructor | main.c:316 | the root is a new directory named "" with mode 0666; testText starts zeroed, as a global does |
| MemoryFs.FsTree.CreateDirectoryWithPerm | main.c:213-227 | a new directory with the given name and mode, 2 links and no children, on no sibling list; nothing else changes |
| MemoryFs.FsTree.CreateFileWithPerm | main.c:236-251 | a new file with the given name and mode, 0 links, size 0 and a NULL buffer, on no sibling list; nothing else changes |
| MemoryFs.FsTree.AddChildNode | main.c:260-265 | the child becomes the head of the parent's list, and the old list follows it |
| MemoryFs.FsTree.BumpParentLinks | main.c:231 | the parent's link count goes up by exactly one |
| MemoryFs.FsTree.AddDirectoryWithPerm | main.c:229-234 | the parent gains exactly one link and a new newest child, a new directory with 2 links; no other node changes |
| MemoryFs.FsTree.AddFileWithPerm | main.c:253-258 | the parent gains exactly one link and a new newest child, a new file with 0 links; no other node changes |
| MemoryFs.FsTree.Chmod | main.c:197-204 | on a path that resolves, the node's mode becomes exactly the given bits and 0 is returned; otherwise -1 is returned and nothing changes |
| MemoryFs.FsTree.FillTestText | main.c:287-291 | the loop writes 'a' at even positions and '\n' at odd positions below 92, and leaves position 92 alone |
| MemoryFs.FsTree.SetContent | main.c:283-284 | the file's buffer becomes the given buffer and its size becomes strlen of it; nothing else changes |
| MemoryFs.BarSubtree | main.c:271-274 | the five nodes after bar, bin, head and readme.txt are added: root with 3 links listing bar, bin listing readme.txt before head |
| MemoryFs.FsTree.AddBarSubtree | main.c:271-274 | the first four additions of generate_tree leave exactly `BarSubtree()` |
| MemoryFs.FsTree.AddFooSubtree | main.c:276-279 | the next four additions leave exactly the skeleton, with foo listed before bar under the root |
| MemoryFs.FsTree.SetTestContent | main.c:287-293 | after the fill loop and the NUL store, testText is the 46 pairs plus NUL, and test.txt points at it with size 92; no other node changes |
| MemoryFs.FsTree.AddGeneratedNodes | main.c:270-279 | the directories section of generate_tree leaves the nine nodes with their names, modes, link counts and newest-first child lists |
| MemoryFs.FsTree.GenerateTree | main.c:267-313 | generate_tree leaves exactly `GeneratedTree(headSize)`, with readme.txt of size 37, test.txt of size 92, example of size 12, and head of the measured size; testText holds the 46 pairs and its NUL, and test.txt's content equals it |
| TreeExamples.GeneratedTreeValid | main.c:267-313 | the generated tree satisfies the arena invariant |
| TreeExamples.GeneratedLinkCounts | main.c:271-279 | each directory has 2 links plus one per child (the root has 4), and every file has 0 |
| TreeExamples.GeneratedRootListing | main.c:105-117 | readdir("/") lists foo before bar: the later child comes first |
| TreeExamples.GeneratedPrefixMatch | main.c:88-93 | "/fo" resolves to the directory foo |
| TreeExamples.ResolveThroughFileFromFoo | main.c:79-81 | "/test.txt/extra" from foo stops at the file test.txt and drops "/extra" |
| TreeExamples.GeneratedPathThroughFile | main.c:79-93 | "/foo/test.txt/extra" resolves to the file test.txt |
| TreeExamples.MissingPathUnresolved | main.c:86-94 | "/qux" matches no child of the root, so find_node gives NULL |
| TreeExamples.GeneratedMissingPath | main.c:144-146 | "/qux" matches no child of the root, and getattr answers -ENOENT |
| TreeExamples.ResolveExample | main.c:62-98 | "/baz/example" from foo and "/foo/baz/example" from the root reach the file example |
| TreeExamples.ReadOfExampleNode | main.c:181-189 | on any path that reaches a node equal to example as generate_tree leaves it, a read of 5 bytes at offset 6 returns "Hello" |
| TreeExamples.ResolveExampleFromBaz | main.c:86-94 | "/example" from baz reaches the file example |
| TreeExamples.ReadIgnoresOffset | main.c:189 | a read of 5 bytes at offset 6 of "/foo/baz/example" returns "Hello", the start of the file |
| TreeExamples.CorrectedReadOfExample | main.c:189 | the corrected copy of the same read returns "world", the bytes at offset 6 |

The lemmas `TreeExamples.GeneratedStep`, `PathSpellings`, `StepIntoFooTowardsTest`,
`StepIntoFooTowardsExample` and `StepIntoBaz` have no rows. They are helpers that split the
resolution examples above into one step each.

## Left out

- `main`'s call to `fuse_main` and the `operations` table (main.c:206-211, 318-319): registering with FUSE and dispatching requests.
- All `printf` tracing: it is output only and changes no result.
- Reading `/bin/head` in generate_tree (main.c:300-312): `head`'s size is the parameter `headSize` and its buffer stays NULL.
- The `"head"` branch of do_read (main.c:159-179): it opens, mallocs and reads `/bin/head`. `Handlers.Read` returns `HeadImage` for it. The arena invariant exempts a file named "head" from having a buffer as long as its size.
- `getuid()` and `getgid()` (main.c:142-143): they are passed to `Handlers.Getattr` as parameters.
- Bytes: the readme literal is stored as characters, so its size is 37, not the 56 bytes of its UTF-8 encoding. The program has no other non-ASCII content.
- Reading the union without checking the node type (main.c:113, 157) is undefined behaviour in C. The model gives a file no listing entries and a directory no bytes.
- Handlers.Getattr: leaves the size of a directory as 0, the value in the zeroed stat buffer FUSE passes in. The C code never writes `st_size` for a directory.
- Handlers.Read: counts are unbounded. The C `int bytes_read` would overflow for a request above `INT_MAX`, and that is not modelled.
- Handlers.BytesToRead: `off_t` and `size_t` are taken as natural numbers. Negative offsets and signed/unsigned conversions are not modelled.
- Symbolic links: the program has no link node type and no symlink handler, so the model has none either.
- Link counts of files: a file keeps the 0 that create_file_with_perm gives it. Adding a file does not raise the file's own count; only the parent's count goes up.
- Aliasing: test.txt's buffer is the global `testText`, but the arena stores a copy of it. `MemoryFs.FsTree.GenerateTree` ensures the copy equals the buffer when it returns, and no handler writes `testText`.
- No tree invariant: the arena invariant does not state that every node has exactly one parent or that there are no cycles. The methods that add nodes only ever attach a fresh node.

## Findings

| source | as written | input that shows it | evidently intended | confidence | as-written member | corrected member |
|---|---|---|---|---|---|---|
| main.c:189 | do_read copies `bytes_read` bytes from `data_ptr`, ignoring `offset` | a read of 5 bytes at offset 6 of /foo/baz/example ("Hello world\n") returns "Hello" | copy from `data_ptr + offset`, which returns "world" here; consecutive reads then reassemble the file | high; not executed | TreeExamples.ReadIgnoresOffset | Handlers.ReadAtOffset |
