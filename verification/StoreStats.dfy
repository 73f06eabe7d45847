/** Counting what is under `objects/`: a walk over a directory tree of any depth with an explicit stack. */
module StoreStats {
  /** A directory entry; one that is not a directory is a regular file. */
  datatype Entry = File(name: string, size: nat) | Folder(name: string, entries: seq<Entry>)

  // ----- what is there, by recursion over the tree -----

  function FilesIn(entries: seq<Entry>): multiset<Entry> {
    if entries == [] then multiset{}
    else
      (match entries[0]
       case File(_, _) => multiset{entries[0]}
       case Folder(_, inner) => FilesIn(inner)) + FilesIn(entries[1..])
  }

  function BytesIn(entries: seq<Entry>): nat {
    if entries == [] then 0
    else
      (match entries[0]
       case File(_, size) => size
       case Folder(_, inner) => BytesIn(inner)) + BytesIn(entries[1..])
  }

  /** How many entries a walk has still to look at. */
  function Weight(entries: seq<Entry>): nat {
    if entries == [] then 0
    else 1 + (if entries[0].Folder? then 1 + Weight(entries[0].entries) else 0) + Weight(entries[1..])
  }

  /** What the directories on the stack hold. */
  function StackFiles(stack: seq<seq<Entry>>): multiset<Entry> {
    if stack == [] then multiset{} else StackFiles(stack[..|stack| - 1]) + FilesIn(stack[|stack| - 1])
  }

  function StackBytes(stack: seq<seq<Entry>>): nat {
    if stack == [] then 0 else StackBytes(stack[..|stack| - 1]) + BytesIn(stack[|stack| - 1])
  }

  function StackWeight(stack: seq<seq<Entry>>): nat {
    if stack == [] then 0 else StackWeight(stack[..|stack| - 1]) + 1 + Weight(stack[|stack| - 1])
  }

  lemma Pushed(stack: seq<seq<Entry>>, top: seq<Entry>)
    ensures StackFiles(stack + [top]) == StackFiles(stack) + FilesIn(top)
    ensures StackBytes(stack + [top]) == StackBytes(stack) + BytesIn(top)
    ensures StackWeight(stack + [top]) == StackWeight(stack) + 1 + Weight(top)
  {
    assert (stack + [top])[..|stack|] == stack;
  }

  function SizeOf(e: Entry): nat {
    match e
    case File(_, size) => size
    case Folder(_, _) => 0
  }

  function SizesOf(files: seq<Entry>): nat {
    if files == [] then 0 else SizesOf(files[..|files| - 1]) + SizeOf(files[|files| - 1])
  }

  lemma SizesSnoc(files: seq<Entry>, e: Entry)
    ensures SizesOf(files + [e]) == SizesOf(files) + SizeOf(e)
  {
    assert (files + [e])[..|files|] == files;
  }

  // ----- the walk -----

  /** What has been found, what is on the stack and what is left of the current directory make up the tree. */
  ghost predicate WalkInv(root: seq<Entry>, files: seq<Entry>, stack: seq<seq<Entry>>, current: seq<Entry>,
                          weight: nat)
  {
    && multiset(files) + (StackFiles(stack) + FilesIn(current)) == FilesIn(root)
    && SizesOf(files) + StackBytes(stack) + BytesIn(current) == BytesIn(root)
    && StackWeight(stack) + Weight(current) < weight
  }

  lemma StartWalk(root: seq<Entry>)
    ensures WalkInv(root, [], [root], [], 1 + StackWeight([root]))
  {
    assert [root][..0] == [];
  }

  lemma PopDirectory(root: seq<Entry>, files: seq<Entry>, stack: seq<seq<Entry>>, weight: nat)
    requires stack != [] && WalkInv(root, files, stack, [], weight)
    ensures WalkInv(root, files, stack[..|stack| - 1], stack[|stack| - 1], StackWeight(stack))
  {
  }

  lemma VisitFolder(root: seq<Entry>, files: seq<Entry>, stack: seq<seq<Entry>>, current: seq<Entry>, weight: nat)
    requires current != [] && current[0].Folder? && WalkInv(root, files, stack, current, weight)
    ensures WalkInv(root, files, stack + [current[0].entries], current[1..], weight)
  {
    hide StackFiles, StackBytes, StackWeight, SizesOf;
    Pushed(stack, current[0].entries);
    var a, b, c := StackFiles(stack), FilesIn(current[0].entries), FilesIn(current[1..]);
    assert a + (b + c) == (a + b) + c;
  }

  lemma VisitFile(root: seq<Entry>, files: seq<Entry>, stack: seq<seq<Entry>>, current: seq<Entry>, weight: nat)
    requires current != [] && current[0].File? && WalkInv(root, files, stack, current, weight)
    ensures WalkInv(root, files + [current[0]], stack, current[1..], weight)
  {
    hide StackFiles, StackBytes, StackWeight, SizesOf;
    SizesSnoc(files, current[0]);
    var a, b := StackFiles(stack), FilesIn(current[1..]);
    assert a + (multiset{current[0]} + b) == multiset{current[0]} + (a + b);
  }

  /** `walkdir_entries`: every file is found exactly once, whatever the shape of the tree. */
  method WalkdirEntries(root: seq<Entry>) returns (files: seq<Entry>)
    ensures multiset(files) == FilesIn(root)
    ensures SizesOf(files) == BytesIn(root)
  {
    files := [];
    var stack := [root];
    StartWalk(root);
    ghost var weight: nat := 1 + StackWeight(stack);
    while stack != []
      invariant WalkInv(root, files, stack, [], weight)
      decreases StackWeight(stack)
    {
      hide WalkInv, FilesIn, BytesIn, StackFiles, StackBytes, SizesOf;
      PopDirectory(root, files, stack, weight);
      weight := StackWeight(stack);
      var current := stack[|stack| - 1];
      stack := stack[..|stack| - 1];
      for i := 0 to |current|
        invariant WalkInv(root, files, stack, current[i..], weight)
      {
        assert current[i..][1..] == current[i + 1..];
        if current[i].Folder? {
          VisitFolder(root, files, stack, current[i..], weight);
          stack := stack + [current[i].entries];
        } else {
          VisitFile(root, files, stack, current[i..], weight);
          files := files + [current[i]];
        }
      }
      WalkLighter(root, files, stack, weight);
    }
  }

  lemma WalkLighter(root: seq<Entry>, files: seq<Entry>, stack: seq<seq<Entry>>, weight: nat)
    requires WalkInv(root, files, stack, [], weight)
    ensures StackWeight(stack) < weight
  {
  }

  /** `stats`: the number of files under `objects/` and their sizes, temporary files included. */
  method Stats(objects: seq<Entry>) returns (objectCount: nat, totalBytes: nat)
    ensures objectCount == |FilesIn(objects)|
    ensures totalBytes == BytesIn(objects)
  {
    var files := WalkdirEntries(objects);
    objectCount, totalBytes := 0, 0;
    for i := 0 to |files|
      invariant objectCount == i && totalBytes == SizesOf(files[..i])
    {
      assert files[..i + 1] == files[..i] + [files[i]];
      SizesSnoc(files[..i], files[i]);
      objectCount := objectCount + 1;
      totalBytes := totalBytes + SizeOf(files[i]);
    }
    assert files[..|files|] == files;
  }
}
