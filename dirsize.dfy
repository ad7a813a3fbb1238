/**
 * `get_directory_size`: a top-down walk of a directory tree that sums file
 * sizes, pruning every subdirectory whose lower-cased name is in the
 * lower-cased exclusion list.
 */
module DirectorySize {
  import opened Wrappers
  import opened PyText

  /** A directory entry as the walk sees it. `size` is `None` when reading the
      file's size fails; an `Unlisted` directory is one whose listing fails,
      for which the walk silently yields nothing. */
  datatype Node =
    | File(name: string, size: Option<nat>)
    | Dir(name: string, entries: seq<Node>)
    | Unlisted(name: string)

  /** What one entry of a directory listing adds to the total. */
  function EntrySize(e: Node, lowered: seq<string>): nat
    decreases e, 1
  {
    match e
    case File(_, size) => size.GetOr(0)
    case Dir(name, _) => if Lower(name) in lowered then 0 else WalkSize(e, lowered)
    case Unlisted(_) => 0
  }

  /** The sum over a directory's listing. */
  function ListingSize(entries: seq<Node>, lowered: seq<string>): nat
    decreases entries
  {
    if entries == [] then 0
    else EntrySize(entries[0], lowered) + ListingSize(entries[1..], lowered)
  }

  /** Everything the walk counts below a directory it visits. The directory's
      own name is never checked: pruning applies to subdirectories only, so a
      root named like an excluded entry is still walked, and a root that is
      a file or cannot be listed yields nothing. */
  function WalkSize(root: Node, lowered: seq<string>): nat
    decreases root, 0
  {
    match root
    case Dir(_, entries) => ListingSize(entries, lowered)
    case _ => 0
  }

  // ---------------------------------------------------------------------
  // Reference definition: the files of the tree with their directory path.

  /** A file found by the walk: the names of the directories between the root
      and the file, and its size if it can be read. */
  datatype FileRecord = FileRecord(dirs: seq<string>, size: Option<nat>)

  function FilesOfEntry(e: Node): seq<FileRecord>
    decreases e, 1
  {
    match e
    case File(_, size) => [FileRecord([], size)]
    case Dir(name, _) => Under(name, FilesBelow(e))
    case Unlisted(_) => []
  }

  function FilesOfListing(entries: seq<Node>): seq<FileRecord>
    decreases entries
  {
    if entries == [] then [] else FilesOfEntry(entries[0]) + FilesOfListing(entries[1..])
  }

  /** Every file visible below `root`, paths relative to it. */
  function FilesBelow(root: Node): seq<FileRecord>
    decreases root, 0
  {
    match root
    case Dir(_, entries) => FilesOfListing(entries)
    case _ => []
  }

  function Under(name: string, files: seq<FileRecord>): (r: seq<FileRecord>)
    ensures |r| == |files|
    ensures forall k :: 0 <= k < |files| ==> r[k] == FileRecord([name] + files[k].dirs, files[k].size)
  {
    if files == [] then []
    else [FileRecord([name] + files[0].dirs, files[0].size)] + Under(name, files[1..])
  }

  /** A file lies under a pruned directory when one of the directories on its
      path has a lower-cased name in the list. */
  predicate Pruned(dirs: seq<string>, lowered: seq<string>) {
    exists k :: 0 <= k < |dirs| && Lower(dirs[k]) in lowered
  }

  /** The sum of the readable sizes of the files that are not pruned. */
  function KeptSize(files: seq<FileRecord>, lowered: seq<string>): nat {
    if files == [] then 0
    else
      (if Pruned(files[0].dirs, lowered) then 0 else files[0].size.GetOr(0))
      + KeptSize(files[1..], lowered)
  }

  /** The sum of the readable sizes of all files. */
  function TotalSize(files: seq<FileRecord>): nat {
    if files == [] then 0 else files[0].size.GetOr(0) + TotalSize(files[1..])
  }

  lemma {:induction false} KeptSizeAppend(a: seq<FileRecord>, b: seq<FileRecord>, lowered: seq<string>)
    ensures KeptSize(a + b, lowered) == KeptSize(a, lowered) + KeptSize(b, lowered)
  {
    if a != [] {
      KeptSizeAppend(a[1..], b, lowered);
      assert (a + b)[0] == a[0];
      assert (a + b)[1..] == a[1..] + b;
    } else {
      assert a + b == b;
    }
  }

  lemma {:induction false} KeptSizeUnder(name: string, files: seq<FileRecord>, lowered: seq<string>)
    ensures KeptSize(Under(name, files), lowered)
         == if Lower(name) in lowered then 0 else KeptSize(files, lowered)
  {
    if files != [] {
      KeptSizeUnder(name, files[1..], lowered);
      var d := [name] + files[0].dirs;
      assert Under(name, files)[1..] == Under(name, files[1..]);
      assert Pruned(d, lowered) <==> Lower(name) in lowered || Pruned(files[0].dirs, lowered) by {
        if Pruned(files[0].dirs, lowered) {
          var k :| 0 <= k < |files[0].dirs| && Lower(files[0].dirs[k]) in lowered;
          assert d[k + 1] == files[0].dirs[k];
        }
        if Pruned(d, lowered) && Lower(name) !in lowered {
          var k :| 0 <= k < |d| && Lower(d[k]) in lowered;
          assert k > 0 && d[k] == files[0].dirs[k - 1];
        }
        if Lower(name) in lowered { assert d[0] == name; }
      }
    }
  }

  /** The walk counts exactly the readable files that do not lie under a pruned
      directory. */
  lemma {:induction false} WalkSizeIsKeptSize(root: Node, lowered: seq<string>)
    ensures WalkSize(root, lowered) == KeptSize(FilesBelow(root), lowered)
    decreases root, 0
  {
    match root
    case Dir(_, entries) => ListingIsKeptSize(entries, lowered);
    case _ =>
  }

  lemma {:induction false} ListingIsKeptSize(entries: seq<Node>, lowered: seq<string>)
    ensures ListingSize(entries, lowered) == KeptSize(FilesOfListing(entries), lowered)
    decreases entries
  {
    if entries != [] {
      var e := entries[0];
      ListingIsKeptSize(entries[1..], lowered);
      KeptSizeAppend(FilesOfEntry(e), FilesOfListing(entries[1..]), lowered);
      match e
      case File(_, size) =>
        assert !Pruned([], lowered);
      case Dir(name, _) =>
        WalkSizeIsKeptSize(e, lowered);
        KeptSizeUnder(name, FilesBelow(e), lowered);
      case Unlisted(_) =>
    }
  }

  lemma {:induction false} KeptSizeNoExclusions(files: seq<FileRecord>)
    ensures KeptSize(files, []) == TotalSize(files)
  {
    if files != [] {
      KeptSizeNoExclusions(files[1..]);
    }
  }

  /** With no exclusion list the walk finds the size of every readable file. */
  lemma NoExclusionsCountsEverything(root: Node)
    ensures WalkSize(root, LowerAll([])) == TotalSize(FilesBelow(root))
  {
    WalkSizeIsKeptSize(root, []);
    KeptSizeNoExclusions(FilesBelow(root));
  }

  lemma {:induction false} KeptSizeMonotone(files: seq<FileRecord>, fewer: seq<string>, more: seq<string>)
    requires forall n :: n in fewer ==> n in more
    ensures KeptSize(files, more) <= KeptSize(files, fewer) <= TotalSize(files)
  {
    if files != [] {
      KeptSizeMonotone(files[1..], fewer, more);
    }
  }

  /** Excluding more names never makes the total larger, and the total never
      exceeds the size of all readable files. */
  lemma MoreExclusionsShrink(root: Node, fewer: seq<string>, more: seq<string>)
    requires forall n :: n in fewer ==> n in more
    ensures WalkSize(root, LowerAll(more)) <= WalkSize(root, LowerAll(fewer)) <= TotalSize(FilesBelow(root))
  {
    forall n | n in LowerAll(fewer) ensures n in LowerAll(more) {
      var k :| 0 <= k < |fewer| && LowerAll(fewer)[k] == n;
      InLowerAll(fewer[k], more);
    }
    WalkSizeIsKeptSize(root, LowerAll(fewer));
    WalkSizeIsKeptSize(root, LowerAll(more));
    KeptSizeMonotone(FilesBelow(root), LowerAll(fewer), LowerAll(more));
  }

  // ---------------------------------------------------------------------
  // Case-insensitivity.

  /** Two trees with the same shape and file sizes whose directory names agree
      ignoring case. */
  predicate SameUpToCase(a: Node, b: Node)
    decreases a, 0
  {
    match a
    case File(_, sa) => b.File? && b.size == sa
    case Dir(na, ea) => b.Dir? && Lower(b.name) == Lower(na) && SameListingsUpToCase(ea, b.entries)
    case Unlisted(na) => b.Unlisted? && Lower(b.name) == Lower(na)
  }

  predicate SameListingsUpToCase(a: seq<Node>, b: seq<Node>)
    decreases a
  {
    |a| == |b| && (a != [] ==> SameUpToCase(a[0], b[0]) && SameListingsUpToCase(a[1..], b[1..]))
  }

  /** Renaming directories to another letter case does not change the total. */
  lemma {:induction false} CaseVariantSameSize(a: Node, b: Node, lowered: seq<string>)
    requires SameUpToCase(a, b)
    ensures WalkSize(a, lowered) == WalkSize(b, lowered)
    decreases a, 0
  {
    match a
    case Dir(_, ea) => CaseVariantListings(ea, b.entries, lowered);
    case _ =>
  }

  lemma {:induction false} CaseVariantListings(a: seq<Node>, b: seq<Node>, lowered: seq<string>)
    requires SameListingsUpToCase(a, b)
    ensures ListingSize(a, lowered) == ListingSize(b, lowered)
    decreases a
  {
    if a != [] {
      CaseVariantListings(a[1..], b[1..], lowered);
      if a[0].Dir? {
        CaseVariantSameSize(a[0], b[0], lowered);
      }
    }
  }

  // ---------------------------------------------------------------------
  // Exclusion matches one path component only.

  /** No directory name in the tree holds a path separator, as on a real file
      system. */
  predicate PlainNames(root: Node)
    decreases root, 0
  {
    match root
    case File(_, _) => true
    case Dir(name, entries) => '\\' !in name && PlainListing(entries)
    case Unlisted(name) => '\\' !in name
  }

  predicate PlainListing(entries: seq<Node>)
    decreases entries
  {
    entries != [] ==> PlainNames(entries[0]) && PlainListing(entries[1..])
  }

  lemma {:induction false} SeparatorEntryIgnoredWalk(root: Node, lowered: seq<string>, entry: string)
    requires PlainNames(root) && '\\' in entry
    ensures WalkSize(root, lowered + [Lower(entry)]) == WalkSize(root, lowered)
    decreases root, 0
  {
    match root
    case Dir(_, entries) => SeparatorEntryIgnoredListing(entries, lowered, entry);
    case _ =>
  }

  lemma {:induction false} SeparatorEntryIgnoredListing(entries: seq<Node>, lowered: seq<string>, entry: string)
    requires PlainListing(entries) && '\\' in entry
    ensures ListingSize(entries, lowered + [Lower(entry)]) == ListingSize(entries, lowered)
    decreases entries
  {
    if entries != [] {
      SeparatorEntryIgnoredListing(entries[1..], lowered, entry);
      var e := entries[0];
      if e.Dir? {
        SeparatorEntryIgnoredWalk(e, lowered, entry);
        LowerKeepsSeparators(e.name, '\\');
        LowerKeepsSeparators(entry, '\\');
        assert Lower(e.name) != Lower(entry);
      }
    }
  }

  /** An exclusion entry that spans several path components, such as
      `scripts\source`, never prunes anything. */
  lemma SeparatorEntryNeverPrunes(root: Node, excluded: seq<string>, entry: string)
    requires PlainNames(root) && '\\' in entry
    ensures WalkSize(root, LowerAll(excluded + [entry])) == WalkSize(root, LowerAll(excluded))
  {
    assert LowerAll(excluded + [entry]) == LowerAll(excluded) + [Lower(entry)];
    SeparatorEntryIgnoredWalk(root, LowerAll(excluded), entry);
  }

  // ---------------------------------------------------------------------
  // The walk as `get_directory_size` runs it.

  /** Number of nodes, the walk's termination measure. */
  function NodeCount(n: Node): nat
    decreases n, 0
  {
    match n
    case Dir(_, entries) => 1 + ListingCount(entries)
    case _ => 1
  }

  function ListingCount(entries: seq<Node>): nat
    decreases entries
  {
    if entries == [] then 0 else NodeCount(entries[0]) + ListingCount(entries[1..])
  }

  /** What the directories still waiting to be visited will add. */
  function PendingSize(pending: seq<Node>, lowered: seq<string>): nat {
    if pending == [] then 0
    else PendingSize(pending[..|pending| - 1], lowered) + WalkSize(pending[|pending| - 1], lowered)
  }

  function PendingCount(pending: seq<Node>): nat {
    if pending == [] then 0
    else PendingCount(pending[..|pending| - 1]) + NodeCount(pending[|pending| - 1])
  }

  /** `get_directory_size(path, exclude_dirs)`: `os.walk` keeps a stack of the
      directories still to visit; at each directory the excluded names are
      removed from its subdirectories before the walk descends, and every
      file's size is added, a failed size read adding nothing. */
  method GetDirectorySize(root: Node, excludeDirs: Option<seq<string>>) returns (total: nat)
    ensures total == WalkSize(root, LowerAll(excludeDirs.GetOr([])))
  {
    var excluded := if excludeDirs.None? then [] else excludeDirs.value;
    var lowered := LowerAll(excluded);
    total := 0;
    var pending := [root];
    assert pending[..0] == [];
    while pending != []
      invariant total + PendingSize(pending, lowered) == WalkSize(root, lowered)
      decreases PendingCount(pending)
    {
      var dir := pending[|pending| - 1];
      pending := pending[..|pending| - 1];
      if dir.Dir? {
        total, pending := ScanDirectory(dir.entries, lowered, total, pending);
      }
    }
  }

  /** The readable sizes of the files of a listing, added up. */
  function FileSizes(entries: seq<Node>): nat {
    if entries == [] then 0
    else
      FileSizes(entries[..|entries| - 1])
      + (match entries[|entries| - 1] case File(_, size) => size.GetOr(0) case _ => 0)
  }

  /** The subdirectories of a listing whose lower-cased name is not excluded,
      in listing order. */
  function KeptDirs(entries: seq<Node>, lowered: seq<string>): seq<Node> {
    if entries == [] then []
    else
      var last := entries[|entries| - 1];
      KeptDirs(entries[..|entries| - 1], lowered)
      + (if last.Dir? && Lower(last.name) !in lowered then [last] else [])
  }

  /** One step of the walk at a listed directory: the size of each file is
      added to the running total, and each subdirectory whose lower-cased
      name is not excluded is pushed to be visited later. */
  method ScanDirectory(entries: seq<Node>, lowered: seq<string>, total0: nat, pending0: seq<Node>)
    returns (total: nat, pending: seq<Node>)
    ensures total + PendingSize(pending, lowered) == total0 + PendingSize(pending0, lowered) + ListingSize(entries, lowered)
    ensures PendingCount(pending) <= PendingCount(pending0) + ListingCount(entries)
    ensures total == total0 + FileSizes(entries)
    ensures pending == pending0 + KeptDirs(entries, lowered)
  {
    total, pending := total0, pending0;
    var i := 0;
    while i < |entries|
      invariant 0 <= i <= |entries|
      invariant total + PendingSize(pending, lowered) + ListingSize(entries[i..], lowered)
             == total0 + PendingSize(pending0, lowered) + ListingSize(entries, lowered)
      invariant PendingCount(pending) + ListingCount(entries[i..]) <= PendingCount(pending0) + ListingCount(entries)
      invariant total == total0 + FileSizes(entries[..i])
      invariant pending == pending0 + KeptDirs(entries[..i], lowered)
    {
      var e := entries[i];
      assert entries[i..][1..] == entries[i + 1..];
      assert entries[..i + 1][..i] == entries[..i];
      match e {
        case File(_, size) =>
          if size.Some? {
            total := total + size.value;
          }
        case Dir(name, _) =>
          if Lower(name) !in lowered {
            ghost var was := pending;
            pending := pending + [e];
            assert pending[..|pending| - 1] == was;
          }
        case Unlisted(_) =>
      }
      i := i + 1;
    }
    assert entries[..i] == entries;
  }
}
