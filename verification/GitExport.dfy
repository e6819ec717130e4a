/** Selecting what a git tree contributes to an archive: the record loop of
    `archive_subtree`, with `.gitattributes export-ignore` honoured for files and for whole
    directories. The attribute engine, the object database and UTF-8 validation are
    parameters; `None` is their failure. */
module GitExport {
  import opened Multisets
  import opened Options
  import opened PathOrder
  import EntryPath
  import opened ZipArchive
  import ZipReader

  datatype Kind = Blob | BlobExecutable | Link | Tree | Commit

  datatype Record = Record(path: Bytes, kind: Kind, oid: nat)

  datatype Error = Attributes | NonUtf8Path | FindObject

  datatype Outcome = Archived(entries: seq<Entry>) | Failed(error: Error)

  /** The repository the records were taken from. */
  datatype Repo = Repo(exportIgnored: (Bytes, Kind) -> Option<bool>, content: nat -> Option<Bytes>, utf8: Bytes -> bool)

  predicate Ignored(repo: Repo, r: Record) {
    repo.exportIgnored(r.path, r.kind) == Some(true)
  }

  predicate IsAncestor(dir: Bytes, path: Bytes) {
    |dir| < |path| && path[..|dir|] == dir && path[|dir|] == EntryPath.SLASH
  }

  method HasIgnoredAncestor(path: Bytes, ignored: set<Bytes>) returns (found: bool)
    ensures found <==> exists d :: d in ignored && IsAncestor(d, path)
  {
    if ignored == {} { return false; }
    for i := 0 to |path|
      invariant forall d :: d in ignored && |d| < i ==> !IsAncestor(d, path)
    {
      if path[i] == EntryPath.SLASH && path[..i] in ignored {
        assert IsAncestor(path[..i], path);
        return true;
      }
    }
    return false;
  }

  function ModeOf(kind: Kind): Mode
    requires kind.Blob? || kind.BlobExecutable? || kind.Link?
  {
    match kind
    case Blob => File
    case BlobExecutable => Executable
    case Link => Symlink
  }

  predicate HasContent(r: Record) { r.kind.Blob? || r.kind.BlobExecutable? || r.kind.Link? }

  /** An export-ignored directory among `records` contains `path`. */
  predicate Hidden(repo: Repo, records: seq<Record>, path: Bytes) {
    exists i :: 0 <= i < |records| && records[i].kind.Tree? && Ignored(repo, records[i])
      && IsAncestor(records[i].path, path)
  }

  /** The outcome `git archive` documents for one record of the whole tree. */
  predicate Selected(repo: Repo, records: seq<Record>, r: Record) {
    HasContent(r) && !Ignored(repo, r) && !Hidden(repo, records, r.path)
  }

  function Content(repo: Repo, r: Record): Bytes {
    match repo.content(r.oid)
    case Some(c) => c
    case None => []
  }

  function EntryOf(repo: Repo, r: Record): Entry
    requires HasContent(r)
  {
    Entry(EntryPath.Normalize(r.path), ModeOf(r.kind), Content(repo, r))
  }

  /** The entries of those records that are selected when `tree` is the whole tree. */
  function Entries(repo: Repo, tree: seq<Record>, records: seq<Record>): seq<Entry>
    decreases |records|
  {
    if records == [] then []
    else
      var last := records[|records| - 1];
      Entries(repo, tree, records[..|records| - 1]) + (if Selected(repo, tree, last) then [EntryOf(repo, last)] else [])
  }

  /** Breadth-first order: a directory's record comes before the records of its contents. */
  ghost predicate DirectoriesFirst(records: seq<Record>) {
    forall i, j :: 0 <= i < |records| && 0 <= j < |records| ==>
      (records[i].kind.Tree? && IsAncestor(records[i].path, records[j].path) ==> i < j)
  }

  /** What the loop makes of the first `n` records: it knows only the directories seen so far. */
  function Walked(repo: Repo, records: seq<Record>, n: nat): seq<Entry>
    requires n <= |records|
    decreases n
  {
    if n == 0 then []
    else
      Walked(repo, records, n - 1)
      + (if Selected(repo, records[..n], records[n - 1]) then [EntryOf(repo, records[n - 1])] else [])
  }

  /** Why the last record of `seen` makes the loop fail. */
  function Failure(repo: Repo, seen: seq<Record>): Option<Error>
    requires seen != []
  {
    var r := seen[|seen| - 1];
    if repo.exportIgnored(r.path, r.kind).None? then Some(Attributes)
    else if !Selected(repo, seen, r) then None
    else if !repo.utf8(r.path) then Some(NonUtf8Path)
    else if repo.content(r.oid).None? then Some(FindObject)
    else None
  }

  /** The first failure among the first `n` records. */
  function FirstFailure(repo: Repo, records: seq<Record>, n: nat): Option<Error>
    requires n <= |records|
    decreases n
  {
    if n == 0 then None
    else match FirstFailure(repo, records, n - 1)
      case Some(e) => Some(e)
      case None => Failure(repo, records[..n])
  }

  lemma {:induction false} FailureSticks(repo: Repo, records: seq<Record>, m: nat, n: nat)
    requires m <= n <= |records| && FirstFailure(repo, records, m).Some?
    ensures FirstFailure(repo, records, n) == FirstFailure(repo, records, m)
    decreases n
  {
    if m == n {
    } else {
      FailureSticks(repo, records, m, n - 1);
    }
  }

  ghost function Expected(repo: Repo, records: seq<Record>): Outcome {
    match FirstFailure(repo, records, |records|)
    case Some(e) => Failed(e)
    case None => Archived(Walked(repo, records, |records|))
  }

  ghost predicate SeenIgnored(repo: Repo, records: seq<Record>, n: nat, dirs: set<Bytes>)
    requires n <= |records|
  {
    forall d :: d in dirs <==>
      exists i :: 0 <= i < n && records[i].kind.Tree? && Ignored(repo, records[i]) && records[i].path == d
  }

  /** The record loop. */
  method ArchiveRecords(repo: Repo, records: seq<Record>) returns (out: Outcome)
    ensures out == Expected(repo, records)
  {
    var ignoredDirs: set<Bytes> := {};
    var archive: seq<Entry> := [];
    for n := 0 to |records|
      invariant FirstFailure(repo, records, n) == None && archive == Walked(repo, records, n)
      invariant SeenIgnored(repo, records, n, ignoredDirs)
    {
      var record := records[n];
      FailsAt(repo, records, n, ignoredDirs);
      SeenStep(repo, records, n, ignoredDirs);
      hide Selected, Hidden, SeenIgnored, IsAncestor;
      var ignored := repo.exportIgnored(record.path, record.kind);
      if ignored.None? { return Failed(Attributes); }
      if record.kind.Tree? {
        if ignored.value { ignoredDirs := ignoredDirs + {record.path}; }
        continue;
      }
      if record.kind.Commit? { continue; }
      var hidden := HasIgnoredAncestor(record.path, ignoredDirs);
      if ignored.value || hidden { continue; }
      if !repo.utf8(record.path) { return Failed(NonUtf8Path); }
      var data := repo.content(record.oid);
      if data.None? { return Failed(FindObject); }
      archive := archive + [Entry(EntryPath.Normalize(record.path), ModeOf(record.kind), data.value)];
    }
    out := Archived(archive);
  }

  lemma SeenStep(repo: Repo, records: seq<Record>, n: nat, dirs: set<Bytes>)
    requires n < |records| && SeenIgnored(repo, records, n, dirs)
    ensures SeenIgnored(repo, records, n + 1,
                        if records[n].kind.Tree? && Ignored(repo, records[n]) then dirs + {records[n].path} else dirs)
  {
  }

  lemma FailsAt(repo: Repo, records: seq<Record>, n: nat, dirs: set<Bytes>)
    requires n < |records| && FirstFailure(repo, records, n) == None && SeenIgnored(repo, records, n, dirs)
    ensures Selected(repo, records[..n + 1], records[n]) <==>
            HasContent(records[n]) && !Ignored(repo, records[n]) &&
              !exists d :: d in dirs && IsAncestor(d, records[n].path)
    ensures Failure(repo, records[..n + 1]).Some? ==>
            FirstFailure(repo, records, |records|) == Failure(repo, records[..n + 1])
  {
    hide Failure, IsAncestor, SeenIgnored;
    if HasContent(records[n]) { HiddenBySeen(repo, records, n, dirs); }
    hide Selected, Hidden;
    if FirstFailure(repo, records, n + 1).Some? { FailureSticks(repo, records, n + 1, |records|); }
  }

  lemma HiddenBySeen(repo: Repo, records: seq<Record>, n: nat, dirs: set<Bytes>)
    requires n < |records| && !records[n].kind.Tree?
    requires SeenIgnored(repo, records, n, dirs)
    ensures Hidden(repo, records[..n + 1], records[n].path) <==> exists d :: d in dirs && IsAncestor(d, records[n].path)
  {
    var seen := records[..n + 1];
    if Hidden(repo, seen, records[n].path) {
      var i :| 0 <= i < |seen| && seen[i].kind.Tree? && Ignored(repo, seen[i])
        && IsAncestor(seen[i].path, records[n].path);
      assert records[i].path in dirs;
    }
    if exists d :: d in dirs && IsAncestor(d, records[n].path) {
      var d :| d in dirs && IsAncestor(d, records[n].path);
      var i :| 0 <= i < n && records[i].kind.Tree? && Ignored(repo, records[i]) && records[i].path == d;
      assert seen[i] == records[i];
    }
  }

  // ----- the selection depends on the tree alone -----

  lemma SelectedBySeenIsSelected(repo: Repo, records: seq<Record>, i: nat)
    requires i < |records| && DirectoriesFirst(records)
    ensures Selected(repo, records[..i + 1], records[i]) <==> Selected(repo, records, records[i])
  {
    var seen := records[..i + 1];
    if Hidden(repo, records, records[i].path) {
      var k :| 0 <= k < |records| && records[k].kind.Tree? && Ignored(repo, records[k])
               && IsAncestor(records[k].path, records[i].path);
      assert k < i && seen[k] == records[k];
    }
    if Hidden(repo, seen, records[i].path) {
      var k :| 0 <= k < |seen| && seen[k].kind.Tree? && Ignored(repo, seen[k])
        && IsAncestor(seen[k].path, records[i].path);
      assert records[k] == seen[k];
    }
  }

  /** Selection is exact: the loop archives precisely the files and links that are not
      ignored and lie in no ignored directory of the tree. */
  lemma {:induction false} SelectionIsExact(repo: Repo, records: seq<Record>, n: nat)
    requires n <= |records| && DirectoriesFirst(records)
    ensures Walked(repo, records, n) == Entries(repo, records, records[..n])
    decreases n
  {
    hide Selected, DirectoriesFirst, EntryOf;
    if n == 0 {
      assert records[..0] == [];
    } else {
      SelectionIsExact(repo, records, n - 1);
      SelectedBySeenIsSelected(repo, records, n - 1);
      assert records[..n][..n - 1] == records[..n - 1];
    }
  }

  /** `git archive`'s rule for a record of a tree, spelled out: a file or link that is not
      export-ignored, with no export-ignored directory above it. */
  ghost predicate Exported(repo: Repo, tree: seq<Record>, r: Record) {
    && (r.kind.Blob? || r.kind.BlobExecutable? || r.kind.Link?)
    && repo.exportIgnored(r.path, r.kind) != Some(true)
    && !exists d :: d in tree && d.kind == Tree && repo.exportIgnored(d.path, Tree) == Some(true)
                    && d.path + [0x2F] <= r.path
  }

  lemma AncestorIsPrefix(dir: Bytes, path: Bytes)
    ensures IsAncestor(dir, path) <==> dir + [0x2F] <= path
  {
    if IsAncestor(dir, path) {
      assert path[..|dir| + 1] == path[..|dir|] + [path[|dir|]];
    }
  }

  lemma SelectedIsExported(repo: Repo, tree: seq<Record>, r: Record)
    ensures Selected(repo, tree, r) <==> Exported(repo, tree, r)
  {
    forall d: Record ensures IsAncestor(d.path, r.path) <==> d.path + [0x2F] <= r.path {
      AncestorIsPrefix(d.path, r.path);
    }
    if Hidden(repo, tree, r.path) {
      var i :| 0 <= i < |tree| && tree[i].kind.Tree? && Ignored(repo, tree[i]) && IsAncestor(tree[i].path, r.path);
      assert tree[i] in tree;
    }
    hide IsAncestor;
  }

  lemma {:induction false} EntriesConcat(repo: Repo, tree: seq<Record>, a: seq<Record>, b: seq<Record>)
    ensures Entries(repo, tree, a + b) == Entries(repo, tree, a) + Entries(repo, tree, b)
    decreases |b|
  {
    hide Selected;
    if b == [] {
      assert a + b == a;
    } else {
      assert (a + b)[..|a + b| - 1] == a + b[..|b| - 1];
      EntriesConcat(repo, tree, a, b[..|b| - 1]);
    }
  }

  lemma {:induction false} EntriesOfPermutation(repo: Repo, tree: seq<Record>, a: seq<Record>, b: seq<Record>)
    requires multiset(a) == multiset(b)
    ensures multiset(Entries(repo, tree, a)) == multiset(Entries(repo, tree, b))
    decreases |a|
  {
    hide Selected;
    SameElements(a, b);
    if a == [] {
    } else {
      var init, x := a[..|a| - 1], a[|a| - 1];
      DropLast(a);
      var u, v := TakeOut(b, x);
      EntriesOfPermutation(repo, tree, init, u + v);
      EntriesConcat(repo, tree, u, [x] + v);
      EntriesConcat(repo, tree, [x], v);
      EntriesConcat(repo, tree, u, v);
      EntriesConcat(repo, tree, init, [x]);
    }
  }

  lemma {:induction false} EntriesOfSameTree(repo: Repo, a: seq<Record>, b: seq<Record>, records: seq<Record>)
    requires multiset(a) == multiset(b)
    ensures Entries(repo, a, records) == Entries(repo, b, records)
    decreases |records|
  {
    if records == [] {
    } else {
      EntriesOfSameTree(repo, a, b, records[..|records| - 1]);
      var path := records[|records| - 1].path;
      hide Hidden;
      if Hidden(repo, a, path) { HiddenInSameTree(repo, a, b, path); }
      if Hidden(repo, b, path) { HiddenInSameTree(repo, b, a, path); }
    }
  }

  lemma HiddenInSameTree(repo: Repo, a: seq<Record>, b: seq<Record>, path: Bytes)
    requires multiset(a) == multiset(b) && Hidden(repo, a, path)
    ensures Hidden(repo, b, path)
  {
    SameElements(a, b);
    var i :| 0 <= i < |a| && a[i].kind.Tree? && Ignored(repo, a[i]) && IsAncestor(a[i].path, path);
    assert a[i] in b;
    var k :| 0 <= k < |b| && b[k] == a[i];
  }

  /** Git trees name every path once, and paths are relative and normalised; so this holds of
      every tree with no backslash in a name. */
  ghost predicate CleanTree(records: seq<Record>) {
    && (forall i, j :: 0 <= i < |records| && 0 <= j < |records| && records[i].path == records[j].path ==> i == j)
    && (forall i :: 0 <= i < |records| ==> EntryPath.Plain(records[i].path))
  }

  lemma {:induction false} EntriesComeFromRecords(repo: Repo, tree: seq<Record>, records: seq<Record>,
          e: Entry) returns (i: nat)
    requires e in Entries(repo, tree, records)
    ensures i < |records| && Selected(repo, tree, records[i]) && e == EntryOf(repo, records[i])
    decreases |records|
  {
    hide Hidden, Ignored, EntryPath.Normalize, Content;
    var n := |records| - 1;
    if Selected(repo, tree, records[n]) && e == EntryOf(repo, records[n]) {
      i := n;
    } else {
      i := EntriesComeFromRecords(repo, tree, records[..n], e);
    }
  }

  lemma CleanTreeIsConsistent(repo: Repo, records: seq<Record>)
    requires CleanTree(records)
    ensures Consistent(PathOf, Entries(repo, records, records))
  {
    hide Entries, EntryPath.Normalize, EntryPath.Plain, Content;
    var es := Entries(repo, records, records);
    forall x, y | x in es && y in es && PathOf(x) == PathOf(y) ensures x == y {
      var i := EntriesComeFromRecords(repo, records, records, x);
      var j := EntriesComeFromRecords(repo, records, records, y);
      EntryPath.NormalizeKeepsIffPlain(records[i].path);
      EntryPath.NormalizeKeepsIffPlain(records[j].path);
    }
  }

  /** A record on which the loop fails, judged by the whole tree. */
  predicate Breaks(repo: Repo, tree: seq<Record>, r: Record) {
    || repo.exportIgnored(r.path, r.kind).None?
    || (Selected(repo, tree, r) && (!repo.utf8(r.path) || repo.content(r.oid).None?))
  }

  lemma FailureBreaks(repo: Repo, records: seq<Record>, n: nat)
    requires n < |records| && DirectoriesFirst(records)
    ensures Failure(repo, records[..n + 1]).Some? <==> Breaks(repo, records, records[n])
  {
    SelectedBySeenIsSelected(repo, records, n);
    hide Selected, DirectoriesFirst;
    assert records[..n + 1][|records[..n + 1]| - 1] == records[n];
  }

  lemma {:induction false} FailsIff(repo: Repo, records: seq<Record>, n: nat)
    requires n <= |records| && DirectoriesFirst(records)
    ensures FirstFailure(repo, records, n).Some? <==> exists i :: 0 <= i < n && Breaks(repo, records, records[i])
    decreases n
  {
    hide Failure, Breaks, DirectoriesFirst;
    if n == 0 {
    } else {
      FailsIff(repo, records, n - 1);
      FailureBreaks(repo, records, n - 1);
    }
  }

  lemma BreaksInSameTree(repo: Repo, a: seq<Record>, b: seq<Record>, r: Record)
    requires multiset(a) == multiset(b) && Breaks(repo, a, r)
    ensures Breaks(repo, b, r)
  {
    hide Hidden;
    if Hidden(repo, b, r.path) { HiddenInSameTree(repo, b, a, r.path); }
  }

  lemma FailsAlike(repo: Repo, a: seq<Record>, b: seq<Record>)
    requires multiset(a) == multiset(b) && DirectoriesFirst(a) && DirectoriesFirst(b) && Expected(repo, a).Failed?
    ensures Expected(repo, b).Failed?
  {
    hide Breaks, DirectoriesFirst, FirstFailure, Walked;
    FailsIff(repo, a, |a|);
    FailsIff(repo, b, |b|);
    SameElements(a, b);
    var i :| 0 <= i < |a| && Breaks(repo, a, a[i]);
    assert a[i] in b;
    var k :| 0 <= k < |b| && b[k] == a[i];
    BreaksInSameTree(repo, a, b, a[i]);
  }

  // ----- what is archived -----

  /** The exported records among `records`, in their order. */
  ghost function ExportedOf(repo: Repo, tree: seq<Record>, records: seq<Record>): seq<Record>
    decreases |records|
  {
    if records == [] then []
    else
      var last := records[|records| - 1];
      ExportedOf(repo, tree, records[..|records| - 1]) + (if Exported(repo, tree, last) then [last] else [])
  }

  /** The record's path, normalised; its permissions; its content. */
  predicate Represents(repo: Repo, e: Entry, r: Record) {
    && e.path == EntryPath.Normalize(r.path) && repo.content(r.oid) == Some(e.content)
    && (r.kind == Blob ==> e.mode == File)
    && (r.kind == BlobExecutable ==> e.mode == Executable)
    && (r.kind == Link ==> e.mode == Symlink)
  }

  lemma {:induction false} EntriesRepresent(repo: Repo, tree: seq<Record>, records: seq<Record>)
    requires forall r :: r in records && Exported(repo, tree, r) ==> repo.content(r.oid).Some?
    ensures |Entries(repo, tree, records)| == |ExportedOf(repo, tree, records)|
    ensures forall i :: 0 <= i < |Entries(repo, tree, records)| ==>
              Represents(repo, Entries(repo, tree, records)[i], ExportedOf(repo, tree, records)[i])
    decreases |records|
  {
    hide Exported, Selected, EntryOf, Represents;
    if records == [] {
      assert Entries(repo, tree, []) == [];
    } else {
      var last := records[|records| - 1];
      EntriesRepresent(repo, tree, records[..|records| - 1]);
      SelectedIsExported(repo, tree, last);
      if Exported(repo, tree, last) { EntryRepresents(repo, tree, last); }
    }
  }

  lemma EntryRepresents(repo: Repo, tree: seq<Record>, r: Record)
    requires Selected(repo, tree, r) && repo.content(r.oid).Some?
    ensures Represents(repo, EntryOf(repo, r), r)
  {
    assert HasContent(r);
    hide Selected, EntryPath.Normalize;
  }

  lemma ExportedHaveContent(repo: Repo, records: seq<Record>)
    requires DirectoriesFirst(records) && Expected(repo, records).Archived?
    ensures forall r :: r in records && Exported(repo, records, r) ==> repo.content(r.oid).Some? && repo.utf8(r.path)
  {
    FailsIff(repo, records, |records|);
    hide Exported, Selected, DirectoriesFirst, FirstFailure;
    forall r | r in records && Exported(repo, records, r) ensures repo.content(r.oid).Some? && repo.utf8(r.path) {
      SelectedIsExported(repo, records, r);
      var i :| 0 <= i < |records| && records[i] == r;
      assert !Breaks(repo, records, records[i]);
    }
  }

  /** A tree that is archived becomes one entry per exported record, in the order of the records,
      each with that record's path, permissions and content. */
  lemma ArchivedExactly(repo: Repo, records: seq<Record>)
    requires DirectoriesFirst(records) && Expected(repo, records).Archived?
    ensures var entries, exported := Expected(repo, records).entries, ExportedOf(repo, records, records);
            && |entries| == |exported|
            && forall i :: 0 <= i < |entries| ==> Represents(repo, entries[i], exported[i])
  {
    hide Expected, Entries, ExportedOf, DirectoriesFirst, Exported, Represents;
    ArchivedEntries(repo, records, records);
    ExportedHaveContent(repo, records);
    EntriesRepresent(repo, records, records);
  }

  /** One breadth-first order fails exactly when the other does. When neither does and entries
      with the same path are the same entry, both serialise to the same bytes. */
  lemma SameTreeSameBytes(repo: Repo, a: seq<Record>, b: seq<Record>)
    requires multiset(a) == multiset(b) && DirectoriesFirst(a) && DirectoriesFirst(b)
    ensures Expected(repo, a).Failed? <==> Expected(repo, b).Failed?
    ensures Expected(repo, a).Archived? && Consistent(PathOf, Entries(repo, a, a)) ==>
              ZipReader.Serialized(Expected(repo, a).entries) == ZipReader.Serialized(Expected(repo, b).entries)
  {
    hide Expected, DirectoriesFirst, Consistent, ZipReader.Serialized;
    if Expected(repo, a).Failed? { FailsAlike(repo, a, b); }
    if Expected(repo, b).Failed? { FailsAlike(repo, b, a); }
    if Expected(repo, a).Archived? && Consistent(PathOf, Entries(repo, a, a)) { ArchivedAlike(repo, a, b); }
  }

  /** What was archived, as a matter of the whole tree. */
  lemma ArchivedEntries(repo: Repo, tree: seq<Record>, records: seq<Record>)
    requires multiset(tree) == multiset(records) && DirectoriesFirst(records) && Expected(repo, records).Archived?
    ensures Expected(repo, records).entries == Entries(repo, tree, records)
  {
    hide Selected, DirectoriesFirst;
    SelectionIsExact(repo, records, |records|);
    assert records[..|records|] == records;
    EntriesOfSameTree(repo, tree, records, records);
  }

  lemma ArchivedAlike(repo: Repo, a: seq<Record>, b: seq<Record>)
    requires multiset(a) == multiset(b) && DirectoriesFirst(a) && DirectoriesFirst(b)
    requires Expected(repo, a).Archived? && Expected(repo, b).Archived? && Consistent(PathOf, Entries(repo, a, a))
    ensures ZipReader.Serialized(Expected(repo, a).entries) == ZipReader.Serialized(Expected(repo, b).entries)
  {
    hide Expected, Entries, DirectoriesFirst, ZipReader.Serialized, Consistent;
    ArchivedEntries(repo, a, a);
    ArchivedEntries(repo, a, b);
    EntriesOfPermutation(repo, a, a, b);
    SerializedAlike(Entries(repo, a, a), Entries(repo, a, b));
  }

  // ----- and exactly then -----

  /** Every breadth-first order of the records is archived, to the same bytes. */
  ghost predicate OrderNeverShows(repo: Repo, a: seq<Record>)
    requires Expected(repo, a).Archived?
  {
    forall b :: multiset(b) == multiset(a) && DirectoriesFirst(b) ==>
      Expected(repo, b).Archived?
      && ZipReader.Serialized(Expected(repo, b).entries) == ZipReader.Serialized(Expected(repo, a).entries)
  }

  function Trees(records: seq<Record>): seq<Record>
    decreases |records|
  {
    if records == [] then []
    else Trees(records[..|records| - 1]) + (if records[|records| - 1].kind.Tree? then [records[|records| - 1]] else [])
  }

  function Leaves(records: seq<Record>): seq<Record>
    decreases |records|
  {
    if records == [] then []
    else Leaves(records[..|records| - 1]) + (if records[|records| - 1].kind.Tree? then [] else [records[|records| - 1]])
  }

  lemma {:induction false} TreesAre(records: seq<Record>)
    ensures forall r :: r in Trees(records) <==> r in records && r.kind.Tree?
    decreases |records|
  {
    if records == [] {
      assert Trees(records) == [];
    } else {
      TreesAre(records[..|records| - 1]);
      InSnoc(records);
    }
  }

  lemma {:induction false} LeavesAre(records: seq<Record>)
    ensures forall r :: r in Leaves(records) <==> r in records && !r.kind.Tree?
    decreases |records|
  {
    if records == [] {
      assert Leaves(records) == [];
    } else {
      LeavesAre(records[..|records| - 1]);
      InSnoc(records);
    }
  }

  lemma InSnoc<T>(s: seq<T>)
    requires s != []
    ensures forall x :: x in s <==> x in s[..|s| - 1] || x == s[|s| - 1]
  {
    assert s == s[..|s| - 1] + [s[|s| - 1]];
  }

  lemma {:induction false} TreesAndLeaves(records: seq<Record>)
    ensures multiset(Trees(records)) + multiset(Leaves(records)) == multiset(records)
    decreases |records|
  {
    if records == [] {
      assert Trees(records) == [] && Leaves(records) == [];
    } else {
      TreesAndLeaves(records[..|records| - 1]);
      DropLast(records);
    }
  }

  lemma {:induction false} TreesKeepOrder(records: seq<Record>)
    requires DirectoriesFirst(records)
    ensures DirectoriesFirst(Trees(records))
    decreases |records|
  {
    hide IsAncestor;
    if records == [] {
      assert Trees(records) == [];
    } else {
      var init, last := records[..|records| - 1], records[|records| - 1];
      assert DirectoriesFirst(init);
      TreesKeepOrder(init);
      TreesAre(init);
      if last.kind.Tree? { LastIsNoParent(records); }
      hide DirectoriesFirst;
      if last.kind.Tree? { DirectoryLast(Trees(init), last); } else { assert Trees(records) == Trees(init); }
    }
  }

  lemma LastIsNoParent(records: seq<Record>)
    requires records != [] && DirectoriesFirst(records) && records[|records| - 1].kind.Tree?
    ensures forall r :: r in records[..|records| - 1] ==> !IsAncestor(records[|records| - 1].path, r.path)
  {
    hide IsAncestor;
    var init, last := records[..|records| - 1], records[|records| - 1];
    forall r | r in init ensures !IsAncestor(last.path, r.path) {
      var i :| 0 <= i < |init| && init[i] == r;
      assert records[i] == r;
    }
  }

  lemma DirectoryLast(records: seq<Record>, last: Record)
    requires DirectoriesFirst(records) && forall r :: r in records ==> !IsAncestor(last.path, r.path)
    ensures DirectoriesFirst(records + [last])
  {
    NotOwnAncestor(last.path);
    hide IsAncestor;
    var all := records + [last];
    forall i, j | 0 <= i < |all| && 0 <= j < |all| && all[i].kind.Tree? && IsAncestor(all[i].path, all[j].path)
      ensures i < j
    {
      if j < |records| { assert all[j] == records[j] && records[j] in records; }
    }
  }

  lemma NotOwnAncestor(path: Bytes)
    ensures !IsAncestor(path, path)
  {
  }

  lemma TreesGoFirst(trees: seq<Record>, leaves: seq<Record>)
    requires DirectoriesFirst(trees) && forall r :: r in leaves ==> !r.kind.Tree?
    ensures DirectoriesFirst(trees + leaves)
  {
    hide IsAncestor;
    var all := trees + leaves;
    assert forall i :: |trees| <= i < |all| ==> all[i] == leaves[i - |trees|] && all[i] in leaves;
    assert forall i :: 0 <= i < |trees| ==> all[i] == trees[i];
  }

  lemma {:induction false} TreesHaveNoEntries(repo: Repo, tree: seq<Record>, trees: seq<Record>)
    requires forall r :: r in trees ==> r.kind.Tree?
    ensures Entries(repo, tree, trees) == []
    decreases |trees|
  {
    hide Hidden, Ignored;
    if trees == [] {
      assert Entries(repo, tree, []) == [];
    } else {
      assert trees[|trees| - 1] in trees;
      TreesHaveNoEntries(repo, tree, trees[..|trees| - 1]);
    }
  }

  lemma OneEntry(repo: Repo, tree: seq<Record>, r: Record)
    requires Selected(repo, tree, r)
    ensures Entries(repo, tree, [r]) == [EntryOf(repo, r)]
  {
    hide Selected, EntryOf;
    assert [r][..0] == [];
    assert Entries(repo, tree, []) == [];
  }

  lemma TwoEntries(repo: Repo, tree: seq<Record>, r: Record, q: Record)
    requires Selected(repo, tree, r) && Selected(repo, tree, q) && HasContent(r) && HasContent(q)
    ensures Entries(repo, tree, [r, q]) == [EntryOf(repo, r), EntryOf(repo, q)]
  {
    hide *;
    OneEntry(repo, tree, r);
    OneEntry(repo, tree, q);
    EntriesConcat(repo, tree, [r], [q]);
    assert [r] + [q] == [r, q];
  }

  /** Trees first, then two selected records, then the rest. */
  lemma PairFirst(repo: Repo, a: seq<Record>, trees: seq<Record>, r: Record, q: Record, rest: seq<Record>)
    requires DirectoriesFirst(trees) && (forall t :: t in trees ==> t.kind.Tree?)
             && (forall t :: t in rest ==> !t.kind.Tree?)
    requires Selected(repo, a, r) && Selected(repo, a, q)
    ensures DirectoriesFirst(trees + ([r, q] + rest))
    ensures Entries(repo, a, trees + ([r, q] + rest)) == [EntryOf(repo, r), EntryOf(repo, q)] + Entries(repo, a, rest)
  {
    assert HasContent(r) && HasContent(q) && !r.kind.Tree? && !q.kind.Tree?;
    hide *;
    TreesGoFirst(trees, [r, q] + rest);
    EntriesConcat(repo, a, trees, [r, q] + rest);
    TreesHaveNoEntries(repo, a, trees);
    EntriesConcat(repo, a, [r, q], rest);
    TwoEntries(repo, a, r, q);
  }

  lemma TwoOrders(a: seq<Record>, r: Record, q: Record) returns (trees: seq<Record>, rest: seq<Record>)
    requires DirectoriesFirst(a) && r in a && q in a && r != q && !r.kind.Tree? && !q.kind.Tree?
    ensures DirectoriesFirst(trees) && (forall t :: t in trees ==> t.kind.Tree?)
            && (forall t :: t in rest ==> !t.kind.Tree?)
    ensures multiset(trees + ([r, q] + rest)) == multiset(a) == multiset(trees + ([q, r] + rest))
  {
    TreesAndLeaves(a);
    TreesAre(a);
    LeavesAre(a);
    TreesKeepOrder(a);
    hide *;
    trees := Trees(a);
    rest := WithoutTwo(Leaves(a), r, q);
    LeftIn(Leaves(a), multiset{r, q}, rest);
  }

  lemma LeftIn<T>(s: seq<T>, taken: multiset<T>, rest: seq<T>)
    requires multiset(s) == taken + multiset(rest)
    ensures forall x :: x in rest ==> x in s
  {
    forall x | x in rest ensures x in s {
      assert x in multiset(rest);
      assert x in multiset(s);
    }
  }

  lemma DifferentOrdersShow(repo: Repo, a: seq<Record>, p: seq<Record>, q: seq<Record>, x: Entry, y: Entry,
                            rest: seq<Entry>)
    requires Expected(repo, a).Archived? && ZipReader.Serialized(Expected(repo, a).entries).Some?
             && OrderNeverShows(repo, a)
    requires multiset(p) == multiset(a) == multiset(q) && DirectoriesFirst(p) && DirectoriesFirst(q)
    requires Entries(repo, a, p) == [x, y] + rest && Entries(repo, a, q) == [y, x] + rest && PathOf(x) == PathOf(y)
    ensures x == y
  {
    hide Expected, Entries, DirectoriesFirst, ZipBytes, Fits, Sort;
    ArchivedEntries(repo, a, p);
    ArchivedEntries(repo, a, q);
    assert ZipReader.Serialized([x, y] + rest) == ZipReader.Serialized([y, x] + rest);
    ZipReader.ZipBytesInjective(Sort(PathOf, [x, y] + rest), Sort(PathOf, [y, x] + rest));
    PairKeepsOrder(PathOf, x, y, rest);
  }

  /** The order in which the records of a serialisable tree arrive never shows in the bytes, if
      and only if entries with the same path are the same entry. */
  lemma OrderNeverShowsIff(repo: Repo, a: seq<Record>)
    requires DirectoriesFirst(a) && Expected(repo, a).Archived?
    requires ZipReader.Serialized(Expected(repo, a).entries).Some?
    ensures OrderNeverShows(repo, a) <==> Consistent(PathOf, Entries(repo, a, a))
  {
    hide Expected, Entries, DirectoriesFirst, ZipReader.Serialized, Selected, EntryOf;
    if Consistent(PathOf, Entries(repo, a, a)) {
      forall b | multiset(b) == multiset(a) && DirectoriesFirst(b)
        ensures Expected(repo, b).Archived?
        ensures ZipReader.Serialized(Expected(repo, b).entries) == ZipReader.Serialized(Expected(repo, a).entries)
      {
        SameTreeSameBytes(repo, a, b);
      }
    }
    if OrderNeverShows(repo, a) {
      forall x, y | x in Entries(repo, a, a) && y in Entries(repo, a, a) && PathOf(x) == PathOf(y) ensures x == y {
        ClashShows(repo, a, x, y);
      }
    }
  }

  lemma ClashShows(repo: Repo, a: seq<Record>, x: Entry, y: Entry)
    requires DirectoriesFirst(a) && Expected(repo, a).Archived?
    requires ZipReader.Serialized(Expected(repo, a).entries).Some? && OrderNeverShows(repo, a)
    requires x in Entries(repo, a, a) && y in Entries(repo, a, a) && PathOf(x) == PathOf(y)
    ensures x == y
  {
    hide Expected, Entries, DirectoriesFirst, ZipReader.Serialized, OrderNeverShows, EntryOf, Hidden, Ignored;
    var i := EntriesComeFromRecords(repo, a, a, x);
    var j := EntriesComeFromRecords(repo, a, a, y);
    if a[i] != a[j] {
      var trees, rest := TwoOrders(a, a[i], a[j]);
      PairFirst(repo, a, trees, a[i], a[j], rest);
      PairFirst(repo, a, trees, a[j], a[i], rest);
      hide Selected;
      DifferentOrdersShow(repo, a, trees + ([a[i], a[j]] + rest), trees + ([a[j], a[i]] + rest), x, y,
                          Entries(repo, a, rest));
    }
  }

  /** In particular the order never shows for a tree with no backslash in a name. */
  lemma CleanTreeSameBytes(repo: Repo, a: seq<Record>, b: seq<Record>)
    requires multiset(a) == multiset(b) && DirectoriesFirst(a) && DirectoriesFirst(b) && CleanTree(a)
    requires Expected(repo, a).Archived?
    ensures Expected(repo, b).Archived?
    ensures ZipReader.Serialized(Expected(repo, a).entries) == ZipReader.Serialized(Expected(repo, b).entries)
  {
    CleanTreeIsConsistent(repo, a);
    hide Expected, DirectoriesFirst, CleanTree, Consistent, ZipReader.Serialized, Entries;
    SameTreeSameBytes(repo, a, b);
  }

  lemma SerializedAlike(x: seq<Entry>, y: seq<Entry>)
    requires multiset(x) == multiset(y) && Consistent(PathOf, x)
    ensures ZipReader.Serialized(x) == ZipReader.Serialized(y)
  {
    hide ZipArchive.ZipBytes, ZipArchive.Fits, Sort;
    SortOfPermutation(PathOf, x, y);
  }
}
