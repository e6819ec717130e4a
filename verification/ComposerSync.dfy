/** Mirroring one package of a Composer upstream into immutable versions. Digests and fetches
    are parameters; other publishers may insert between any two statements of a sync. */
module ComposerSync {
  import opened Options
  import Text

  type Bytes = seq<nat>

  type Digest = nat

  datatype Row = Row(blob: Option<Digest>, shasum: Option<string>, reference: Option<string>, path: Option<string>)

  /** One package's versions, by normalized version. */
  type Rows = map<string, Row>

  datatype Hashes = Hashes(sha256: Bytes -> Digest, sha1: Bytes -> string)

  /** One version object of the upstream's document, as far as the sync reads it. */
  datatype Listed = Listed(version: Option<string>, normalized: Option<string>, url: Option<string>,
                           shasum: Option<string>, reference: Option<string>)

  datatype Outcome = Created | AlreadyPublished | Conflict

  datatype Insert = Insert(normalized: string, row: Row)

  datatype Error = HttpError | ShasumMismatch | StoreError | CatalogError

  datatype Report = Report(mirrored: seq<(string, string)>, skipped: seq<(string, string)>, upToDate: nat,
                           conflicts: seq<(string, string)>)

  /** What a sync runs against: its subscription, the upstream's dists, and what goes wrong, if
      anything, when a version is stored, recorded or filled in: the content store or the catalog
      fails, or the repository refuses the package. */
  datatype Upstream =
    Upstream(base: string, allowed: string -> bool, fetch: string -> Option<Bytes>, trouble: string -> Option<Error>)

  const NO_DIST: string := "no dist"
  const BELOW_FLOOR: string := "below version floor"
  const SHASUM_CHANGED: string := "upstream dist shasum changed since it was mirrored"
  const REFERENCE_CHANGED: string := "upstream dist reference changed since it was mirrored"
  const BYTES_DIFFER: string := "dist bytes differ from the stored version"

  // ----- pure parts -----

  function NonEmpty(s: Option<string>): Option<string> { if s == Some("") then None else s }

  /** Why the upstream's dist no longer matches the stored one. */
  function UpstreamChange(stored: Row, shasum: Option<string>, reference: Option<string>): Option<string> {
    if shasum.Some? then (if stored.shasum != shasum then Some(SHASUM_CHANGED) else None)
    else if stored.reference.Some? && reference.Some? && stored.reference != reference then Some(REFERENCE_CHANGED)
    else None
  }

  function RelativePath(base: string, url: string): Option<string> {
    match Text.StripPrefix(url, base)
    case None => None
    case Some(rest) =>
      match Text.StripPrefix(rest, "/")
      case None => None
      case Some(tail) =>
        var path := Text.TakeUntil(tail, "?#");
        if path == "" then None else Some(path)
  }

  function InsertOutcome(rows: Rows, n: string, row: Row): Outcome {
    if n !in rows then Created
    else if rows[n].blob.Some? && rows[n].blob == row.blob then AlreadyPublished
    else Conflict
  }

  function AfterInsert(rows: Rows, n: string, row: Row): Rows {
    if n !in rows then rows[n := row] else rows
  }

  function AfterInserts(rows: Rows, ins: seq<Insert>): Rows
    decreases |ins|
  {
    if ins == [] then rows
    else
      var last := ins[|ins| - 1];
      AfterInsert(AfterInserts(rows, ins[..|ins| - 1]), last.normalized, last.row)
  }

  function Backfilled(rows: Rows, n: string, path: string): Rows {
    if n in rows && rows[n].path.None? then rows[n := rows[n].(path := Some(path))] else rows
  }

  // ----- one listed version -----

  datatype Fate = Mirrored | Skipped(reason: string) | Unchanged | Conflicting(reason: string) | Fails(error: Error)

  predicate Complete(e: Listed) { e.version.Some? && e.normalized.Some? && e.url.Some? }

  predicate Wanted(up: Upstream, e: Listed) { Complete(e) && up.allowed(e.normalized.value) }

  function MirroredRow(h: Hashes, up: Upstream, e: Listed, bytes: Bytes): Row
    requires e.url.Some?
  {
    Row(Some(h.sha256(bytes)), Some(h.sha1(bytes)), NonEmpty(e.reference), RelativePath(up.base, e.url.value))
  }

  /** `e` is stored, and where the upstream keeps it was not recorded. */
  predicate FillsPath(up: Upstream, stored: Rows, e: Listed) {
    && Complete(e) && e.normalized.value in stored && stored[e.normalized.value].path.None?
    && RelativePath(up.base, e.url.value).Some?
  }

  /** What becomes of `e`, given the rows read at the start and the rows at its insert. */
  function FateOf(h: Hashes, up: Upstream, stored: Rows, rows: Rows, e: Listed): Fate {
    if !Complete(e) then Skipped(NO_DIST)
    else if !up.allowed(e.normalized.value) then Skipped(BELOW_FLOOR)
    else if e.normalized.value in stored then
      match UpstreamChange(stored[e.normalized.value], NonEmpty(e.shasum), NonEmpty(e.reference))
      case None => if FillsPath(up, stored, e) && up.trouble(e.normalized.value).Some?
        then Fails(up.trouble(e.normalized.value).value) else Unchanged
      case Some(reason) => Conflicting(reason)
    else match up.fetch(e.url.value)
      case None => Fails(HttpError)
      case Some(bytes) =>
        if NonEmpty(e.shasum).Some? && NonEmpty(e.shasum).value != h.sha1(bytes) then Fails(ShasumMismatch)
        else if up.trouble(e.normalized.value).Some? then Fails(up.trouble(e.normalized.value).value)
        else match InsertOutcome(rows, e.normalized.value, MirroredRow(h, up, e, bytes))
          case Created => Mirrored
          case AlreadyPublished => Unchanged
          case Conflict => Conflicting(BYTES_DIFFER)
  }

  predicate Downloads(up: Upstream, stored: Rows, e: Listed) { Wanted(up, e) && e.normalized.value !in stored }

  /** The rows after `e` was dealt with. */
  function RowsAfter(h: Hashes, up: Upstream, stored: Rows, rows: Rows, e: Listed): Rows {
    if !Wanted(up, e) then rows
    else
      var n := e.normalized.value;
      if FateOf(h, up, stored, rows, e).Fails? then rows
      else if n in stored then
        if UpstreamChange(stored[n], NonEmpty(e.shasum), NonEmpty(e.reference)).None? && FillsPath(up, stored, e)
        then Backfilled(rows, n, RelativePath(up.base, e.url.value).value) else rows
      else AfterInsert(rows, n, MirroredRow(h, up, e, up.fetch(e.url.value).value))
  }

  /** Everything after the first `n` versions of `doc`; `races[i]` is inserted by others just
      before the catalog is touched for version `i`. */
  function RowsAt(h: Hashes, up: Upstream, stored: Rows, doc: seq<Listed>, races: seq<seq<Insert>>, n: nat): Rows
    requires n <= |doc| == |races|
    decreases n
  {
    if n == 0 then stored
    else RowsAfter(h, up, stored, AfterInserts(RowsAt(h, up, stored, doc, races, n - 1), races[n - 1]), doc[n - 1])
  }

  /** The rows version `i` meets. */
  function RowsMet(h: Hashes, up: Upstream, stored: Rows, doc: seq<Listed>, races: seq<seq<Insert>>, i: nat): Rows
    requires i < |doc| == |races|
  {
    AfterInserts(RowsAt(h, up, stored, doc, races, i), races[i])
  }

  function FateAt(h: Hashes, up: Upstream, stored: Rows, doc: seq<Listed>, races: seq<seq<Insert>>, i: nat): Fate
    requires i < |doc| == |races|
  {
    FateOf(h, up, stored, RowsMet(h, up, stored, doc, races, i), doc[i])
  }

  function VersionText(e: Listed): string { match e.version case Some(v) => v case None => "?" }

  function Versions(package: string, e: Listed): string { package + " " + VersionText(e) }

  /** The report once `e` met its fate. */
  function Reported(package: string, r: Report, e: Listed, f: Fate): Report {
    match f
    case Mirrored => if Complete(e) then r.(mirrored := r.mirrored + [(e.version.value, e.normalized.value)]) else r
    case Skipped(reason) => r.(skipped := r.skipped + [(VersionText(e), reason)])
    case Unchanged => r.(upToDate := r.upToDate + 1)
    case Conflicting(reason) => r.(conflicts := r.conflicts + [(Versions(package, e), reason)])
    case Fails(_) => r
  }

  function ReportAt(h: Hashes, up: Upstream, package: string, stored: Rows, doc: seq<Listed>, races: seq<seq<Insert>>,
          n: nat): Report
    requires n <= |doc| == |races|
    decreases n
  {
    if n == 0 then Report([], [], 0, [])
    else Reported(package, ReportAt(h, up, package, stored, doc, races, n - 1), doc[n - 1],
                  FateAt(h, up, stored, doc, races, n - 1))
  }

  function DownloadsAt(up: Upstream, stored: Rows, doc: seq<Listed>, n: nat): seq<string>
    requires n <= |doc|
    decreases n
  {
    if n == 0 then []
    else DownloadsAt(up, stored, doc, n - 1) + (if Downloads(up, stored, doc[n - 1]) then [doc[n - 1].url.value]
      else [])
  }

  /** All downloads so far, after those made `before`. */
  function Fetched(before: seq<string>, up: Upstream, stored: Rows, doc: seq<Listed>, n: nat): seq<string>
    requires n <= |doc|
  {
    before + DownloadsAt(up, stored, doc, n)
  }

  /** The first version whose fate ends the sync. */
  ghost predicate EndsAt(h: Hashes, up: Upstream, stored: Rows, doc: seq<Listed>, races: seq<seq<Insert>>, n: nat)
    requires n <= |doc| == |races|
  {
    (forall i :: 0 <= i < n ==> !FateAt(h, up, stored, doc, races, i).Fails?)
    && (n < |doc| ==> FateAt(h, up, stored, doc, races, n).Fails?)
  }

  datatype Result = Ok(report: Report) | Err(error: Error)

  class Package {
    const name: string
    var rows: Rows
    var fetched: seq<string>

    constructor (name: string)
      ensures this.name == name && rows == map[] && fetched == []
    {
      this.name := name;
      rows, fetched := map[], [];
    }

    /** `insert_version_once`: insert unless present, and when it was, compare the bytes. */
    method InsertOnce(n: string, row: Row) returns (o: Outcome)
      requires row.blob.Some?
      modifies this`rows
      ensures rows == AfterInsert(old(rows), n, row) && o == InsertOutcome(old(rows), n, row)
    {
      if n !in rows {
        rows := rows[n := row];
        return Created;
      }
      var existing := rows[n].blob;
      o := if existing == row.blob then AlreadyPublished else Conflict;
    }

    /** Others publish. */
    method Race(ins: seq<Insert>)
      modifies this`rows
      ensures rows == AfterInserts(old(rows), ins)
    {
      for i := 0 to |ins|
        invariant rows == AfterInserts(old(rows), ins[..i])
      {
        assert ins[..i + 1][..i] == ins[..i];
        if ins[i].normalized !in rows { rows := rows[ins[i].normalized := ins[i].row]; }
      }
      assert ins[..|ins|] == ins;
    }

    /** The loop body: one listed version, given the rows `stored` read at the start. */
    method SyncOne(h: Hashes, up: Upstream, stored: Rows, e: Listed, report: Report) returns (r: Report,
            error: Option<Error>)
      modifies this
      ensures rows == RowsAfter(h, up, stored, old(rows), e)
      ensures fetched == old(fetched) + (if Downloads(up, stored, e) then [e.url.value] else [])
      ensures var f := FateOf(h, up, stored, old(rows), e);
              && error == (if f.Fails? then Some(f.error) else None)
              && (error.None? ==> r == Reported(name, report, e, f))
    {
      hide RelativePath, UpstreamChange;
      r, error := report, None;
      if !Complete(e) {
        r := r.(skipped := r.skipped + [(VersionText(e), NO_DIST)]);
        return;
      }
      var version, normalized, url := e.version.value, e.normalized.value, e.url.value;
      var shasum, reference := NonEmpty(e.shasum), NonEmpty(e.reference);
      if !up.allowed(normalized) {
        r := r.(skipped := r.skipped + [(version, BELOW_FLOOR)]);
        return;
      }
      var path := RelativePath(up.base, url);
      if normalized in stored {
        match UpstreamChange(stored[normalized], shasum, reference) {
          case None =>
            r := r.(upToDate := r.upToDate + 1);
            if stored[normalized].path.None? && path.Some? {
              if up.trouble(normalized).Some? { return r, up.trouble(normalized); }
              Backfill(normalized, path.value);
            }
          case Some(reason) =>
            r := r.(conflicts := r.conflicts + [(Versions(name, e), reason)]);
        }
        return;
      }
      fetched := fetched + [url];
      var bytes := up.fetch(url);
      if bytes.None? { return r, Some(HttpError); }
      var actual := h.sha1(bytes.value);
      if shasum.Some? && shasum.value != actual { return r, Some(ShasumMismatch); }
      if up.trouble(normalized).Some? { return r, up.trouble(normalized); }
      var outcome := InsertOnce(normalized, Row(Some(h.sha256(bytes.value)), Some(actual), reference, path));
      match outcome {
        case Created => r := r.(mirrored := r.mirrored + [(version, normalized)]);
        case AlreadyPublished => r := r.(upToDate := r.upToDate + 1);
        case Conflict => r := r.(conflicts := r.conflicts + [(Versions(name, e), BYTES_DIFFER)]);
      }
    }

    /** Record where a version lived, unless a path is known already. */
    method Backfill(n: string, path: string)
      modifies this`rows
      ensures rows == Backfilled(old(rows), n, path)
    {
      if n in rows && rows[n].path.None? { rows := rows[n := rows[n].(path := Some(path))]; }
    }

    /** Others publish, and then version `i` has its turn. */
    method SyncNext(h: Hashes, up: Upstream, stored: Rows, doc: seq<Listed>, races: seq<seq<Insert>>, i: nat,
                    report: Report, ghost before: seq<string>)
        returns (r: Report, error: Option<Error>)
      requires i < |doc| == |races| && rows == RowsAt(h, up, stored, doc, races, i)
      requires report == ReportAt(h, up, name, stored, doc, races, i) && fetched == Fetched(before, up, stored, doc, i)
      modifies this
      ensures rows == RowsAt(h, up, stored, doc, races, i + 1)
      ensures fetched == Fetched(before, up, stored, doc, i + 1)
      ensures var f := FateAt(h, up, stored, doc, races, i);
              && error == (if f.Fails? then Some(f.error) else None)
              && (error.None? ==> r == ReportAt(h, up, name, stored, doc, races, i + 1))
    {
      OneMore(h, up, name, stored, doc, races, i);
      FetchesMore(before, up, stored, doc, i);
      hide *;
      Race(races[i]);
      r, error := SyncOne(h, up, stored, doc[i], report);
    }

    /** `mirror_one_composer_package_inner`, from the parsed document on. */
    method Sync(h: Hashes, up: Upstream, doc: seq<Listed>, races: seq<seq<Insert>>) returns (result: Result,
            ghost ended: nat)
      requires |races| == |doc|
      modifies this
      ensures ended <= |doc| && EndsAt(h, up, old(rows), doc, races, ended)
      ensures result.Ok? <==> ended == |doc|
      ensures result.Ok? ==> result.report == ReportAt(h, up, name, old(rows), doc, races, |doc|)
      ensures result.Err? ==> FateAt(h, up, old(rows), doc, races, ended) == Fails(result.error)
      ensures rows == RowsAt(h, up, old(rows), doc, races, if ended < |doc| then ended + 1 else ended)
      ensures fetched == old(fetched) + DownloadsAt(up, old(rows), doc, if ended < |doc| then ended + 1 else ended)
    {
      var stored := rows;
      var report := Report([], [], 0, []);
      BeforeTheFirst(h, up, name, stored, doc, races);
      FetchedIs(fetched, up, stored, doc);
      hide *;
      for i := 0 to |doc|
        invariant rows == RowsAt(h, up, stored, doc, races, i)
        invariant report == ReportAt(h, up, name, stored, doc, races, i)
        invariant fetched == Fetched(old(fetched), up, stored, doc, i)
        invariant forall k :: 0 <= k < i ==> !FateAt(h, up, stored, doc, races, k).Fails?
      {
        var r, error := SyncNext(h, up, stored, doc, races, i, report, old(fetched));
        if error.Some? {
          EndsHere(h, up, stored, doc, races, i);
          return Err(error.value), i;
        }
        report := r;
      }
      EndsHere(h, up, stored, doc, races, |doc|);
      return Ok(report), |doc|;
    }
  }

  lemma BeforeTheFirst(h: Hashes, up: Upstream, package: string, stored: Rows, doc: seq<Listed>,
                       races: seq<seq<Insert>>)
    requires |races| == |doc|
    ensures RowsAt(h, up, stored, doc, races, 0) == stored
    ensures ReportAt(h, up, package, stored, doc, races, 0) == Report([], [], 0, [])
  {
  }

  lemma OneMore(h: Hashes, up: Upstream, package: string, stored: Rows, doc: seq<Listed>, races: seq<seq<Insert>>,
                i: nat)
    requires i < |doc| == |races|
    ensures var met := AfterInserts(RowsAt(h, up, stored, doc, races, i), races[i]);
            && RowsAt(h, up, stored, doc, races, i + 1) == RowsAfter(h, up, stored, met, doc[i])
            && FateAt(h, up, stored, doc, races, i) == FateOf(h, up, stored, met, doc[i])
    ensures ReportAt(h, up, package, stored, doc, races, i + 1)
            == Reported(package, ReportAt(h, up, package, stored, doc, races, i), doc[i],
                        FateAt(h, up, stored, doc, races, i))
  {
    hide RowsAfter, AfterInserts, FateOf, Reported;
  }

  lemma FetchesMore(before: seq<string>, up: Upstream, stored: Rows, doc: seq<Listed>, i: nat)
    requires i < |doc|
    ensures Fetched(before, up, stored, doc, i + 1)
            == Fetched(before, up, stored, doc, i) + (if Downloads(up, stored, doc[i]) then [doc[i].url.value] else [])
  {
    hide Downloads;
  }

  lemma FetchedIs(before: seq<string>, up: Upstream, stored: Rows, doc: seq<Listed>)
    ensures Fetched(before, up, stored, doc, 0) == before
    ensures forall n :: 0 <= n <= |doc| ==>
            Fetched(before, up, stored, doc, n) == before + DownloadsAt(up, stored, doc, n)
  {
  }

  lemma EndsHere(h: Hashes, up: Upstream, stored: Rows, doc: seq<Listed>, races: seq<seq<Insert>>, n: nat)
    requires n <= |doc| == |races|
    requires forall k :: 0 <= k < n ==> !FateAt(h, up, stored, doc, races, k).Fails?
    requires n < |doc| ==> FateAt(h, up, stored, doc, races, n).Fails?
    ensures EndsAt(h, up, stored, doc, races, n)
  {
    hide FateAt;
  }

  // ----- immutability -----

  /** Every stored version is still there with the same bytes, digests and reference; a path
      may have been filled in, but never changed. */
  ghost predicate Kept(before: Rows, after: Rows) {
    forall n :: n in before ==>
      && n in after && after[n].blob == before[n].blob && after[n].shasum == before[n].shasum
      && after[n].reference == before[n].reference && (before[n].path.Some? ==> after[n].path == before[n].path)
  }

  lemma {:induction false} InsertsKeep(rows: Rows, ins: seq<Insert>)
    ensures Kept(rows, AfterInserts(rows, ins))
    decreases |ins|
  {
    if ins == [] {
    } else {
      InsertsKeep(rows, ins[..|ins| - 1]);
    }
  }

  lemma StepKeeps(h: Hashes, up: Upstream, stored: Rows, rows: Rows, e: Listed)
    ensures Kept(rows, RowsAfter(h, up, stored, rows, e))
    ensures Wanted(up, e) && !FateOf(h, up, stored, rows, e).Fails? && Kept(stored, rows) ==>
              e.normalized.value in RowsAfter(h, up, stored, rows, e)
  {
    hide RelativePath, UpstreamChange, InsertOutcome;
  }

  lemma {:induction false} SyncKeeps(h: Hashes, up: Upstream, stored: Rows, doc: seq<Listed>, races: seq<seq<Insert>>,
          m: nat, n: nat)
    requires m <= n <= |doc| == |races|
    ensures Kept(RowsAt(h, up, stored, doc, races, m), RowsAt(h, up, stored, doc, races, n))
    decreases n
  {
    hide RowsAfter, AfterInserts;
    if m == n {
    } else {
      SyncKeeps(h, up, stored, doc, races, m, n - 1);
      InsertsKeep(RowsAt(h, up, stored, doc, races, n - 1), races[n - 1]);
      StepKeeps(h, up, stored, RowsMet(h, up, stored, doc, races, n - 1), doc[n - 1]);
    }
  }

  /** The git mirror's upsert replaces digests on conflict, but never the recorded path. */
  function AfterUpsert(rows: Rows, n: string, row: Row): Rows {
    rows[n := row.(path := if n in rows then rows[n].path else None)]
  }

  predicate Agrees(rows: Rows, n: string, row: Row) {
    n in rows ==> row.blob == rows[n].blob && row.shasum == rows[n].shasum && row.reference == rows[n].reference
  }

  /** So immutability is a property of the pushed and Composer-mirrored versions only: an upsert
      keeps what is stored exactly when the version is new or re-archives to the same digests. */
  lemma UpsertKeepsIff(rows: Rows, n: string, row: Row)
    ensures Kept(rows, AfterUpsert(rows, n, row)) <==>
            Agrees(rows, n, row)
  {
    var after := AfterUpsert(rows, n, row);
    if n in rows && Kept(rows, after) { assert after[n].blob == rows[n].blob; }
  }

  /** What may happen to a package's versions. Any number of syncs may be under way: `SyncStep` is
      one listed version of a sync that read the stored rows after the first `since` events. */
  datatype Event =
    | Publish(insert: Insert)
    | GitUpsert(insert: Insert)
    | SyncStep(up: Upstream, since: nat, listed: Listed)

  /** One event, given the rows it finds and the rows its sync read. */
  function AfterEvent(h: Hashes, read: Rows, before: Rows, e: Event): Rows {
    match e
    case Publish(i) => AfterInsert(before, i.normalized, i.row)
    case GitUpsert(i) => AfterUpsert(before, i.normalized, i.row)
    case SyncStep(up, _, l) => RowsAfter(h, up, read, before, l)
  }

  /** When the sync of an event that comes after `n` others read; not later than now. */
  function ReadAt(e: Event, n: nat): (k: nat)
    ensures k <= n
  {
    if e.SyncStep? && e.since < n then e.since else n
  }

  /** The rows after the first `n` events. */
  function RowsAfterEvents(h: Hashes, rows: Rows, es: seq<Event>, n: nat): Rows
    requires n <= |es|
    decreases n
  {
    if n == 0 then rows
    else AfterEvent(h, RowsAfterEvents(h, rows, es, ReadAt(es[n - 1], n - 1)), RowsAfterEvents(h, rows, es, n - 1),
                    es[n - 1])
  }

  /** Every re-archived version meets a row with the same digests and reference, or none. */
  ghost predicate UpsertsAgree(h: Hashes, rows: Rows, es: seq<Event>)
  {
    forall i :: 0 <= i < |es| && es[i].GitUpsert? ==>
      Agrees(RowsAfterEvents(h, rows, es, i), es[i].insert.normalized, es[i].insert.row)
  }

  lemma EventKeeps(h: Hashes, rows: Rows, es: seq<Event>, n: nat)
    requires n < |es| && UpsertsAgree(h, rows, es)
    ensures Kept(RowsAfterEvents(h, rows, es, n), RowsAfterEvents(h, rows, es, n + 1))
  {
    hide Kept, RowsAfter, AfterInsert, AfterUpsert, Agrees, ReadAt;
    var before := RowsAfterEvents(h, rows, es, n);
    match es[n]
    case Publish(i) => InsertKeeps(before, i);
    case GitUpsert(i) => UpsertKeepsIff(before, i.normalized, i.row);
    case SyncStep(up, _, e) => StepKeeps(h, up, RowsAfterEvents(h, rows, es, ReadAt(es[n], n)), before, e);
  }

  lemma {:induction false} HistoryKeeps(h: Hashes, rows: Rows, es: seq<Event>, m: nat, n: nat)
    requires m <= n <= |es| && UpsertsAgree(h, rows, es)
    ensures Kept(RowsAfterEvents(h, rows, es, m), RowsAfterEvents(h, rows, es, n))
    decreases n
  {
    hide RowsAfterEvents, UpsertsAgree;
    if m == n {
    } else {
      HistoryKeeps(h, rows, es, m, n - 1);
      EventKeeps(h, rows, es, n - 1);
    }
  }

  /** From any moment of the history to any later one. */
  ghost predicate AlwaysKept(h: Hashes, rows: Rows, es: seq<Event>)
  {
    forall m: nat, n: nat :: m <= n <= |es| ==> Kept(RowsAfterEvents(h, rows, es, m), RowsAfterEvents(h, rows, es, n))
  }

  /** However publishes, git mirrors and the versions of any number of syncs interleave, stored
      versions never change their bytes and never go away, if and only if whatever a git mirror
      archives again comes out as it was. */
  lemma HistoryKeepsIff(h: Hashes, rows: Rows, es: seq<Event>)
    ensures AlwaysKept(h, rows, es) <==> UpsertsAgree(h, rows, es)
  {
    hide Kept, Agrees, RowsAfterEvents;
    if UpsertsAgree(h, rows, es) {
      forall m: nat, n: nat | m <= n <= |es|
        ensures Kept(RowsAfterEvents(h, rows, es, m), RowsAfterEvents(h, rows, es, n))
      {
        HistoryKeeps(h, rows, es, m, n);
      }
    }
    if AlwaysKept(h, rows, es) {
      forall i | 0 <= i < |es| && es[i].GitUpsert?
        ensures Agrees(RowsAfterEvents(h, rows, es, i), es[i].insert.normalized, es[i].insert.row)
      {
        UpsertAgrees(h, rows, es, i);
      }
    }
  }

  lemma UpsertAgrees(h: Hashes, rows: Rows, es: seq<Event>, i: nat)
    requires AlwaysKept(h, rows, es) && i < |es| && es[i].GitUpsert?
    ensures Agrees(RowsAfterEvents(h, rows, es, i), es[i].insert.normalized, es[i].insert.row)
  {
    hide Kept, Agrees, AfterUpsert;
    assert Kept(RowsAfterEvents(h, rows, es, i), RowsAfterEvents(h, rows, es, i + 1));
    UpsertKeepsIff(RowsAfterEvents(h, rows, es, i), es[i].insert.normalized, es[i].insert.row);
  }

  // ----- a sync is such a history -----

  function Publishes(ins: seq<Insert>): (es: seq<Event>)
    ensures |es| == |ins| && forall i :: 0 <= i < |ins| ==> es[i] == Publish(ins[i])
  {
    seq(|ins|, i requires 0 <= i < |ins| => Publish(ins[i]))
  }

  /** The first `n` versions of a sync that started after `since` events, with what others insert
      before each. */
  function SyncEvents(up: Upstream, since: nat, doc: seq<Listed>, races: seq<seq<Insert>>, n: nat): seq<Event>
    requires n <= |doc| == |races|
    decreases n
  {
    if n == 0 then []
    else SyncEvents(up, since, doc, races, n - 1) + Publishes(races[n - 1]) + [SyncStep(up, since, doc[n - 1])]
  }

  lemma {:induction false} EarlierRows(h: Hashes, rows: Rows, es: seq<Event>, more: seq<Event>, k: nat)
    requires k <= |es|
    ensures RowsAfterEvents(h, rows, es + more, k) == RowsAfterEvents(h, rows, es, k)
    decreases k
  {
    hide AfterEvent;
    if k == 0 {
    } else {
      EarlierRows(h, rows, es, more, k - 1);
      EarlierRows(h, rows, es, more, ReadAt(es[k - 1], k - 1));
    }
  }

  lemma AppendEvent(h: Hashes, rows: Rows, es: seq<Event>, e: Event)
    ensures RowsAfterEvents(h, rows, es + [e], |es| + 1)
            == AfterEvent(h, RowsAfterEvents(h, rows, es, ReadAt(e, |es|)), RowsAfterEvents(h, rows, es, |es|), e)
  {
    hide AfterEvent;
    EarlierRows(h, rows, es, [e], |es|);
    EarlierRows(h, rows, es, [e], ReadAt(e, |es|));
  }

  lemma {:induction false} PublishesInsert(h: Hashes, rows: Rows, es: seq<Event>, ins: seq<Insert>)
    ensures RowsAfterEvents(h, rows, es + Publishes(ins), |es| + |ins|)
            == AfterInserts(RowsAfterEvents(h, rows, es, |es|), ins)
    decreases |ins|
  {
    hide AfterInsert, RowsAfterEvents;
    if ins == [] {
      assert es + Publishes(ins) == es;
    } else {
      var init, last := ins[..|ins| - 1], ins[|ins| - 1];
      PublishesInsert(h, rows, es, init);
      AppendEvent(h, rows, es + Publishes(init), Publish(last));
      assert es + Publishes(init) + [Publish(last)] == es + Publishes(ins);
    }
  }

  /** The rows a sync leaves are those of the history its versions and races make up, so what is
      said of histories is said of syncs. */
  lemma {:induction false} SyncIsHistory(h: Hashes, rows: Rows, es: seq<Event>, up: Upstream, doc: seq<Listed>,
                                         races: seq<seq<Insert>>, n: nat)
    requires n <= |doc| == |races|
    ensures var all := es + SyncEvents(up, |es|, doc, races, n);
            RowsAfterEvents(h, rows, all, |all|) == RowsAt(h, up, RowsAfterEvents(h, rows, es, |es|), doc, races, n)
    decreases n
  {
    hide RowsAfterEvents, RowsAfter, AfterInserts, AfterInsert, AfterUpsert;
    if n == 0 {
      assert es + SyncEvents(up, |es|, doc, races, n) == es;
    } else {
      var before := es + SyncEvents(up, |es|, doc, races, n - 1);
      SyncIsHistory(h, rows, es, up, doc, races, n - 1);
      PublishesInsert(h, rows, before, races[n - 1]);
      var raced := before + Publishes(races[n - 1]);
      var step := SyncStep(up, |es|, doc[n - 1]);
      AppendEvent(h, rows, raced, step);
      assert raced + [step] == es + SyncEvents(up, |es|, doc, races, n);
      assert raced == es + (SyncEvents(up, |es|, doc, races, n - 1) + Publishes(races[n - 1]));
      EarlierRows(h, rows, es, SyncEvents(up, |es|, doc, races, n - 1) + Publishes(races[n - 1]), |es|);
    }
  }

  lemma InsertKeeps(rows: Rows, i: Insert)
    ensures Kept(rows, AfterInsert(rows, i.normalized, i.row))
  {
  }

  /** Inserting and then looking are two statements, but nothing others do in between changes
      the answer. */
  lemma DecisionIsRaceFree(rows: Rows, n: string, row: Row, between: seq<Insert>)
    requires n in rows
    ensures InsertOutcome(AfterInserts(rows, between), n, row) == InsertOutcome(rows, n, row)
  {
    InsertsKeep(rows, between);
  }

  // ----- the report -----

  /** The report accounts for every listed version exactly once. */
  lemma {:induction false} ReportPartitions(h: Hashes, up: Upstream, package: string, stored: Rows, doc: seq<Listed>,
          races: seq<seq<Insert>>, n: nat)
    requires n <= |doc| == |races| && forall i :: 0 <= i < n ==> !FateAt(h, up, stored, doc, races, i).Fails?
    ensures var r := ReportAt(h, up, package, stored, doc, races, n);
            |r.mirrored| + |r.skipped| + r.upToDate + |r.conflicts| == n
    decreases n
  {
    if n == 0 {
    } else {
      ReportPartitions(h, up, package, stored, doc, races, n - 1);
      hide RowsMet, UpstreamChange, InsertOutcome, MirroredRow;
      assert !FateAt(h, up, stored, doc, races, n - 1).Fails?;
      if FateAt(h, up, stored, doc, races, n - 1).Mirrored? {
        MirroredIsComplete(h, up, stored, RowsMet(h, up, stored, doc, races, n - 1), doc[n - 1]);
      }
      hide FateOf, Complete;
    }
  }

  lemma MirroredIsComplete(h: Hashes, up: Upstream, stored: Rows, rows: Rows, e: Listed)
    requires FateOf(h, up, stored, rows, e).Mirrored?
    ensures Wanted(up, e) && e.normalized.value !in stored && e.normalized.value !in rows
    ensures up.fetch(e.url.value).Some?
    ensures RowsAfter(h, up, stored, rows, e)
            == rows[e.normalized.value := MirroredRow(h, up, e, up.fetch(e.url.value).value)]
    ensures NonEmpty(e.shasum).Some? ==> NonEmpty(e.shasum) == Some(h.sha1(up.fetch(e.url.value).value))
  {
    hide MirroredRow, UpstreamChange;
  }

  predicate PlainPath(p: string) { p != "" && '?' !in p && '#' !in p }

  /** A recorded path is what stands in the URL between the base with a slash and a query or fragment,
      if there is anything. */
  lemma RelativePathIff(base: string, url: string, p: string)
    ensures RelativePath(base, url) == Some(p)
            <==> PlainPath(p) && base + "/" + p <= url
                 && (url == base + "/" + p || url[|base| + 1 + |p|] == '?' || url[|base| + 1 + |p|] == '#')
  {
    if base + "/" <= url {
      var tail := url[|base| + 1..];
      assert url == base + ("/" + tail);
      assert url[|base|..] == "/" + tail && ("/" + tail)[1..] == tail;
      assert base <= url && "/" <= url[|base|..];
      TakenIff(tail, p);
      assert base + "/" + p <= url <==> p <= tail by { PrefixWithin(base + "/", p, tail, url); }
      assert p <= tail && |p| < |tail| ==> url[|base| + 1 + |p|] == tail[|p|];
    } else if base <= url {
      SlashNext(base, url);
      assert base + "/" + p <= url ==> base + "/" <= url by { PrefixOf(base + "/", p, url); }
    } else {
      assert base + "/" + p <= url ==>
        base <= url by { PrefixOf(base, "/" + p, url); assert base + ("/" + p) == base + "/" + p; }
    }
  }

  lemma SlashNext(base: string, url: string)
    requires base <= url
    ensures base + "/" <= url <==> "/" <= url[|base|..]
  {
    var rest := url[|base|..];
    assert url == base + rest;
    if rest != "" { assert (base + "/")[|base|] == '/' && url[|base|] == rest[0]; }
  }

  lemma PrefixOf(a: string, b: string, url: string)
    ensures a + b <= url ==> a <= url
  {
    if a + b <= url { assert url == a + (b + url[|a + b|..]); }
  }

  lemma PrefixWithin(a: string, p: string, tail: string, url: string)
    requires url == a + tail
    ensures a + p <= url <==> p <= tail
  {
    if a + p <= url { assert forall i :: 0 <= i < |p| ==> p[i] == (a + p)[|a| + i] == url[|a| + i] == tail[i]; }
    if p <= tail { assert url == a + p + tail[|p|..]; }
  }

  lemma {:induction false} TakenIff(s: string, p: string)
    ensures Text.TakeUntil(s, "?#") == p
            <==> '?' !in p && '#' !in p && p <= s && (p == s || s[|p|] == '?' || s[|p|] == '#')
    decreases |s|
  {
    if s == "" {
    } else if s[0] == '?' || s[0] == '#' {
      assert p != "" && p <= s ==> p[0] == s[0];
    } else if p == "" {
    } else {
      TakenIff(s[1..], p[1..]);
      assert p <= s <==> p[0] == s[0] && p[1..] <= s[1..];
      assert p == [p[0]] + p[1..];
      assert s == [s[0]] + s[1..];
    }
  }

  /** How the dist of a stored version has changed upstream: a non-empty checksum decides alone;
      without one the references do, if both are there. */
  predicate DistChanged(was: Row, e: Listed) {
    var summed, referred := e.shasum.Some? && e.shasum != Some(""), e.reference.Some? && e.reference != Some("");
    if summed then was.shasum != e.shasum else was.reference.Some? && referred && was.reference != e.reference
  }

  function StoredChange(was: Row, e: Listed): Option<string> {
    if !DistChanged(was, e) then None
    else if e.shasum.Some? && e.shasum != Some("") then Some("upstream dist shasum changed since it was mirrored")
    else Some("upstream dist reference changed since it was mirrored")
  }

  /** When a listed version that is stored counts as a conflict, and for which reason. */
  lemma StoredConflictIff(h: Hashes, up: Upstream, stored: Rows, rows: Rows, e: Listed)
    requires Wanted(up, e) && e.normalized.value in stored
    ensures var was, f := stored[e.normalized.value], FateOf(h, up, stored, rows, e);
            && (f.Conflicting? <==> DistChanged(was, e))
            && (f.Conflicting? ==> StoredChange(was, e) == Some(f.reason))
            && (!f.Conflicting? ==>
                  f == if PathIsNew(up, was, e) && up.trouble(e.normalized.value).Some?
                       then Fails(up.trouble(e.normalized.value).value) else Unchanged)
  {
    hide RelativePath;
  }

  /** The stored version has no path recorded, and its dist lies under the upstream's base. */
  predicate PathIsNew(up: Upstream, was: Row, e: Listed) {
    was.path.None? && e.url.Some? && RelativePath(up.base, e.url.value).Some?
  }

  /** What a listed version does to the row of a stored one: it may fill in the path of an unchanged
      dist, if nobody has filled it in meanwhile, and nothing else. */
  lemma StoredRowAfter(h: Hashes, up: Upstream, stored: Rows, rows: Rows, e: Listed)
    requires Wanted(up, e) && e.normalized.value in stored
    ensures var n := e.normalized.value; var was := stored[n]; var rows' := RowsAfter(h, up, stored, rows, e);
            if !DistChanged(was, e) && PathIsNew(up, was, e) && up.trouble(n).None? && n in rows && rows[n].path.None?
            then rows' == rows[n := Row(rows[n].blob, rows[n].shasum, rows[n].reference,
                                        RelativePath(up.base, e.url.value))]
            else rows' == rows
  {
    hide RelativePath;
  }

  /** What becomes of a listed version that is not stored: it is downloaded, checked against the
      listed checksum if there is one, and inserted unless it has come to be there meanwhile. */
  lemma NewVersionFate(h: Hashes, up: Upstream, stored: Rows, rows: Rows, e: Listed)
    requires Wanted(up, e) && e.normalized.value !in stored
    ensures var n, f, got := e.normalized.value, FateOf(h, up, stored, rows, e), up.fetch(e.url.value);
            var summed := e.shasum.Some? && e.shasum != Some("");
            && (got.None? ==> f == Fails(HttpError))
            && (got.Some? && summed && e.shasum != Some(h.sha1(got.value)) ==> f == Fails(ShasumMismatch))
            && (got.Some? && !(summed && e.shasum != Some(h.sha1(got.value))) ==>
                  && (f.Fails? <==> up.trouble(n).Some?)
                  && (f.Fails? ==> up.trouble(n) == Some(f.error))
                  && (f.Mirrored? <==> up.trouble(n).None? && n !in rows)
                  && (f.Unchanged? <==> up.trouble(n).None? && n in rows && rows[n].blob == Some(h.sha256(got.value)))
                  && (f.Conflicting? ==> f.reason == "dist bytes differ from the stored version")
                  && !f.Skipped?)
    ensures FateOf(h, up, stored, rows, e).Mirrored? ==>
              RowsAfter(h, up, stored, rows, e)[e.normalized.value]
              == Row(Some(h.sha256(up.fetch(e.url.value).value)), Some(h.sha1(up.fetch(e.url.value).value)),
                     if e.reference == Some("") then None else e.reference, RelativePath(up.base, e.url.value))
  {
    hide RelativePath;
  }

  /** Which versions are skipped, and why. */
  lemma SkippedIff(h: Hashes, up: Upstream, stored: Rows, rows: Rows, e: Listed)
    ensures var f := FateOf(h, up, stored, rows, e);
            var whole := e.version.Some? && e.normalized.Some? && e.url.Some?;
            && (f == Skipped("no dist") <==> !whole)
            && (f == Skipped("below version floor") <==> whole && !up.allowed(e.normalized.value))
            && (f.Skipped? ==> !whole || !up.allowed(e.normalized.value))
  {
    hide UpstreamChange, InsertOutcome, MirroredRow;
  }

  /** What one version adds to the report. */
  lemma ReportGrows(h: Hashes, up: Upstream, package: string, stored: Rows, doc: seq<Listed>, races: seq<seq<Insert>>,
                    n: nat)
    requires n < |doc| == |races|
    ensures var r, r', e := ReportAt(h, up, package, stored, doc, races, n),
                            ReportAt(h, up, package, stored, doc, races, n + 1), doc[n];
            var f := FateAt(h, up, stored, doc, races, n);
            && r'.conflicts
              == r.conflicts + (if f.Conflicting? then [(package + " " + VersionText(e), f.reason)] else [])
            && r'.skipped == r.skipped + (if f.Skipped? then [(VersionText(e), f.reason)] else [])
            && r'.mirrored
               == r.mirrored + (if f.Mirrored? && Complete(e) then [(e.version.value, e.normalized.value)] else [])
            && r'.upToDate == r.upToDate + (if f.Unchanged? then 1 else 0)
  {
    hide FateAt, VersionText;
  }

  /** The report lists the conflicts, with package, version and reason, and nothing else. */
  lemma {:induction false} ConflictsListed(h: Hashes, up: Upstream, package: string, stored: Rows, doc: seq<Listed>,
                                           races: seq<seq<Insert>>, n: nat, x: (string, string))
    requires n <= |doc| == |races|
    ensures x in ReportAt(h, up, package, stored, doc, races, n).conflicts <==>
            exists i :: 0 <= i < n && FateAt(h, up, stored, doc, races, i).Conflicting?
                        && x == (package + " " + VersionText(doc[i]), FateAt(h, up, stored, doc, races, i).reason)
    decreases n
  {
    hide FateAt, VersionText;
    if n == 0 {
      assert ReportAt(h, up, package, stored, doc, races, 0).conflicts == [];
    } else {
      ConflictsListed(h, up, package, stored, doc, races, n - 1, x);
      ReportGrows(h, up, package, stored, doc, races, n - 1);
      hide ReportAt;
    }
  }

  lemma {:induction false} SkippedListed(h: Hashes, up: Upstream, package: string, stored: Rows, doc: seq<Listed>,
                                         races: seq<seq<Insert>>, n: nat, x: (string, string))
    requires n <= |doc| == |races|
    ensures x in ReportAt(h, up, package, stored, doc, races, n).skipped <==>
            exists i :: 0 <= i < n && FateAt(h, up, stored, doc, races, i).Skipped?
                        && x.0 == (match doc[i].version case Some(v) => v case None => "?")
                        && x.1 == FateAt(h, up, stored, doc, races, i).reason
    decreases n
  {
    hide FateAt;
    if n == 0 {
      assert ReportAt(h, up, package, stored, doc, races, 0).skipped == [];
    } else {
      SkippedListed(h, up, package, stored, doc, races, n - 1, x);
      ReportGrows(h, up, package, stored, doc, races, n - 1);
      hide ReportAt;
    }
  }

  lemma {:induction false} MirroredListed(h: Hashes, up: Upstream, package: string, stored: Rows, doc: seq<Listed>,
                                          races: seq<seq<Insert>>, n: nat, x: (string, string))
    requires n <= |doc| == |races|
    ensures x in ReportAt(h, up, package, stored, doc, races, n).mirrored <==>
            exists i :: 0 <= i < n && FateAt(h, up, stored, doc, races, i).Mirrored?
                        && doc[i].version == Some(x.0) && doc[i].normalized == Some(x.1)
    decreases n
  {
    hide RowsMet, FateOf;
    if n == 0 {
      assert ReportAt(h, up, package, stored, doc, races, 0).mirrored == [];
    } else {
      MirroredListed(h, up, package, stored, doc, races, n - 1, x);
      ReportGrows(h, up, package, stored, doc, races, n - 1);
      if FateAt(h, up, stored, doc, races, n - 1).Mirrored? {
        MirroredIsComplete(h, up, stored, RowsMet(h, up, stored, doc, races, n - 1), doc[n - 1]);
      }
      hide ReportAt, FateAt;
    }
  }

  /** Over a whole sync: a listed version that was stored when the sync read is reported as a
      conflict exactly when its upstream dist has changed as `StoredConflictIff` says. */
  lemma StoredConflictReported(h: Hashes, up: Upstream, package: string, stored: Rows, doc: seq<Listed>,
                               races: seq<seq<Insert>>, i: nat)
    requires i < |doc| == |races| && Wanted(up, doc[i]) && doc[i].normalized.value in stored
    requires StoredChange(stored[doc[i].normalized.value], doc[i]).Some?
    ensures (package + " " + VersionText(doc[i]), StoredChange(stored[doc[i].normalized.value], doc[i]).value)
            in ReportAt(h, up, package, stored, doc, races, |doc|).conflicts
  {
    StoredConflictIff(h, up, stored, RowsMet(h, up, stored, doc, races, i), doc[i]);
    hide ReportAt, RowsMet, FateOf, VersionText, Wanted;
    var x := (package + " " + VersionText(doc[i]), StoredChange(stored[doc[i].normalized.value], doc[i]).value);
    assert FateAt(h, up, stored, doc, races, i).reason == x.1;
    hide FateAt;
    ConflictsListed(h, up, package, stored, doc, races, |doc|, x);
  }

  // ----- repeating a sync -----

  ghost predicate AllStored(up: Upstream, doc: seq<Listed>, rows: Rows, n: nat)
    requires n <= |doc|
  {
    forall i :: 0 <= i < n && Wanted(up, doc[i]) ==> doc[i].normalized.value in rows
  }

  lemma {:induction false} SyncStoresAll(h: Hashes, up: Upstream, stored: Rows, doc: seq<Listed>,
          races: seq<seq<Insert>>, n: nat)
    requires n <= |doc| == |races| && forall i :: 0 <= i < n ==> !FateAt(h, up, stored, doc, races, i).Fails?
    ensures AllStored(up, doc, RowsAt(h, up, stored, doc, races, n), n)
    decreases n
  {
    hide RowsAfter, FateOf, Wanted, AfterInserts;
    if n == 0 {
    } else {
      SyncStoresAll(h, up, stored, doc, races, n - 1);
      SyncKeeps(h, up, stored, doc, races, 0, n - 1);
      SyncKeeps(h, up, stored, doc, races, n - 1, n);
      var met := RowsMet(h, up, stored, doc, races, n - 1);
      InsertsKeep(RowsAt(h, up, stored, doc, races, n - 1), races[n - 1]);
      assert !FateAt(h, up, stored, doc, races, n - 1).Fails?;
      StepKeeps(h, up, stored, met, doc[n - 1]);
    }
  }

  ghost predicate Untroubled(up: Upstream) { forall n: string :: up.trouble(n).None? }

  lemma StoredStep(h: Hashes, up: Upstream, stored: Rows, rows: Rows, e: Listed)
    requires Wanted(up, e) ==> e.normalized.value in stored
    ensures !Downloads(up, stored, e)
    ensures !FateOf(h, up, stored, rows, e).Mirrored?
    ensures Untroubled(up) ==> !FateOf(h, up, stored, rows, e).Fails?
    ensures RowsAfter(h, up, stored, rows, e).Keys == rows.Keys
  {
    hide UpstreamChange, InsertOutcome, RelativePath;
  }

  lemma {:induction false} StoredRun(h: Hashes, up: Upstream, stored: Rows, doc: seq<Listed>, quiet: seq<seq<Insert>>,
          n: nat)
    requires n <= |doc| == |quiet| && AllStored(up, doc, stored, |doc|) && forall i :: 0 <= i < |quiet| ==>
             quiet[i] == []
    ensures DownloadsAt(up, stored, doc, n) == [] && RowsAt(h, up, stored, doc, quiet, n).Keys == stored.Keys
    ensures forall i :: 0 <= i < n ==> !FateAt(h, up, stored, doc, quiet, i).Mirrored?
    ensures Untroubled(up) ==> forall i :: 0 <= i < n ==> !FateAt(h, up, stored, doc, quiet, i).Fails?
    decreases n
  {
    hide RowsAfter, FateOf, Wanted, Downloads, Untroubled;
    if n == 0 {
    } else {
      StoredRun(h, up, stored, doc, quiet, n - 1);
      StoredStep(h, up, stored, RowsMet(h, up, stored, doc, quiet, n - 1), doc[n - 1]);
    }
  }

  /** Idempotence: once a sync of `doc` succeeded, however much others have stored since and
      whatever the upstream serves now, repeating it downloads nothing and inserts nothing. Unless
      the catalog fails it succeeds, and what the first one mirrored is now unchanged. */
  lemma RepeatIsIdle(h: Hashes, up: Upstream, again: Upstream, stored: Rows, doc: seq<Listed>, races: seq<seq<Insert>>,
                     later: Rows, quiet: seq<seq<Insert>>)
    requires |quiet| == |doc| == |races| && EndsAt(h, up, stored, doc, races, |doc|)
    requires Kept(RowsAt(h, up, stored, doc, races, |doc|), later) && again.allowed == up.allowed
    requires forall i :: 0 <= i < |quiet| ==> quiet[i] == []
    ensures DownloadsAt(again, later, doc, |doc|) == []
    ensures RowsAt(h, again, later, doc, quiet, |doc|).Keys == later.Keys
    ensures forall i :: 0 <= i < |doc| ==> !FateAt(h, again, later, doc, quiet, i).Mirrored?
    ensures Untroubled(again) ==> EndsAt(h, again, later, doc, quiet, |doc|)
    ensures Untroubled(again) ==> forall i :: 0 <= i < |doc| && FateAt(h, up, stored, doc, races, i).Mirrored? ==>
              FateAt(h, again, later, doc, quiet, i).Unchanged?
  {
    hide RowsAfter, FateOf, Untroubled;
    SyncStoresAll(h, up, stored, doc, races, |doc|);
    assert AllStored(again, doc, later, |doc|);
    StoredRun(h, again, later, doc, quiet, |doc|);
    hide AllStored, DownloadsAt;
    forall i | Untroubled(again) && 0 <= i < |doc| && FateAt(h, up, stored, doc, races, i).Mirrored?
      ensures FateAt(h, again, later, doc, quiet, i).Unchanged?
    {
      MirroredThenUnchanged(h, up, again, stored, doc, races, later, quiet, i);
    }
  }

  lemma MirroredThenUnchanged(h: Hashes, up: Upstream, again: Upstream, stored: Rows, doc: seq<Listed>,
          races: seq<seq<Insert>>,
                              later: Rows, quiet: seq<seq<Insert>>, i: nat)
    requires |quiet| == |doc| == |races| && i < |doc| && again.allowed == up.allowed
    requires Kept(RowsAt(h, up, stored, doc, races, |doc|), later)
    requires FateAt(h, up, stored, doc, races, i).Mirrored? && Untroubled(again)
    ensures FateAt(h, again, later, doc, quiet, i).Unchanged?
  {
    var e := doc[i];
    MirroredIsComplete(h, up, stored, RowsMet(h, up, stored, doc, races, i), e);
    SyncKeeps(h, up, stored, doc, races, i + 1, |doc|);
    hide RowsAfter, AfterInserts, RelativePath;
    assert again.trouble(e.normalized.value).None?;
    hide FillsPath;
    var n := e.normalized.value;
    var at := RowsAt(h, up, stored, doc, races, i + 1);
    assert n in at && at[n] == MirroredRow(h, up, e, up.fetch(e.url.value).value);
    assert n in later && later[n].shasum == at[n].shasum && later[n].reference == at[n].reference;
    hide RowsAt, RowsMet;
  }

  /** With a collision-free digest, "already published" means the very same bytes. */
  lemma SameBlobSameBytes(h: Hashes, rows: Rows, n: string, row: Row, stored: Bytes, sent: Bytes)
    requires forall x, y :: h.sha256(x) == h.sha256(y) ==> x == y
    requires n in rows && rows[n].blob == Some(h.sha256(stored)) && row.blob == Some(h.sha256(sent))
    ensures InsertOutcome(rows, n, row) == if sent == stored then AlreadyPublished else Conflict
  {
  }
}
