/**
 * The snapshot store as values: the metadata table (one row per snapshot,
 * keyed by id), the content directory (one blob per storage path), and
 * whether the database handle is open. Each store operation is a function
 * from the old store and the outcome of the I/O it performs to the new
 * store and the operation's result; the lemmas below state what the store
 * promises about them.
 */
module SnapshotModel {
  import opened ContentHash

  datatype Option<T> = None | Some(value: T)

  /** The metadata record of one snapshot, as the table stores it. */
  datatype Metadata = Metadata(
    id: string,
    name: string,
    originalFilePath: string,
    timestamp: int,
    fileSize: int,
    contentHash: string,
    contentStoragePath: string)

  /** A table row: the record and its insertion number (a never-reused stand-in for the rowid), which orders rows by insertion. */
  datatype Row = Row(rowid: nat, meta: Metadata)

  datatype Error =
    | DatabaseNotInitialized   // "Database not initialized"
    | SnapshotNotFound         // "Snapshot not found"
    | FileSystemError(path: string)
    | ConstraintFailed         // the INSERT met an existing id (PRIMARY KEY)
    | StatementFailed          // any other failure of an INSERT or DELETE

  datatype Result<T> = Ok(value: T) | Err(error: Error)

  /** What reading the source file yields: its text, and its size in bytes as stat reports it. */
  datatype SourceFile = SourceFile(content: string, size: nat)

  /**
   * The whole persistent state: the storage directory, whether the database
   * handle is open, the table, the next insertion number, and the files of the content
   * directory keyed by their path.
   */
  datatype Store = Store(
    storageDir: string,
    open: bool,
    rows: map<string, Row>,
    nextRowid: nat,
    blobs: map<string, string>)

  /**
   * How `writeFileSync(path, content, 'utf8')` ended. It opens the file with
   * the flag `'w'`, which creates or truncates it, and only then writes:
   * `Written` is a write that completed; `OpenFailed` threw before the file
   * was opened (a missing directory, no permission) and leaves it as it was;
   * `CutShort(left)` threw part-way (a full disk, an I/O error) after the
   * truncation, and leaves the file holding `left`, empty or partial.
   */
  datatype WriteOutcome = Written | OpenFailed | CutShort(left: string)

  /** The store after an operation, and what the operation returned. */
  datatype Outcome<T> = Outcome(next: Store, result: Result<T>)

  /** Where the content of snapshot `id` is written. */
  function ContentPath(storageDir: string, id: string): (p: string)
    // every blob lies inside the storage directory
    ensures storageDir <= p
  {
    storageDir + "/content/" + id + ".snapshot"
  }

  /** The id can be read back from its content path: it sits between `<storageDir>/content/` and `.snapshot`. */
  lemma ContentPathNamesId(storageDir: string, id: string)
    ensures var p := ContentPath(storageDir, id);
      |p| == |storageDir| + |id| + 18 && p[|storageDir| + 9..|p| - 9] == id
  {
    var p := ContentPath(storageDir, id);
    assert p == (storageDir + "/content/") + id + ".snapshot";
  }

  /** Distinct ids are stored at distinct paths. */
  lemma ContentPathInjective(storageDir: string, a: string, b: string)
    requires ContentPath(storageDir, a) == ContentPath(storageDir, b)
    ensures a == b
  {
    ContentPathNamesId(storageDir, a);
    ContentPathNamesId(storageDir, b);
  }

  /**
   * The table invariant: every row is stored under its own id, records the
   * content path derived from that id, and has a rowid of its own below the
   * next one to be handed out.
   */
  ghost predicate Valid(st: Store)
  {
    && (forall id :: id in st.rows ==>
          && st.rows[id].meta.id == id
          && st.rows[id].meta.contentStoragePath == ContentPath(st.storageDir, id)
          && st.rows[id].rowid < st.nextRowid)
    && (forall a, b :: a in st.rows && b in st.rows && a != b ==> st.rows[a].rowid != st.rows[b].rowid)
  }

  /** No record points at a blob that is not there. */
  ghost predicate Consistent(st: Store)
  {
    Valid(st) && forall id :: id in st.rows ==> st.rows[id].meta.contentStoragePath in st.blobs
  }

  // ---------------------------------------------------------------------
  // The operations
  // ---------------------------------------------------------------------

  /** A store that has never held a snapshot, with no database handle. */
  function Empty(storageDir: string): Store
  {
    Store(storageDir, false, map[], 0, map[])
  }

  /** Opening the database: the table and the content directory are kept. */
  function Initialize(st: Store): Store
  {
    st.(open := true)
  }

  /** Closing the database handle, if there is one. */
  function Close(st: Store): Store
  {
    st.(open := false)
  }

  /**
   * Taking a snapshot of `filePath` named `name`, with the caller-chosen
   * `id` and timestamp `now`. `source` is what reading the file gave (None
   * when it could not be read); `write` is how writing the blob ended, and
   * `insertFails` says whether the INSERT hit a database error.
   */
  function Save(st: Store, filePath: string, name: string, source: Option<SourceFile>,
                id: string, now: int, write: WriteOutcome, insertFails: bool): (out: Outcome<string>)
    // the directory and the handle are untouched, and success returns the chosen id
    ensures out.next.storageDir == st.storageDir && out.next.open == st.open
    ensures out.result.Ok? ==> out.result.value == id
  {
    if !st.open then Outcome(st, Err(DatabaseNotInitialized))
    else if source.None? then Outcome(st, Err(FileSystemError(filePath)))
    else
      var path := ContentPath(st.storageDir, id);
      if write.OpenFailed? then Outcome(st, Err(FileSystemError(path)))
      else if write.CutShort? then Outcome(WriteBlob(st, path, write.left), Err(FileSystemError(path)))
      else
        var written := WriteBlob(st, path, source.value.content);
        if id in st.rows then Outcome(written, Err(ConstraintFailed))
        else if insertFails then Outcome(written, Err(StatementFailed))
        else
          var meta := Metadata(id, name, filePath, now, source.value.size,
                               ContentHashOf(source.value.content), path);
          Outcome(InsertRow(written, id, meta), Ok(id))
  }

  /** `writeFileSync(path, content)`: the file at `path` now holds `content`. */
  function WriteBlob(st: Store, path: string, content: string): Store
  {
    st.(blobs := st.blobs[path := content])
  }

  /** The INSERT: `meta` is stored under `id` with the next insertion number. */
  function InsertRow(st: Store, id: string, meta: Metadata): Store
  {
    st.(rows := st.rows[id := Row(st.nextRowid, meta)], nextRowid := st.nextRowid + 1)
  }

  /**
   * The content of snapshot `id`, read from the path its record names.
   * `readFails` says whether reading a blob that is there threw (it is
   * unreadable, a directory, or the disk failed).
   */
  function ReadContent(st: Store, id: string, readFails: bool): (r: Result<string>)
    // content comes only from a known snapshot on an open handle, and is one of the stored files
    ensures r.Ok? ==> st.open && id in st.rows && !readFails && r.value in st.blobs.Values
  {
    if !st.open then Err(DatabaseNotInitialized)
    else if id !in st.rows then Err(SnapshotNotFound)
    else
      var path := st.rows[id].meta.contentStoragePath;
      if path in st.blobs && !readFails then Ok(st.blobs[path]) else Err(FileSystemError(path))
  }

  /**
   * Deleting snapshot `id`. `deleteFails` says whether the DELETE hit a
   * database error; `unlinkFails` whether removing the blob threw, which the
   * store only logs.
   */
  function Delete(st: Store, id: string, deleteFails: bool, unlinkFails: bool): (out: Outcome<()>)
    // a delete succeeds exactly for a known id on an open handle when the DELETE runs
    ensures out.result.Ok? <==> st.open && id in st.rows && !deleteFails
    // it never adds a record, never reopens or moves the store, and never hands out an insertion number
    ensures out.next.storageDir == st.storageDir && out.next.open == st.open
    ensures out.next.rows.Keys <= st.rows.Keys && out.next.nextRowid == st.nextRowid
    ensures out.result.Ok? ==> out.next.rows.Keys == st.rows.Keys - {id}
    // a delete that fails changes nothing
    ensures out.result.Err? ==> out.next == st
  {
    if !st.open then Outcome(st, Err(DatabaseNotInitialized))
    else if id !in st.rows then Outcome(st, Err(SnapshotNotFound))
    else if deleteFails then Outcome(st, Err(StatementFailed))
    else
      var path := st.rows[id].meta.contentStoragePath;
      var removed := st.(rows := st.rows - {id});
      if path in st.blobs && !unlinkFails then Outcome(removed.(blobs := st.blobs - {path}), Ok(()))
      else Outcome(removed, Ok(()))
  }

  // ---------------------------------------------------------------------
  // Listings: exact-path filter, newest first
  // ---------------------------------------------------------------------

  /** Whether a record passes the listing's filter (None lists every record). */
  predicate Selected(filter: Option<string>, m: Metadata)
  {
    filter.None? || m.originalFilePath == filter.value
  }

  /** `a` comes before `b`: a later timestamp, or the same one and inserted later. */
  predicate Newer(a: Row, b: Row)
  {
    a.meta.timestamp > b.meta.timestamp ||
    (a.meta.timestamp == b.meta.timestamp && a.rowid > b.rowid)
  }

  /**
   * `r` lists exactly the selected records of the table, each once, in
   * descending timestamp order (ties: most recently inserted first).
   */
  ghost predicate IsListing(st: Store, filter: Option<string>, r: seq<Metadata>)
  {
    && (forall i :: 0 <= i < |r| ==>
          r[i].id in st.rows && st.rows[r[i].id].meta == r[i] && Selected(filter, r[i]))
    && (forall id :: id in st.rows && Selected(filter, st.rows[id].meta) ==> st.rows[id].meta in r)
    && (forall i, j :: 0 <= i < j < |r| ==> Newer(st.rows[r[i].id], st.rows[r[j].id]))
  }

  /** Rows in strictly decreasing recency. */
  predicate RowsSorted(s: seq<Row>)
  {
    forall i, j :: 0 <= i < j < |s| ==> Newer(s[i], s[j])
  }

  /** Places `x` in a recency-sorted sequence of rows. */
  function InsertByRecency(s: seq<Row>, x: Row): seq<Row>
  {
    if s == [] then [x]
    else if Newer(x, s[0]) then [x] + s
    else [s[0]] + InsertByRecency(s[1..], x)
  }

  lemma {:induction false} InsertByRecencyCorrect(s: seq<Row>, x: Row)
    requires RowsSorted(s)
    requires forall i :: 0 <= i < |s| ==> s[i].rowid != x.rowid
    ensures RowsSorted(InsertByRecency(s, x))
    ensures forall y :: y in InsertByRecency(s, x) <==> y in s || y == x
    decreases |s|
  {
    if s != [] && !Newer(x, s[0]) {
      var t := InsertByRecency(s[1..], x);
      InsertByRecencyCorrect(s[1..], x);
      assert Newer(s[0], x);
      assert InsertByRecency(s, x) == [s[0]] + t;
      forall j | 0 <= j < |t| ensures Newer(s[0], t[j]) {
        assert t[j] in s[1..] || t[j] == x;
      }
    }
  }

  /** The records of a sequence of rows, in the same order. */
  function Records(s: seq<Row>): seq<Metadata>
  {
    seq(|s|, i requires 0 <= i < |s| => s[i].meta)
  }

  /**
   * A selection in progress: `acc` holds, newest first, exactly the selected
   * rows whose ids are no longer in `todo`.
   */
  ghost predicate SelectedSoFar(st: Store, filter: Option<string>, todo: set<string>, acc: seq<Row>)
  {
    && todo <= st.rows.Keys
    && RowsSorted(acc)
    && (forall i :: 0 <= i < |acc| ==>
          acc[i].meta.id in st.rows && acc[i].meta.id !in todo &&
          st.rows[acc[i].meta.id] == acc[i] && Selected(filter, acc[i].meta))
    && (forall k :: k in st.rows && k !in todo && Selected(filter, st.rows[k].meta) ==> st.rows[k] in acc)
  }

  lemma SelectedSoFarInitially(st: Store, filter: Option<string>)
    ensures SelectedSoFar(st, filter, st.rows.Keys, [])
  {
  }

  /** Taking row `k` off `todo`, and inserting it when it is selected, keeps the selection right. */
  lemma SelectedSoFarStep(st: Store, filter: Option<string>, todo: set<string>, acc: seq<Row>, k: string)
    requires Valid(st) && SelectedSoFar(st, filter, todo, acc) && k in todo
    ensures SelectedSoFar(st, filter, todo - {k},
                          if Selected(filter, st.rows[k].meta) then InsertByRecency(acc, st.rows[k]) else acc)
  {
    if Selected(filter, st.rows[k].meta) {
      var x := st.rows[k];
      assert x.meta.id == k;
      InsertByRecencyCorrect(acc, x);
      var acc' := InsertByRecency(acc, x);
      forall i | 0 <= i < |acc'|
        ensures acc'[i].meta.id in st.rows && acc'[i].meta.id !in todo - {k}
        ensures st.rows[acc'[i].meta.id] == acc'[i] && Selected(filter, acc'[i].meta)
      {
        assert acc'[i] in acc || acc'[i] == x;
      }
    }
  }

  /** Once every row was looked at, the records of the selection are a listing. */
  lemma SelectedSoFarDone(st: Store, filter: Option<string>, acc: seq<Row>)
    requires SelectedSoFar(st, filter, {}, acc)
    ensures IsListing(st, filter, Records(acc))
  {
    var r := Records(acc);
    forall k | k in st.rows && Selected(filter, st.rows[k].meta) ensures st.rows[k].meta in r {
      var i :| 0 <= i < |acc| && acc[i] == st.rows[k];
      assert r[i] == st.rows[k].meta;
    }
  }

  // ---------------------------------------------------------------------
  // Lifecycle and the database null-guard
  // ---------------------------------------------------------------------

  /** A new store is consistent and refuses every operation until it is initialized. */
  lemma EmptyIsConsistentAndClosed(storageDir: string)
    ensures Consistent(Empty(storageDir)) && !Empty(storageDir).open
  {
  }

  /** Closing twice is closing once; closing after initializing keeps every snapshot. */
  lemma CloseIdempotent(st: Store)
    ensures Close(Close(st)) == Close(st)
    ensures Close(Initialize(st)).rows == st.rows && Close(Initialize(st)).blobs == st.blobs
  {
  }

  /** With no database handle, every operation fails with "Database not initialized" and changes nothing. */
  lemma ClosedStoreRefusesEverything(st: Store, filePath: string, name: string, source: Option<SourceFile>,
                                     id: string, now: int, write: WriteOutcome, insertFails: bool,
                                     readFails: bool, deleteFails: bool, unlinkFails: bool)
    requires !st.open
    ensures Save(st, filePath, name, source, id, now, write, insertFails) == Outcome(st, Err(DatabaseNotInitialized))
    ensures ReadContent(st, id, readFails) == Err(DatabaseNotInitialized)
    ensures Delete(st, id, deleteFails, unlinkFails) == Outcome(st, Err(DatabaseNotInitialized))
  {
  }

  /** Opening and closing the handle preserve the invariants. */
  lemma InitializeAndClosePreserveConsistent(st: Store)
    requires Consistent(st)
    ensures Consistent(Initialize(st)) && Consistent(Close(st))
  {
  }

  // ---------------------------------------------------------------------
  // saveSnapshot
  // ---------------------------------------------------------------------

  /**
   * A save succeeds exactly when the handle is open, the source file could be
   * read, the blob could be written, the id is not taken and the INSERT ran;
   * on success it returns the id.
   */
  lemma SaveSucceedsIff(st: Store, filePath: string, name: string, source: Option<SourceFile>,
                        id: string, now: int, write: WriteOutcome, insertFails: bool)
    ensures var out := Save(st, filePath, name, source, id, now, write, insertFails);
      && (out.result.Ok? <==> st.open && source.Some? && write == Written && id !in st.rows && !insertFails)
      && (out.result.Ok? ==> out.result.value == id)
  {
  }

  /** Reading a snapshot back yields exactly the content that was read from the file. */
  lemma SaveThenRead(st: Store, filePath: string, name: string, content: string, size: nat,
                     id: string, now: int)
    requires st.open && id !in st.rows
    ensures var out := Save(st, filePath, name, Some(SourceFile(content, size)), id, now, Written, false);
      out.result == Ok(id) && ReadContent(out.next, id, false) == Ok(content)
  {
  }

  /**
   * A successful save adds exactly one record, under the returned id, holding
   * the name, the path, the timestamp, the size, the content hash and the
   * derived storage path; it is the newest row by insertion; every existing
   * record is unchanged.
   */
  lemma SaveAddsOneRecord(st: Store, filePath: string, name: string, source: SourceFile,
                          id: string, now: int)
    requires st.open && id !in st.rows
    ensures var out := Save(st, filePath, name, Some(source), id, now, Written, false);
      && out.result == Ok(id)
      && out.next.rows.Keys == st.rows.Keys + {id}
      && out.next.rows[id].meta == Metadata(id, name, filePath, now, source.size,
                                            ContentHashOf(source.content),
                                            st.storageDir + "/content/" + id + ".snapshot")
      && out.next.rows[id].rowid == st.nextRowid && out.next.nextRowid == st.nextRowid + 1
      && (forall k :: k in st.rows ==> out.next.rows[k] == st.rows[k])
  {
  }

  /**
   * A failed save never adds or changes a record. A failure of the INSERT
   * comes after the blob was written, and then that blob stays; a write cut
   * short leaves what it wrote; otherwise nothing changes.
   */
  lemma SaveFailureChangesNoRecord(st: Store, filePath: string, name: string, source: Option<SourceFile>,
                                   id: string, now: int, write: WriteOutcome, insertFails: bool)
    requires Save(st, filePath, name, source, id, now, write, insertFails).result.Err?
    ensures var out := Save(st, filePath, name, source, id, now, write, insertFails);
      && out.next.rows == st.rows
      && out.next.open == st.open
      && (if st.open && source.Some? && write == Written
          then out.next.blobs == st.blobs[ContentPath(st.storageDir, id) := source.value.content]
          else if st.open && source.Some? && write.CutShort?
          then out.next.blobs == st.blobs[ContentPath(st.storageDir, id) := write.left]
          else out.next == st)
  {
  }

  /**
   * When the INSERT fails for a fresh id, the blob is left behind as an orphan:
   * present in the content directory, named by no record.
   */
  lemma FailedInsertLeavesOrphan(st: Store, filePath: string, name: string, source: Option<SourceFile>,
                                 id: string, now: int)
    requires Valid(st) && st.open && source.Some? && id !in st.rows
    ensures var out := Save(st, filePath, name, source, id, now, Written, true);
      && out.result == Err(StatementFailed)
      && ContentPath(st.storageDir, id) in out.next.blobs
      && (forall k :: k in out.next.rows ==> out.next.rows[k].meta.contentStoragePath != ContentPath(st.storageDir, id))
  {
    var path := ContentPath(st.storageDir, id);
    forall k | k in st.rows ensures st.rows[k].meta.contentStoragePath != path {
      if st.rows[k].meta.contentStoragePath == path {
        ContentPathInjective(st.storageDir, k, id);
      }
    }
  }

  /**
   * An id that is already taken is refused by the PRIMARY KEY, but only after
   * the blob has been written: the existing snapshot's content is replaced.
   */
  lemma SaveWithTakenIdReplacesContent(st: Store, filePath: string, name: string, content: string,
                                       size: nat, id: string, now: int, insertFails: bool)
    requires Valid(st) && st.open && id in st.rows
    ensures var out := Save(st, filePath, name, Some(SourceFile(content, size)), id, now, Written, insertFails);
      && out.result == Err(ConstraintFailed)
      && out.next.rows == st.rows
      && ReadContent(out.next, id, false) == Ok(content)
  {
  }

  /**
   * A write that fails part-way has already truncated the file: the save
   * fails on the content path and adds no record, but a taken id's snapshot
   * now reads as what was left, and a fresh id leaves that partial file
   * behind as an orphan.
   */
  lemma CutShortWriteTruncates(st: Store, filePath: string, name: string, source: SourceFile,
                               id: string, now: int, left: string, insertFails: bool)
    requires Valid(st) && st.open
    ensures var out := Save(st, filePath, name, Some(source), id, now, CutShort(left), insertFails);
      && out.result == Err(FileSystemError(ContentPath(st.storageDir, id)))
      && out.next.rows == st.rows
      && (id in st.rows ==> ReadContent(out.next, id, false) == Ok(left))
      && (id !in st.rows ==>
            && ContentPath(st.storageDir, id) in out.next.blobs
            && forall k :: k in out.next.rows ==> out.next.rows[k].meta.contentStoragePath != ContentPath(st.storageDir, id))
  {
    var path := ContentPath(st.storageDir, id);
    forall k | k in st.rows && k != id ensures st.rows[k].meta.contentStoragePath != path {
      if st.rows[k].meta.contentStoragePath == path {
        ContentPathInjective(st.storageDir, k, id);
      }
    }
  }

  /** Saving leaves the content of every other snapshot as it was, whatever the outcome. */
  lemma SaveKeepsOtherContents(st: Store, filePath: string, name: string, source: Option<SourceFile>,
                               id: string, now: int, write: WriteOutcome, insertFails: bool, other: string,
                               readFails: bool)
    requires Valid(st) && other != id
    ensures ReadContent(Save(st, filePath, name, source, id, now, write, insertFails).next, other, readFails)
            == ReadContent(st, other, readFails)
  {
    if other in st.rows && st.open && source.Some? && !write.OpenFailed? {
      if st.rows[other].meta.contentStoragePath == ContentPath(st.storageDir, id) {
        ContentPathInjective(st.storageDir, other, id);
      }
    }
  }

  /** Saving keeps the table invariant and never leaves a record without its blob. */
  lemma SavePreservesConsistent(st: Store, filePath: string, name: string, source: Option<SourceFile>,
                                id: string, now: int, write: WriteOutcome, insertFails: bool)
    requires Valid(st)
    ensures var next := Save(st, filePath, name, source, id, now, write, insertFails).next;
      Valid(next) && (Consistent(st) ==> Consistent(next))
  {
    var next := Save(st, filePath, name, source, id, now, write, insertFails).next;
    if st.open && source.Some? && write.CutShort? {
      var path := ContentPath(st.storageDir, id);
      WriteBlobPreservesConsistent(st, path, write.left);
      assert next == WriteBlob(st, path, write.left);
    } else if st.open && source.Some? && write == Written {
      var path := ContentPath(st.storageDir, id);
      var written := WriteBlob(st, path, source.value.content);
      WriteBlobPreservesConsistent(st, path, source.value.content);
      if id !in st.rows && !insertFails {
        var meta := Metadata(id, name, filePath, now, source.value.size, ContentHashOf(source.value.content), path);
        InsertRowPreservesConsistent(written, id, meta);
        assert next == InsertRow(written, id, meta);
      } else {
        assert next == written;
      }
    } else {
      assert next == st;
    }
  }

  /** Writing a file into the content directory keeps the invariants. */
  lemma WriteBlobPreservesConsistent(st: Store, path: string, content: string)
    requires Valid(st)
    ensures Valid(WriteBlob(st, path, content))
    ensures Consistent(st) ==> Consistent(WriteBlob(st, path, content))
  {
  }

  /** Inserting a fresh record that names its own blob keeps the invariants. */
  lemma InsertRowPreservesConsistent(st: Store, id: string, meta: Metadata)
    requires Valid(st) && id !in st.rows
    requires meta.id == id && meta.contentStoragePath == ContentPath(st.storageDir, id)
    ensures var next := InsertRow(st, id, meta);
      Valid(next) && (Consistent(st) && meta.contentStoragePath in st.blobs ==> Consistent(next))
  {
  }

  /** Two saves that both succeed return different ids, even for the same file and content. */
  lemma SuccessiveSavesHaveDistinctIds(st: Store, filePath: string, name1: string, name2: string,
                                       source: Option<SourceFile>, id1: string, id2: string,
                                       t1: int, t2: int, write1: WriteOutcome, write2: WriteOutcome,
                                       insertFails1: bool, insertFails2: bool)
    ensures var out1 := Save(st, filePath, name1, source, id1, t1, write1, insertFails1);
      var out2 := Save(out1.next, filePath, name2, source, id2, t2, write2, insertFails2);
      out1.result == Ok(id1) && out2.result == Ok(id2) ==> id1 != id2
  {
  }

  // ---------------------------------------------------------------------
  // getSnapshotContent
  // ---------------------------------------------------------------------

  /**
   * Reading an id the table does not hold fails with "Snapshot not found". A
   * known id reads successfully exactly when its blob is there and the read
   * does not throw, and otherwise fails on the file its record names; in a
   * consistent store only a throwing read can fail.
   */
  lemma ReadContentErrors(st: Store, id: string, readFails: bool)
    requires st.open
    ensures id !in st.rows ==> ReadContent(st, id, readFails) == Err(SnapshotNotFound)
    ensures id in st.rows ==>
              var path := st.rows[id].meta.contentStoragePath;
              && (ReadContent(st, id, readFails).Ok? <==> path in st.blobs && !readFails)
              && (ReadContent(st, id, readFails).Err? ==> ReadContent(st, id, readFails) == Err(FileSystemError(path)))
    ensures Consistent(st) && id in st.rows ==> (ReadContent(st, id, readFails).Ok? <==> !readFails)
  {
  }

  // ---------------------------------------------------------------------
  // deleteSnapshot
  // ---------------------------------------------------------------------

  /** A DELETE that hits a database error leaves the store as it was, and the delete fails. */
  lemma DeleteFailureChangesNothing(st: Store, id: string, unlinkFails: bool)
    ensures Delete(st, id, true, unlinkFails).result.Err?
    ensures Delete(st, id, true, unlinkFails).next == st
  {
  }

  /** Deleting an unknown id fails with "Snapshot not found" and changes nothing. */
  lemma DeleteUnknownChangesNothing(st: Store, id: string, deleteFails: bool, unlinkFails: bool)
    requires st.open && id !in st.rows
    ensures Delete(st, id, deleteFails, unlinkFails) == Outcome(st, Err(SnapshotNotFound))
  {
  }

  /**
   * Deleting a known id succeeds even when the blob cannot be removed: the
   * record is gone, reading it fails with "Snapshot not found", every other
   * snapshot and its content is unchanged, and the blob is removed unless
   * unlinking it failed.
   */
  lemma DeleteRemovesSnapshot(st: Store, id: string, unlinkFails: bool, readFails: bool)
    requires Valid(st) && st.open && id in st.rows
    ensures var out := Delete(st, id, false, unlinkFails);
      && out.result == Ok(())
      && out.next.rows.Keys == st.rows.Keys - {id}
      && ReadContent(out.next, id, readFails) == Err(SnapshotNotFound)
      && (forall k :: k in st.rows && k != id ==>
            out.next.rows[k] == st.rows[k] && ReadContent(out.next, k, readFails) == ReadContent(st, k, readFails))
      && (!unlinkFails ==> ContentPath(st.storageDir, id) !in out.next.blobs)
  {
    var path := ContentPath(st.storageDir, id);
    forall k | k in st.rows && k != id ensures st.rows[k].meta.contentStoragePath != path {
      if st.rows[k].meta.contentStoragePath == path {
        ContentPathInjective(st.storageDir, k, id);
      }
    }
  }

  /** Deleting keeps the table invariant and never leaves a record without its blob. */
  lemma DeletePreservesConsistent(st: Store, id: string, deleteFails: bool, unlinkFails: bool)
    requires Valid(st)
    ensures var next := Delete(st, id, deleteFails, unlinkFails).next;
      Valid(next) && (Consistent(st) ==> Consistent(next))
  {
    if st.open && id in st.rows {
      var path := st.rows[id].meta.contentStoragePath;
      forall k | k in st.rows && k != id ensures st.rows[k].meta.contentStoragePath != path {
        if st.rows[k].meta.contentStoragePath == path {
          ContentPathInjective(st.storageDir, k, id);
        }
      }
    }
  }

  // ---------------------------------------------------------------------
  // getSnapshotsForFile and getAllSnapshots
  // ---------------------------------------------------------------------

  /** The table without the row of `id`. */
  function WithoutRow(st: Store, id: string): Store
  {
    st.(rows := st.rows - {id})
  }

  lemma ListingTail(st: Store, filter: Option<string>, r: seq<Metadata>)
    requires Valid(st) && IsListing(st, filter, r) && r != []
    ensures Valid(WithoutRow(st, r[0].id)) && IsListing(WithoutRow(st, r[0].id), filter, r[1..])
  {
    var st' := WithoutRow(st, r[0].id);
    var t := r[1..];
    forall i | 0 <= i < |t| ensures t[i].id in st'.rows && st'.rows[t[i].id] == st.rows[t[i].id] {
      assert Newer(st.rows[r[0].id], st.rows[r[i + 1].id]);
    }
    forall id | id in st'.rows && Selected(filter, st'.rows[id].meta) ensures st'.rows[id].meta in t {
      var m := st.rows[id].meta;
      assert m in r;
      var i :| 0 <= i < |r| && r[i] == m;
      assert i != 0;
      assert t[i - 1] == m;
    }
    forall i, j | 0 <= i < j < |t| ensures Newer(st'.rows[t[i].id], st'.rows[t[j].id]) {
      assert Newer(st.rows[r[i + 1].id], st.rows[r[j + 1].id]);
    }
  }

  /** Two listings of the same table and filter start with the same record. */
  lemma ListingHeadsAgree(st: Store, filter: Option<string>, r1: seq<Metadata>, r2: seq<Metadata>)
    requires IsListing(st, filter, r1) && IsListing(st, filter, r2)
    ensures r1 == [] <==> r2 == []
    ensures r1 != [] ==> r1[0] == r2[0]
  {
    if r1 != [] {
      assert st.rows[r1[0].id].meta in r2;
    }
    if r2 != [] {
      assert st.rows[r2[0].id].meta in r1;
    }
    if r1 != [] && r2 != [] {
      var i :| 0 <= i < |r1| && r1[i] == r2[0];
      var j :| 0 <= j < |r2| && r2[j] == r1[0];
      if i != 0 {
        assert Newer(st.rows[r1[0].id], st.rows[r1[i].id]);
        assert j == 0;
      }
    }
  }

  /** A listing is determined by the table and the filter: there is exactly one order. */
  lemma {:induction false} ListingUnique(st: Store, filter: Option<string>, r1: seq<Metadata>, r2: seq<Metadata>)
    requires Valid(st) && IsListing(st, filter, r1) && IsListing(st, filter, r2)
    ensures r1 == r2
    decreases |r1|
  {
    ListingHeadsAgree(st, filter, r1, r2);
    if r1 != [] {
      var rest := WithoutRow(st, r1[0].id);
      ListingTail(st, filter, r1);
      ListingTail(st, filter, r2);
      ListingUnique(rest, filter, r1[1..], r2[1..]);
      SameHeadAndTail(r1, r2);
    }
  }

  lemma SameHeadAndTail<T>(a: seq<T>, b: seq<T>)
    requires a != [] && b != [] && a[0] == b[0] && a[1..] == b[1..]
    ensures a == b
  {
    assert a == [a[0]] + a[1..];
    assert b == [b[0]] + b[1..];
  }

  /**
   * A table whose only selected rows are `a` and `b`, `a` the newer, has
   * exactly one listing: `a` then `b`.
   */
  lemma ListingOfTwo(st: Store, filter: Option<string>, a: string, b: string)
    requires Valid(st) && a in st.rows && b in st.rows && a != b
    requires Selected(filter, st.rows[a].meta) && Selected(filter, st.rows[b].meta)
    requires Newer(st.rows[a], st.rows[b])
    requires forall k :: k in st.rows && Selected(filter, st.rows[k].meta) ==> k == a || k == b
    ensures IsListing(st, filter, [st.rows[a].meta, st.rows[b].meta])
    ensures forall r: seq<Metadata> :: IsListing(st, filter, r) ==> r == [st.rows[a].meta, st.rows[b].meta]
  {
    var expected := [st.rows[a].meta, st.rows[b].meta];
    forall k | k in st.rows && Selected(filter, st.rows[k].meta) ensures st.rows[k].meta in expected {
      assert k == a || k == b;
    }
    forall r: seq<Metadata> | IsListing(st, filter, r) ensures r == expected {
      ListingUnique(st, filter, r, expected);
    }
  }

  /**
   * Two successful saves of a file with no earlier snapshots leave exactly two
   * records of it, the second one the newer.
   */
  lemma TwoSavesOfNewFile(st: Store, filePath: string, s1: SourceFile, s2: SourceFile,
                          id1: string, id2: string, t1: int, t2: int)
    requires Valid(st) && st.open && forall k :: k in st.rows ==> st.rows[k].meta.originalFilePath != filePath
    requires id1 !in st.rows && id2 !in st.rows && id1 != id2
    requires t1 <= t2
    ensures var out1 := Save(st, filePath, "v1", Some(s1), id1, t1, Written, false);
      var out2 := Save(out1.next, filePath, "v2", Some(s2), id2, t2, Written, false);
      var rows := out2.next.rows;
      && out1.result == Ok(id1) && out2.result == Ok(id2)
      && Valid(out2.next) && id1 in rows && id2 in rows
      && rows[id1].meta.name == "v1" && rows[id2].meta.name == "v2"
      && Selected(Some(filePath), rows[id1].meta) && Selected(Some(filePath), rows[id2].meta)
      && Newer(rows[id2], rows[id1])
      && forall k :: k in rows && Selected(Some(filePath), rows[k].meta) ==> k == id2 || k == id1
  {
    var st1 := Save(st, filePath, "v1", Some(s1), id1, t1, Written, false).next;
    SaveAddsOneRecord(st, filePath, "v1", s1, id1, t1);
    SaveAddsOneRecord(st1, filePath, "v2", s2, id2, t2);
    SavePreservesConsistent(st, filePath, "v1", Some(s1), id1, t1, Written, false);
    SavePreservesConsistent(st1, filePath, "v2", Some(s2), id2, t2, Written, false);
  }

  /**
   * Two snapshots "v1" then "v2" of a file with no earlier snapshots: both
   * saves succeed, and the only listing of the file is v2 then v1.
   */
  lemma TwoSnapshotsListedNewestFirst(st: Store, filePath: string, s1: SourceFile, s2: SourceFile,
                                      id1: string, id2: string, t1: int, t2: int)
    requires Valid(st) && st.open && forall k :: k in st.rows ==> st.rows[k].meta.originalFilePath != filePath
    requires id1 !in st.rows && id2 !in st.rows && id1 != id2
    requires t1 <= t2
    ensures var out1 := Save(st, filePath, "v1", Some(s1), id1, t1, Written, false);
      var out2 := Save(out1.next, filePath, "v2", Some(s2), id2, t2, Written, false);
      && out1.result == Ok(id1) && out2.result == Ok(id2)
      && forall r: seq<Metadata> :: IsListing(out2.next, Some(filePath), r) ==>
           |r| == 2 && r[0].name == "v2" && r[1].name == "v1" && r[0].id == id2 && r[1].id == id1
  {
    var st1 := Save(st, filePath, "v1", Some(s1), id1, t1, Written, false).next;
    var st2 := Save(st1, filePath, "v2", Some(s2), id2, t2, Written, false).next;
    TwoSavesOfNewFile(st, filePath, s1, s2, id1, id2, t1, t2);
    ListingOfTwo(st2, Some(filePath), id2, id1);
  }
}
