/**
 * The snapshot store as the object the extension holds: the database
 * handle (open or null), the metadata table, the next insertion number and the
 * content directory are fields that its methods update in place. The
 * state-changing methods and the read are proved against the function of
 * the same operation in SnapshotModel, whose lemmas carry the store's
 * guarantees over; the listings against the predicate IsListing, and the
 * hash against ContentHashOf.
 */
module SnapshotManager {
  import opened JsRuntime
  import opened ContentHash
  import opened SnapshotModel

  class SnapshotManager {
    /** `<workspace>/.vscode/snapshots`. */
    const storageDir: string
    /** Whether `db` holds a handle (the null-guard of every public operation). */
    var open: bool
    /** The `snapshots` table, by id. */
    var rows: map<string, Row>
    var nextRowid: nat
    /** The files of `<storageDir>/content`, by path. */
    var blobs: map<string, string>

    /** The store these fields represent. */
    function State(): Store
      reads this
    {
      Store(storageDir, open, rows, nextRowid, blobs)
    }

    /** The table invariant, and every record backed by its blob. */
    ghost predicate Valid()
      reads this
    {
      Consistent(State())
    }

    /**
     * A store for the workspace at `workspaceRoot`, before `initialize`. The
     * concatenation stands for `path.join(root, '.vscode', 'snapshots')`,
     * which it matches for a root that does not end in `/`.
     */
    constructor (workspaceRoot: string)
      ensures Valid()
      ensures State() == Empty(workspaceRoot + "/.vscode/snapshots")
    {
      storageDir := workspaceRoot + "/.vscode/snapshots";
      open := false;
      rows := map[];
      nextRowid := 0;
      blobs := map[];
    }

    /** Opens the database; the table and the content directory persist. */
    method Initialize()
      requires Valid()
      modifies this
      ensures Valid()
      ensures State() == SnapshotModel.Initialize(old(State()))
    {
      InitializeAndClosePreserveConsistent(State());
      open := true;
    }

    /**
     * Takes a snapshot: reads the source (`source`), writes the blob, then
     * inserts the record under `id` with timestamp `now`.
     */
    method SaveSnapshot(filePath: string, name: string, source: Option<SourceFile>,
                        id: string, now: int, write: WriteOutcome, insertFails: bool)
      returns (r: Result<string>)
      requires Valid()
      modifies this
      ensures Valid()
      ensures var out := Save(old(State()), filePath, name, source, id, now, write, insertFails);
        State() == out.next && r == out.result
    {
      ghost var out := Save(State(), filePath, name, source, id, now, write, insertFails);
      if !open {
        return Err(DatabaseNotInitialized);
      }
      if source.None? {
        return Err(FileSystemError(filePath));
      }
      var content := source.value.content;
      var contentHash := GenerateHash(content);
      var contentStoragePath := ContentPath(storageDir, id);
      if write.OpenFailed? {
        return Err(FileSystemError(contentStoragePath));
      }
      ghost var before := State();
      SavePreservesConsistent(before, filePath, name, source, id, now, write, insertFails);
      if write.CutShort? {
        blobs := blobs[contentStoragePath := write.left];
        assert State() == WriteBlob(before, contentStoragePath, write.left);
        return Err(FileSystemError(contentStoragePath));
      }
      blobs := blobs[contentStoragePath := content];
      assert State() == WriteBlob(before, contentStoragePath, content);
      var meta := Metadata(id, name, filePath, now, source.value.size, contentHash, contentStoragePath);
      if id in rows {
        assert State() == out.next;
        return Err(ConstraintFailed);
      }
      if insertFails {
        assert State() == out.next;
        return Err(StatementFailed);
      }
      ghost var written := State();
      rows := rows[id := Row(nextRowid, meta)];
      nextRowid := nextRowid + 1;
      assert State() == InsertRow(written, id, meta);
      r := Ok(id);
    }

    /** Every record of `filePath` (exact string match), newest first. */
    method GetSnapshotsForFile(filePath: string) returns (r: Result<seq<Metadata>>)
      requires Valid()
      ensures !open ==> r == Err(DatabaseNotInitialized)
      ensures open ==> r.Ok? && IsListing(State(), Some(filePath), r.value)
    {
      if !open {
        return Err(DatabaseNotInitialized);
      }
      var listing := SelectOrdered(Some(filePath));
      r := Ok(listing);
    }

    /** Every record, newest first. */
    method GetAllSnapshots() returns (r: Result<seq<Metadata>>)
      requires Valid()
      ensures !open ==> r == Err(DatabaseNotInitialized)
      ensures open ==> r.Ok? && IsListing(State(), None, r.value)
    {
      if !open {
        return Err(DatabaseNotInitialized);
      }
      var listing := SelectOrdered(None);
      r := Ok(listing);
    }

    /** `SELECT * ... [WHERE original_file_path = ?] ORDER BY timestamp DESC`. */
    method SelectOrdered(filter: Option<string>) returns (r: seq<Metadata>)
      requires Valid()
      ensures IsListing(State(), filter, r)
    {
      var todo := rows.Keys;
      var acc: seq<Row> := [];
      SelectedSoFarInitially(State(), filter);
      while todo != {}
        invariant SelectedSoFar(State(), filter, todo, acc)
        decreases todo
      {
        var k :| k in todo;
        SelectedSoFarStep(State(), filter, todo, acc, k);
        if Selected(filter, rows[k].meta) {
          acc := InsertByRecency(acc, rows[k]);
        }
        todo := todo - {k};
      }
      SelectedSoFarDone(State(), filter, acc);
      r := Records(acc);
    }

    /**
     * The content of snapshot `id`, read from its recorded storage path;
     * `readFails` says whether that read throws.
     */
    method GetSnapshotContent(snapshotId: string, readFails: bool) returns (r: Result<string>)
      requires Valid()
      ensures r == ReadContent(State(), snapshotId, readFails)
      // a listed snapshot always has its blob, so only a throwing read fails
      ensures open && snapshotId in rows ==> (r.Ok? <==> !readFails)
    {
      if !open {
        return Err(DatabaseNotInitialized);
      }
      if snapshotId !in rows {
        return Err(SnapshotNotFound);
      }
      var path := rows[snapshotId].meta.contentStoragePath;
      if path !in blobs || readFails {
        return Err(FileSystemError(path));
      }
      r := Ok(blobs[path]);
    }

    /** The content hash: the rolling 32-bit hash over the code units, in base 16. */
    static method GenerateHash(content: string) returns (hash: string)
      ensures hash == ContentHashOf(content)
    {
      var units := CodeUnits(content);
      var h := 0;
      for i := 0 to |units|
        invariant h == Hash(units[..i])
      {
        assert units[..i + 1][..i] == units[..i];
        var ch := units[i];
        h := ShiftLeft5(h) - h + ch;
        h := ToInt32(h);
      }
      assert units[..|units|] == units;
      hash := ToRadix16(h);
    }

    /**
     * Deletes snapshot `snapshotId`: removes the record, then the blob if it is
     * there; a failure to remove the blob is only logged.
     */
    method DeleteSnapshot(snapshotId: string, deleteFails: bool, unlinkFails: bool)
      returns (r: Result<()>)
      requires Valid()
      modifies this
      ensures Valid()
      ensures var out := Delete(old(State()), snapshotId, deleteFails, unlinkFails);
        State() == out.next && r == out.result
    {
      DeletePreservesConsistent(State(), snapshotId, deleteFails, unlinkFails);
      if !open {
        return Err(DatabaseNotInitialized);
      }
      if snapshotId !in rows {
        return Err(SnapshotNotFound);
      }
      var contentPath := rows[snapshotId].meta.contentStoragePath;
      if deleteFails {
        return Err(StatementFailed);
      }
      rows := rows - {snapshotId};
      if contentPath in blobs && !unlinkFails {
        blobs := blobs - {contentPath};
      }
      r := Ok(());
    }

    /** Releases the database handle; does nothing when there is none. */
    method Close()
      requires Valid()
      modifies this
      ensures Valid()
      ensures State() == SnapshotModel.Close(old(State()))
    {
      InitializeAndClosePreserveConsistent(State());
      if open {
        open := false;
      }
    }
  }

  /**
   * Walks through one session as the extension drives it: take a snapshot,
   * read it back, list it, delete it, and shut down twice. Its assertions
   * follow from the methods' contracts alone.
   */
  method SessionRoundTrip(workspaceRoot: string, filePath: string, source: SourceFile, id: string, now: int)
  {
    var store := new SnapshotManager(workspaceRoot);
    var before := store.GetAllSnapshots();
    assert before == Err(DatabaseNotInitialized);
    store.Initialize();
    var saved := store.SaveSnapshot(filePath, "v1", Some(source), id, now, Written, false);
    assert saved == Ok(id);
    var content := store.GetSnapshotContent(id, false);
    assert content == Ok(source.content);
    var listed := store.GetSnapshotsForFile(filePath);
    assert listed.Ok? && |listed.value| == 1 && listed.value[0].name == "v1" by {
      ghost var expected := [store.rows[id].meta];
      assert IsListing(store.State(), Some(filePath), expected);
      ListingUnique(store.State(), Some(filePath), listed.value, expected);
    }
    var deleted := store.DeleteSnapshot(id, false, true);
    assert deleted == Ok(());
    content := store.GetSnapshotContent(id, false);
    assert content == Err(SnapshotNotFound);
    var again := store.DeleteSnapshot(id, false, false);
    assert again == Err(SnapshotNotFound);
    store.Close();
    store.Close();
    content := store.GetSnapshotContent(id, false);
    assert content == Err(DatabaseNotInitialized);
  }
}
