# File snapshots: the snapshot store, in Dafny

This project models the persistence core of a VS Code extension. The extension takes point-in-time copies ("snapshots") of single files. The core is `SnapshotManager`, which keeps two things under `<workspace>/.vscode/snapshots`:

- a SQLite table `snapshots` with one metadata row per snapshot, keyed by `id`;
- a content directory with one blob per snapshot at `content/<id>.snapshot`.

The project also models the two file-name helpers of `src/utils/fileUtils.ts`, together with the behaviour of Node's `path.extname` that they depend on.

Modules:

- `JsRuntime` (`js_runtime.dfy`): the JavaScript semantics the code relies on.
  - ToInt32 and `<< 5` on Numbers.
  - Integral `toString(16)`, with a parser as its proved inverse.
  - Strings as UTF-16 code units (`length` and `charCodeAt`).
  - `toLowerCase`, as far as a comparison against the ASCII table keys can observe it.
- `NodePath` (`node_path.dfy`): POSIX `path.extname` as pure functions (trailing separators, base name, last dot, and the dot-file and `..` cases), and the proof that it commutes with lower-casing.
- `FileUtils` (`file_utils.dfy`): `getLanguageFromFilename` with its 28-entry table, and `getFileExtension`.
- `ContentHash` (`content_hash.dfy`): the rolling hash computed by `generateHash`, and a reference polynomial definition proved equal to it modulo 2^32, read as a signed 32-bit value.
- `SnapshotModel` (`snapshot_model.dfy`): the store as a value. It holds the storage directory, whether `db` is open, the table, an insertion counter, and the content directory as a map from path to text. Each row carries the counter value it was inserted under; this stands in for SQLite's rowid as far as the relative order of insertion goes (see "## Left out"). Each operation is a pure function. The failures of reading the source, writing, reading and removing a blob, the INSERT and the DELETE are explicit parameters, and every failure except a failed unlink is an explicit `Err` result (a failed unlink is only logged, and the delete still succeeds); the errors of the SELECT statements are not modelled. The lemmas state the round trip, the record added, the orphan blob, the not-found paths, the "nothing else changes" facts, the ordering of listings, and the database null-guard.
- `SnapshotManager` (`snapshot_manager.dfy`): the class `SnapshotManager`, with these fields as mutable state:
  - the `db` guard as `open`;
  - `rows`, `nextRowid` and `blobs`.

  `Initialize`, `SaveSnapshot`, `GetSnapshotContent`, `DeleteSnapshot` and `Close` are proved against the `SnapshotModel` function of the same operation. The listing methods `GetSnapshotsForFile`, `GetAllSnapshots` and `SelectOrdered` are proved to return a result satisfying the predicate `SnapshotModel.IsListing`, which `SnapshotModel.ListingUnique` shows has exactly one solution. `GenerateHash` is the source's `for` loop, proved to compute `ContentHash.ContentHashOf`. Every method that changes the store keeps the class invariant `Valid()`, which is `SnapshotModel.Consistent`: the table invariant, with every record backed by its blob. The client method `SessionRoundTrip` walks through one session; its assertions follow from the methods' contracts alone.

Inputs the source takes from its environment are parameters of the operations:

- `Date.now()` and the random `generateId` become `now` and `id`.
- The text and stat size of the source file become `source`, which is `None` when the file cannot be read.
- The outcome of `writeFileSync` becomes `write`: `Written`, `OpenFailed` (it threw before opening the file, which stays as it was) or `CutShort(left)` (it threw after the `'w'` flag had truncated the file, which now holds `left`).
- The outcomes of the INSERT, the DELETE and the `unlinkSync` become `insertFails`, `deleteFails` and `unlinkFails`.
- Whether `readFileSync` throws on a blob that is present (an unreadable file, a directory, a disk error) becomes `readFails` of `getSnapshotContent`.

Consequences of the code's order of operations:

- **Taken ids.** `writeFileSync` (line 99) writes the blob before the INSERT (lines 120-131). If a generated id is already taken, the existing snapshot's blob is therefore overwritten first, and then the INSERT fails on the PRIMARY KEY of `id` (line 64). `SnapshotModel.SaveWithTakenIdReplacesContent` proves this. The source relies on random ids to make this unlikely; it does not rule it out.
- **Truncation before writing.** `writeFileSync` (line 99) opens the file with the default flag `'w'`, which empties it before any byte is written. A write that fails part-way therefore leaves an empty or partial file. For a fresh id it is an orphan. For a taken id it replaces the live snapshot's content. `SnapshotModel.CutShortWriteTruncates` proves both.
- **Missing blob on delete.** `deleteSnapshot` skips the unlink without a word when the blob is already missing. It only logs when the unlink throws. Both cases succeed.
- **Text, not bytes.** Content is read and written as UTF-8 text, not raw bytes, so the model's blobs are strings.

## Model

| member | source | states |
|---|---|---|
| `SnapshotManager.SnapshotManager.constructor` | src/SnapshotManager.ts:22-31 | a new store sits at `<workspace>/.vscode/snapshots`, has no database handle, and holds no rows or blobs |
| `SnapshotManager.SnapshotManager.Initialize` | src/SnapshotManager.ts:33-57 | opens the handle and keeps the table and the content directory |
| `SnapshotManager.SnapshotManager.SaveSnapshot` | src/SnapshotManager.ts:85-133 | the new state and the result are those of `SnapshotModel.Save` on the old state, including the truncated file a write cut short leaves; the class invariant is kept |
| `SnapshotManager.SnapshotManager.GetSnapshotsForFile` | src/SnapshotManager.ts:135-162 | fails with "Database not initialized" while closed; otherwise lists exactly the records whose path equals the argument, each once, in descending timestamp order; an empty list when none match |
| `SnapshotManager.SnapshotManager.GetAllSnapshots` | src/SnapshotManager.ts:164-190 | fails while closed; otherwise lists every record once, in descending timestamp order |
| `SnapshotManager.SnapshotManager.SelectOrdered` | src/SnapshotManager.ts:139-143 | the loop over the table returns a listing: only selected records, all of them, each once, strictly newest first (ties by insertion) |
| `SnapshotManager.SnapshotManager.GetSnapshotContent` | src/SnapshotManager.ts:192-213 | returns what `SnapshotModel.ReadContent` gives for the current state and the read's outcome `readFails`: the guard error, "Snapshot not found", the file error for a missing or unreadable blob, or the blob at the recorded path; by the class invariant, for a known id on an open handle it succeeds exactly when the read does not throw |
| `SnapshotManager.SnapshotManager.GenerateHash` | src/SnapshotManager.ts:219-228 | the loop computes `ContentHash.ContentHashOf`: `ContentHash.Hash` over the UTF-16 code units of the content, rendered by `toString(16)` |
| `SnapshotManager.SnapshotManager.DeleteSnapshot` | src/SnapshotManager.ts:230-272 | the new state and the result are those of `SnapshotModel.Delete`; the class invariant is kept |
| `SnapshotManager.SnapshotManager.Close` | src/SnapshotManager.ts:326-335 | clears the handle and changes nothing else, whether or not a handle was held |
| `SnapshotModel.Empty` | src/SnapshotManager.ts:18 | no contract of its own: no handle, no rows, no blobs; `EmptyIsConsistentAndClosed` states its invariants and the constructor ensures it |
| `SnapshotModel.Initialize` | src/SnapshotManager.ts:48-56 | no contract of its own: the handle opens and the table and content directory are kept; `InitializeAndClosePreserveConsistent` and the `Initialize` method rest on it |
| `SnapshotModel.Close` | src/SnapshotManager.ts:326-335 | no contract of its own: only the handle is cleared; `CloseIdempotent` and `ClosedStoreRefusesEverything` state its behaviour |
| `SnapshotModel.WriteBlob` | src/SnapshotManager.ts:99 | no contract of its own: the file at the path now holds the content, or the partial text of a write cut short; `WriteBlobPreservesConsistent`, `FailedInsertLeavesOrphan` and `CutShortWriteTruncates` state its effect |
| `SnapshotModel.InsertRow` | src/SnapshotManager.ts:112-131 | no contract of its own: the record is stored under its id with the next insertion number; `InsertRowPreservesConsistent` and `SaveAddsOneRecord` state its effect |
| `SnapshotModel.Save` | src/SnapshotManager.ts:85-133 | a save never moves the store or changes the handle, and a successful one returns the chosen id; `SaveSucceedsIff`, `SaveAddsOneRecord`, `SaveFailureChangesNoRecord`, `CutShortWriteTruncates` and `SavePreservesConsistent` state the rest |
| `SnapshotModel.ReadContent` | src/SnapshotManager.ts:192-213 | content is returned only for a known id on an open handle when the read does not throw, and it is one of the stored files; `ReadContentErrors` and `SaveThenRead` state the rest |
| `SnapshotModel.Delete` | src/SnapshotManager.ts:230-272 | a delete succeeds exactly for a known id on an open handle when the DELETE runs, and then removes exactly that record; it never adds a record, moves the store, changes the handle or hands out an insertion number |
| `SnapshotModel.SaveSucceedsIff` | src/SnapshotManager.ts:85-131 | a save succeeds exactly when the handle is open, the source could be read, the blob was written in full, the id is not taken and the INSERT ran; on success it returns the id |
| `SnapshotModel.SaveThenRead` | src/SnapshotManager.ts:89-99 | with an open handle and a fresh id, the save returns the id and reading it back yields exactly the content read from the file |
| `SnapshotModel.SaveAddsOneRecord` | src/SnapshotManager.ts:97-130 | a save with an open handle, a readable source and a fresh id returns the id and adds exactly one record under it; the record holds the name, path, timestamp, size, content hash and `<storageDir>/content/<id>.snapshot`; it takes the next insertion number, so it is the newest row by insertion; every existing record is unchanged |
| `SnapshotModel.SaveFailureChangesNoRecord` | src/SnapshotManager.ts:99-131 | a failed save adds and changes no record; if the INSERT fails after the blob was written, the only change is that blob, holding the content; if the write was cut short after truncating, the only change is that blob, holding what was left; if the handle is closed, the source unreadable or the file could not be opened, nothing changes |
| `SnapshotModel.FailedInsertLeavesOrphan` | src/SnapshotManager.ts:99-129 | when the INSERT of a fresh id fails, its blob stays in the content directory and no record names it |
| `SnapshotModel.SaveWithTakenIdReplacesContent` | src/SnapshotManager.ts:97-129 | a taken id makes the INSERT fail on the PRIMARY KEY, after the existing snapshot's content was replaced by the new one |
| `SnapshotModel.CutShortWriteTruncates` | src/SnapshotManager.ts:99 | a write that fails part-way fails the save with the file error of the content path and adds no record; a taken id's snapshot then reads as the partial text, and for a fresh id the partial file is an orphan that no record names |
| `SnapshotModel.SaveKeepsOtherContents` | src/SnapshotManager.ts:97-99 | whatever the outcome, a save leaves the readable content of every other id as it was |
| `SnapshotModel.SavePreservesConsistent` | src/SnapshotManager.ts:99-130 | a save keeps the table invariant and never leaves a record whose blob is missing |
| `SnapshotModel.WriteBlobPreservesConsistent` | src/SnapshotManager.ts:99 | writing a file into the content directory keeps both invariants |
| `SnapshotModel.InsertRowPreservesConsistent` | src/SnapshotManager.ts:120-128 | inserting a fresh record under its own id and path keeps the table invariant, and keeps every record backed by a blob when its blob is there |
| `SnapshotModel.SuccessiveSavesHaveDistinctIds` | src/SnapshotManager.ts:64 | two saves that both succeed, even of the same file, return different ids, whatever their write outcomes |
| `SnapshotModel.ContentPath` | src/SnapshotManager.ts:97-98 | every content path lies inside the storage directory |
| `SnapshotModel.ContentPathNamesId` | src/SnapshotManager.ts:97-98 | the id can be read back from its content path, between `<storageDir>/content/` and `.snapshot` |
| `SnapshotModel.ContentPathInjective` | src/SnapshotManager.ts:97-98 | distinct ids get distinct content paths |
| `SnapshotModel.ReadContentErrors` | src/SnapshotManager.ts:198-209 | an unknown id gives "Snapshot not found"; a known id reads successfully exactly when its blob is present and the read does not throw, and otherwise gives the file error for its recorded path; when every record has its blob, exactly a throwing read fails |
| `SnapshotModel.DeleteFailureChangesNothing` | src/SnapshotManager.ts:252-256 | a DELETE that hits a database error fails the delete and leaves the store unchanged |
| `SnapshotModel.DeleteUnknownChangesNothing` | src/SnapshotManager.ts:243-245 | deleting an unknown id fails with "Snapshot not found" and leaves the store unchanged |
| `SnapshotModel.DeleteRemovesSnapshot` | src/SnapshotManager.ts:248-268 | deleting a known id succeeds even when the unlink fails; the record is gone; reading the id gives "Snapshot not found"; every other record and its content is unchanged; the blob is gone unless the unlink failed |
| `SnapshotModel.DeletePreservesConsistent` | src/SnapshotManager.ts:250-268 | a delete keeps the table invariant and never leaves a record whose blob is missing |
| `SnapshotModel.ClosedStoreRefusesEverything` | src/SnapshotManager.ts:86 | with no handle, save, read and delete fail with "Database not initialized" and change nothing (the listing methods state the same) |
| `SnapshotModel.CloseIdempotent` | src/SnapshotManager.ts:326-335 | closing twice is closing once; closing after initializing keeps every row and blob |
| `SnapshotModel.EmptyIsConsistentAndClosed` | src/SnapshotManager.ts:18 | the initial store satisfies the invariants and has no handle |
| `SnapshotModel.InitializeAndClosePreserveConsistent` | src/SnapshotManager.ts:48-56 | opening and closing the handle keep the invariants |
| `SnapshotModel.Selected` | src/SnapshotManager.ts:141 | no contract of its own: the `WHERE original_file_path = ?` filter, exact string equality, or every record when there is no filter |
| `SnapshotModel.Newer` | src/SnapshotManager.ts:142 | no contract of its own: `ORDER BY timestamp DESC`, with ties by later insertion (see "## Left out") |
| `SnapshotModel.IsListing` | src/SnapshotManager.ts:139-143 | no contract of its own: exactly the selected records, each once, strictly ordered by `Newer`; `ListingUnique` shows at most one exists and `SelectOrdered` builds it |
| `SnapshotModel.ListingUnique` | src/SnapshotManager.ts:139-143 | for a given table and filter there is exactly one listing, so the result of a listing is fully determined |
| `SnapshotModel.ListingHeadsAgree` | src/SnapshotManager.ts:168-171 | two listings of the same table are both empty or start with the same newest record |
| `SnapshotModel.ListingTail` | src/SnapshotManager.ts:168-171 | a listing minus its newest record is the listing of the table without that row |
| `SnapshotModel.InsertByRecencyCorrect` | src/SnapshotManager.ts:142 | inserting a row into a recency-sorted sequence keeps it sorted and adds exactly that row |
| `SnapshotModel.SelectedSoFarInitially` | src/SnapshotManager.ts:139-143 | before any row is looked at, the empty selection is right |
| `SnapshotModel.SelectedSoFarStep` | src/SnapshotManager.ts:139-143 | looking at one more row, and inserting it by recency when it matches the filter, keeps the selection exactly the matching rows seen so far, newest first |
| `SnapshotModel.SelectedSoFarDone` | src/SnapshotManager.ts:139-143 | once every row was looked at, the records of the selection are a listing |
| `SnapshotModel.ListingOfTwo` | src/SnapshotManager.ts:139-143 | when exactly two records match the filter, the only listing is the newer of them then the older |
| `SnapshotModel.TwoSavesOfNewFile` | src/SnapshotManager.ts:97-130 | saving "v1" then "v2" of a file with no earlier snapshots, under fresh ids and non-decreasing times, succeeds twice and leaves exactly those two records of the file, "v2" the newer |
| `SnapshotModel.TwoSnapshotsListedNewestFirst` | src/SnapshotManager.ts:139-143 | after those two saves, every listing of the file is v2 then v1, with their two ids |
| `ContentHash.Step` | src/SnapshotManager.ts:224-225 | one turn of the loop stays in the signed 32-bit range |
| `ContentHash.Hash` | src/SnapshotManager.ts:221-226 | the hash after the loop is a signed 32-bit integer |
| `ContentHash.StepIsMultiplyAdd` | src/SnapshotManager.ts:224-225 | on a 32-bit hash, `((h << 5) - h) + c` then `& itself` equals `h * 31 + c` wrapped to signed 32 bits |
| `ContentHash.PolynomialSnoc` | src/SnapshotManager.ts:222-226 | appending a unit to the reference polynomial multiplies it by 31 and adds the unit |
| `ContentHash.HashIsPolynomial` | src/SnapshotManager.ts:221-226 | the loop's result is the sum of unit_i · 31^(n−1−i), reduced modulo 2^32 into the signed range |
| `ContentHash.ContentHashOf` | src/SnapshotManager.ts:219-228 | the hash string parses back to the loop's signed 32-bit value |
| `ContentHash.Polynomial` | src/SnapshotManager.ts:221-226 | no contract of its own: the reference sum of unit_i · 31^(n−1−i); `PolynomialSnoc` gives its step and `HashIsPolynomial` ties it to the loop |
| `ContentHash.EmptyContentHash` | src/SnapshotManager.ts:221-227 | empty content hashes to "0" |
| `JsRuntime.ToInt32` | src/SnapshotManager.ts:225 | `hash & hash` gives a signed 32-bit integer |
| `JsRuntime.ToInt32Offset` | src/SnapshotManager.ts:225 | ToInt32 changes its argument by a whole multiple of 2^32 |
| `JsRuntime.ToInt32Periodic` | src/SnapshotManager.ts:225 | ToInt32 depends only on its argument modulo 2^32 |
| `JsRuntime.ToInt32OfInt32` | src/SnapshotManager.ts:225 | ToInt32 is the identity on signed 32-bit values |
| `JsRuntime.ShiftLeft5` | src/SnapshotManager.ts:224 | `x << 5` is a signed 32-bit integer |
| `JsRuntime.ShiftLeft5IsTimes32` | src/SnapshotManager.ts:224 | on a 32-bit value, `x << 5` is 32·x minus a multiple of 2^32 |
| `JsRuntime.HexDigit` | src/SnapshotManager.ts:227 | each digit value below 16 is written as a lower-case hex digit |
| `JsRuntime.DigitValue` | src/SnapshotManager.ts:227 | a character is read as a digit value below 16 |
| `JsRuntime.DigitValueOfHexDigit` | src/SnapshotManager.ts:227 | reading a written digit gives its value back |
| `JsRuntime.HexDigits` | src/SnapshotManager.ts:227 | the base-16 digits are lower-case hex digits, at least one, with no leading zero |
| `JsRuntime.ToRadix16` | src/SnapshotManager.ts:227 | the rendering is never empty |
| `JsRuntime.ValueOfDigits` | src/SnapshotManager.ts:227 | no contract of its own: a digit string read by Horner's rule; `ValueOfHexDigits` shows it reads the rendered digits back as the magnitude |
| `JsRuntime.ParseRadix16` | src/SnapshotManager.ts:227 | no contract of its own: the reference inverse of `toString(16)`, a leading `-` then the magnitude; `Radix16RoundTrip` proves it inverts the rendering |
| `JsRuntime.ValueOfHexDigits` | src/SnapshotManager.ts:227 | reading the digits back gives the magnitude |
| `JsRuntime.RoundTripNonNegative` | src/SnapshotManager.ts:227 | a non-negative hash is rendered as digits that parse back to it |
| `JsRuntime.RoundTripNegative` | src/SnapshotManager.ts:227 | a negative hash is rendered as `-` and digits that parse back to it |
| `JsRuntime.Radix16RoundTrip` | src/SnapshotManager.ts:227 | parsing the rendered hash gives back the 32-bit hash, sign included |
| `JsRuntime.Radix16Injective` | src/SnapshotManager.ts:227 | different hashes are rendered as different strings |
| `JsRuntime.CharUnits` | src/SnapshotManager.ts:223 | a character below U+10000 is the single unit of its own value, which is not a surrogate; a character above is a high surrogate then a low surrogate whose pair value is the character; each unit is below 2^16 |
| `JsRuntime.CodeUnits` | src/SnapshotManager.ts:222-223 | the loop visits between |s| and 2·|s| code units, each below 2^16; for a string inside U+0000–U+FFFF there is one unit per character, equal to its value |
| `JsRuntime.CodeUnitsConcat` | src/SnapshotManager.ts:222-223 | the code units of a concatenation are the code units of its parts, in order |
| `JsRuntime.FromCodeUnits` | src/SnapshotManager.ts:223 | decoding UTF-16 never yields more characters than units |
| `JsRuntime.FromCharUnits` | src/SnapshotManager.ts:223 | the units of one character, followed by anything, decode to that character first |
| `JsRuntime.CodeUnitsRoundTrip` | src/SnapshotManager.ts:222-223 | the code units determine the string: decoding them gives it back |
| `JsRuntime.LowerChar` | src/utils/fileUtils.ts:4 | lower-casing neither creates nor removes a `.` or a `/` |
| `JsRuntime.ToLowerCase` | src/utils/fileUtils.ts:4 | lower-casing keeps the length |
| `JsRuntime.ToLowerCaseIdempotent` | src/utils/fileUtils.ts:4 | lower-casing twice is lower-casing once |
| `JsRuntime.ToLowerCaseSlice` | src/utils/fileUtils.ts:4 | lower-casing commutes with slicing |
| `NodePath.TrimTrailingSlashes` | src/utils/fileUtils.ts:39 | the result is a prefix of the path, does not end in `/`, and only `/` was removed |
| `NodePath.LastIndexOf` | src/utils/fileUtils.ts:39 | the position of the last occurrence, or -1 when there is none |
| `NodePath.LastSegment` | src/utils/fileUtils.ts:39 | the base name contains no `/` |
| `NodePath.LastSegmentIsLastPart` | src/utils/fileUtils.ts:39 | the base name ends the trimmed path and is all of it or follows a `/`, so it is exactly what follows the last `/` |
| `NodePath.Extname` | src/utils/fileUtils.ts:39 | the extension is empty or starts with `.`, and is no longer than the base name |
| `NodePath.BaseExtension` | src/utils/fileUtils.ts:39 | the extension of a base name is empty or starts with `.`, and is no longer than the name |
| `NodePath.BaseExtensionCommutesWithLower` | src/utils/fileUtils.ts:4 | the extension of a lower-cased base name is the lower-cased extension |
| `NodePath.ExtnameShape` | src/utils/fileUtils.ts:39 | an extension is empty, or a `.` followed by characters that are neither `.` nor `/`, and it ends the base name |
| `NodePath.ExtnameEmptyIff` | src/utils/fileUtils.ts:39 | there is no extension exactly when the base name has no dot after its first character, or is `..` |
| `NodePath.ExtnameOfPlainName` | src/utils/fileUtils.ts:4 | a name `stem.x` without separators, with no dot in `x`, has extension `.x` |
| `NodePath.TrimCommutesWithLower` | src/utils/fileUtils.ts:4 | dropping trailing separators commutes with lower-casing |
| `NodePath.LastIndexOfLower` | src/utils/fileUtils.ts:4 | lower-casing does not move the last `.` or `/` |
| `NodePath.LastSegmentCommutesWithLower` | src/utils/fileUtils.ts:4 | the base name commutes with lower-casing |
| `NodePath.DotDotLower` | src/utils/fileUtils.ts:4 | a name lower-cases to `..` exactly when it is `..` |
| `NodePath.ExtnameCommutesWithLower` | src/utils/fileUtils.ts:4 | the extension of the lower-cased path is the lower-cased extension |
| `FileUtils.GetLanguageFromFilename` | src/utils/fileUtils.ts:3-36 | every result is a language of the table or `plaintext` |
| `FileUtils.GetFileExtension` | src/utils/fileUtils.ts:38-40 | the result is never empty and contains no `.` (in particular none at position 0) and no `/` |
| `FileUtils.FileExtensionIsExtnameWithoutDot` | src/utils/fileUtils.ts:39 | with a real extension the result is that extension without its dot; otherwise (none, or a bare `.`) it is `txt` |
| `FileUtils.FileExtensionDefault` | src/utils/fileUtils.ts:39 | a base name with no dot after its first character gives `txt` |
| `FileUtils.LanguageIgnoresCase` | src/utils/fileUtils.ts:4 | lower-casing the file name never changes its language |
| `FileUtils.LanguageOfPlainName` | src/utils/fileUtils.ts:4-35 | a name `stem.x` without separators, with no dot in `x`, gets the table entry of `.x` lower-cased, or `plaintext` |
| `FileUtils.SpellingOfTs` | src/utils/fileUtils.ts:4 | any spelling of `ts` holds no dot or separator, and `.` before it lower-cases to `.ts` |
| `FileUtils.TypeScriptEntry` | src/utils/fileUtils.ts:7 | the table maps `.ts` to `typescript` |
| `FileUtils.TypeScriptInAnyCase` | src/utils/fileUtils.ts:4-7 | `<stem>.x` is `typescript` for every `x` that lower-cases to `ts` |
| `FileUtils.SpellingTs` | src/utils/fileUtils.ts:4-7 | `<stem>.ab` is `typescript` when `a` is `t` or `T` and `b` is `s` or `S` |
| `FileUtils.TypeScriptSpellings` | src/utils/fileUtils.ts:4-7 | `<stem>.ts`, `<stem>.TS`, `<stem>.Ts` and `<stem>.tS` are all `typescript` |
| `FileUtils.PlaintextNotInTable` | src/utils/fileUtils.ts:5-34 | no table entry is `plaintext` |
| `FileUtils.LanguageIsTableLookup` | src/utils/fileUtils.ts:35 | a tabled lower-cased extension gives its entry; the result is `plaintext` exactly when the extension is not in the table |
| `FileUtils.NoExtensionIsPlaintext` | src/utils/fileUtils.ts:35 | a name without an extension is `plaintext` |
| `FileUtils.YamlAliases` | src/utils/fileUtils.ts:26-27 | `.yaml` and `.yml`, in any case, are both `yaml` |

## Left out

- `ensureGitIgnore` and the directory creation in `initialize` are workspace file I/O and console logging, so they are not modelled. `Initialize` always succeeds and only opens the handle. A failure to open the database or create the table is not modelled.
- The constructor's "No workspace folder found" error depends on the vscode workspace API. The constructor takes the workspace root as a parameter.
- SnapshotManager.SnapshotManager.SelectOrdered, SnapshotModel.ListingUnique, SnapshotModel.TwoSnapshotsListedNewestFirst, SnapshotModel.TwoSavesOfNewFile: `ORDER BY timestamp DESC` (lines 142 and 170) leaves the order of records with equal timestamps to SQLite. The model lists them newest-inserted first. For ties this order is the model's own choice, and the source promises none. `TwoSavesOfNewFile` and `TwoSnapshotsListedNewestFirst` allow `t1 == t2`, where only the model fixes `v2` first.
- The insertion counter is not SQLite's rowid. SQLite gives a new row max(rowid)+1, which reuses the rowid of a deleted newest row; the model's counter never reuses a number. Only the relative order of insertion among rows present together agrees, and that is all the model uses it for.
- `path.join` normalisation: the storage directory (`path.join(fsPath, '.vscode', 'snapshots')`, line 29) and the content path (line 98) are written as plain concatenation. This matches `path.join` for a normalised workspace root that does not end in `/` and an id in base 36; a root ending in `/` would get a doubled separator in the model.
- `generateId` is left out (`Date.now` and `Math.random`, and the `toString(36)` encoding). The id is a parameter, and so is the `Date.now()` timestamp.
- SnapshotModel.CutShortWriteTruncates, SnapshotModel.Save: the text `left` that a write cut short leaves in the file is any string. The model does not tie it to a prefix of the content, because a cut inside a multi-byte UTF-8 sequence reads back with replacement characters, and UTF-8 is not modelled.
- Errors from the SELECT statements (the `err` argument of the `all` and `get` callbacks) are not modelled. Database errors of the INSERT and DELETE are modelled as parameters.
- Promises, callbacks and concurrency are not modelled. Each operation is one atomic step.
- The `console.warn` of a failed unlink is logging only, and is not modelled.
- The UTF-8 decoding of `readFileSync` is not modelled. The model's content is the decoded string the read returns.
- `fileSize` is the byte count `statSync` reports. It is taken as given, not derived from the content.
- Snapshots persisted by an earlier session are outside the model: a new `SnapshotManager` starts with an empty table and content directory. Rows and blobs do persist across `Close` and `Initialize` on the same object.
- Deletion of blobs by other programs is not an operation of the model. The read path still handles a missing blob.
- `path.extname` is modelled for POSIX separators only, not Windows `\`.
- JsRuntime.LowerChar: folds only A–Z and U+212A KELVIN SIGN, and keeps every other character. The table lookup is still exact, for two reasons. Every table key is ASCII. No other character lower-cases to a string made only of ASCII characters. So any other non-ASCII character fails to match on both sides.
- JsRuntime.ToLowerCase: inherits the limitation of `LowerChar`, for the same reason.
- `languageMap[ext]` is a lookup on a plain object. It is modelled as a map lookup. They agree because the extension is empty or starts with `.`, and no member inherited from `Object.prototype` has such a name.
- `src/SnapshotTreeProvider.ts`, `src/commands/` and `src/extension.ts` are tree-view rendering, dialogs and command registration that only call into the store. They are not part of this model.
