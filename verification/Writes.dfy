/** Recording a batch of items written to one tape.

    PostgreSQL and Oracle process a batch set-wise: all archive files, all displaced copies,
    all new tape files, all deletions.  MySQL and SQLite process it row by row.
 */
module Writes {
  import opened Options
  import opened Tables

  datatype Event =
    | Placeholder(vid: string, fSeq: nat, drive: string)
    | File(vid: string, fSeq: nat, drive: string, archiveId: nat, diskInstance: string,
           diskFileId: string, uid: nat, gid: nat, size: nat, checksum: Checksum,
           storageClass: string, blockId: nat, copyNb: nat)

  type FileEvent = e: Event | e.File?
    witness File("", 0, "", 0, "", "", 0, 0, 0, map[], "", 0, 0)

  /** The order in which a set of events iterates: strictly by file sequence number. */
  predicate Ascending(b: seq<Event>) {
    forall i, j :: 0 <= i < j < |b| ==> b[i].fSeq < b[j].fSeq
  }

  type Batch = b: seq<Event> | Ascending(b) witness []

  predicate ItemFieldsSet(e: Event) {
    e.vid != "" && e.fSeq != 0 && e.drive != ""
  }

  predicate FileFieldsSet(f: FileEvent) {
    && f.diskInstance != "" && f.diskFileId != "" && f.uid != 0 && f.size != 0
    && f.checksum != map[] && f.storageClass != "" && f.vid != "" && f.fSeq != 0
    && (f.blockId != 0 || f.fSeq == 1) && f.copyNb != 0 && f.drive != ""
  }

  /** The first reason, in iteration order, why the items cannot follow `expected` on tape `vid`.
      The set-wise back ends check the fields of file events here, the others later. */
  function ItemsError(b: seq<Event>, vid: string, expected: nat, checkFiles: bool): Option<Error> {
    if b == [] then None
    else if !ItemFieldsSet(b[0]) then Some(FieldsUnset)
    else if b[0].vid != vid then Some(VidMismatch)
    else if expected != b[0].fSeq then Some(FSeqMismatch)
    else if checkFiles && b[0].File? && !FileFieldsSet(b[0]) then Some(FieldsUnset)
    else ItemsError(b[1..], vid, expected + 1, checkFiles)
  }

  /** The items are complete and occupy exactly the positions `expected`, `expected + 1`, ... */
  predicate ItemsFollow(b: seq<Event>, vid: string, expected: nat, checkFiles: bool) {
    forall k :: 0 <= k < |b| ==>
      && ItemFieldsSet(b[k]) && b[k].vid == vid && b[k].fSeq == expected + k
      && (checkFiles && b[k].File? ==> FileFieldsSet(b[k]))
  }

  lemma {:induction false} ItemsErrorExact(b: seq<Event>, vid: string, expected: nat, checkFiles: bool)
    ensures ItemsError(b, vid, expected, checkFiles).None? <==> ItemsFollow(b, vid, expected, checkFiles)
  {
    if b != [] {
      ItemsErrorExact(b[1..], vid, expected + 1, checkFiles);
      assert forall k :: 0 < k < |b| ==> b[k] == b[1..][k - 1];
      assert forall k :: 0 <= k < |b[1..]| ==> b[1..][k] == b[k + 1];
    }
  }

  /** The first item that does not follow decides the error. */
  lemma {:induction false} ItemsErrorFirst(b: seq<Event>, vid: string, expected: nat, checkFiles: bool, k: nat)
    requires k < |b| && ItemsFollow(b[..k], vid, expected, checkFiles)
    ensures !ItemFieldsSet(b[k]) ==> ItemsError(b, vid, expected, checkFiles) == Some(FieldsUnset)
    ensures ItemFieldsSet(b[k]) && b[k].vid != vid ==> ItemsError(b, vid, expected, checkFiles) == Some(VidMismatch)
    ensures ItemFieldsSet(b[k]) && b[k].vid == vid && b[k].fSeq != expected + k ==>
              ItemsError(b, vid, expected, checkFiles) == Some(FSeqMismatch)
    ensures ItemFieldsSet(b[k]) && b[k].vid == vid && b[k].fSeq == expected + k
            && checkFiles && b[k].File? && !FileFieldsSet(b[k]) ==>
              ItemsError(b, vid, expected, checkFiles) == Some(FieldsUnset)
    decreases k
  {
    if k > 0 {
      var rest := b[1..][..k - 1];
      assert b[..k][0] == b[0];
      assert forall i :: 0 <= i < |rest| ==> rest[i] == b[..k][i + 1];
      ItemsErrorFirst(b[1..], vid, expected + 1, checkFiles, k - 1);
    }
  }

  /** Checks made before any table is touched; `None` means the batch may proceed. */
  function HeaderError(db: Db, b: Batch, checkFiles: bool): Option<Error>
    requires b != []
  {
    if !ItemFieldsSet(b[0]) then Some(FieldsUnset)
    else if b[0].vid !in db.tapes then Some(TapeMissing)
    else ItemsError(b, b[0].vid, db.tapes[b[0].vid].lastFSeq + 1, checkFiles)
  }

  /** The file events, placeholders dropped. */
  function Files(b: seq<Event>): seq<FileEvent> {
    if b == [] then []
    else if b[0].File? then [b[0]] + Files(b[1..])
    else Files(b[1..])
  }

  function TotalBytes(fs: seq<FileEvent>): nat {
    if fs == [] then 0 else fs[0].size + TotalBytes(fs[1..])
  }

  function PosOf(e: Event): Pos { Pos(e.vid, e.fSeq) }

  function ArchiveRowOf(f: FileEvent): ArchiveRow {
    ArchiveRow(f.diskInstance, f.diskFileId, f.uid, f.gid, f.size, f.checksum, f.storageClass)
  }

  function TapeRowOf(f: FileEvent, now: nat): TapeRow {
    TapeRow(f.blockId, f.size, f.copyNb, now, f.archiveId)
  }

  /** UPDATE TAPE: the last position becomes that of the last item, placeholder or not. */
  function UpdateTape(db: Db, b: Batch): (r: Db)
    requires b != [] && b[0].vid in db.tapes
  {
    var last := b[|b| - 1];
    var tape := db.tapes[b[0].vid];
    db.(tapes := db.tapes[b[0].vid := Tape(last.fSeq, tape.bytes + TotalBytes(Files(b)), last.drive)])
  }

  /** INSERT ... ON CONFLICT (ARCHIVE_FILE_ID) DO NOTHING, joined with STORAGE_CLASS. */
  function InsertArchiveRows(archive: map<nat, ArchiveRow>, classes: set<string>, fs: seq<FileEvent>)
    : (r: map<nat, ArchiveRow>)
    ensures forall a :: a in archive ==> a in r && r[a] == archive[a]
  {
    if fs == [] then archive
    else
      var before := InsertArchiveRows(archive, classes, fs[..|fs| - 1]);
      var f := fs[|fs| - 1];
      if f.archiveId in before || f.storageClass !in classes then before
      else before[f.archiveId := ArchiveRowOf(f)]
  }

  /** The catalogue's entry for the event's archive file exists and has its size and checksum. */
  predicate Agrees(archive: map<nat, ArchiveRow>, f: FileEvent) {
    && f.archiveId in archive
    && archive[f.archiveId].size == f.size
    && archive[f.archiveId].checksum == f.checksum
  }

  /** The first reason, in iteration order, why an event disagrees with its catalogue entry. */
  function VerifyError(archive: map<nat, ArchiveRow>, fs: seq<FileEvent>): Option<Error> {
    if fs == [] then None
    else if fs[0].archiveId !in archive then Some(ArchiveFileMissing)
    else if archive[fs[0].archiveId].size != fs[0].size then Some(SizeMismatch)
    else if archive[fs[0].archiveId].checksum != fs[0].checksum then Some(ChecksumMismatch)
    else VerifyError(archive, fs[1..])
  }

  lemma {:induction false} VerifyErrorExact(archive: map<nat, ArchiveRow>, fs: seq<FileEvent>)
    ensures VerifyError(archive, fs).None? <==> forall k :: 0 <= k < |fs| ==> Agrees(archive, fs[k])
  {
    if fs != [] {
      VerifyErrorExact(archive, fs[1..]);
      assert forall k :: 0 < k < |fs| ==> fs[k] == fs[1..][k - 1];
      assert forall k :: 0 <= k < |fs[1..]| ==> fs[1..][k] == fs[k + 1];
    }
  }

  /** The first event that disagrees decides the error. */
  lemma {:induction false} VerifyErrorFirst(archive: map<nat, ArchiveRow>, fs: seq<FileEvent>, k: nat)
    requires k < |fs| && forall i :: 0 <= i < k ==> Agrees(archive, fs[i])
    ensures fs[k].archiveId !in archive ==> VerifyError(archive, fs) == Some(ArchiveFileMissing)
    ensures fs[k].archiveId in archive && archive[fs[k].archiveId].size != fs[k].size ==>
              VerifyError(archive, fs) == Some(SizeMismatch)
    ensures fs[k].archiveId in archive && archive[fs[k].archiveId].size == fs[k].size
            && archive[fs[k].archiveId].checksum != fs[k].checksum ==>
              VerifyError(archive, fs) == Some(ChecksumMismatch)
    decreases k
  {
    if k > 0 {
      assert forall i :: 0 <= i < k - 1 ==> fs[1..][i] == fs[i + 1];
      VerifyErrorFirst(archive, fs[1..], k - 1);
    }
  }

  predicate DistinctIds(fs: seq<FileEvent>) {
    forall i, j :: 0 <= i < j < |fs| ==> fs[i].archiveId != fs[j].archiveId
  }

  /** Joining ARCHIVE_FILE with the batch returns an archive file twice. */
  predicate FoundTwice(archive: map<nat, ArchiveRow>, fs: seq<FileEvent>) {
    exists i, j :: 0 <= i < j < |fs| && fs[i].archiveId == fs[j].archiveId && fs[i].archiveId in archive
  }

  /** A copy on another position with the event's archive file and copy number. */
  predicate Supersedes(f: FileEvent, p: Pos, row: TapeRow) {
    row.archiveId == f.archiveId && row.copyNb == f.copyNb && p != PosOf(f)
  }

  /** The live copies that the batch displaces. */
  function Displaced(tapeFiles: map<Pos, TapeRow>, fs: seq<FileEvent>): set<Pos> {
    set p | p in tapeFiles && exists k :: 0 <= k < |fs| && Supersedes(fs[k], p, tapeFiles[p])
  }

  /** TEMP_TAPE_FILE_INSERTION_BATCH */
  function BatchRows(fs: seq<FileEvent>, now: nat): map<Pos, TapeRow> {
    if fs == [] then map[]
    else BatchRows(fs[..|fs| - 1], now)[PosOf(fs[|fs| - 1]) := TapeRowOf(fs[|fs| - 1], now)]
  }

  /** Would inserting the event's archive file hit the primary key or the disk file constraint? */
  predicate ArchiveKeyTaken(archive: map<nat, ArchiveRow>, f: FileEvent) {
    f.archiveId in archive || exists a :: a in archive && SameDiskFile(archive[a], ArchiveRowOf(f))
  }

  /** Oracle's array insert in batch error mode: a row that violates any unique constraint, not
      only the primary key, is skipped at once. */
  function InsertArchiveRowsSkipping(archive: map<nat, ArchiveRow>, classes: set<string>, fs: seq<FileEvent>)
    : map<nat, ArchiveRow>
  {
    if fs == [] then archive
    else
      var before := InsertArchiveRowsSkipping(archive, classes, fs[..|fs| - 1]);
      var f := fs[|fs| - 1];
      if ArchiveKeyTaken(before, f) || f.storageClass !in classes then before
      else before[f.archiveId := ArchiveRowOf(f)]
  }

  /** The part of the set-wise transaction that follows the insertion of archive files. */
  function RecordWith(db: Db, archive: map<nat, ArchiveRow>, fs: seq<FileEvent>, now: nat): Outcome {
    var error := VerifyError(archive, fs);
    VerifyErrorExact(archive, fs);
    if FoundTwice(archive, fs) then Refused(DuplicateArchiveId)
    else if error.Some? then Refused(error.value)
    else
      var gone := Displaced(db.tapeFiles, fs);
      var rows := BatchRows(fs, now);
      if !Insertable(db.tapeFiles, rows) then Refused(ConstraintViolated)
      else
        Done(db.(archive := archive,
                 log := db.log + multiset(LogRows(archive, db.tapeFiles, gone)),
                 tapeFiles := db.tapeFiles + rows - gone))
  }

  /** PostgreSQL: the disk file constraint is deferred to the commit, so it is checked on the final
      table. */
  function RecordFiles(db: Db, fs: seq<FileEvent>, now: nat): Outcome {
    var archive := InsertArchiveRows(db.archive, db.storageClasses, fs);
    var o := RecordWith(db, archive, fs, now);
    if o.Done? && !UniqueDisk(archive) then Refused(ConstraintViolated) else o
  }

  /** Oracle */
  function RecordFilesSkipping(db: Db, fs: seq<FileEvent>, now: nat): Outcome {
    RecordWith(db, InsertArchiveRowsSkipping(db.archive, db.storageClasses, fs), fs, now)
  }

  function Record(postgres: bool, db: Db, fs: seq<FileEvent>, now: nat): Outcome {
    if postgres then RecordFiles(db, fs, now) else RecordFilesSkipping(db, fs, now)
  }

  /** filesWrittenToTape of the set-wise back ends. */
  function WriteOn(postgres: bool, db: Db, b: Batch, now: nat): Outcome {
    if b == [] then Done(db)
    else
      var e := HeaderError(db, b, true);
      if e.Some? then Refused(e.value)
      else if Files(b) == [] then Done(UpdateTape(db, b))
      else Record(postgres, UpdateTape(db, b), Files(b), now)
  }

  /** The two of them record the same: see WriteEquivalence.SetWiseWritesAgree. */
  function WriteSetWise(db: Db, b: Batch, now: nat): Outcome {
    WriteOn(true, db, b, now)
  }

  /** fileWrittenToTape and insertTapeFile of the row-by-row back ends.  A duplicate-key error
      on ARCHIVE_FILE is ignored; if it was not the primary key that clashed, the row is then
      found missing. */
  function WriteRow(db: Db, f: FileEvent, now: nat): Outcome {
    if !FileFieldsSet(f) then Refused(FieldsUnset)
    else if f.storageClass !in db.storageClasses then Refused(StorageClassMissing)
    else
      var archive := if ArchiveKeyTaken(db.archive, f) then db.archive
                     else db.archive[f.archiveId := ArchiveRowOf(f)];
      if f.archiveId !in archive then Refused(ArchiveFileMissing)
      else if archive[f.archiveId].size != f.size then Refused(SizeMismatch)
      else if archive[f.archiveId].checksum != f.checksum then Refused(ChecksumMismatch)
      else
        var gone := Displaced(db.tapeFiles, [f]);
        var rows := map[PosOf(f) := TapeRowOf(f, now)];
        if !Insertable(db.tapeFiles, rows) then Refused(ConstraintViolated)
        else
          Done(db.(archive := archive,
                   log := db.log + multiset(LogRows(archive, db.tapeFiles, gone)),
                   tapeFiles := db.tapeFiles + rows - gone))
  }

  function WriteRows(db: Db, fs: seq<FileEvent>, now: nat): Outcome {
    if fs == [] then Done(db)
    else
      var before := WriteRows(db, fs[..|fs| - 1], now);
      if before.Refused? then before else WriteRow(before.db, fs[|fs| - 1], now)
  }

  /** filesWrittenToTape of the row-by-row back ends. */
  function WriteRowWise(db: Db, b: Batch, now: nat): Outcome {
    if b == [] then Done(db)
    else
      var e := HeaderError(db, b, false);
      if e.Some? then Refused(e.value) else WriteRows(UpdateTape(db, b), Files(b), now)
  }
}
