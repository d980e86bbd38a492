/** The four catalogue tables that record where archived files live on tape, the
    constraints the database schema declares on them, and the invariant that the
    operations of the catalogue keep between them.
 */
module Tables {

  /** Primary key of TAPE_FILE: a volume identifier and a file sequence number. */
  datatype Pos = Pos(vid: string, fSeq: nat)

  datatype Tape = Tape(lastFSeq: nat, bytes: nat, lastDrive: string)

  /** Checksum type to checksum value; validating a blob is comparing the two maps. */
  type Checksum = map<nat, string>

  datatype ArchiveRow = ArchiveRow(diskInstance: string, diskFileId: string, uid: nat, gid: nat,
                                   size: nat, checksum: Checksum, storageClass: string)

  datatype TapeRow = TapeRow(blockId: nat, size: nat, copyNb: nat, created: nat, archiveId: nat)

  /** A FILE_RECYCLE_LOG row without its surrogate key, its reason and its log time. */
  datatype LogRow = LogRow(pos: Pos, blockId: nat, copyNb: nat, created: nat, archiveId: nat,
                           diskInstance: string, diskFileId: string, size: nat)

  /** The log is a multiset: FILE_RECYCLE_LOG has no unique key besides its surrogate id,
      so nothing in the schema keeps one tape position from being logged twice. */
  datatype Db = Db(tapes: map<string, Tape>, archive: map<nat, ArchiveRow>,
                   tapeFiles: map<Pos, TapeRow>, log: multiset<LogRow>, storageClasses: set<string>)

  datatype Error =
    | FieldsUnset | TapeMissing | VidMismatch | FSeqMismatch | StorageClassMissing
    | DuplicateArchiveId | ArchiveFileMissing | SizeMismatch | ChecksumMismatch
    | ConstraintViolated | NoSuchFile | OnlyCopy | NotOnThatTape | SeveralOnThatTape
    | RequestInconsistent | CopyExists | TapeExists | TapeNotFull | TapeNotEmpty

  datatype Outcome = Done(db: Db) | Refused(error: Error)

  const EMPTY_DB := Db(map[], map[], map[], multiset{}, {})

  // Constraints declared by the schema

  /** ARCHIVE_FILE_DIN_DFI_UN */
  predicate UniqueDisk(archive: map<nat, ArchiveRow>) {
    forall a, b :: a in archive && b in archive && SameDiskFile(archive[a], archive[b]) ==> a == b
  }

  predicate SameDiskFile(a: ArchiveRow, b: ArchiveRow) {
    a.diskInstance == b.diskInstance && a.diskFileId == b.diskFileId
  }

  /** TAPE_FILE_VID_BLOCK_ID_UN */
  predicate UniqueBlocks(tapeFiles: map<Pos, TapeRow>) {
    forall p, q :: p in tapeFiles && q in tapeFiles && SameBlock(p, tapeFiles[p], q, tapeFiles[q]) ==> p == q
  }

  predicate SameBlock(p: Pos, row: TapeRow, q: Pos, other: TapeRow) {
    p.vid == q.vid && row.blockId == other.blockId
  }

  /** Inserting `rows` violates neither the primary key nor the block constraint. */
  predicate Insertable(tapeFiles: map<Pos, TapeRow>, rows: map<Pos, TapeRow>) {
    (forall p :: p in rows ==> p !in tapeFiles) && UniqueBlocks(tapeFiles + rows)
  }

  // What the operations keep although no schema constraint says so

  predicate OnTape(tapes: map<string, Tape>, p: Pos) {
    p.vid in tapes && 1 <= p.fSeq <= tapes[p.vid].lastFSeq
  }

  /** Every position, live or logged, lies in 1..lastFSeq of an existing tape. */
  predicate InRange(db: Db) {
    && (forall p :: p in db.tapeFiles ==> OnTape(db.tapes, p))
    && (forall r :: r in db.log ==> OnTape(db.tapes, r.pos))
  }

  /** No position occurs twice across TAPE_FILE and FILE_RECYCLE_LOG together. */
  predicate HeldOnce(tapeFiles: map<Pos, TapeRow>, log: multiset<LogRow>) {
    && (forall r :: r in log ==> log[r] == 1 && r.pos !in tapeFiles)
    && (forall r, s :: r in log && s in log && r.pos == s.pos ==> r == s)
  }

  /** At most one live copy per archive file and copy number. */
  predicate OneCopy(tapeFiles: map<Pos, TapeRow>) {
    forall p, q :: p in tapeFiles && q in tapeFiles && SameCopy(tapeFiles[p], tapeFiles[q]) ==> p == q
  }

  predicate SameCopy(row: TapeRow, other: TapeRow) {
    row.archiveId == other.archiveId && row.copyNb == other.copyNb
  }

  /** Every live copy belongs to an archive file of the same size. */
  predicate SizesAgree(archive: map<nat, ArchiveRow>, tapeFiles: map<Pos, TapeRow>) {
    forall p :: p in tapeFiles ==>
      tapeFiles[p].archiveId in archive && archive[tapeFiles[p].archiveId].size == tapeFiles[p].size
  }

  /** A log row whose archive file still exists remembers the size of that file. */
  predicate LogSizesAgree(archive: map<nat, ArchiveRow>, log: multiset<LogRow>) {
    forall r :: r in log && r.archiveId in archive ==> archive[r.archiveId].size == r.size
  }

  predicate Inv(db: Db) {
    && InRange(db)
    && HeldOnce(db.tapeFiles, db.log)
    && OneCopy(db.tapeFiles)
    && SizesAgree(db.archive, db.tapeFiles)
    && LogSizesAgree(db.archive, db.log)
    && UniqueDisk(db.archive)
    && UniqueBlocks(db.tapeFiles)
  }

  /** The positions the catalogue accounts for, live or logged. */
  function Held(db: Db): set<Pos> {
    db.tapeFiles.Keys + Logged(db.log)
  }

  function Logged(log: multiset<LogRow>): set<Pos> {
    set r | r in log :: r.pos
  }

  /** The row that moving the copy at `p` to the recycle log inserts: the tape file's own
      columns, and the disk identity and size found in ARCHIVE_FILE. */
  function LogOf(p: Pos, row: TapeRow, file: ArchiveRow): LogRow {
    LogRow(p, row.blockId, row.copyNb, row.created, row.archiveId,
           file.diskInstance, file.diskFileId, file.size)
  }

  /** Log rows of the live copies at `ps`. */
  function LogRows(archive: map<nat, ArchiveRow>, tapeFiles: map<Pos, TapeRow>, ps: set<Pos>): set<LogRow>
    requires forall p :: p in ps ==> p in tapeFiles && tapeFiles[p].archiveId in archive
  {
    set p | p in ps :: LogOf(p, tapeFiles[p], archive[tapeFiles[p].archiveId])
  }

  /** The log row remembers the columns of the copy and those of its archive file. */
  predicate Remembers(r: LogRow, row: TapeRow, archive: map<nat, ArchiveRow>) {
    && r.blockId == row.blockId && r.copyNb == row.copyNb && r.created == row.created && r.archiveId == row.archiveId
    && r.archiveId in archive
    && r.diskInstance == archive[r.archiveId].diskInstance
    && r.diskFileId == archive[r.archiveId].diskFileId
    && r.size == archive[r.archiveId].size
  }

  /** ... which are, column by column, what the tables know about the copies. */
  lemma LogRowsRemember(archive: map<nat, ArchiveRow>, tapeFiles: map<Pos, TapeRow>, ps: set<Pos>, r: LogRow)
    requires forall p :: p in ps ==> p in tapeFiles && tapeFiles[p].archiveId in archive
    ensures r in LogRows(archive, tapeFiles, ps) <==> r.pos in ps && Remembers(r, tapeFiles[r.pos], archive)
  {
    if r.pos in ps && Remembers(r, tapeFiles[r.pos], archive) {
      assert r == LogOf(r.pos, tapeFiles[r.pos], archive[tapeFiles[r.pos].archiveId]);
    }
  }

  /** `rows` holds exactly one row for each position of `ps`. */
  predicate OneRowEach(rows: set<LogRow>, ps: set<Pos>) {
    && (forall r :: r in rows ==> r.pos in ps)
    && (forall p :: p in ps ==> exists r :: r in rows && r.pos == p)
    && (forall r, s :: r in rows && s in rows && r.pos == s.pos ==> r == s)
  }

  lemma LogRowsOneEach(archive: map<nat, ArchiveRow>, tapeFiles: map<Pos, TapeRow>, ps: set<Pos>)
    requires forall p :: p in ps ==> p in tapeFiles && tapeFiles[p].archiveId in archive
    ensures OneRowEach(LogRows(archive, tapeFiles, ps), ps)
  {
    forall p | p in ps
      ensures exists r :: r in LogRows(archive, tapeFiles, ps) && r.pos == p
    {
      var r := LogOf(p, tapeFiles[p], archive[tapeFiles[p].archiveId]);
      assert r in LogRows(archive, tapeFiles, ps) && r.pos == p;
    }
  }

  /** Moving the rows at `gone` to the log while inserting `rows` keeps every position held once. */
  lemma MoveKeepsHeldOnce(tapeFiles: map<Pos, TapeRow>, log: multiset<LogRow>,
                          rows: map<Pos, TapeRow>, gone: set<Pos>, added: set<LogRow>)
    requires HeldOnce(tapeFiles, log) && gone <= tapeFiles.Keys && rows.Keys !! tapeFiles.Keys
    requires forall r :: r in log ==> r.pos !in rows
    requires OneRowEach(added, gone)
    ensures HeldOnce(tapeFiles + rows - gone, log + multiset(added))
  {
    var log' := log + multiset(added);
    forall r | r in log'
      ensures log'[r] == 1 && r.pos !in tapeFiles + rows - gone
      ensures r in log <==> r !in added
    {
    }
  }

  lemma LoggedGrows(log: multiset<LogRow>, added: set<LogRow>, gone: set<Pos>)
    requires OneRowEach(added, gone)
    ensures Logged(log + multiset(added)) == Logged(log) + gone
  {
    var log' := log + multiset(added);
    forall p | p in gone ensures p in Logged(log') {
      var r :| r in added && r.pos == p;
      assert r in log';
    }
    forall p | p in Logged(log) ensures p in Logged(log') {
      var r :| r in log && r.pos == p;
      assert r in log';
    }
  }

  /** ... and accounts for exactly the positions of `rows` in addition. */
  lemma MoveAddsPositions(tapeFiles: map<Pos, TapeRow>, log: multiset<LogRow>,
                          rows: map<Pos, TapeRow>, gone: set<Pos>, added: set<LogRow>)
    requires gone <= tapeFiles.Keys && rows.Keys !! tapeFiles.Keys && OneRowEach(added, gone)
    ensures (tapeFiles + rows - gone).Keys + Logged(log + multiset(added))
            == tapeFiles.Keys + Logged(log) + rows.Keys
  {
    LoggedGrows(log, added, gone);
    assert (tapeFiles + rows - gone).Keys == tapeFiles.Keys + rows.Keys - gone;
  }

  /** The case without new rows. */
  lemma RemovalConserves(tapeFiles: map<Pos, TapeRow>, log: multiset<LogRow>, gone: set<Pos>, added: set<LogRow>)
    requires HeldOnce(tapeFiles, log) && gone <= tapeFiles.Keys && OneRowEach(added, gone)
    ensures HeldOnce(tapeFiles - gone, log + multiset(added))
    ensures (tapeFiles - gone).Keys + Logged(log + multiset(added)) == tapeFiles.Keys + Logged(log)
  {
    assert tapeFiles + map[] == tapeFiles;
    MoveKeepsHeldOnce(tapeFiles, log, map[], gone, added);
    MoveAddsPositions(tapeFiles, log, map[], gone, added);
  }
}
