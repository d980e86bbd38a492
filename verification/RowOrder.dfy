/** Which sort orders hand the iterator each archive file in one piece, although only the default
    one orders by archive file identifier.
 */
module RowOrder {
  import opened Options
  import opened Tables
  import opened ArchiveFiles
  import opened Grouping
  import opened Recycle
  import opened Restore

  /** Rows of one archive file are not separated by rows of others. */
  ghost predicate Contiguous<A, C>(rows: seq<ArchiveFile<A, C>>) {
    forall i, j, k :: 0 <= i < j < k < |rows| && rows[i].id == rows[k].id ==> rows[j].id == rows[i].id
  }

  /** The tape files of all rows of archive file `id`, in order. */
  function TapeFilesOf<A, C>(id: nat, rows: seq<ArchiveFile<A, C>>): seq<C> {
    if rows == [] then []
    else (if rows[0].id == id then rows[0].tapeFiles else []) + TapeFilesOf(id, rows[1..])
  }

  lemma {:induction false} TapeFilesOfRun<A, C>(id: nat, rows: seq<ArchiveFile<A, C>>)
    requires forall i :: 0 <= i < |rows| ==> rows[i].id == id
    ensures TapeFilesOf(id, rows) == AllTapeFiles(rows)
  {
    if rows != [] { TapeFilesOfRun(id, rows[1..]); }
  }

  lemma {:induction false} TapeFilesOfOthers<A, C>(id: nat, rows: seq<ArchiveFile<A, C>>)
    requires forall i :: 0 <= i < |rows| ==> rows[i].id != id
    ensures TapeFilesOf(id, rows) == []
  {
    if rows != [] { TapeFilesOfOthers(id, rows[1..]); }
  }

  lemma {:induction false} TapeFilesOfSplit<A, C>(id: nat, rows: seq<ArchiveFile<A, C>>, n: nat)
    requires n <= |rows|
    ensures TapeFilesOf(id, rows) == TapeFilesOf(id, rows[..n]) + TapeFilesOf(id, rows[n..])
  {
    if n == 0 {
      assert rows[..n] == [] && rows[n..] == rows;
    } else {
      TapeFilesOfSplit(id, rows[1..], n - 1);
      assert rows[..n][1..] == rows[1..][..n - 1] && rows[..n][0] == rows[0];
      assert rows[n..] == rows[1..][n - 1..];
    }
  }

  /** In contiguous rows the first run holds all rows of its archive file. */
  lemma FirstRunIsAll<A, C>(rows: seq<ArchiveFile<A, C>>)
    requires rows != [] && Contiguous(rows)
    ensures var n := RunLength(rows[0].id, rows);
            && 0 < n && (forall i :: n <= i < |rows| ==> rows[i].id != rows[0].id)
            && Contiguous(rows[n..])
  {
    var n := RunLength(rows[0].id, rows);
    forall i | n <= i < |rows| ensures rows[i].id != rows[0].id {
      if n < i && rows[i].id == rows[0].id { assert false; }
    }
    assert forall i :: 0 <= i < |rows[n..]| ==> rows[n..][i] == rows[n + i];
  }

  /** The same, run by run. */
  ghost predicate RunsApart<A, C>(rows: seq<ArchiveFile<A, C>>)
    decreases |rows|
  {
    rows == [] ||
    var n := RunLength(rows[0].id, rows);
    && 0 < n && (forall i :: n <= i < |rows| ==> rows[i].id != rows[0].id)
    && RunsApart(rows[n..])
  }

  lemma {:induction false} ContiguousRunsApart<A, C>(rows: seq<ArchiveFile<A, C>>)
    requires Contiguous(rows)
    ensures RunsApart(rows)
    decreases |rows|
  {
    if rows != [] {
      FirstRunIsAll(rows);
      ContiguousRunsApart(rows[RunLength(rows[0].id, rows)..]);
    }
  }

  /** Every group comes from a row. */
  lemma {:induction false} GroupsHaveRows<A, C>(rows: seq<ArchiveFile<A, C>>, g: nat)
    requires g < |Groups(rows)|
    ensures exists i :: 0 <= i < |rows| && rows[i].id == Groups(rows)[g].id
    decreases |rows|
  {
    var n := RunLength(rows[0].id, rows);
    if g == 0 {
      assert rows[0].id == Groups(rows)[0].id;
    } else {
      GroupsHaveRows(rows[n..], g - 1);
      var i :| 0 <= i < |rows[n..]| && rows[n..][i].id == Groups(rows[n..])[g - 1].id;
      assert rows[n + i].id == Groups(rows)[g].id;
    }
  }

  lemma GroupsTail<A, C>(rows: seq<ArchiveFile<A, C>>, n: nat, g: nat)
    requires 0 < g < |Groups(rows)| && n == RunLength(rows[0].id, rows)
    ensures n <= |rows| && g - 1 < |Groups(rows[n..])| && Groups(rows)[g] == Groups(rows[n..])[g - 1]
  {
  }

  lemma LaterRows<A, C>(rows: seq<ArchiveFile<A, C>>, n: nat, i: nat)
    requires rows != [] && RunsApart(rows) && n == RunLength(rows[0].id, rows) && i < |rows[n..]|
    ensures rows[n..][i].id != rows[0].id
  {
  }

  /** A group after the first comes from the rows behind the first run, which are of other files. */
  lemma LaterGroup<A, C>(rows: seq<ArchiveFile<A, C>>, n: nat, g: nat)
    requires RunsApart(rows) && 0 < g < |Groups(rows)| && n == RunLength(rows[0].id, rows)
    ensures 0 < n && RunsApart(rows[n..])
    ensures g - 1 < |Groups(rows[n..])| && Groups(rows)[g] == Groups(rows[n..])[g - 1]
    ensures Groups(rows)[g].id != rows[0].id
  {
    GroupsTail(rows, n, g);
    GroupsHaveRows(rows[n..], g - 1);
    var i :| 0 <= i < |rows[n..]| && rows[n..][i].id == Groups(rows[n..])[g - 1].id;
    LaterRows(rows, n, i);
  }

  lemma {:induction false} ApartDeliveredOnce<A, C>(rows: seq<ArchiveFile<A, C>>, g: nat, h: nat)
    requires RunsApart(rows) && g < h < |Groups(rows)|
    ensures Groups(rows)[g].id != Groups(rows)[h].id
    decreases |rows|
  {
    var n := RunLength(rows[0].id, rows);
    LaterGroup(rows, n, h);
    if g > 0 {
      LaterGroup(rows, n, g);
      ApartDeliveredOnce(rows[n..], g - 1, h - 1);
    }
  }

  lemma FirstDeliveredWhole<A, C>(rows: seq<ArchiveFile<A, C>>)
    requires RunsApart(rows) && rows != []
    ensures Groups(rows)[0].tapeFiles == TapeFilesOf(Groups(rows)[0].id, rows)
  {
    var id, n := rows[0].id, RunLength(rows[0].id, rows);
    TapeFilesOfSplit(id, rows, n);
    TapeFilesOfRun(id, rows[..n]);
    TapeFilesOfOthers(id, rows[n..]);
  }

  lemma OthersBefore<A, C>(id: nat, rows: seq<ArchiveFile<A, C>>, n: nat)
    requires n <= |rows| && forall i :: 0 <= i < n ==> rows[i].id != id
    ensures TapeFilesOf(id, rows) == TapeFilesOf(id, rows[n..])
  {
    TapeFilesOfSplit(id, rows, n);
    TapeFilesOfOthers(id, rows[..n]);
  }

  lemma {:induction false} ApartDeliveredWhole<A, C>(rows: seq<ArchiveFile<A, C>>, g: nat)
    requires RunsApart(rows) && g < |Groups(rows)|
    ensures Groups(rows)[g].tapeFiles == TapeFilesOf(Groups(rows)[g].id, rows)
    decreases |rows|
  {
    if g == 0 {
      FirstDeliveredWhole(rows);
    } else {
      var n := RunLength(rows[0].id, rows);
      LaterGroup(rows, n, g);
      ApartDeliveredWhole(rows[n..], g - 1);
      OthersBefore(Groups(rows)[g].id, rows, n);
    }
  }

  /** Every row belongs to a group. */
  lemma {:induction false} RowsHaveGroups<A, C>(rows: seq<ArchiveFile<A, C>>, i: nat)
    requires i < |rows|
    ensures exists g :: 0 <= g < |Groups(rows)| && Groups(rows)[g].id == rows[i].id
    decreases |rows|
  {
    var n := RunLength(rows[0].id, rows);
    if i < n {
      assert Groups(rows)[0].id == rows[i].id;
    } else {
      RowsHaveGroups(rows[n..], i - n);
      var g :| 0 <= g < |Groups(rows[n..])| && Groups(rows[n..])[g].id == rows[n..][i - n].id;
      assert Groups(rows)[g + 1] == Groups(rows[n..])[g];
    }
  }

  predicate DistinctFiles<A, C>(files: seq<ArchiveFile<A, C>>) {
    forall g, h :: 0 <= g < h < |files| ==> files[g].id != files[h].id
  }

  lemma {:induction false} DistinctGroupsApart<A, C>(rows: seq<ArchiveFile<A, C>>)
    requires DistinctFiles(Groups(rows))
    ensures RunsApart(rows)
    decreases |rows|
  {
    if rows != [] {
      var n := RunLength(rows[0].id, rows);
      var files := Groups(rows);
      assert files == [files[0]] + Groups(rows[n..]);
      assert forall g :: 0 <= g < |Groups(rows[n..])| ==> Groups(rows[n..])[g] == files[g + 1];
      DistinctGroupsApart(rows[n..]);
      forall i | n <= i < |rows| ensures rows[i].id != rows[0].id {
        RowsHaveGroups(rows[n..], i - n);
        var g :| 0 <= g < |Groups(rows[n..])| && Groups(rows[n..])[g].id == rows[n..][i - n].id;
      }
    }
  }

  lemma {:induction false} ApartIsContiguous<A, C>(rows: seq<ArchiveFile<A, C>>)
    requires RunsApart(rows)
    ensures Contiguous(rows)
    decreases |rows|
  {
    if rows != [] {
      var n := RunLength(rows[0].id, rows);
      ApartIsContiguous(rows[n..]);
      forall i, j, k | 0 <= i < j < k < |rows| && rows[i].id == rows[k].id ensures rows[j].id == rows[i].id {
        if n <= i { assert rows[n..][i - n] == rows[i] && rows[n..][j - n] == rows[j] && rows[n..][k - n] == rows[k]; }
      }
    }
  }

  /** Every archive file of the rows is delivered, and from contiguous rows once, with all the
      copies selected for it in their order. */
  lemma DeliveredOnceAndWhole<A, C>(rows: seq<ArchiveFile<A, C>>)
    requires AtMostOneEach(rows) && Joinable(rows)
    ensures forall i :: 0 <= i < |rows| ==>
              exists g :: 0 <= g < |Pending(None, rows)| && Pending(None, rows)[g].id == rows[i].id
    ensures DistinctFiles(Pending(None, rows)) <==> Contiguous(rows)
    ensures Contiguous(rows) ==> forall g :: 0 <= g < |Pending(None, rows)| ==>
              Pending(None, rows)[g].tapeFiles == TapeFilesOf(Pending(None, rows)[g].id, rows)
  {
    IteratorGroupsExactly(rows);
    var files := Groups(rows);
    forall i | 0 <= i < |rows| ensures exists g :: 0 <= g < |files| && files[g].id == rows[i].id {
      RowsHaveGroups(rows, i);
    }
    if Contiguous(rows) {
      ContiguousRunsApart(rows);
      forall g, h | 0 <= g < h < |files| ensures files[g].id != files[h].id { ApartDeliveredOnce(rows, g, h); }
      forall g | 0 <= g < |files| ensures files[g].tapeFiles == TapeFilesOf(files[g].id, rows) {
        ApartDeliveredWhole(rows, g);
      }
    }
    if DistinctFiles(files) {
      DistinctGroupsApart(rows);
      ApartIsContiguous(rows);
    }
  }

  /** Rows of an inner join with TAPE_FILE satisfy the grouping condition. */
  lemma JoinedRowsAreJoinable<A, C>(rows: seq<ArchiveFile<A, C>>)
    requires forall i :: 0 <= i < |rows| ==> |rows[i].tapeFiles| == 1
    ensures AtMostOneEach(rows) && Joinable(rows)
  {
    forall i, j | 0 <= i < j < |rows| && j == i + 1 && rows[i].id == rows[j].id
      ensures rows[j].tapeFiles != [] && exists k :: 0 <= k <= i && rows[k].tapeFiles != []
    {
      assert rows[i].tapeFiles != [];
    }
  }

  // The sort orders

  /** Sorting by anything that stands for the archive file puts its rows together. */
  lemma SortedIsContiguous<A, C>(rows: seq<ArchiveFile<A, C>>, keys: seq<int>)
    requires |keys| == |rows|
    requires forall i, j :: 0 <= i < j < |keys| ==> keys[i] <= keys[j]
    requires forall i, j :: 0 <= i < j < |rows| ==> (rows[i].id == rows[j].id <==> keys[i] == keys[j])
    ensures Contiguous(rows)
  {
    forall i, j, k | 0 <= i < j < k < |rows| && rows[i].id == rows[k].id ensures rows[j].id == rows[i].id {
      assert keys[i] <= keys[j] <= keys[k];
    }
  }

  /** Listing a disk instance ordered by disk file identifier, in a collation that tells
      different identifiers apart: the pair of the two is unique in ARCHIVE_FILE. */
  lemma DiskFileOrderIsContiguous<A, C>(rows: seq<ArchiveFile<A, C>>, archive: map<nat, ArchiveRow>,
                                        diskInstance: string, rank: string -> int)
    requires UniqueDisk(archive)
    requires forall i :: 0 <= i < |rows| ==> rows[i].id in archive && archive[rows[i].id].diskInstance == diskInstance
    requires forall i, j :: 0 <= i < j < |rows| ==>
               rank(archive[rows[i].id].diskFileId) <= rank(archive[rows[j].id].diskFileId)
    requires forall i, j :: 0 <= i < j < |rows| ==>
               rank(archive[rows[i].id].diskFileId) == rank(archive[rows[j].id].diskFileId) ==>
                 archive[rows[i].id].diskFileId == archive[rows[j].id].diskFileId
    ensures Contiguous(rows)
  {
    var keys := seq(|rows|, i requires 0 <= i < |rows| => rank(archive[rows[i].id].diskFileId));
    forall i, j | 0 <= i < j < |rows| ensures rows[i].id == rows[j].id <==> keys[i] == keys[j] {
      if keys[i] == keys[j] {
        assert SameDiskFile(archive[rows[i].id], archive[rows[j].id]);
      }
    }
    SortedIsContiguous(rows, keys);
  }

  /** The copies of a search on one tape, in the order of their file sequence numbers. */
  ghost predicate TapeListing(tapeFiles: map<Pos, TapeRow>, vid: string, selected: set<Pos>, ps: seq<Pos>) {
    && (forall p :: p in selected ==> p in tapeFiles && p.vid == vid)
    && (forall p :: p in ps <==> p in selected)
    && (forall i, j :: 0 <= i < j < |ps| ==> ps[i].fSeq < ps[j].fSeq)
  }

  /** Between two selected copies of one archive file lie no selected copies of others. */
  predicate CopiesAdjacent(tapeFiles: map<Pos, TapeRow>, selected: set<Pos>)
    requires forall p :: p in selected ==> p in tapeFiles
  {
    forall p, q, r | p in selected && q in selected && r in selected && p.fSeq < q.fSeq < r.fSeq ::
      tapeFiles[p].archiveId == tapeFiles[r].archiveId ==> tapeFiles[q].archiveId == tapeFiles[p].archiveId
  }

  ghost predicate RowsOf<A>(tapeFiles: map<Pos, TapeRow>, ps: seq<Pos>, rows: seq<ArchiveFile<A, Pos>>) {
    && |rows| == |ps| && (forall i :: 0 <= i < |ps| ==> ps[i] in tapeFiles)
    && forall i :: 0 <= i < |ps| ==> rows[i].id == tapeFiles[ps[i]].archiveId && rows[i].tapeFiles == [ps[i]]
  }

  ghost function IndexOf(ps: seq<Pos>, p: Pos): (i: nat)
    requires p in ps
    ensures i < |ps| && ps[i] == p
  {
    var i :| 0 <= i < |ps| && ps[i] == p;
    i
  }

  lemma InOrder(ps: seq<Pos>, i: nat, j: nat)
    requires forall k, l :: 0 <= k < l < |ps| ==> ps[k].fSeq < ps[l].fSeq
    requires i < |ps| && j < |ps| && ps[i].fSeq < ps[j].fSeq
    ensures i < j
  {
  }

  lemma ContiguousIsAdjacent<A>(tapeFiles: map<Pos, TapeRow>, vid: string, selected: set<Pos>, ps: seq<Pos>,
                                rows: seq<ArchiveFile<A, Pos>>)
    requires TapeListing(tapeFiles, vid, selected, ps) && RowsOf(tapeFiles, ps, rows) && Contiguous(rows)
    ensures CopiesAdjacent(tapeFiles, selected)
  {
    forall p, q, r | p in selected && q in selected && r in selected && p.fSeq < q.fSeq < r.fSeq
                     && tapeFiles[p].archiveId == tapeFiles[r].archiveId
      ensures tapeFiles[q].archiveId == tapeFiles[p].archiveId
    {
      var i, j, k := IndexOf(ps, p), IndexOf(ps, q), IndexOf(ps, r);
      InOrder(ps, i, j);
      InOrder(ps, j, k);
      assert rows[i].id == rows[k].id;
    }
  }

  lemma AdjacentIsContiguous<A>(tapeFiles: map<Pos, TapeRow>, vid: string, selected: set<Pos>, ps: seq<Pos>,
                                rows: seq<ArchiveFile<A, Pos>>)
    requires TapeListing(tapeFiles, vid, selected, ps) && RowsOf(tapeFiles, ps, rows)
    requires CopiesAdjacent(tapeFiles, selected)
    ensures Contiguous(rows)
  {
    forall i, j, k | 0 <= i < j < k < |rows| && rows[i].id == rows[k].id ensures rows[j].id == rows[i].id {
      assert ps[i] in selected && ps[j] in selected && ps[k] in selected;
    }
  }

  /** A search on one tape delivers each archive file once exactly when the selected copies of each
      file are adjacent on the tape. */
  lemma TapeOrderDeliversOnceExactly<A>(tapeFiles: map<Pos, TapeRow>, vid: string, selected: set<Pos>, ps: seq<Pos>,
                                        rows: seq<ArchiveFile<A, Pos>>)
    requires TapeListing(tapeFiles, vid, selected, ps) && RowsOf(tapeFiles, ps, rows)
    ensures DistinctFiles(Pending(None, rows)) <==> CopiesAdjacent(tapeFiles, selected)
  {
    JoinedRowsAreJoinable(rows);
    DeliveredOnceAndWhole(rows);
    if Contiguous(rows) { ContiguousIsAdjacent(tapeFiles, vid, selected, ps, rows); }
    if CopiesAdjacent(tapeFiles, selected) { AdjacentIsContiguous(tapeFiles, vid, selected, ps, rows); }
  }

  /** The lookup that guards a restore selects rows of one archive file only; it gets that file
      with all its copies. */
  lemma {:induction false} SingleFileIsOneGroup<A, C>(rows: seq<ArchiveFile<A, C>>, id: nat)
    requires rows != [] && forall i :: 0 <= i < |rows| ==> rows[i].id == id && |rows[i].tapeFiles| == 1
    ensures Pending(None, rows) == [Merge(rows)]
  {
    assert RunLength(id, rows) == |rows|;
    assert rows[..|rows|] == rows && rows[|rows|..] == [];
    IteratorGroupsExactly(rows);
    JoinedRowsAreJoinable(rows);
    assert Groups(rows) == [Merge(rows)] + Groups(rows[|rows|..]);
  }

  ghost predicate CopyRows<A>(tapeFiles: map<Pos, TapeRow>, id: nat, ps: seq<Pos>, rows: seq<ArchiveFile<A, TapeRow>>) {
    && (forall p :: p in ps <==> p in CopiesOf(tapeFiles, id)) && |rows| == |ps|
    && forall i :: 0 <= i < |ps| ==>
         ps[i] in tapeFiles && rows[i].id == id && rows[i].tapeFiles == [tapeFiles[ps[i]]]
  }

  lemma LiveCopyIsListed<A>(tapeFiles: map<Pos, TapeRow>, id: nat, copyNb: nat, ps: seq<Pos>,
                            rows: seq<ArchiveFile<A, TapeRow>>)
    requires CopyRows(tapeFiles, id, ps, rows)
    ensures (exists t :: t in AllTapeFiles(rows) && t.copyNb == copyNb) <==> CopyLive(tapeFiles, id, copyNb)
  {
    if CopyLive(tapeFiles, id, copyNb) {
      var p :| p in tapeFiles && tapeFiles[p].archiveId == id && tapeFiles[p].copyNb == copyNb;
      assert p in CopiesOf(tapeFiles, id) && p in ps;
      var i :| 0 <= i < |ps| && ps[i] == p;
      assert rows[i].tapeFiles == [tapeFiles[p]];
      TapeFileIn(rows, tapeFiles[p]);
    }
    if t :| t in AllTapeFiles(rows) && t.copyNb == copyNb {
      TapeFileIn(rows, t);
      var i :| 0 <= i < |rows| && rows[i].tapeFiles == [t];
      assert ps[i] in CopiesOf(tapeFiles, id) && [tapeFiles[ps[i]]][0] == [t][0];
    }
  }

  /** The copy number test before a restore: the rows are the live copies of the archive file, in
      any order, and the test finds the copy number exactly when such a copy is live. */
  lemma GuardSeesLiveCopies<A>(tapeFiles: map<Pos, TapeRow>, id: nat, copyNb: nat, ps: seq<Pos>,
                               rows: seq<ArchiveFile<A, TapeRow>>)
    requires CopyRows(tapeFiles, id, ps, rows)
    ensures Pending(None, rows) == [] <==> CopiesOf(tapeFiles, id) == {}
    ensures Pending(None, rows) != [] ==>
              ((exists t :: t in Pending(None, rows)[0].tapeFiles && t.copyNb == copyNb)
               <==> CopyLive(tapeFiles, id, copyNb))
  {
    LiveCopyIsListed(tapeFiles, id, copyNb, ps, rows);
    if rows == [] {
      assert forall p :: p in CopiesOf(tapeFiles, id) ==> p in ps;
    } else {
      assert ps[0] in CopiesOf(tapeFiles, id);
      SingleFileIsOneGroup(rows, id);
    }
  }

  lemma {:induction false} TapeFileIn<A, C>(rows: seq<ArchiveFile<A, C>>, t: C)
    requires forall i :: 0 <= i < |rows| ==> |rows[i].tapeFiles| == 1
    ensures t in AllTapeFiles(rows) <==> exists i :: 0 <= i < |rows| && rows[i].tapeFiles == [t]
  {
    if rows != [] {
      TapeFileIn(rows[1..], t);
      assert rows[0].tapeFiles == [rows[0].tapeFiles[0]];
      if i :| 0 <= i < |rows| && rows[i].tapeFiles == [t] {
        assert t in rows[i].tapeFiles;
        if i > 0 { assert rows[1..][i - 1] == rows[i]; }
      }
      if i :| 0 <= i < |rows[1..]| && rows[1..][i].tapeFiles == [t] { assert rows[i + 1].tapeFiles == [t]; }
    }
  }

  // The rows for repacking a tape: TAPE_FILE joined with itself

  /** A copy on the tape to be repacked, and a copy of the same archive file on any tape. */
  datatype Joined = Joined(here: Pos, copy: Pos)

  predicate ToRepack(tapeFiles: map<Pos, TapeRow>, vid: string, startFSeq: nat, p: Pos) {
    p in tapeFiles && p.vid == vid && p.fSeq >= startFSeq
  }

  /** Every joined pair once, ordered by the file sequence number on the tape to be repacked. */
  ghost predicate RepackResult(tapeFiles: map<Pos, TapeRow>, vid: string, startFSeq: nat, js: seq<Joined>) {
    && (forall i, j :: 0 <= i < j < |js| ==> js[i] != js[j] && js[i].here.fSeq <= js[j].here.fSeq)
    && (forall p, q :: Joined(p, q) in js <==>
          ToRepack(tapeFiles, vid, startFSeq, p) && q in tapeFiles && tapeFiles[p].archiveId == tapeFiles[q].archiveId)
  }

  /** No archive file has two copies among those to be repacked. */
  predicate OnePerTape(tapeFiles: map<Pos, TapeRow>, vid: string, startFSeq: nat) {
    forall p, q | p in tapeFiles && q in tapeFiles && tapeFiles[p].archiveId == tapeFiles[q].archiveId ::
      ToRepack(tapeFiles, vid, startFSeq, p) && ToRepack(tapeFiles, vid, startFSeq, q) ==> p == q
  }

  lemma PairOf(tapeFiles: map<Pos, TapeRow>, vid: string, startFSeq: nat, js: seq<Joined>, i: nat)
    requires RepackResult(tapeFiles, vid, startFSeq, js) && i < |js|
    ensures ToRepack(tapeFiles, vid, startFSeq, js[i].here) && js[i].copy in tapeFiles
    ensures tapeFiles[js[i].here].archiveId == tapeFiles[js[i].copy].archiveId
  {
    assert Joined(js[i].here, js[i].copy) in js;
  }

  /** A tape file is listed at most once exactly when no file has two copies on the tape.  The
      catalogue forbids two copies with one copy number, but not two copies on one tape. */
  lemma RepackListsOnceExactly(tapeFiles: map<Pos, TapeRow>, vid: string, startFSeq: nat, js: seq<Joined>)
    requires RepackResult(tapeFiles, vid, startFSeq, js)
    ensures (forall i, j :: 0 <= i < j < |js| ==> js[i].copy != js[j].copy) <==> OnePerTape(tapeFiles, vid, startFSeq)
  {
    if OnePerTape(tapeFiles, vid, startFSeq) {
      forall i, j | 0 <= i < j < |js| ensures js[i].copy != js[j].copy {
        PairOf(tapeFiles, vid, startFSeq, js, i);
        PairOf(tapeFiles, vid, startFSeq, js, j);
      }
    } else {
      var p, q :| && p in tapeFiles && q in tapeFiles && ToRepack(tapeFiles, vid, startFSeq, p)
                  && ToRepack(tapeFiles, vid, startFSeq, q) && p != q
                  && tapeFiles[p].archiveId == tapeFiles[q].archiveId;
      assert Joined(p, p) in js && Joined(q, p) in js;
      var i :| 0 <= i < |js| && js[i] == Joined(p, p);
      var j :| 0 <= j < |js| && js[j] == Joined(q, p);
      assert i != j && js[i].copy == js[j].copy;
    }
  }

  /** In that case each file of the tape is delivered once with all its copies. */
  lemma RepackOrderIsContiguous<A>(tapeFiles: map<Pos, TapeRow>, vid: string, startFSeq: nat, js: seq<Joined>,
                                   rows: seq<ArchiveFile<A, Pos>>)
    requires RepackResult(tapeFiles, vid, startFSeq, js) && OnePerTape(tapeFiles, vid, startFSeq)
    requires |rows| == |js|
    requires forall i :: 0 <= i < |js| ==>
               && js[i].here in tapeFiles && rows[i].id == tapeFiles[js[i].here].archiveId
               && rows[i].tapeFiles == [js[i].copy]
    ensures AtMostOneEach(rows) && Joinable(rows) && Contiguous(rows)
  {
    var keys := seq(|js|, i requires 0 <= i < |js| => js[i].here.fSeq);
    forall i, j | 0 <= i < j < |rows| ensures rows[i].id == rows[j].id <==> keys[i] == keys[j] {
      PairOf(tapeFiles, vid, startFSeq, js, i);
      PairOf(tapeFiles, vid, startFSeq, js, j);
      if keys[i] == keys[j] { assert js[i].here == js[j].here; }
    }
    SortedIsContiguous(rows, keys);
    JoinedRowsAreJoinable(rows);
  }

  const A_1 := Pos("V", 1)
  const A_2 := Pos("V", 2)
  const BOTH_HERE := map[A_1 := TapeRow(1, 5, 1, 0, 1), A_2 := TapeRow(2, 5, 2, 0, 1)]

  const BOTH_LISTED := [Joined(A_1, A_1), Joined(A_1, A_2), Joined(A_2, A_1), Joined(A_2, A_2)]

  lemma ListedPairs(p: Pos, q: Pos)
    ensures Joined(p, q) in BOTH_LISTED <==> p in {A_1, A_2} && q in {A_1, A_2}
  {
    assert BOTH_LISTED[0] == Joined(A_1, A_1) && BOTH_LISTED[1] == Joined(A_1, A_2);
    assert BOTH_LISTED[2] == Joined(A_2, A_1) && BOTH_LISTED[3] == Joined(A_2, A_2);
  }

  lemma BothAreListed()
    ensures RepackResult(BOTH_HERE, "V", 1, BOTH_LISTED)
  {
    forall p, q
      ensures Joined(p, q) in BOTH_LISTED <==>
              ToRepack(BOTH_HERE, "V", 1, p) && q in BOTH_HERE && BOTH_HERE[p].archiveId == BOTH_HERE[q].archiveId
    {
      ListedPairs(p, q);
    }
  }

  /** A valid catalogue with both copies of a file on one tape: each of them is listed twice. */
  lemma CopiesListedTwice()
    ensures Inv(Db(map["V" := Tape(2, 10, "d")], map[1 := ArchiveRow("i", "f", 1, 1, 5, map[], "c")], BOTH_HERE,
                   multiset{}, {"c"}))
    ensures RepackResult(BOTH_HERE, "V", 1, BOTH_LISTED) && BOTH_LISTED[0].copy == BOTH_LISTED[2].copy
    ensures !OnePerTape(BOTH_HERE, "V", 1)
  {
    BothAreListed();
    assert ToRepack(BOTH_HERE, "V", 1, A_1) && ToRepack(BOTH_HERE, "V", 1, A_2);
  }

  const BETWEEN := map[A_1 := TapeRow(1, 5, 1, 0, 1), A_2 := TapeRow(2, 5, 1, 0, 2),
                       Pos("V", 3) := TapeRow(3, 5, 2, 0, 1)]

  lemma BetweenIsListed()
    ensures TapeListing(BETWEEN, "V", BETWEEN.Keys, [A_1, A_2, Pos("V", 3)])
  {
    var ps := [A_1, A_2, Pos("V", 3)];
    assert ps[0] == A_1 && ps[1] == A_2 && ps[2] == Pos("V", 3);
  }

  const TWO_FILES := map[1 := ArchiveRow("i", "f", 1, 1, 5, map[], "c"),
                         2 := ArchiveRow("i", "ff", 1, 1, 5, map[], "c")]

  lemma BetweenIsOneCopyEach()
    ensures OneCopy(BETWEEN) && UniqueBlocks(BETWEEN) && SizesAgree(TWO_FILES, BETWEEN)
  {
    assert forall p :: p in BETWEEN <==> p == A_1 || p == A_2 || p == Pos("V", 3);
  }

  lemma TwoFilesUnique()
    ensures UniqueDisk(TWO_FILES)
  {
    assert |"f"| != |"ff"|;
  }

  lemma BetweenIsValid(db: Db)
    requires db == Db(map["V" := Tape(3, 15, "d")], TWO_FILES, BETWEEN, multiset{}, {"c"})
    ensures Inv(db)
  {
    BetweenIsOneCopyEach();
    TwoFilesUnique();
  }

  /** A valid catalogue in which a copy of another file lies between two copies of one: a search on
      the tape that selects all three does not deliver each archive file once. */
  lemma CopiesApartDeliveredTwice<A>(rows: seq<ArchiveFile<A, Pos>>)
    requires RowsOf(BETWEEN, [A_1, A_2, Pos("V", 3)], rows)
    ensures Inv(Db(map["V" := Tape(3, 15, "d")], TWO_FILES, BETWEEN, multiset{}, {"c"}))
    ensures TapeListing(BETWEEN, "V", BETWEEN.Keys, [A_1, A_2, Pos("V", 3)])
    ensures !DistinctFiles(Pending(None, rows))
  {
    BetweenIsListed();
    BetweenIsValid(Db(map["V" := Tape(3, 15, "d")], TWO_FILES, BETWEEN, multiset{}, {"c"}));
    assert A_1 in BETWEEN.Keys && A_2 in BETWEEN.Keys && Pos("V", 3) in BETWEEN.Keys;
    assert !CopiesAdjacent(BETWEEN, BETWEEN.Keys);
    TapeOrderDeliversOnceExactly(BETWEEN, "V", BETWEEN.Keys, [A_1, A_2, Pos("V", 3)], rows);
  }
}
