/** What the iterator computes: the grouping of the rows into maximal runs of one archive file. */
module Grouping {
  import opened Options
  import opened ArchiveFiles

  // The reference: cutting a sequence of rows where the identifier changes

  /** The length of the longest prefix whose rows all have identifier `id`. */
  function RunLength<A, C>(id: nat, rows: seq<ArchiveFile<A, C>>): (n: nat)
    ensures n <= |rows|
    ensures forall i :: 0 <= i < n ==> rows[i].id == id
    ensures n < |rows| ==> rows[n].id != id
  {
    if rows == [] || rows[0].id != id then 0 else 1 + RunLength(id, rows[1..])
  }

  function AllTapeFiles<A, C>(rows: seq<ArchiveFile<A, C>>): seq<C> {
    if rows == [] then [] else rows[0].tapeFiles + AllTapeFiles(rows[1..])
  }

  /** The archive file of a run: its first row with the tape files of all rows. */
  function Merge<A, C>(run: seq<ArchiveFile<A, C>>): ArchiveFile<A, C>
    requires run != []
  {
    run[0].(tapeFiles := AllTapeFiles(run))
  }

  /** One archive file for each maximal run of rows with one identifier. */
  function Groups<A, C>(rows: seq<ArchiveFile<A, C>>): (files: seq<ArchiveFile<A, C>>)
    ensures rows != [] ==> files != [] && files[0].id == rows[0].id
    decreases |rows|
  {
    if rows == [] then []
    else
      var n := RunLength(rows[0].id, rows);
      [Merge(rows[..n])] + Groups(rows[n..])
  }

  /** The runs are maximal: neighbouring groups belong to different archive files. */
  lemma {:induction false} NeighboursDiffer<A, C>(rows: seq<ArchiveFile<A, C>>, i: nat)
    requires i + 1 < |Groups(rows)|
    ensures Groups(rows)[i].id != Groups(rows)[i + 1].id
    decreases |rows|
  {
    var n := RunLength(rows[0].id, rows);
    if i == 0 {
      assert Groups(rows)[1] == Groups(rows[n..])[0] && rows[n..][0] == rows[n];
    } else {
      NeighboursDiffer(rows[n..], i - 1);
    }
  }

  // The builder cuts at the same places

  /** Where two neighbouring rows have one identifier, the second has a tape file and some
      row up to the first has one too.  Rows of an inner join with TAPE_FILE all have one. */
  ghost predicate Joinable<A, C>(rows: seq<ArchiveFile<A, C>>) {
    forall i, j :: 0 <= i < j < |rows| && j == i + 1 && rows[i].id == rows[j].id ==>
      rows[j].tapeFiles != [] && exists k :: 0 <= k <= i && rows[k].tapeFiles != []
  }

  /** The same, with a file under construction in front. */
  ghost predicate JoinableAfter<A, C>(id: nat, rows: seq<ArchiveFile<A, C>>) {
    && (rows != [] && rows[0].id == id ==> rows[0].tapeFiles != [])
    && forall i, j :: 0 <= i < j < |rows| && j == i + 1 && rows[i].id == rows[j].id ==> rows[j].tapeFiles != []
  }

  lemma RunTapeFiles<A, C>(rows: seq<ArchiveFile<A, C>>, n: nat)
    requires 0 < n <= |rows|
    ensures AllTapeFiles(rows[..n]) == rows[0].tapeFiles + AllTapeFiles(rows[1..][..n - 1])
  {
    assert rows[..n][1..] == rows[1..][..n - 1] && rows[..n][0] == rows[0];
  }

  lemma JoinableAfterTail<A, C>(id: nat, rows: seq<ArchiveFile<A, C>>)
    requires rows != [] && AtMostOneEach(rows) && JoinableAfter(id, rows) && rows[0].id == id
    ensures AtMostOneEach(rows[1..]) && JoinableAfter(id, rows[1..])
  {
    var rest := rows[1..];
    assert forall i :: 0 <= i < |rest| ==> rest[i] == rows[i + 1];
  }

  lemma {:induction false} RunFromBuilder<A, C>(file: ArchiveFile<A, C>, rows: seq<ArchiveFile<A, C>>)
    requires AtMostOneEach(rows) && JoinableAfter(file.id, rows)
    ensures var n := RunLength(file.id, rows);
            Pending(Some(file), rows) ==
            [file.(tapeFiles := file.tapeFiles + AllTapeFiles(rows[..n]))] +
            if n == |rows| then [] else Pending(Some(rows[n]), rows[n + 1..])
    decreases |rows|
  {
    var n := RunLength(file.id, rows);
    if rows == [] || n == 0 {
      assert rows[..n] == [] && file.tapeFiles + [] == file.tapeFiles;
    } else {
      var next := file.(tapeFiles := file.tapeFiles + rows[0].tapeFiles);
      var rest := rows[1..];
      JoinableAfterTail(file.id, rows);
      RunFromBuilder(next, rest);
      RunTapeFiles(rows, n);
      Associative(file.tapeFiles, rows[0].tapeFiles, AllTapeFiles(rest[..n - 1]));
      if n < |rows| { assert rest[n - 1] == rows[n] && rest[n..] == rows[n + 1..]; }
    }
  }

  lemma {:induction false} BuilderGroupsFrom<A, C>(rows: seq<ArchiveFile<A, C>>)
    requires rows != [] && AtMostOneEach(rows) && JoinableAfter(rows[0].id, rows[1..])
    ensures Pending(Some(rows[0]), rows[1..]) == Groups(rows)
    decreases |rows|
  {
    var rest := rows[1..];
    assert forall i :: 0 <= i < |rest| ==> rest[i] == rows[i + 1];
    RunFromBuilder(rows[0], rest);
    var n := RunLength(rows[0].id, rows);
    assert n == 1 + RunLength(rows[0].id, rest);
    assert rows[..n][1..] == rest[..n - 1];
    if n < |rows| {
      NextRunJoinable(rows, n);
      BuilderGroupsFrom(rows[n..]);
    }
  }

  lemma NextRunJoinable<A, C>(rows: seq<ArchiveFile<A, C>>, n: nat)
    requires 0 < n < |rows| && AtMostOneEach(rows) && JoinableAfter(rows[0].id, rows[1..])
    ensures AtMostOneEach(rows[n..]) && JoinableAfter(rows[n..][0].id, rows[n..][1..])
    ensures rows[n..][0] == rows[n] && rows[1..][n - 1] == rows[n] && rows[1..][n..] == rows[n..][1..]
  {
    var tail := rows[n..][1..];
    assert forall i :: 0 <= i < |tail| ==> tail[i] == rows[n + 1 + i] && tail[i] == rows[1..][n + i];
    if tail != [] && tail[0].id == rows[n].id {
      assert rows[1..][n - 1] == rows[n] && rows[1..][n] == tail[0];
    }
  }

  lemma JoinableTail<A, C>(rows: seq<ArchiveFile<A, C>>)
    requires rows != []
    ensures rows[0].tapeFiles != [] ==> (Joinable(rows) <==> JoinableAfter(rows[0].id, rows[1..]))
    ensures rows[0].tapeFiles == [] ==>
              (Joinable(rows) <==> Joinable(rows[1..]) && (|rows| > 1 ==> rows[1].id != rows[0].id))
  {
    var rest := rows[1..];
    assert forall i :: 0 <= i < |rest| ==> rest[i] == rows[i + 1];
    assert forall i :: 0 < i < |rows| ==> rows[i] == rest[i - 1];
    if rows[0].tapeFiles != [] {
      if JoinableAfter(rows[0].id, rest) {
        forall i, j | 0 <= i < j < |rows| && j == i + 1 && rows[i].id == rows[j].id
          ensures rows[j].tapeFiles != []
        {
          if i > 0 { assert rest[i - 1].id == rest[j - 1].id; }
        }
      }
    } else {
      if Joinable(rest) && (|rows| > 1 ==> rows[1].id != rows[0].id) {
        forall i, j | 0 <= i < j < |rows| && j == i + 1 && rows[i].id == rows[j].id
          ensures rows[j].tapeFiles != [] && exists k :: 0 <= k <= i && rows[k].tapeFiles != []
        {
          assert i > 0 && rest[i - 1].id == rest[j - 1].id;
          var k :| 0 <= k <= i - 1 && rest[k].tapeFiles != [];
          assert rows[k + 1].tapeFiles != [];
        }
      }
      if Joinable(rows) {
        forall i, j | 0 <= i < j < |rest| && j == i + 1 && rest[i].id == rest[j].id
          ensures rest[j].tapeFiles != [] && exists k :: 0 <= k <= i && rest[k].tapeFiles != []
        {
          assert rows[i + 1].id == rows[j + 1].id;
          var k :| 0 <= k <= i + 1 && rows[k].tapeFiles != [];
          assert k > 0 && rest[k - 1].tapeFiles != [];
        }
      }
    }
  }

  lemma {:induction false} JoinableGroups<A, C>(rows: seq<ArchiveFile<A, C>>)
    requires AtMostOneEach(rows) && Joinable(rows)
    ensures Pending(None, rows) == Groups(rows)
    decreases |rows|
  {
    if rows != [] {
      JoinableTail(rows);
      if rows[0].tapeFiles == [] {
        JoinableGroups(rows[1..]);
        assert RunLength(rows[0].id, rows) == 1;
        assert rows[..1][1..] == [] && rows[..1][0] == rows[0];
        assert AllTapeFiles(rows[..1]) == rows[0].tapeFiles;
        assert Merge(rows[..1]) == rows[0];
      } else {
        BuilderGroupsFrom(rows);
      }
    }
  }

  /** Two neighbouring results are one archive file. */
  ghost predicate SplitsAFile<A, C>(files: seq<ArchiveFile<A, C>>) {
    exists i, j :: 0 <= i < j < |files| && j == i + 1 && files[i].id == files[j].id
  }

  lemma SplitBehind<A, C>(file: ArchiveFile<A, C>, files: seq<ArchiveFile<A, C>>)
    requires SplitsAFile(files) || (files != [] && files[0].id == file.id)
    ensures SplitsAFile([file] + files)
  {
    var all := [file] + files;
    if SplitsAFile(files) {
      var i, j :| 0 <= i < j < |files| && j == i + 1 && files[i].id == files[j].id;
      assert all[i + 1].id == all[j + 1].id;
    } else {
      assert all[0].id == all[1].id;
    }
  }

  lemma {:induction false} FirstPending<A, C>(current: Option<ArchiveFile<A, C>>, rows: seq<ArchiveFile<A, C>>)
    requires AtMostOneEach(rows) && (current.Some? || rows != [])
    ensures Pending(current, rows) != []
    ensures Pending(current, rows)[0].id == if current.Some? then current.value.id else rows[0].id
    decreases |rows|
  {
    if rows != [] {
      var (next, r) := AppendTo(current, rows[0]);
      if !r.Complete? { FirstPending(next, rows[1..]); }
    }
  }

  lemma {:induction false} NotJoinableSplitsAfter<A, C>(file: ArchiveFile<A, C>, rows: seq<ArchiveFile<A, C>>)
    requires AtMostOneEach(rows) && !JoinableAfter(file.id, rows)
    ensures SplitsAFile(Pending(Some(file), rows))
    decreases |rows|
  {
    var (next, r) := AppendTo(Some(file), rows[0]);
    var rest := rows[1..];
    assert forall i :: 0 <= i < |rest| ==> rest[i] == rows[i + 1];
    FirstPending(next, rest);
    if rows[0].tapeFiles == [] && rows[0].id == file.id {
      SplitBehind(file, Pending(next, rest));
    } else {
      assert !JoinableAfter(rows[0].id, rest) by {
        var i, j :| 0 <= i < j < |rows| && j == i + 1 && rows[i].id == rows[j].id && rows[j].tapeFiles == [];
        if i > 0 { assert rest[i - 1].id == rest[j - 1].id; }
      }
      NotJoinableSplitsAfter(next.value, rest);
      if r.Complete? { SplitBehind(file, Pending(next, rest)); }
    }
  }

  lemma {:induction false} NotJoinableSplits<A, C>(rows: seq<ArchiveFile<A, C>>)
    requires AtMostOneEach(rows) && !Joinable(rows)
    ensures SplitsAFile(Pending(None, rows))
    decreases |rows|
  {
    JoinableTail(rows);
    if rows[0].tapeFiles == [] {
      FirstPending(None, rows[1..]);
      if !Joinable(rows[1..]) { NotJoinableSplits(rows[1..]); }
      SplitBehind(rows[0], Pending(None, rows[1..]));
    } else {
      NotJoinableSplitsAfter(rows[0], rows[1..]);
    }
  }

  /** Running the iterator to exhaustion is grouping into maximal runs, exactly when rows
      without tape files do not share their identifier in the two ways named. */
  lemma IteratorGroupsExactly<A, C>(rows: seq<ArchiveFile<A, C>>)
    requires AtMostOneEach(rows)
    ensures Pending(None, rows) == Groups(rows) <==> Joinable(rows)
  {
    if Joinable(rows) {
      JoinableGroups(rows);
    } else {
      NotJoinableSplits(rows);
      var files := Pending(None, rows);
      var i, j :| 0 <= i < j < |files| && j == i + 1 && files[i].id == files[j].id;
      if files == Groups(rows) { NeighboursDiffer(rows, i); assert false; }
    }
  }

  lemma TapeFilesCons<A, C>(file: ArchiveFile<A, C>, files: seq<ArchiveFile<A, C>>)
    ensures AllTapeFiles([file] + files) == file.tapeFiles + AllTapeFiles(files)
  {
    assert ([file] + files)[1..] == files;
  }

  function CurrentTapeFiles<A, C>(current: Option<ArchiveFile<A, C>>): seq<C> {
    if current.Some? then current.value.tapeFiles else []
  }

  /** What is complete and what stays under construction: the tape files in their order. */
  lemma AppendKeepsTapeFiles<A, C>(current: Option<ArchiveFile<A, C>>, row: ArchiveFile<A, C>)
    requires |row.tapeFiles| <= 1
    ensures var (next, r) := AppendTo(current, row);
            CurrentTapeFiles(current) + row.tapeFiles
            == (if r.Complete? then r.file.tapeFiles else []) + CurrentTapeFiles(next)
  {
  }

  lemma PendingTapeFiles<A, C>(current: Option<ArchiveFile<A, C>>, rows: seq<ArchiveFile<A, C>>)
    requires AtMostOneEach(rows) && rows != []
    ensures var (next, r) := AppendTo(current, rows[0]);
            AllTapeFiles(Pending(current, rows))
            == (if r.Complete? then r.file.tapeFiles else []) + AllTapeFiles(Pending(next, rows[1..]))
  {
    var (next, r) := AppendTo(current, rows[0]);
    var rest := Pending(next, rows[1..]);
    if r.Complete? {
      assert Pending(current, rows) == [r.file] + rest;
      TapeFilesCons(r.file, rest);
    } else {
      assert Pending(current, rows) == rest;
    }
  }

  /** Whatever the rows: no tape file is lost, repeated or reordered. */
  lemma {:induction false} NothingLost<A, C>(current: Option<ArchiveFile<A, C>>, rows: seq<ArchiveFile<A, C>>)
    requires AtMostOneEach(rows)
    ensures AllTapeFiles(Pending(current, rows)) == CurrentTapeFiles(current) + AllTapeFiles(rows)
    decreases |rows|
  {
    if rows == [] {
      if current.Some? {
        TapeFilesCons(current.value, []);
        assert [current.value] + [] == [current.value];
      }
    } else {
      var (next, r) := AppendTo(current, rows[0]);
      var first := if r.Complete? then r.file.tapeFiles else [];
      NothingLost(next, rows[1..]);
      PendingTapeFiles(current, rows);
      AppendKeepsTapeFiles(current, rows[0]);
      Associative(first, CurrentTapeFiles(next), AllTapeFiles(rows[1..]));
      Associative(CurrentTapeFiles(current), rows[0].tapeFiles, AllTapeFiles(rows[1..]));
    }
  }

  lemma Associative<C>(a: seq<C>, b: seq<C>, c: seq<C>)
    ensures a + (b + c) == (a + b) + c
  {
  }

  lemma MoveFirst<T>(done: seq<T>, rest: seq<T>)
    requires rest != []
    ensures (done + [rest[0]]) + rest[1..] == done + rest
  {
  }

  /** The loop that every caller of the iterator writes. */
  method Collect<A, C>(rset: seq<ArchiveFile<A, C>>) returns (files: seq<ArchiveFile<A, C>>)
    requires AtMostOneEach(rset)
    ensures files == Pending(None, rset)
    ensures AllTapeFiles(files) == AllTapeFiles(rset)
    ensures files == Groups(rset) <==> Joinable(rset)
  {
    var itor := new ArchiveFileItor(rset);
    files := [];
    var more := itor.HasMore();
    while more
      invariant itor.Valid() && fresh(itor) && fresh(itor.builder)
      invariant itor.hasMoreHasBeenCalled && (more <==> itor.Rest() != [])
      invariant files + itor.Rest() == Pending(None, rset)
      decreases itor.Measure()
    {
      ghost var rest := itor.Rest();
      var r := itor.Next();
      MoveFirst(files, rest);
      files := files + [r.file];
      more := itor.HasMore();
    }
    assert files == Pending(None, rset);
    NothingLost(None, rset);
    IteratorGroupsExactly(rset);
  }
}
