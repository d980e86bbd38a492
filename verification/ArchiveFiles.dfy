/** Turning a stream of joined rows into archive files with their tape copies: the builder, and the
    iterator with its hasMore/next protocol.
 */
module ArchiveFiles {
  import opened Options

  /** A row of the result set has the same type: an archive file with at most one tape file. */
  datatype ArchiveFile<A, C> = ArchiveFile(id: nat, attributes: A, tapeFiles: seq<C>)

  datatype Appended<A, C> = Complete(file: ArchiveFile<A, C>) | Incomplete | NotAlone

  /** The builder's transition: the file under construction afterwards, and the result. */
  function AppendTo<A, C>(current: Option<ArchiveFile<A, C>>, row: ArchiveFile<A, C>)
    : (Option<ArchiveFile<A, C>>, Appended<A, C>)
  {
    if current.None? then
      if row.tapeFiles == [] then (None, Complete(row))
      else if |row.tapeFiles| != 1 then (None, NotAlone)
      else (Some(row), Incomplete)
    else if row.tapeFiles == [] then (Some(row), Complete(current.value))
    else if row.id == current.value.id then
      if |row.tapeFiles| != 1 then (current, NotAlone)
      else (Some(current.value.(tapeFiles := current.value.tapeFiles + row.tapeFiles)), Incomplete)
    else (Some(row), Complete(current.value))
  }

  predicate AtMostOneEach<A, C>(rows: seq<ArchiveFile<A, C>>) {
    forall i :: 0 <= i < |rows| ==> |rows[i].tapeFiles| <= 1
  }

  /** The archive files still to be delivered. */
  function Pending<A, C>(current: Option<ArchiveFile<A, C>>, rows: seq<ArchiveFile<A, C>>): seq<ArchiveFile<A, C>>
    decreases |rows|
  {
    if rows == [] then if current.Some? then [current.value] else []
    else
      var (next, r) := AppendTo(current, rows[0]);
      if r.Complete? then [r.file] + Pending(next, rows[1..]) else Pending(next, rows[1..])
  }

  class ArchiveFileBuilder<A, C> {
    var current: Option<ArchiveFile<A, C>>

    constructor ()
      ensures current == None
    {
      current := None;
    }

    method Append(row: ArchiveFile<A, C>) returns (r: Appended<A, C>)
      modifies this
      ensures (current, r) == AppendTo(old(current), row)
    {
      if current.None? {
        if |row.tapeFiles| == 0 { return Complete(row); }
        if |row.tapeFiles| != 1 { return NotAlone; }
        current := Some(row);
        return Incomplete;
      }
      var file := current.value;
      if |row.tapeFiles| == 0 {
        current := Some(row);
        return Complete(file);
      }
      if row.id == file.id {
        if |row.tapeFiles| != 1 { return NotAlone; }
        assert row.tapeFiles == [row.tapeFiles[0]];
        current := Some(file.(tapeFiles := file.tapeFiles + [row.tapeFiles[0]]));
        return Incomplete;
      }
      current := Some(row);
      r := Complete(file);
    }

    method Clear()
      modifies this
      ensures current == None
    {
      current := None;
    }
  }

  datatype Fetched<A, C> = Item(file: ArchiveFile<A, C>) | HasMoreNotCalled | NothingLeft | RowError

  class ArchiveFileItor<A, C> {
    const builder: ArchiveFileBuilder<A, C>
    var rows: seq<ArchiveFile<A, C>>   // the row under the cursor and those behind it
    var rsetIsEmpty: bool
    var hasMoreHasBeenCalled: bool

    predicate Valid()
      reads this, builder
    {
      (rsetIsEmpty <==> rows == []) && AtMostOneEach(rows)
    }

    /** What the iterator will still deliver. */
    function Rest(): seq<ArchiveFile<A, C>>
      reads this, builder
    {
      Pending(builder.current, rows)
    }

    /** Rows left plus the file under construction. */
    function Measure(): nat
      reads this, builder
    {
      |rows| + if builder.current.Some? then 1 else 0
    }

    constructor (rset: seq<ArchiveFile<A, C>>)
      requires AtMostOneEach(rset)
      ensures Valid() && fresh(builder) && Rest() == Pending(None, rset) && !hasMoreHasBeenCalled
    {
      builder := new ArchiveFileBuilder();
      rows, rsetIsEmpty, hasMoreHasBeenCalled := rset, |rset| == 0, false;
    }

    method HasMore() returns (more: bool)
      requires Valid()
      modifies this`hasMoreHasBeenCalled
      ensures Valid() && Rest() == old(Rest()) && Measure() == old(Measure()) && hasMoreHasBeenCalled
      ensures more <==> Rest() != []
    {
      hasMoreHasBeenCalled := true;
      more := !rsetIsEmpty || builder.current.Some?;
      PendingEmpty(builder.current, rows);
    }

    /** Delivers the next file exactly when there is one and hasMore has been asked. */
    method Next() returns (r: Fetched<A, C>)
      requires Valid()
      modifies this, builder
      ensures Valid() && !hasMoreHasBeenCalled
      ensures !old(hasMoreHasBeenCalled) ==> r == HasMoreNotCalled && Rest() == old(Rest())
      ensures old(hasMoreHasBeenCalled) && old(Rest()) == [] ==> r == NothingLeft && Rest() == []
      ensures old(hasMoreHasBeenCalled) && old(Rest()) != [] ==>
                r == Item(old(Rest())[0]) && Rest() == old(Rest())[1..] && Measure() < old(Measure())
    {
      if !hasMoreHasBeenCalled { return HasMoreNotCalled; }
      hasMoreHasBeenCalled := false;
      PendingEmpty(builder.current, rows);
      if rsetIsEmpty {
        if builder.current.None? { return NothingLeft; }
        r := Item(builder.current.value);
        builder.Clear();
        return;
      }
      ghost var rest, size := Rest(), Measure();
      while true
        invariant Valid() && !rsetIsEmpty && !hasMoreHasBeenCalled
        invariant Rest() == rest && Measure() <= size
        decreases |rows|
      {
        var complete := builder.Append(rows[0]);
        if complete.NotAlone? { return RowError; }
        rows := rows[1..];
        rsetIsEmpty := |rows| == 0;
        if complete.Complete? { return Item(complete.file); }
        if rsetIsEmpty {
          // The source throws if no file is under construction here; that cannot happen.
          assert builder.current.Some?;
          assert Pending(builder.current, rows) == [builder.current.value];
          assert rest == Pending(builder.current, rows);
          r := Item(builder.current.value);
          builder.Clear();
          return;
        }
      }
    }
  }

  lemma PendingEmpty<A, C>(current: Option<ArchiveFile<A, C>>, rows: seq<ArchiveFile<A, C>>)
    requires AtMostOneEach(rows)
    ensures Pending(current, rows) == [] <==> current.None? && rows == []
    decreases |rows|
  {
    if rows != [] {
      var (next, r) := AppendTo(current, rows[0]);
      if !r.Complete? {
        assert next.Some?;
        PendingEmpty(next, rows[1..]);
      }
    }
  }
}
