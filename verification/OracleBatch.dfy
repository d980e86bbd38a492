/** The column buffers of an Oracle batch insert are filled in two passes: field lengths while
    the items are checked, field values afterwards from the set of file events.
 */
module OracleBatch {
  import opened Writes

  const NUL: char := '\0'

  /** The width of a recorded field length. */
  type Ub2 = x: nat | x < 0x1_0000

  /** The part of a string that strncpy copies. */
  function CString(s: string): (r: string)
    ensures |r| <= |s| && NUL !in r
  {
    if s == [] || s[0] == NUL then [] else [s[0]] + CString(s[1..])
  }

  lemma {:induction false} CStringAt(s: string, j: nat)
    requires j <= |CString(s)|
    ensures j < |CString(s)| ==> CString(s)[j] == s[j] && s[j] != NUL
    ensures j == |CString(s)| && j < |s| ==> s[j] == NUL
  {
    if s != [] && s[0] != NUL && j > 0 { CStringAt(s[1..], j - 1); }
  }

  /** An access to a field: done, refused with an exception, or outside of the array, which the
      source does not notice. */
  datatype Access = Stored | Refused | Outside

  /** A column of nbRows fields, all as wide as the longest length recorded. */
  class OcciColumn {
    const nbRows: nat
    const fieldLengths: array<Ub2>
    var maxFieldLength: Ub2
    var buffer: array2?<char>   // row i holds field i

    ghost predicate Valid()
      reads this, fieldLengths
    {
      && fieldLengths.Length == nbRows
      && (forall i :: 0 <= i < nbRows ==> fieldLengths[i] <= maxFieldLength)
      && (buffer != null ==> buffer.Length0 == nbRows && buffer.Length1 == maxFieldLength)
    }

    /** Field `i` is the string `s`, padded with null characters. */
    ghost predicate Holds(i: nat, s: string)
      reads this, buffer
    {
      && buffer != null && i < buffer.Length0 && |s| < buffer.Length1
      && (forall j :: 0 <= j < |s| ==> buffer[i, j] == s[j])
      && (forall j :: |s| <= j < buffer.Length1 ==> buffer[i, j] == NUL)
    }

    constructor (nbRows: nat)
      ensures Valid() && this.nbRows == nbRows && buffer == null && fresh(fieldLengths)
    {
      this.nbRows := nbRows;
      fieldLengths := new Ub2[nbRows](i => 0);
      maxFieldLength, buffer := 0, null;
    }

    /** The check of the index compares with nbRows - 1 in unsigned arithmetic, so it does not
        protect a column without rows. */
    method SetFieldLen(index: nat, length: Ub2) returns (r: Access)
      requires Valid()
      modifies this`maxFieldLength, fieldLengths
      ensures Valid() && maxFieldLength >= old(maxFieldLength)
      ensures r == if buffer != null then Refused else if index < nbRows then Stored
                   else if nbRows == 0 then Outside else Refused
      ensures r.Stored? ==> fieldLengths[index] == length
      ensures forall k :: 0 <= k < nbRows && (!r.Stored? || k != index) ==> fieldLengths[k] == old(fieldLengths[k])
    {
      if buffer != null { return Refused; }
      if nbRows == 0 { return Outside; }
      if index > nbRows - 1 { return Refused; }
      fieldLengths[index] := length;
      if length > maxFieldLength { maxFieldLength := length; }
      r := Stored;
    }

    method GetBuffer() returns (b: array2<char>)
      requires Valid() && nbRows > 0 && maxFieldLength > 0
      modifies this`buffer
      ensures Valid() && buffer == b && (if old(buffer) == null then fresh(b) else b == old(buffer))
    {
      if buffer == null { buffer := new char[nbRows, maxFieldLength]; }
      b := buffer;
    }

    /** Refuses a value that does not fit the longest length recorded, or a column without rows;
        does not check the index. */
    method SetFieldValue(index: nat, str: string) returns (r: Access)
      requires Valid()
      modifies this`buffer, buffer
      ensures Valid() && (if old(buffer) == null then buffer == null || fresh(buffer) else buffer == old(buffer))
      ensures r == if |str| >= maxFieldLength || nbRows == 0 then Refused
                   else if index >= nbRows then Outside else Stored
      ensures r.Stored? ==> Holds(index, CString(str))
      ensures forall k, s :: k != index && old(Holds(k, s)) ==> Holds(k, s)
    {
      if |str| + 1 > maxFieldLength || nbRows == 0 { return Refused; }
      var b := GetBuffer();
      if index >= nbRows { return Outside; }
      CopyInto(b, index, str);
      r := Stored;
    }

    /** strncpy, which pads with null characters */
    method CopyInto(b: array2<char>, index: nat, str: string)
      requires Valid() && b == buffer && index < nbRows && |str| < maxFieldLength
      modifies b
      ensures Valid() && Holds(index, CString(str))
      ensures forall k, l :: 0 <= k < nbRows && k != index && 0 <= l < maxFieldLength ==> b[k, l] == old(b[k, l])
    {
      ghost var text := CString(str);
      var ended := false;
      for j := 0 to maxFieldLength
        invariant ended <==> j > |text|
        invariant forall l :: 0 <= l < j ==> b[index, l] == if l < |text| then text[l] else NUL
        invariant forall k, l :: 0 <= k < nbRows && k != index && 0 <= l < maxFieldLength ==> b[k, l] == old(b[k, l])
      {
        if j <= |text| { CStringAt(str, j); }
        ended := ended || j == |str| || str[j] == NUL;
        b[index, j] := if ended then NUL else str[j];
      }
    }
  }

  /** Inserting into a std::set ordered by file sequence number: an event whose number is
      already present is ignored. */
  function InsertOrdered(fs: seq<FileEvent>, f: FileEvent): seq<FileEvent> {
    if fs == [] then [f]
    else if f.fSeq < fs[0].fSeq then [f] + fs
    else if f.fSeq == fs[0].fSeq then fs
    else [fs[0]] + InsertOrdered(fs[1..], f)
  }

  /** The events stay ordered, and the new one is among them exactly if its number was not present. */
  lemma {:induction false} InsertOrderedExact(fs: seq<FileEvent>, f: FileEvent)
    requires Ascending(fs)
    ensures Ascending(InsertOrdered(fs, f))
    ensures forall e: FileEvent :: e in InsertOrdered(fs, f) <==>
              e in fs || (e == f && forall i :: 0 <= i < |fs| ==> fs[i].fSeq != f.fSeq)
  {
    if fs != [] && fs[0].fSeq < f.fSeq {
      var rest := fs[1..];
      InsertOrderedExact(rest, f);
      assert forall i :: 0 <= i < |rest| ==> rest[i] == fs[i + 1];
      var r := InsertOrdered(rest, f);
      forall i | 0 <= i < |r| ensures fs[0].fSeq < r[i].fSeq { assert r[i] in r; }
      assert forall e: FileEvent :: e in fs <==> e == fs[0] || e in rest;
      assert (forall i :: 0 <= i < |fs| ==> fs[i].fSeq != f.fSeq) <==>
             (forall i :: 0 <= i < |rest| ==> rest[i].fSeq != f.fSeq) by {
        assert forall i :: 0 < i < |fs| ==> fs[i] == rest[i - 1];
      }
    }
  }

  lemma {:induction false} InsertLargest(fs: seq<FileEvent>, f: FileEvent)
    requires forall i :: 0 <= i < |fs| ==> fs[i].fSeq < f.fSeq
    ensures InsertOrdered(fs, f) == fs + [f]
  {
    if fs != [] { InsertLargest(fs[1..], f); }
  }

  method CountFiles(b: seq<Event>) returns (n: nat)
    ensures n == |Files(b)|
  {
    n := 0;
    for i := 0 to |b|
      invariant n + |Files(b[i..])| == |Files(b)|
    {
      assert b[i..][0] == b[i] && b[i..][1..] == b[i + 1..];
      if b[i].File? { n := n + 1; }
    }
  }

  /** The length recorded for a value: its characters and the terminator, cut to 16 bits. */
  function RecordedLength(value: string): Ub2 { (|value| + 1) % 0x1_0000 }

  ghost predicate LengthsRecorded(column: OcciColumn, fs: seq<FileEvent>, text: FileEvent -> string)
    reads column, column.fieldLengths
  {
    && column.Valid() && |fs| <= column.nbRows
    && forall k :: 0 <= k < |fs| ==> column.fieldLengths[k] == RecordedLength(text(fs[k]))
  }

  /** First pass: the lengths of one column, and the ordered set of file events. */
  method RecordLengths(b: Batch, text: FileEvent -> string) returns (column: OcciColumn, fileEvents: seq<FileEvent>)
    ensures fileEvents == Files(b) && fresh(column) && fresh(column.fieldLengths)
    ensures column.nbRows == |Files(b)| && column.buffer == null
    ensures LengthsRecorded(column, Files(b), text)
  {
    var filesCount := CountFiles(b);
    column := new OcciColumn(filesCount);
    var i := 0;
    fileEvents := [];
    for j := 0 to |b|
      invariant column.nbRows == |Files(b)| && column.buffer == null && fresh(column) && fresh(column.fieldLengths)
      invariant fileEvents + Files(b[j..]) == Files(b) && i == |fileEvents|
      invariant forall k :: 0 <= k < i && j < |b| ==> fileEvents[k].fSeq < b[j].fSeq
      invariant LengthsRecorded(column, fileEvents, text)
    {
      assert b[j..][0] == b[j] && b[j..][1..] == b[j + 1..];
      if b[j].File? {
        assert Files(b[j..])[1..] == Files(b[j + 1..]);
        var r := column.SetFieldLen(i, RecordedLength(text(b[j])));
        assert r.Stored?;
        InsertLargest(fileEvents, b[j]);
        fileEvents := InsertOrdered(fileEvents, b[j]);
        i := i + 1;
      }
    }
  }

  /** Both passes over one column.  They succeed exactly when every value and its terminator
      fit a 16-bit length, and then row k holds the k-th file event's value under the length
      that the first pass recorded for it. */
  method FillColumn(b: Batch, text: FileEvent -> string)
    returns (ok: bool, column: OcciColumn, fileEvents: seq<FileEvent>)
    ensures fileEvents == Files(b) && column.Valid() && column.nbRows == |Files(b)|
    ensures ok <==> forall f :: f in Files(b) ==> |text(f)| + 1 < 0x1_0000
    ensures ok ==> forall k :: 0 <= k < |Files(b)| ==> column.fieldLengths[k] == |text(Files(b)[k])| + 1
    ensures ok ==> forall k :: 0 <= k < |Files(b)| ==> column.Holds(k, CString(text(Files(b)[k])))
  {
    column, fileEvents := RecordLengths(b, text);
    for i := 0 to |fileEvents|
      invariant fresh(column) && (column.buffer != null ==> fresh(column.buffer))
      invariant LengthsRecorded(column, fileEvents, text)
      invariant forall k :: 0 <= k < i ==> |text(fileEvents[k])| < column.maxFieldLength
      invariant forall k :: 0 <= k < i ==> column.Holds(k, CString(text(fileEvents[k])))
    {
      var r := column.SetFieldValue(i, text(fileEvents[i]));
      assert !r.Outside?;
      if r.Refused? {
        assert fileEvents[i] in Files(b);
        return false, column, fileEvents;
      }
    }
    ok := true;
  }
}
