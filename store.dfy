/**
 * The file-backed operations of the roster. The file system is a `Disk`
 * object whose only state is a map from file name to the file's lines;
 * `import_from_file` and `export_attendance` use the headerless format of
 * `Codec`, while `add_student` and `edit_student` use the headered table
 * that Python's `csv` module reads and writes.
 */
module Store {
  import opened Text
  import opened Roster
  import opened Codec

  /** The header `add_student` and `edit_student` write as a table's first line. */
  const Header: string := "first_name,last_name,present"

  /** The file `manage_attendance` exports to. */
  const DefaultFile: string := "students.csv"

  /** A field `csv.writer` writes as it is, with no quoting. */
  predicate CsvPlain(field: string) {
    ',' !in field && '"' !in field && '\n' !in field && '\r' !in field
  }

  /** One row of the headered table as `csv.DictReader` gives it. The
      `present` column is kept as the text it holds ("False", "yes", ...). */
  datatype Row = Row(firstName: string, lastName: string, present: string)

  predicate PlainRow(r: Row) {
    CsvPlain(r.firstName) && CsvPlain(r.lastName) && CsvPlain(r.present)
  }

  /** The line `csv.writer` writes for a row of plain fields. */
  function RowLine(r: Row): string {
    r.firstName + "," + r.lastName + "," + r.present
  }

  /** A data line the csv reader splits into exactly three unquoted fields. */
  predicate IsRowLine(line: string) {
    '"' !in line && '\n' !in line && '\r' !in line && |Split(line, ',')| == 3
  }

  /** Data lines as `csv.DictReader` takes them: empty lines, which it
      skips, or rows of three fields. */
  predicate AllRowLines(data: seq<string>) {
    forall i :: 0 <= i < |data| ==> data[i] == "" || IsRowLine(data[i])
  }

  /** A file `edit_student` can read: empty, or the header followed by data lines. */
  predicate IsTable(lines: seq<string>) {
    lines == [] || (lines[0] == Header && AllRowLines(lines[1..]))
  }

  /** Reads one data line into a row. */
  function ParseRow(line: string): Row
    requires IsRowLine(line)
  {
    var f := Split(line, ',');
    Row(f[0], f[1], f[2])
  }

  /** Writing a parsed row back gives the very same line, and its fields
      need no quoting. */
  lemma {:induction false} ParseRowLine(line: string)
    requires IsRowLine(line)
    ensures PlainRow(ParseRow(line))
    ensures RowLine(ParseRow(line)) == line
  {
    var f := Split(line, ',');
    SplitKeepsAbsent(line, ',', '"');
    SplitKeepsAbsent(line, ',', '\n');
    SplitKeepsAbsent(line, ',', '\r');
    JoinSplit(line, ',');
    assert f[1..] == [f[1], f[2]] && f[1..][1..] == [f[2]];
    assert Join(f[1..], ',') == f[1] + [','] + f[2];
    assert Join(f, ',') == f[0] + [','] + (f[1] + [','] + f[2]);
  }

  /** The rows `csv.DictReader` yields for the first `n` data lines, in order. */
  function RowsUpTo(data: seq<string>, n: nat): seq<Row>
    requires n <= |data| && AllRowLines(data)
  {
    if n == 0 then []
    else if data[n - 1] == "" then RowsUpTo(data, n - 1)
    else RowsUpTo(data, n - 1) + [ParseRow(data[n - 1])]
  }

  /** The rows of a table: its data lines after the header. */
  function TableRows(lines: seq<string>): seq<Row>
    requires IsTable(lines)
  {
    if lines == [] then [] else RowsUpTo(lines[1..], |lines| - 1)
  }

  /** What `csv.DictWriter` writes: the header, then one line per row. */
  function RenderTable(rows: seq<Row>): seq<string> {
    [Header] + RowLines(rows)
  }

  function RowLines(rows: seq<Row>): seq<string> {
    seq(|rows|, i requires 0 <= i < |rows| => RowLine(rows[i]))
  }

  predicate Matches(r: Row, first: string, last: string) {
    r.firstName == first && r.lastName == last
  }

  predicate AnyMatch(rows: seq<Row>, first: string, last: string) {
    exists i :: 0 <= i < |rows| && Matches(rows[i], first, last)
  }

  /** The renaming `edit_student` applies to one row. */
  function RenameRow(r: Row, oldFirst: string, oldLast: string, newFirst: string, newLast: string): (renamed: Row)
    ensures renamed.present == r.present
    ensures Matches(r, oldFirst, oldLast) ==> Matches(renamed, newFirst, newLast)
    ensures !Matches(r, oldFirst, oldLast) ==> renamed == r
  {
    if Matches(r, oldFirst, oldLast) then r.(firstName := newFirst, lastName := newLast) else r
  }

  /** The renaming applied to every row: the loop has no `break`. */
  function Renamed(rows: seq<Row>, oldFirst: string, oldLast: string, newFirst: string, newLast: string): seq<Row> {
    seq(|rows|, i requires 0 <= i < |rows| => RenameRow(rows[i], oldFirst, oldLast, newFirst, newLast))
  }

  /** A file as `os.path.exists` sees it: absent, or present with its lines. */
  function FileAt(files: map<string, seq<string>>, filename: string): Option<seq<string>> {
    if filename in files then Some(files[filename]) else None
  }

  /** The file after `add_student`: the header first if the file did not
      exist, then the new row with `present` written as "False". */
  function AddedLines(file: Option<seq<string>>, first: string, last: string): (r: seq<string>)
    ensures file.None? ==> |r| == 2 && r[0] == Header
    ensures file.Some? ==> |r| == |file.value| + 1 && r[..|file.value|] == file.value
    ensures r[|r| - 1] == RowLine(Row(first, last, "False"))
  {
    var row := RowLine(Row(first, last, "False"));
    match file
    case None => [Header, row]
    case Some(lines) => lines + [row]
  }

  class Disk {
    var files: map<string, seq<string>>

    constructor (files: map<string, seq<string>>)
      ensures this.files == files
    {
      this.files := files;
    }

    /** `import_from_file`: reads every record of a headerless file, or
        raises for a missing file or a malformed line. Reading changes nothing. */
    method ImportFromFile(filename: string) returns (r: Result<seq<Student>>)
      ensures filename !in files ==> r == Err(FileNotFound(filename))
      ensures filename in files ==> r == Decode(files[filename])
    {
      if filename !in files {
        return Err(FileNotFound(filename));
      }
      var lines := files[filename];
      var students: seq<Student> := [];
      var i := 0;
      assert lines[0..] == lines;
      assert Decode(lines).Ok? ==> [] + Decode(lines).value == Decode(lines).value;
      while i < |lines|
        invariant 0 <= i <= |lines|
        invariant Decode(lines) == Prepend(students, Decode(lines[i..]))
      {
        DecodeUnfold(lines[i..]);
        assert lines[i..][0] == lines[i] && lines[i..][1..] == lines[i + 1..];
        if !IsBlank(lines[i]) {
          match ParseLine(lines[i])
          case Err(e) =>
            return Err(e);
          case Ok(s) =>
            PrependTwice(students, s, Decode(lines[i + 1..]));
            students := students + [s];
        }
        i := i + 1;
      }
      assert students + [] == students;
      return Ok(students);
    }

    /** `export_attendance`: truncates the file, then writes one line per record. */
    method ExportAttendance(students: seq<Student>, filename: string)
      modifies this
      ensures files == old(files)[filename := Encode(students)]
    {
      files := files[filename := []];
      var i := 0;
      while i < |students|
        invariant 0 <= i <= |students|
        invariant filename in files && files == old(files)[filename := files[filename]]
        invariant |files[filename]| == i
        invariant forall k :: 0 <= k < i ==> files[filename][k] == EncodeLine(students[k])
      {
        files := files[filename := files[filename] + [EncodeLine(students[i])]];
        i := i + 1;
      }
      assert files[filename] == Encode(students);
    }

    /** `add_student`: appends `first,last,False`, writing the header first
        when the file did not exist. Every other file is left alone. */
    method AddStudent(first: string, last: string, filename: string)
      requires CsvPlain(first) && CsvPlain(last)
      modifies this
      ensures files == old(files)[filename := AddedLines(FileAt(old(files), filename), first, last)]
    {
      var fileExists := filename in files;
      var lines := if fileExists then files[filename] else [];
      if !fileExists {
        lines := lines + [Header];
      }
      lines := lines + [RowLine(Row(first, last, "False"))];
      assert lines == AddedLines(FileAt(files, filename), first, last);
      files := files[filename := lines];
    }

    /** `edit_student`: renames every row whose names are the old pair and
        rewrites the whole table, or raises and leaves the file untouched
        when the file is missing or no row matches. */
    method EditStudent(oldFirst: string, oldLast: string, newFirst: string, newLast: string, filename: string)
      returns (outcome: Outcome)
      requires CsvPlain(newFirst) && CsvPlain(newLast)
      requires filename in files ==> IsTable(files[filename])
      modifies this
      ensures filename !in old(files) ==> outcome == Failed(FileNotFound(filename)) && files == old(files)
      ensures filename in old(files) && !AnyMatch(TableRows(old(files)[filename]), oldFirst, oldLast) ==>
        outcome == Failed(StudentNotFound(oldFirst, oldLast)) && files == old(files)
      ensures filename in old(files) && AnyMatch(TableRows(old(files)[filename]), oldFirst, oldLast) ==>
        && outcome == Done
        && files == old(files)[filename := RenderTable(Renamed(TableRows(old(files)[filename]), oldFirst, oldLast, newFirst, newLast))]
    {
      if filename !in files {
        return Failed(FileNotFound(filename));
      }
      var lines := files[filename];
      var data := if lines == [] then [] else lines[1..];
      assert AllRowLines(data) && TableRows(lines) == RowsUpTo(data, |data|);
      var students: seq<Row> := [];
      var updated := false;
      var i := 0;
      while i < |data|
        invariant 0 <= i <= |data|
        invariant files == old(files)
        invariant students == Renamed(RowsUpTo(data, i), oldFirst, oldLast, newFirst, newLast)
        invariant updated == AnyMatch(RowsUpTo(data, i), oldFirst, oldLast)
      {
        if data[i] != "" {
          AnyMatchSnoc(RowsUpTo(data, i), ParseRow(data[i]), oldFirst, oldLast);
          RenamedSnoc(RowsUpTo(data, i), ParseRow(data[i]), oldFirst, oldLast, newFirst, newLast);
          var row := ParseRow(data[i]);
          if row.firstName == oldFirst && row.lastName == oldLast {
            row := row.(firstName := newFirst, lastName := newLast);
            updated := true;
          }
          assert row == RenameRow(ParseRow(data[i]), oldFirst, oldLast, newFirst, newLast);
          students := students + [row];
        }
        i := i + 1;
      }
      assert updated == AnyMatch(TableRows(lines), oldFirst, oldLast);
      assert students == Renamed(TableRows(lines), oldFirst, oldLast, newFirst, newLast);
      if !updated {
        return Failed(StudentNotFound(oldFirst, oldLast));
      }
      files := files[filename := RenderTable(students)];
      return Done;
    }
  }

  lemma {:induction false} AllRowLinesSnoc(data: seq<string>, line: string)
    requires AllRowLines(data)
    requires line == "" || IsRowLine(line)
    ensures AllRowLines(data + [line])
  {
    var all := data + [line];
    forall i | 0 <= i < |all| ensures all[i] == "" || IsRowLine(all[i]) {
      if i < |data| {
        assert all[i] == data[i];
      }
    }
  }

  lemma {:induction false} AnyMatchSnoc(rows: seq<Row>, r: Row, first: string, last: string)
    ensures AnyMatch(rows + [r], first, last) == (AnyMatch(rows, first, last) || Matches(r, first, last))
  {
    var all := rows + [r];
    if AnyMatch(rows, first, last) {
      var i :| 0 <= i < |rows| && Matches(rows[i], first, last);
      assert all[i] == rows[i];
    }
    if Matches(r, first, last) {
      assert all[|rows|] == r;
    }
    if AnyMatch(all, first, last) {
      var i :| 0 <= i < |all| && Matches(all[i], first, last);
      if i < |rows| {
        assert all[i] == rows[i];
      }
    }
  }

  lemma {:induction false} RenamedSnoc(rows: seq<Row>, r: Row, oldFirst: string, oldLast: string, newFirst: string, newLast: string)
    ensures Renamed(rows + [r], oldFirst, oldLast, newFirst, newLast)
         == Renamed(rows, oldFirst, oldLast, newFirst, newLast) + [RenameRow(r, oldFirst, oldLast, newFirst, newLast)]
  {
    assert forall i :: 0 <= i < |rows| ==> (rows + [r])[i] == rows[i];
  }

  /** A row of plain fields is written as a line that reads back as that
      very row: the other half of `ParseRowLine`. */
  lemma {:induction false} RowLineParses(r: Row)
    requires PlainRow(r)
    ensures IsRowLine(RowLine(r)) && ParseRow(RowLine(r)) == r
  {
    var fields := [r.firstName, r.lastName, r.present];
    assert fields[1..] == [r.lastName, r.present] && fields[1..][1..] == [r.present];
    assert Join(fields[1..], ',') == r.lastName + [','] + r.present;
    assert RowLine(r) == Join(fields, ',');
    SplitJoin(fields, ',');
  }

  /** Every row the reader yields has plain fields. */
  lemma {:induction false} RowsArePlain(data: seq<string>, n: nat)
    requires n <= |data| && AllRowLines(data)
    ensures forall i :: 0 <= i < |RowsUpTo(data, n)| ==> PlainRow(RowsUpTo(data, n)[i])
  {
    if n > 0 {
      RowsArePlain(data, n - 1);
      if data[n - 1] != "" {
        ParseRowLine(data[n - 1]);
      }
    }
  }

  /** Rows written one per line are read back in order. */
  lemma {:induction false} RowLinesReadBack(rows: seq<Row>, n: nat)
    requires n <= |rows|
    requires forall i :: 0 <= i < |rows| ==> PlainRow(rows[i])
    ensures AllRowLines(RowLines(rows))
    ensures RowsUpTo(RowLines(rows), n) == rows[..n]
  {
    var data := RowLines(rows);
    forall i | 0 <= i < |data| ensures data[i] == "" || IsRowLine(data[i]) {
      RowLineParses(rows[i]);
    }
    if n > 0 {
      RowLinesReadBack(rows, n - 1);
      RowLineParses(rows[n - 1]);
      assert data[n - 1] == RowLine(rows[n - 1]) != "";
      assert rows[..n] == rows[..n - 1] + [rows[n - 1]];
    }
  }

  /** Writing rows as a table and reading the table gives the rows back. */
  lemma {:induction false} TableRoundTrip(rows: seq<Row>)
    requires forall i :: 0 <= i < |rows| ==> PlainRow(rows[i])
    ensures IsTable(RenderTable(rows)) && TableRows(RenderTable(rows)) == rows
  {
    var t := RenderTable(rows);
    assert t[0] == Header && t[1..] == RowLines(rows);
    RowLinesReadBack(rows, |rows|);
    assert rows[..|rows|] == rows;
  }

  /** Reading a table with no empty line and writing its rows back gives
      the very same lines. */
  lemma {:induction false} RowsUpToReadsEveryLine(data: seq<string>, n: nat)
    requires n <= |data| && AllRowLines(data)
    requires forall i :: 0 <= i < |data| ==> data[i] != ""
    ensures RowLines(RowsUpTo(data, n)) == data[..n]
  {
    if n > 0 {
      RowsUpToReadsEveryLine(data, n - 1);
      ParseRowLine(data[n - 1]);
      var before := RowsUpTo(data, n - 1);
      assert RowsUpTo(data, n) == before + [ParseRow(data[n - 1])];
      assert RowLines(before)[..n - 1] == data[..n - 1];
      assert data[..n] == data[..n - 1] + [data[n - 1]];
    }
  }

  lemma {:induction false} TableRewrite(lines: seq<string>)
    requires IsTable(lines) && lines != []
    requires forall i :: 0 <= i < |lines| ==> lines[i] != ""
    ensures RenderTable(TableRows(lines)) == lines
  {
    var data := lines[1..];
    forall i | 0 <= i < |data| ensures data[i] != "" {
      assert data[i] == lines[i + 1];
    }
    RowsUpToReadsEveryLine(data, |data|);
    calc {
      RenderTable(TableRows(lines));
      [Header] + RowLines(RowsUpTo(data, |data|));
      { assert data[..|data|] == data; }
      [lines[0]] + data;
      lines;
    }
  }

  /** Two data lists that agree on their first `n` lines give the same rows. */
  lemma {:induction false} RowsUpToSamePrefix(a: seq<string>, b: seq<string>, n: nat)
    requires n <= |a| && n <= |b| && AllRowLines(a) && AllRowLines(b)
    requires forall i :: 0 <= i < n ==> a[i] == b[i]
    ensures RowsUpTo(a, n) == RowsUpTo(b, n)
  {
    if n > 0 {
      RowsUpToSamePrefix(a, b, n - 1);
    }
  }

  /** `add_student` on a missing file or on a table leaves a table whose
      rows are the old ones followed by the new student, not yet marked. */
  lemma {:induction false} AddKeepsTable(file: Option<seq<string>>, first: string, last: string)
    requires CsvPlain(first) && CsvPlain(last)
    requires file.Some? ==> IsTable(file.value) && file.value != []
    ensures IsTable(AddedLines(file, first, last))
    ensures TableRows(AddedLines(file, first, last))
      == (if file.None? then [] else TableRows(file.value)) + [Row(first, last, "False")]
    ensures AnyMatch(TableRows(AddedLines(file, first, last)), first, last)
  {
    var row := Row(first, last, "False");
    NewRowParses(first, last);
    var after := AddedLines(file, first, last);
    var before := if file.None? then [Header] else file.value;
    assert after == before + [RowLine(row)];
    var data := before[1..];
    assert after[1..] == data + [RowLine(row)];
    AllRowLinesSnoc(data, RowLine(row));
    RowsUpToSamePrefix(data, after[1..], |data|);
    assert TableRows(after) == RowsUpTo(data, |data|) + [row];
    AnyMatchSnoc(RowsUpTo(data, |data|), row, first, last);
  }

  /** The line `add_student` appends is a data line holding the new student. */
  lemma {:induction false} NewRowParses(first: string, last: string)
    requires CsvPlain(first) && CsvPlain(last)
    ensures RowLine(Row(first, last, "False")) != ""
    ensures IsRowLine(RowLine(Row(first, last, "False")))
    ensures ParseRow(RowLine(Row(first, last, "False"))) == Row(first, last, "False")
  {
    assert CsvPlain("False");
    RowLineParses(Row(first, last, "False"));
  }

  /** Adding the same student twice appends a second identical row: the
      operation is not idempotent. */
  lemma {:induction false} AddIsNotIdempotent(file: Option<seq<string>>, first: string, last: string)
    ensures AddedLines(Some(AddedLines(file, first, last)), first, last)
      == AddedLines(file, first, last) + [RowLine(Row(first, last, "False"))]
    ensures AddedLines(Some(AddedLines(file, first, last)), first, last) != AddedLines(file, first, last)
  {
  }

  /** `add_student` on a file that exists but is empty writes no header:
      the result is not a table. */
  lemma {:induction false} AddToEmptyFileOmitsHeader(first: string, last: string)
    ensures AddedLines(Some([]), first, last) == [RowLine(Row(first, last, "False"))]
    ensures !IsTable(AddedLines(Some([]), first, last))
  {
    var line := RowLine(Row(first, last, "False"));
    assert line[|line| - 1] == 'e' && Header[|Header| - 1] == 't';
  }

  /** Renaming to a different pair leaves no row with the old pair, so a
      second identical edit raises. */
  lemma {:induction false} RenameLeavesNoOldPair(rows: seq<Row>, oldFirst: string, oldLast: string, newFirst: string, newLast: string)
    requires oldFirst != newFirst || oldLast != newLast
    ensures !AnyMatch(Renamed(rows, oldFirst, oldLast, newFirst, newLast), oldFirst, oldLast)
  {
  }

  /** Renaming a pair that some row carries makes the new pair findable. */
  lemma {:induction false} RenameFindsNewPair(rows: seq<Row>, oldFirst: string, oldLast: string, newFirst: string, newLast: string)
    requires AnyMatch(rows, oldFirst, oldLast)
    ensures AnyMatch(Renamed(rows, oldFirst, oldLast, newFirst, newLast), newFirst, newLast)
  {
    var i :| 0 <= i < |rows| && Matches(rows[i], oldFirst, oldLast);
    assert Matches(Renamed(rows, oldFirst, oldLast, newFirst, newLast)[i], newFirst, newLast);
  }

  /** Renaming keeps the number of rows, every `present` value, and every
      row that does not carry the old pair. */
  lemma {:induction false} RenameKeepsOtherRows(rows: seq<Row>, oldFirst: string, oldLast: string, newFirst: string, newLast: string)
    ensures |Renamed(rows, oldFirst, oldLast, newFirst, newLast)| == |rows|
    ensures forall i :: 0 <= i < |rows| ==>
      Renamed(rows, oldFirst, oldLast, newFirst, newLast)[i].present == rows[i].present
    ensures forall i :: 0 <= i < |rows| && !Matches(rows[i], oldFirst, oldLast) ==>
      Renamed(rows, oldFirst, oldLast, newFirst, newLast)[i] == rows[i]
  {
  }

  /** The file `edit_student` writes is again a table, and reading it gives
      the renamed rows. */
  lemma {:induction false} EditedFileIsTable(lines: seq<string>, oldFirst: string, oldLast: string, newFirst: string, newLast: string)
    requires IsTable(lines) && CsvPlain(newFirst) && CsvPlain(newLast)
    ensures IsTable(RenderTable(Renamed(TableRows(lines), oldFirst, oldLast, newFirst, newLast)))
    ensures TableRows(RenderTable(Renamed(TableRows(lines), oldFirst, oldLast, newFirst, newLast)))
      == Renamed(TableRows(lines), oldFirst, oldLast, newFirst, newLast)
  {
    var rows := TableRows(lines);
    if lines != [] {
      RowsArePlain(lines[1..], |lines| - 1);
    }
    var renamed := Renamed(rows, oldFirst, oldLast, newFirst, newLast);
    assert forall i :: 0 <= i < |renamed| ==> PlainRow(renamed[i]);
    TableRoundTrip(renamed);
  }

  /** Repeating an edit that renamed someone to a different pair fails:
      the old pair is gone from the rewritten table. */
  lemma {:induction false} EditTwiceFails(lines: seq<string>, oldFirst: string, oldLast: string, newFirst: string, newLast: string)
    requires IsTable(lines) && CsvPlain(newFirst) && CsvPlain(newLast)
    requires oldFirst != newFirst || oldLast != newLast
    ensures IsTable(RenderTable(Renamed(TableRows(lines), oldFirst, oldLast, newFirst, newLast)))
    ensures !AnyMatch(TableRows(RenderTable(Renamed(TableRows(lines), oldFirst, oldLast, newFirst, newLast))), oldFirst, oldLast)
  {
    EditedFileIsTable(lines, oldFirst, oldLast, newFirst, newLast);
    RenameLeavesNoOldPair(TableRows(lines), oldFirst, oldLast, newFirst, newLast);
  }

  lemma HeaderFields()
    ensures Fields(Header) == ["first_name", "last_name", "present"]
  {
    HeaderIsStripped();
    HeaderJoinsNames();
    SplitJoin(["first_name", "last_name", "present"], ',');
  }

  lemma HeaderIsStripped()
    ensures Strip(Header) == Header
  {
    assert Header[0] == 'f' && Header[|Header| - 1] == 't';
  }

  lemma HeaderJoinsNames()
    ensures Join(["first_name", "last_name", "present"], ',') == Header
  {
    var names := ["first_name", "last_name", "present"];
    assert names[1..] == ["last_name", "present"] && names[1..][1..] == ["present"];
  }

  lemma HeaderParses()
    ensures !IsBlank(Header)
    ensures ParseLine(Header) == Ok(Student("first_name", "last_name", Recorded(false)))
  {
    HeaderFields();
    HeaderNamesStripped();
    PresentIsNotYes();
  }

  lemma HeaderNamesStripped()
    ensures Strip("first_name") == "first_name" && Strip("last_name") == "last_name"
  {
    assert "first_name"[0] == 'f' && "first_name"[9] == 'e';
    assert "last_name"[0] == 'l' && "last_name"[8] == 'e';
  }

  lemma PresentIsNotYes()
    ensures Normalize("present") != "yes"
  {
    assert "present"[0] == 'p' && "present"[6] == 't';
    assert |Normalize("present")| == 7;
  }

  /** Every line of a table is a line `import_from_file` accepts. */
  lemma {:induction false} TableLineWellFormed(lines: seq<string>, i: nat)
    requires IsTable(lines) && i < |lines|
    ensures WellFormedLine(lines[i])
  {
    if i == 0 {
      HeaderParses();
      HeaderFields();
    } else {
      var line := lines[1..][i - 1];
      assert lines[i] == line;
      if line != "" {
        StripKeepsSeparators(line, ',');
      } else {
        assert IsBlank(line);
      }
    }
  }

  /** `import_from_file` on a file that `add_student` wrote does not fail:
      it reads the header itself as a first student named "first_name
      last_name", marked absent, since the header has three fields. */
  lemma {:induction false} TableImportsHeaderAsStudent(lines: seq<string>)
    requires IsTable(lines) && lines != []
    ensures Decode(lines).Ok?
    ensures |Decode(lines).value| >= 1
    ensures Decode(lines).value[0] == Student("first_name", "last_name", Recorded(false))
  {
    TableDecodes(lines);
    HeaderParses();
    DecodeUnfold(lines);
  }

  lemma {:induction false} TableDecodes(lines: seq<string>)
    requires IsTable(lines)
    ensures Decode(lines).Ok?
  {
    forall i | 0 <= i < |lines| ensures WellFormedLine(lines[i]) {
      TableLineWellFormed(lines, i);
    }
    DecodeSucceedsIff(lines);
  }

  /** A row whose names and `present` text carry no outer whitespace, as
      every row `add_student` writes does. */
  predicate TidyRow(r: Row) {
    && PlainRow(r)
    && Strip(r.firstName) == r.firstName
    && Strip(r.lastName) == r.lastName
    && r.present != [] && Strip(r.present) == r.present
  }

  /** The record `import_from_file` makes of a row's line. */
  function RowRecord(r: Row): Student {
    Student(r.firstName, r.lastName, Recorded(Normalize(r.present) == "yes"))
  }

  function RowRecords(rows: seq<Row>): seq<Student> {
    seq(|rows|, i requires 0 <= i < |rows| => RowRecord(rows[i]))
  }

  lemma {:induction false} TidyRowLineIsStripped(r: Row)
    requires TidyRow(r)
    ensures Strip(RowLine(r)) == RowLine(r)
  {
    var line := RowLine(r);
    assert line == r.firstName + "," + r.lastName + "," + r.present;
    assert line[|line| - 1] == r.present[|r.present| - 1];
    if r.firstName != [] {
      assert line[0] == r.firstName[0];
    }
  }

  /** `import_from_file` reads a tidy row's line as the row's names and
      marks it present exactly when its third field reads "yes". */
  lemma {:induction false} TidyRowLineImports(r: Row)
    requires TidyRow(r)
    ensures !IsBlank(RowLine(r))
    ensures ParseLine(RowLine(r)) == Ok(RowRecord(r))
  {
    var line := RowLine(r);
    RowLineParses(r);
    TidyRowLineIsStripped(r);
    assert Fields(line) == Split(line, ',');
  }

  lemma {:induction false} TidyRowsImport(rows: seq<Row>)
    requires forall i :: 0 <= i < |rows| ==> TidyRow(rows[i])
    ensures Decode(RowLines(rows)) == Ok(RowRecords(rows))
    decreases |rows|
  {
    if rows == [] {
      assert RowLines(rows) == [] && RowRecords(rows) == [];
    } else {
      RowsCons(rows);
      TidyRowsImport(rows[1..]);
      TidyRowLineImports(rows[0]);
      DecodeCons(RowLine(rows[0]), RowLines(rows[1..]), RowRecord(rows[0]), RowRecords(rows[1..]));
    }
  }

  lemma {:induction false} RowsCons(rows: seq<Row>)
    requires rows != []
    ensures RowLines(rows) == [RowLine(rows[0])] + RowLines(rows[1..])
    ensures RowRecords(rows) == [RowRecord(rows[0])] + RowRecords(rows[1..])
  {
  }

  /** A table of tidy rows, run through `import_from_file`, gives the
      header's record followed by one record per row, in order. */
  lemma {:induction false} RenderedTableImports(rows: seq<Row>)
    requires forall i :: 0 <= i < |rows| ==> TidyRow(rows[i])
    ensures Decode(RenderTable(rows)) == Ok([Student("first_name", "last_name", Recorded(false))] + RowRecords(rows))
  {
    HeaderParses();
    TidyRowsImport(rows);
    DecodeCons(Header, RowLines(rows), Student("first_name", "last_name", Recorded(false)), RowRecords(rows));
  }

  /** Some record carries these names. */
  predicate HasStudent(students: seq<Student>, first: string, last: string) {
    exists i :: 0 <= i < |students| && students[i].firstName == first && students[i].lastName == last
  }

  /** Renaming tidy rows to tidy names keeps them tidy. */
  lemma {:induction false} RenamedTidy(rows: seq<Row>, oldFirst: string, oldLast: string, newFirst: string, newLast: string)
    requires forall i :: 0 <= i < |rows| ==> TidyRow(rows[i])
    requires CsvPlain(newFirst) && CsvPlain(newLast) && Strip(newFirst) == newFirst && Strip(newLast) == newLast
    ensures forall i :: 0 <= i < |rows| ==> TidyRow(Renamed(rows, oldFirst, oldLast, newFirst, newLast)[i])
  {
  }

  /** The records of an imported table name the header's pair and
      exactly the pairs of its rows. */
  lemma {:induction false} TableRecordsNames(rows: seq<Row>, first: string, last: string)
    ensures HasStudent([Student("first_name", "last_name", Recorded(false))] + RowRecords(rows), first, last)
      <==> (first == "first_name" && last == "last_name") || AnyMatch(rows, first, last)
  {
    var records := [Student("first_name", "last_name", Recorded(false))] + RowRecords(rows);
    if HasStudent(records, first, last) {
      var j :| 0 <= j < |records| && records[j].firstName == first && records[j].lastName == last;
      if j > 0 {
        assert records[j] == RowRecord(rows[j - 1]);
        assert Matches(rows[j - 1], first, last);
      }
    }
    if AnyMatch(rows, first, last) {
      var k :| 0 <= k < |rows| && Matches(rows[k], first, last);
      assert records[k + 1] == RowRecord(rows[k]);
    }
    if first == "first_name" && last == "last_name" {
      assert records[0].firstName == first && records[0].lastName == last;
    }
  }

  /** After renaming a student that is in the table, importing the
      rewritten file finds the new names and no longer the old ones
      (unless the old names are those of the header). */
  lemma {:induction false} EditThenImport(lines: seq<string>, oldFirst: string, oldLast: string, newFirst: string, newLast: string)
    requires IsTable(lines)
    requires forall i :: 0 <= i < |TableRows(lines)| ==> TidyRow(TableRows(lines)[i])
    requires CsvPlain(newFirst) && CsvPlain(newLast) && Strip(newFirst) == newFirst && Strip(newLast) == newLast
    requires oldFirst != newFirst || oldLast != newLast
    requires oldFirst != "first_name" || oldLast != "last_name"
    requires AnyMatch(TableRows(lines), oldFirst, oldLast)
    ensures Decode(RenderTable(Renamed(TableRows(lines), oldFirst, oldLast, newFirst, newLast))).Ok?
    ensures HasStudent(Decode(RenderTable(Renamed(TableRows(lines), oldFirst, oldLast, newFirst, newLast))).value, newFirst, newLast)
    ensures !HasStudent(Decode(RenderTable(Renamed(TableRows(lines), oldFirst, oldLast, newFirst, newLast))).value, oldFirst, oldLast)
  {
    var rows := TableRows(lines);
    var renamed := Renamed(rows, oldFirst, oldLast, newFirst, newLast);
    RenamedTidy(rows, oldFirst, oldLast, newFirst, newLast);
    RenderedTableImports(renamed);
    RenameFindsNewPair(rows, oldFirst, oldLast, newFirst, newLast);
    RenameLeavesNoOldPair(rows, oldFirst, oldLast, newFirst, newLast);
    TableRecordsNames(renamed, newFirst, newLast);
    TableRecordsNames(renamed, oldFirst, oldLast);
  }
}
