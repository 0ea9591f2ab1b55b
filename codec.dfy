/**
 * The headerless roster format read by `import_from_file` and written by
 * `export_attendance`: one student per line, `first,last` or
 * `first,last,yes|no`. A file is modelled as its sequence of lines, each
 * without its line terminator.
 */
module Codec {
  import opened Text
  import opened Roster

  /** The comma-separated fields of a line, after the whole line is stripped. */
  function Fields(line: string): seq<string> {
    Split(Strip(line), ',')
  }

  /** A line `import_from_file` accepts: blank, or two or three fields. */
  predicate WellFormedLine(line: string) {
    IsBlank(line) || 2 <= |Fields(line)| <= 3
  }

  /** A name that survives being written into a line and read back:
      no comma to split it and no outer whitespace to strip. */
  predicate StorableName(name: string) {
    ',' !in name && Strip(name) == name
  }

  /** A record `decode(encode(...))` gives back unchanged. */
  predicate Storable(s: Student) {
    StorableName(s.firstName) && StorableName(s.lastName) && s.present.Recorded?
  }

  /** Text with no line break in it. `import_from_file` ends a line at
      `\n` and at `\r`, so a line of a file is always like this, and a name
      `export_attendance` writes stays on one line only when it is. */
  predicate OneLine(text: string) {
    '\n' !in text && '\r' !in text
  }

  /** A record `export_attendance` writes as one line that
      `import_from_file` reads back as the same record. */
  predicate Writable(s: Student) {
    Storable(s) && OneLine(s.firstName) && OneLine(s.lastName)
  }

  lemma {:induction false} StripStorable(field: string)
    requires ',' !in field
    ensures StorableName(Strip(field))
  {
    StripKeepsSeparators(field, ',');
    CountZero(field, ',');
    CountZero(Strip(field), ',');
    StripIdempotent(field);
  }

  /** Reads one non-blank line: two fields give an explicit `False`, three
      give `True` exactly when the third field reads "yes" in any case and
      with any outer whitespace, and any other count is an error naming the
      stripped line. The names are the first two fields, stripped, so
      what it reads back is always storable. */
  function ParseLine(line: string): (r: Result<Student>)
    requires !IsBlank(line)
    ensures r.Ok? <==> 2 <= |Fields(line)| <= 3
    ensures r.Err? ==> r.error == InvalidLine(Strip(line))
    ensures r.Ok? ==> Storable(r.value)
    ensures r.Ok? ==> r.value.firstName == Strip(Fields(line)[0]) && r.value.lastName == Strip(Fields(line)[1])
    ensures r.Ok? && |Fields(line)| == 2 ==> r.value.present == Recorded(false)
    ensures r.Ok? && |Fields(line)| == 3 ==> r.value.present == Recorded(Normalize(Fields(line)[2]) == "yes")
  {
    var parts := Fields(line);
    if |parts| < 2 || |parts| > 3 then
      Err(InvalidLine(Strip(line)))
    else
      StripStorable(parts[0]);
      StripStorable(parts[1]);
      if |parts| == 2 then
        Ok(Student(Strip(parts[0]), Strip(parts[1]), Recorded(false)))
      else
        Ok(Student(Strip(parts[0]), Strip(parts[1]), Recorded(Normalize(parts[2]) == "yes")))
  }

  /** Records already read, followed by what the rest of the file gives. */
  function Prepend(done: seq<Student>, rest: Result<seq<Student>>): Result<seq<Student>> {
    if rest.Ok? then Ok(done + rest.value) else rest
  }

  /** The value `import_from_file` returns or the exception it raises for a
      file with these lines: blank lines are skipped, every other line is
      read in order, and the first bad line aborts the whole read. */
  function Decode(lines: seq<string>): (r: Result<seq<Student>>)
    ensures r.Ok? ==> |r.value| <= |lines|
    ensures r.Ok? ==> forall k :: 0 <= k < |r.value| ==> Storable(r.value[k])
    ensures r.Err? ==> exists k :: 0 <= k < |lines| && r.error == InvalidLine(Strip(lines[k]))
    decreases |lines|
  {
    if lines == [] then Ok([])
    else if IsBlank(lines[0]) then Decode(lines[1..])
    else
      match ParseLine(lines[0])
      case Err(e) => Err(e)
      case Ok(s) => Prepend([s], Decode(lines[1..]))
  }

  /** One step of `Decode`, for the loop that reads a file line by line. */
  lemma {:induction false} DecodeUnfold(lines: seq<string>)
    requires lines != []
    ensures IsBlank(lines[0]) ==> Decode(lines) == Decode(lines[1..])
    ensures !IsBlank(lines[0]) && ParseLine(lines[0]).Err? ==> Decode(lines) == Err(ParseLine(lines[0]).error)
    ensures !IsBlank(lines[0]) && ParseLine(lines[0]).Ok? ==>
      Decode(lines) == Prepend([ParseLine(lines[0]).value], Decode(lines[1..]))
  {
  }

  /** A good line in front of a good file: its record comes first. */
  lemma {:induction false} DecodeCons(line: string, rest: seq<string>, s: Student, students: seq<Student>)
    requires !IsBlank(line) && ParseLine(line) == Ok(s)
    requires Decode(rest) == Ok(students)
    ensures Decode([line] + rest) == Ok([s] + students)
  {
    var lines := [line] + rest;
    assert lines[0] == line && lines[1..] == rest;
    DecodeUnfold(lines);
  }

  lemma {:induction false} PrependTwice(done: seq<Student>, s: Student, rest: Result<seq<Student>>)
    ensures Prepend(done, Prepend([s], rest)) == Prepend(done + [s], rest)
  {
    if rest.Ok? {
      assert done + ([s] + rest.value) == (done + [s]) + rest.value;
    }
  }

  /** The lines of a file that are not blank, in file order. */
  function NonBlank(lines: seq<string>): (r: seq<string>)
    ensures |r| <= |lines|
    ensures forall k :: 0 <= k < |r| ==> !IsBlank(r[k]) && r[k] in lines
    decreases |lines|
  {
    if lines == [] then []
    else if IsBlank(lines[0]) then NonBlank(lines[1..])
    else [lines[0]] + NonBlank(lines[1..])
  }

  /** Line `i` is the first line that is neither blank nor two or three fields. */
  predicate FirstMalformed(lines: seq<string>, i: int) {
    && 0 <= i < |lines|
    && !WellFormedLine(lines[i])
    && forall j :: 0 <= j < i ==> WellFormedLine(lines[j])
  }

  /** Decoding succeeds exactly when every line is blank or has two or three fields. */
  lemma {:induction false} DecodeSucceedsIff(lines: seq<string>)
    ensures Decode(lines).Ok? <==> forall i :: 0 <= i < |lines| ==> WellFormedLine(lines[i])
    decreases |lines|
  {
    if lines != [] {
      DecodeSucceedsIff(lines[1..]);
      assert forall i :: 1 <= i < |lines| ==> lines[i] == lines[1..][i - 1];
    }
  }

  /** A successful decode gives exactly one record per non-blank line, in file order. */
  lemma {:induction false} DecodeKeepsLineOrder(lines: seq<string>)
    ensures Decode(lines).Ok? ==>
      && |Decode(lines).value| == |NonBlank(lines)|
      && forall k :: 0 <= k < |NonBlank(lines)| ==> ParseLine(NonBlank(lines)[k]) == Ok(Decode(lines).value[k])
    decreases |lines|
  {
    if lines != [] && Decode(lines).Ok? {
      DecodeKeepsLineOrder(lines[1..]);
      if !IsBlank(lines[0]) {
        var rest := NonBlank(lines[1..]);
        assert NonBlank(lines) == [lines[0]] + rest;
        forall k | 0 <= k < |NonBlank(lines)|
          ensures ParseLine(NonBlank(lines)[k]) == Ok(Decode(lines).value[k])
        {
          if k > 0 {
            assert NonBlank(lines)[k] == rest[k - 1];
          }
        }
      }
    }
  }

  /** A failed decode reports the first bad line, stripped, and nothing else:
      no partial list of records reaches the caller. */
  lemma {:induction false} DecodeReportsFirstBadLine(lines: seq<string>, i: int)
    requires FirstMalformed(lines, i)
    ensures Decode(lines) == Err(InvalidLine(Strip(lines[i])))
    decreases |lines|
  {
    if i > 0 {
      assert WellFormedLine(lines[0]);
      assert FirstMalformed(lines[1..], i - 1) by {
        assert forall j :: 0 <= j < i - 1 ==> lines[1..][j] == lines[j + 1];
      }
      DecodeReportsFirstBadLine(lines[1..], i - 1);
    }
  }

  /** A blank line anywhere in a file makes no difference to what is read. */
  lemma {:induction false} DecodeIgnoresBlankLine(before: seq<string>, blank: string, after: seq<string>)
    requires IsBlank(blank)
    ensures Decode(before + [blank] + after) == Decode(before + after)
    decreases |before|
  {
    if before == [] {
      assert before + [blank] + after == [blank] + after;
      assert ([blank] + after)[1..] == after;
      assert before + after == after;
    } else {
      var lines := before + [blank] + after;
      assert lines[0] == before[0] && lines[1..] == before[1..] + [blank] + after;
      assert (before + after)[0] == before[0] && (before + after)[1..] == before[1..] + after;
      DecodeIgnoresBlankLine(before[1..], blank, after);
    }
  }

  /** How `export_attendance` writes a `present` value: Python's truthiness,
      so only `True` is written as "yes". */
  function PresenceToken(p: Presence): (r: string)
    ensures r == "yes" <==> p == Recorded(true)
    ensures r == "yes" || r == "no"
  {
    if p == Recorded(true) then "yes" else "no"
  }

  function EncodeLine(s: Student): string {
    s.firstName + "," + s.lastName + "," + PresenceToken(s.present)
  }

  /** The lines `export_attendance` writes: one per record, in order, with no header. */
  function Encode(students: seq<Student>): (r: seq<string>)
    ensures |r| == |students|
    ensures forall i :: 0 <= i < |students| ==> r[i] == EncodeLine(students[i])
    decreases |students|
  {
    if students == [] then [] else [EncodeLine(students[0])] + Encode(students[1..])
  }

  /** Every written line has exactly three fields, the names and "yes" or "no". */
  lemma {:induction false} EncodeLineFields(s: Student)
    requires ',' !in s.firstName && ',' !in s.lastName
    ensures Split(EncodeLine(s), ',') == [s.firstName, s.lastName, PresenceToken(s.present)]
  {
    var token := PresenceToken(s.present);
    var fields := [s.firstName, s.lastName, token];
    assert fields[1..] == [s.lastName, token] && fields[1..][1..] == [token];
    assert Join(fields[1..], ',') == s.lastName + [','] + token;
    assert EncodeLine(s) == Join(fields, ',');
    SplitJoin(fields, ',');
  }

  lemma NormalizeTokens()
    ensures Normalize("yes") == "yes" && Normalize("no") == "no"
  {
    assert Strip("yes") == "yes" && Strip("no") == "no";
    assert Lower("yes") == "yes" by {
      assert Lower("yes")[0] == 'y' && Lower("yes")[1] == 'e' && Lower("yes")[2] == 's';
    }
    assert Lower("no") == "no" by {
      assert Lower("no")[0] == 'n' && Lower("no")[1] == 'o';
    }
  }

  /** A written line has no outer whitespace, so reading strips nothing off it. */
  lemma {:induction false} EncodeLineIsStripped(s: Student)
    requires Storable(s)
    ensures Strip(EncodeLine(s)) == EncodeLine(s) && !IsBlank(EncodeLine(s))
  {
    var line := EncodeLine(s);
    var token := PresenceToken(s.present);
    assert line[|line| - 1] == token[|token| - 1];
    if s.firstName != [] {
      assert line[0] == s.firstName[0] == Strip(s.firstName)[0];
    } else {
      assert line[0] == ',';
    }
  }

  /** One storable record survives being written as a line and read back. */
  lemma {:induction false} ParseEncodedLine(s: Student)
    requires Storable(s)
    ensures !IsBlank(EncodeLine(s)) && ParseLine(EncodeLine(s)) == Ok(s)
  {
    var line := EncodeLine(s);
    EncodeLineIsStripped(s);
    EncodeLineFields(s);
    assert Fields(line) == [s.firstName, s.lastName, PresenceToken(s.present)];
    NormalizeTokens();
  }

  /** Round trip of the headerless format: reading back what `export_attendance`
      wrote gives the same records, for comma-free names without outer
      whitespace or line breaks whose attendance has been recorded. */
  lemma {:induction false} DecodeEncode(students: seq<Student>)
    requires forall i :: 0 <= i < |students| ==> Writable(students[i])
    ensures Decode(Encode(students)) == Ok(students)
    decreases |students|
  {
    if students != [] {
      var lines := Encode(students);
      ParseEncodedLine(students[0]);
      assert lines[0] == EncodeLine(students[0]);
      assert lines[1..] == Encode(students[1..]);
      DecodeEncode(students[1..]);
      assert Decode(lines) == Prepend([students[0]], Decode(lines[1..]));
      assert [students[0]] + students[1..] == students;
    }
  }

  /** A line with no line break gives names with none. */
  lemma {:induction false} ParseLineKeepsOneLine(line: string)
    requires !IsBlank(line) && OneLine(line) && ParseLine(line).Ok?
    ensures OneLine(ParseLine(line).value.firstName) && OneLine(ParseLine(line).value.lastName)
  {
    var fields := Fields(line);
    StripKeepsAbsent(line, '\n');
    StripKeepsAbsent(line, '\r');
    SplitKeepsAbsent(Strip(line), ',', '\n');
    SplitKeepsAbsent(Strip(line), ',', '\r');
    StripKeepsAbsent(fields[0], '\n');
    StripKeepsAbsent(fields[0], '\r');
    StripKeepsAbsent(fields[1], '\n');
    StripKeepsAbsent(fields[1], '\r');
  }

  /** Everything read from a file is writable, so writing it out and
      reading it again gives the same result: export after import loses
      nothing except blank lines, spacing and the spelling of "yes". */
  lemma {:induction false} ReencodeIsStable(lines: seq<string>)
    requires forall line :: line in lines ==> OneLine(line)
    requires Decode(lines).Ok?
    ensures Decode(Encode(Decode(lines).value)) == Decode(lines)
  {
    var students := Decode(lines).value;
    DecodeKeepsLineOrder(lines);
    forall i | 0 <= i < |students| ensures Writable(students[i]) {
      var line := NonBlank(lines)[i];
      assert ParseLine(line) == Ok(students[i]);
      ParseLineKeepsOneLine(line);
    }
    DecodeEncode(students);
  }

  /** A file of two writable records, as `export_attendance` writes it and
      `import_from_file` reads it back. */
  lemma {:induction false} TwoRecordFile(a: Student, b: Student)
    requires Writable(a) && Writable(b)
    ensures Encode([a, b]) == [EncodeLine(a), EncodeLine(b)]
    ensures Decode([EncodeLine(a), EncodeLine(b)]) == Ok([a, b])
  {
    DecodeEncode([a, b]);
  }

  /** A word: letters, digits and the like, with no comma, whitespace or
      line break. */
  predicate Word(name: string) {
    name != [] && forall k :: 0 <= k < |name| ==> '-' <= name[k] <= 'z'
  }

  /** A record with word names is writable. */
  lemma {:induction false} WordRecord(first: string, last: string, isPresent: bool)
    requires Word(first) && Word(last)
    ensures Writable(Student(first, last, Recorded(isPresent)))
  {
    assert !IsSpace(first[0]) && !IsSpace(first[|first| - 1]);
    assert !IsSpace(last[0]) && !IsSpace(last[|last| - 1]);
  }

  /** The lines `export_attendance` writes for the records of the tests. */
  lemma TestLines()
    ensures EncodeLine(Student("John", "Doe", Recorded(true))) == "John,Doe,yes"
    ensures EncodeLine(Student("Jane", "Smith", Recorded(false))) == "Jane,Smith,no"
    ensures EncodeLine(Student("Alice", "Brown", Recorded(true))) == "Alice,Brown,yes"
    ensures EncodeLine(Student("Bob", "Green", Recorded(false))) == "Bob,Green,no"
  {
  }

  /** The file of the import test: two records with a blank line between them. */
  lemma ImportSkipsBlankLine()
    ensures Decode(["John,Doe,yes", "", "Jane,Smith,no"]) ==
      Ok([Student("John", "Doe", Recorded(true)), Student("Jane", "Smith", Recorded(false))])
  {
    WordRecord("John", "Doe", true);
    WordRecord("Jane", "Smith", false);
    TestLines();
    TwoRecordFile(Student("John", "Doe", Recorded(true)), Student("Jane", "Smith", Recorded(false)));
    DecodeIgnoresBlankLine(["John,Doe,yes"], "", ["Jane,Smith,no"]);
  }

  /** The lines of the missing-field test: the first has two fields, the
      second only one. */
  lemma MissingFieldLines()
    ensures WellFormedLine("John,Doe")
    ensures !WellFormedLine("Jane") && Strip("Jane") == "Jane"
  {
    assert Strip("John,Doe") == "John,Doe";
    assert Join(["John", "Doe"], ',') == "John,Doe";
    SplitJoin(["John", "Doe"], ',');
    SplitSingle("Jane", ',');
  }

  /** A line with a single field aborts the whole import, naming that line. */
  lemma ImportRejectsMissingField()
    ensures Decode(["John,Doe", "Jane"]) == Err(InvalidLine("Jane"))
  {
    var lines := ["John,Doe", "Jane"];
    MissingFieldLines();
    assert FirstMalformed(lines, 1);
    DecodeReportsFirstBadLine(lines, 1);
  }

  /** The export test: each record becomes `first,last,yes|no`, and the
      file written imports back as the same two records. */
  lemma ExportWritesYesNo()
    ensures Encode([Student("Alice", "Brown", Recorded(true)), Student("Bob", "Green", Recorded(false))])
         == ["Alice,Brown,yes", "Bob,Green,no"]
    ensures Decode(["Alice,Brown,yes", "Bob,Green,no"])
         == Ok([Student("Alice", "Brown", Recorded(true)), Student("Bob", "Green", Recorded(false))])
  {
    WordRecord("Alice", "Brown", true);
    WordRecord("Bob", "Green", false);
    TestLines();
    TwoRecordFile(Student("Alice", "Brown", Recorded(true)), Student("Bob", "Green", Recorded(false)));
  }
}
