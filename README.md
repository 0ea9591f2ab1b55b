# Student roster, modelled in Dafny

This project models `main.py` of a small attendance tool. The tool keeps a
list of students, each a record with a first name, a last name and a
`present` flag, and stores them in text files. It has two on-disk formats
and a few in-memory operations:

- **Headerless files** (`import_from_file`, `export_attendance`). Each line
  is `first,last` or `first,last,yes|no`, and blank lines are skipped.
  Module `Codec` models them as a decoder `Decode` and an encoder `Encode`
  over the file's lines.
- **Headered tables** (`add_student`, `edit_student`). These are files
  that Python's `csv` module reads and writes: a `first_name,last_name,present`
  header, then one row per student. Module `Store` models the file system as
  a `Disk` object, whose only state is a map from file name to the file's
  lines. The four file operations are methods of `Disk`. Each loop in the
  source is a `while` loop with invariants, proved against the functions in
  `Codec` and `Store`.
- **Attendance** (`mark_attenfance`, `presence_function`,
  `manage_attendance`, `edit_attendance`). Module `Attendance` holds these.
  - Marking updates an `array` of records in place, one answer per record.
  - The presence prompt is a recursive function over the answers typed.
    It skips invalid answers and fails only when the answers run out.
  - The session reads the answers typed: two names, the presence prompt,
    then "Want to add another student?". A `while` loop numbers the
    students from 1; the session then exports them.
  - The attendance dictionary is a class whose edit method updates one
    entry.

Module `Text` models the Python string operations the code relies on:
`strip()` with Python's full whitespace set, `lower()`, `split(sep)` and
`sep.join(...)`. Module `Roster` holds the shared data types. A student's
`present` value is `Unrecorded` (Python `None`) or `Recorded(b)`. Every
exception is an `Error` value inside a `Result` or an `Outcome`. What the
user types is a sequence of answers given up front. Running out of answers
is the `EOFError` that `input()` raises, and is modelled as `EndOfInput`.

Some behaviours of the code are worth knowing, and the model follows the
code in each case:

- **A table imports with its header as a student.** A table written by
  `add_student` can be read by `import_from_file`. It does not fail: the
  header has three fields, so it becomes a student named
  `first_name last_name`, marked absent. See
  `Store.TableImportsHeaderAsStudent`.
- **`edit_student` renames every match.** It has no `break`, so every row
  with the old names is renamed, not just the first one.
- **`edit_student` drops empty lines.** The rewritten table loses any empty
  lines the original had. Other than that, the untouched rows keep their
  text exactly (`Store.TableRewrite`).
- **`add_student` on an existing empty file writes no header.** The file
  exists, so the header is skipped and the result is not a table.
- **`add_student` does not check the names.** An empty name is accepted.
- **The two prompts read "yes" differently.**
  - `presence_function` lower-cases the answer but does not strip it, so
    " yes" is asked again.
  - `mark_attenfance` strips the answer as well, so " yes" counts.
- **A space inside a typed first name cuts it apart.** The exported record
  takes the first two words of the full name. The second word of the first
  name becomes the last name, and the real last name is lost
  (`Attendance.SpacedFirstNameIsCut`).

## Model

| member | source | states |
|---|---|---|
| Text.Split | main.py:15 | `split(',')` gives one more field than the line has commas, and no field contains a comma |
| Text.SplitJoin | main.py:15 | splitting a comma-joined list of comma-free fields gives the fields back |
| Text.JoinSplit | main.py:15 | joining the fields of a split gives the line back: splitting loses nothing |
| Text.StripKeepsSeparators | main.py:12-15 | stripping a line keeps all of its commas, so the number of fields is unchanged |
| Text.NormalizeIdempotent | main.py:30 | `strip().lower()` applied twice is the same as once |
| Codec.ParseLine | main.py:15-31 | a non-blank line is read exactly when it has 2 or 3 fields; the first and last names are exactly the first two fields, each stripped; 2 fields mean absent; with 3 fields the student is present exactly when the stripped, lower-cased third field is "yes"; any other count is an error naming the stripped line; every record read has comma-free stripped names |
| Codec.ParseLineKeepsOneLine | main.py:11-29 | a record read from a line holds no line break in its names |
| Codec.Decode | main.py:5-32 | a successful import has at most one record per line, each with comma-free stripped names and a recorded status; a failure names one of the file's lines, stripped |
| Codec.Encode | main.py:37-41 | export writes exactly one line per record, the `i`-th line for the `i`-th record |
| Codec.PresenceToken | main.py:40 | the third field is "yes" exactly when the student is present, and "no" otherwise |
| Codec.DecodeSucceedsIff | main.py:11-18 | importing succeeds exactly when every line is blank or has 2 or 3 fields |
| Codec.DecodeKeepsLineOrder | main.py:11-32 | a successful import yields one record per non-blank line, in file order |
| Codec.DecodeReportsFirstBadLine | main.py:17-18 | a failed import raises for the first bad line, stripped, and returns no partial list |
| Codec.DecodeIgnoresBlankLine | main.py:12-13 | a blank line anywhere in the file makes no difference to the result |
| Codec.EncodeLineFields | main.py:40-41 | every exported line splits into the two names and "yes" or "no" |
| Codec.ParseEncodedLine | main.py:15-41 | an exported line of a storable record reads back as that record |
| Codec.DecodeEncode | main.py:5-41 | importing what was exported gives the same records back, for comma-free names with no outer whitespace and no line break, and a recorded status |
| Codec.ReencodeIsStable | main.py:5-41 | for a file whose lines hold no line break, exporting what was imported and importing it again gives the same result |
| Codec.ImportSkipsBlankLine | test_students.py:62-68 | the file `John,Doe,yes`, blank line, `Jane,Smith,no` imports as the two students, John present and Jane absent |
| Codec.ImportRejectsMissingField | test_students.py:83-88 | the file `John,Doe`, `Jane` raises for the line `Jane` |
| Codec.ExportWritesYesNo | test_students.py:29-38 | exporting Alice (present) and Bob (absent) writes `Alice,Brown,yes` and `Bob,Green,no`, and that file imports back as the same two records |
| Store.Disk.ImportFromFile | main.py:5-32 | a missing file raises FileNotFound; otherwise the loop returns exactly what `Codec.Decode` gives for the file's lines |
| Store.Disk.ExportAttendance | main.py:37-41 | the file becomes exactly one encoded line per record, in order, with no header; no other file changes |
| Store.AddedLines | main.py:47-57 | a missing file becomes the header and one row; an existing file keeps all its lines and gains one; the last line is the row `first,last,False` |
| Store.Disk.AddStudent | main.py:47-57 | the file gains the row `first,last,False`, after a header if the file did not exist; earlier lines and other files are untouched |
| Store.Disk.EditStudent | main.py:63-82 | a missing file raises FileNotFound; if no row has the old names, raises StudentNotFound and leaves every file unchanged; otherwise the file becomes the header and every row, in order, with each matching row renamed |
| Store.ParseRowLine | main.py:68-69 | a data row read by the csv reader has fields that need no quoting, and writing it back gives the same line |
| Store.RowLineParses | main.py:80-82 | a row the csv writer writes reads back as the same row |
| Store.TableRoundTrip | main.py:79-82 | the rewritten file is a table whose rows read back as the rows written |
| Store.TableRewrite | main.py:67-82 | reading a table without empty lines and writing its rows back gives exactly the same lines |
| Store.AddKeepsTable | main.py:47-57 | on a missing file or a table, add leaves a table whose rows are the old rows plus the new student (absent), so the student can be found |
| Store.AddIsNotIdempotent | main.py:50-57 | adding the same student twice appends two identical rows |
| Store.AddToEmptyFileOmitsHeader | main.py:48-54 | adding to a file that exists but is empty writes the row alone, which is not a table |
| Store.RenameRow | main.py:69-74 | a row with the old names gets the new names, a row without them is unchanged, and `present` is kept either way |
| Store.RenameLeavesNoOldPair | main.py:69-74 | after renaming to different names, no row has the old names |
| Store.RenameFindsNewPair | main.py:69-74 | if some row had the old names, some row has the new names |
| Store.RenameKeepsOtherRows | main.py:69-74 | renaming keeps the number of rows, every `present` value and every non-matching row |
| Store.EditedFileIsTable | main.py:69-82 | the rewritten file is a table whose rows are the renamed rows |
| Store.EditTwiceFails | main.py:69-77 | repeating an edit that renamed someone to different names raises StudentNotFound |
| Store.TableImportsHeaderAsStudent | main.py:11-31 | importing a table does not fail, and its first record is the header read as student `first_name last_name`, absent |
| Store.TableDecodes | main.py:11-18 | every table imports without error |
| Store.RenderedTableImports | main.py:11-31 | importing a table of tidy rows gives the header's record, then one record per row in order |
| Store.TableRecordsNames | main.py:20-31 | the records of an imported table carry the header's names and exactly the names of its rows |
| Store.EditThenImport | test_students.py:53-60 | after an edit, importing the file finds the new names and not the old ones |
| Attendance.MarkAttendance | main.py:94-114 | each record, in list order, is updated in place from its own answer; answers run out means EndOfInput, with the earlier records already marked |
| Attendance.MarkAnswer | main.py:106-112 | an answer marks present exactly when its stripped, lower-cased form is "yes", and absent exactly when it is "no" |
| Attendance.MarkAll | main.py:96-112 | marking changes no name and no number of records, and records past the last answer are untouched |
| Attendance.MarkChangesOnlyAnswered | main.py:106-114 | a record changes only through its own valid answer, and then takes exactly that answer |
| Attendance.MarkIdempotent | main.py:106-112 | giving the same answers twice marks the same as once |
| Attendance.MarkReadsNormalForm | main.py:106 | only the stripped, lower-cased form of an answer matters |
| Attendance.MarkReadsLooseYes | main.py:106-114 | " YES " marks present and "maybe" is rejected |
| Attendance.MarkedRosterReadsBack | main.py:106-112 | with a valid answer for every record, all records have a recorded status, and records with storable one-line names survive export then import |
| Attendance.AskPresence | main.py:122-130 | a status comes with the number of answers used, between 1 and the number given |
| Attendance.AskPresenceFindsFirstValid | main.py:122-130 | the result is the status of the first valid answer, with no valid answer before it; none exactly when every answer is invalid |
| Attendance.CapitalYes | main.py:124-125 | "YES" reads as PRESENT |
| Attendance.PaddedYesIsAskedAgain | main.py:123-130 | " yes" is not accepted by `presence_function` |
| Attendance.AskPresenceSkips | main.py:128-130 | an invalid answer is followed by another question: it changes nothing but the number of answers used, and the prompt fails after it exactly when it would fail without it |
| Attendance.PresenceAnswerMarks | main.py:106-127 | every answer `presence_function` accepts, `mark_attenfance` accepts with the same meaning |
| Attendance.FullName | main.py:117-120 | the full name starts with the first name, has a space right after it, and is one character longer than the two names together |
| Attendance.Session | main.py:137-146 | a run reads, per student, two names, the presence prompt until a valid answer, then "another student?", going on only on "yes"; running out of input at any prompt is `None`; a run that ends enters at least one student and uses at least four answers per student |
| Attendance.SessionExtends | main.py:136-146 | a session that ends enters at least one student, after those already entered and without changing them |
| Attendance.SessionReadsItsTranscript | main.py:117-146 | typing, for each student, the two names and "yes" or "no", with "yes" to go on after every student but the last, enters exactly those students |
| Attendance.EnterStudents | main.py:134-146 | the loop ends normally exactly when the answers describe a complete session (`SessionFrom` from the first answer, which is `Session`); its dictionary then numbers that session's students from 1; otherwise it stops with EndOfInput |
| Attendance.NumberedAt | main.py:136-141 | after `n` students the dictionary holds exactly ids 1 to `n`, and id `k` holds the `k`-th student |
| Attendance.NumberedIds | main.py:136-141 | the ids are consecutive from 1, and each holds the full name typed for that student |
| Attendance.FullNameSplits | main.py:117-120 | a typed full name always has at least two words; for names without spaces, it splits back into the two names |
| Attendance.EntryExports | main.py:149-156 | for names without spaces, the comprehension gives the typed names, present exactly when the status is PRESENT |
| Attendance.ToStudent | main.py:149-153 | an exported record's names contain no space, and it is present exactly when the entry's status is PRESENT |
| Attendance.Exported | main.py:149-156 | the comprehension gives one record per entry, the `i`-th taken from id `i + 1`, with space-free names and a recorded status equal to that entry's |
| Attendance.ExportedInEntryOrder | main.py:149-156 | the exported records are the students in entry order |
| Attendance.SpacedFirstNameIsCut | main.py:151-152 | "Mary Ann" "Smith" is exported as first name "Mary", last name "Ann" |
| Attendance.SessionReadsBack | main.py:149-158 | the file a session exports imports back as the exported records, for storable one-line names without spaces |
| Attendance.WithStatus | main.py:169-175 | giving an existing id a new status keeps every id, keeps that entry's name, and leaves every other entry unchanged |
| Attendance.WithStatusChangesOneRecord | main.py:169-175 | changing one status keeps every id and name, and changes the exported roster in that one record only |
| Attendance.AttendanceBook.EditAttendance | main.py:169-175 | an unknown id changes nothing and reads no answer; a known id gets the status of the first valid answer and nothing else changes; running out of answers changes nothing |
| Attendance.ManageAttendance | main.py:134-158 | when the answers run out before the session ends, the `EOFError` propagates: nothing is exported and no dictionary is returned; otherwise the dictionary numbers the session's students from 1 in entry order, and the default file is overwritten with their records |

## Left out

- File I/O is not modelled. Opening, `os.path.exists` and the file modes
  are replaced by the `Disk` map. A file is a sequence of lines, and line
  terminators (`\n`, `\r\n`) are abstracted away. A failure to open an
  existing file (permissions, a directory) is not modelled.
- An `add_student` to a file whose last line has no line break is not
  modelled. In that case the new row would join that last line.
- Store.Disk.AddStudent, Store.Disk.EditStudent: both require names free
  of commas, double quotes and line breaks. For such names the csv module
  would quote the field or split the line, and that quoting is not
  modelled.
- Store.Disk.EditStudent: requires the file to be a table. A table is a
  header line, then lines that are empty or have exactly three unquoted
  fields. The csv reader's handling of other files is not modelled:
  - ragged rows;
  - quoted fields;
  - a file whose first line is not the header.
- `print` output is not modelled. This covers the status display in
  `mark_attenfance` (main.py:98-103), the messages at main.py:58, 114 and
  129, and the attendance list at main.py:161-164.
- `input()` becomes a sequence of answers given as a parameter.
  `student_data` (main.py:117-120) reads the next two answers as the names.
  The "Want to add another student?" question (main.py:143-146) reads the
  answer after the presence prompt.
- Store.Disk.ExportAttendance: a name holding `\n` or `\r` is modelled as
  staying inside its record's line. The program writes such a name across
  two lines, which `import_from_file` then reads as different records. The
  read-back lemmas (Codec.DecodeEncode, Attendance.MarkedRosterReadsBack,
  Attendance.SessionReadsBack) therefore require names without line breaks.
- The recursion limit of `presence_function` is not modelled. Python would
  stop it after about a thousand invalid answers in a row.
- `lower()` is modelled on ASCII letters only. No other character
  lower-cases to a letter of "yes" or "no", so comparisons against those
  words come out as in Python.
- Aliasing is not modelled.
  - The Python dictionaries of `mark_attenfance` are shared with the
    caller. The model updates the array slot of each record, so two slots
    holding the same dictionary object are not modelled.
  - The `[name, status]` lists in the attendance dictionary are mutable.
    The model replaces an entry rather than mutating a shared list.
- The interactive menu (main.py:178-206) and the `int(input())` of the
  student id are not modelled.
- setup.py is packaging metadata and is not part of this model.
  test_students.py is used only as the source of the concrete lemmas.
