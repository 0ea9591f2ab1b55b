/**
 * The in-memory attendance operations: marking a list of student records
 * from yes/no answers, reading a presence answer, numbering the students
 * entered in a session, and changing the status of one numbered student.
 * What the user types is a sequence of answers given up front; running
 * out of answers is the `EOFError` that `input()` raises.
 */
module Attendance {
  import opened Text
  import opened Roster
  import opened Codec
  import opened Store

  /** How `mark_attenfance` reads an answer: stripped and lower-cased,
      "yes" marks present, "no" marks absent, and anything else is
      rejected, leaving the record as it was. */
  function MarkAnswer(answer: string): (r: Option<bool>)
    ensures r == Some(true) <==> Normalize(answer) == "yes"
    ensures r == Some(false) <==> Normalize(answer) == "no"
  {
    var token := Normalize(answer);
    if token == "yes" then Some(true)
    else if token == "no" then Some(false)
    else None
  }

  /** One record after its answer. */
  function Marked(s: Student, answer: string): Student {
    match MarkAnswer(answer)
    case None => s
    case Some(isPresent) => s.(present := Recorded(isPresent))
  }

  /** The records after `mark_attenfance` has read the given answers, one
      per record in list order. Marking changes no name and no record
      count, and records past the last answer are untouched. */
  function MarkAll(students: seq<Student>, answers: seq<string>): (r: seq<Student>)
    ensures |r| == |students|
    ensures forall i :: 0 <= i < |students| ==>
      r[i].firstName == students[i].firstName && r[i].lastName == students[i].lastName
    ensures forall i :: |answers| <= i < |students| ==> r[i] == students[i]
  {
    seq(|students|, i requires 0 <= i < |students| =>
      if i < |answers| then Marked(students[i], answers[i]) else students[i])
  }

  /** `mark_attenfance`: updates each record in place from its answer. It
      fails with `EndOfInput` when the answers run out, after having marked
      the records before that point. */
  method MarkAttendance(students: array<Student>, answers: seq<string>) returns (outcome: Outcome)
    modifies students
    ensures outcome == Done <==> |answers| >= students.Length
    ensures outcome != Done ==> outcome == Failed(EndOfInput)
    ensures students[..] == MarkAll(old(students[..]), answers)
  {
    var i := 0;
    while i < students.Length
      invariant 0 <= i <= students.Length
      invariant i <= |answers|
      invariant forall k :: 0 <= k < i ==> students[k] == Marked(old(students[k]), answers[k])
      invariant forall k :: i <= k < students.Length ==> students[k] == old(students[k])
    {
      if i == |answers| {
        return Failed(EndOfInput);
      }
      var newStatus := Normalize(answers[i]);
      if newStatus == "yes" {
        students[i] := students[i].(present := Recorded(true));
      } else if newStatus == "no" {
        students[i] := students[i].(present := Recorded(false));
      }
      i := i + 1;
    }
    return Done;
  }

  /** A record changes only through a valid answer of its own, and then its
      status is exactly that answer. */
  lemma {:induction false} MarkChangesOnlyAnswered(students: seq<Student>, answers: seq<string>, i: nat)
    requires i < |students|
    ensures i >= |answers| || MarkAnswer(answers[i]).None? ==> MarkAll(students, answers)[i] == students[i]
    ensures i < |answers| && MarkAnswer(answers[i]).Some? ==>
      MarkAll(students, answers)[i].present == Recorded(MarkAnswer(answers[i]).value)
  {
  }

  /** Answering the same answers a second time changes nothing more. */
  lemma {:induction false} MarkIdempotent(students: seq<Student>, answers: seq<string>)
    ensures MarkAll(MarkAll(students, answers), answers) == MarkAll(students, answers)
  {
  }

  /** Only the normal form of an answer matters: answering the stripped,
      lower-cased answers marks the same way. */
  lemma {:induction false} MarkReadsNormalForm(students: seq<Student>, answers: seq<string>)
    ensures MarkAll(students, seq(|answers|, i requires 0 <= i < |answers| => Normalize(answers[i])))
      == MarkAll(students, answers)
  {
    var normal := seq(|answers|, i requires 0 <= i < |answers| => Normalize(answers[i]));
    forall i | 0 <= i < |answers|
      ensures MarkAnswer(normal[i]) == MarkAnswer(answers[i])
    {
      NormalizeIdempotent(answers[i]);
    }
  }

  /** With a valid answer for every record, every record ends up with a
      recorded status, so a marked roster of storable names survives an
      export followed by an import unchanged. */
  lemma {:induction false} MarkedRosterReadsBack(students: seq<Student>, answers: seq<string>)
    requires |answers| >= |students|
    requires forall i :: 0 <= i < |answers| ==> MarkAnswer(answers[i]).Some?
    requires forall i :: 0 <= i < |students| ==>
      StorableName(students[i].firstName) && StorableName(students[i].lastName)
    requires forall i :: 0 <= i < |students| ==>
      OneLine(students[i].firstName) && OneLine(students[i].lastName)
    ensures forall i :: 0 <= i < |students| ==> MarkAll(students, answers)[i].present.Recorded?
    ensures Decode(Encode(MarkAll(students, answers))) == Ok(MarkAll(students, answers))
  {
    var marked := MarkAll(students, answers);
    forall i | 0 <= i < |marked|
      ensures Writable(marked[i])
    {
      assert marked[i] == Marked(students[i], answers[i]);
    }
    DecodeEncode(marked);
  }

  lemma LowerYes()
    ensures Lower("YES") == "yes"
  {
    assert Lower("YES")[0] == 'y' && Lower("YES")[1] == 'e' && Lower("YES")[2] == 's';
  }

  /** Marking tolerates case and outer whitespace, and rejects other words. */
  lemma MarkReadsLooseYes()
    ensures MarkAnswer(" YES ") == Some(true)
    ensures MarkAnswer("maybe") == None
  {
    assert Strip(" YES ") == "YES" by {
      assert TrimLeft(" YES ") == "YES ";
      assert TrimRight("YES ") == "YES";
    }
    LowerYes();
    assert |Normalize("maybe")| == 5 by {
      assert "maybe"[0] == 'm' && "maybe"[4] == 'e';
    }
  }

  /** The status `presence_function` returns. */
  datatype Status = Present | Absent

  /** How `presence_function` reads one answer: lower-cased but, unlike
      `mark_attenfance`, not stripped. */
  function ReadPresence(answer: string): Option<Status> {
    if Lower(answer) == "yes" then Some(Present)
    else if Lower(answer) == "no" then Some(Absent)
    else None
  }

  /** `presence_function`: asks again after every invalid answer. The
      result is the status of the first valid answer and the number of
      answers used up to and including it, or `None` when every answer is
      invalid (the `EOFError` of running out of input). */
  function AskPresence(answers: seq<string>): (r: Option<(Status, nat)>)
    ensures r.Some? ==> 1 <= r.value.1 <= |answers|
    decreases |answers|
  {
    if answers == [] then None
    else
      match ReadPresence(answers[0])
      case Some(status) => Some((status, 1))
      case None =>
        match AskPresence(answers[1..])
        case None => None
        case Some((status, used)) => Some((status, used + 1))
  }

  /** The status `presence_function` returns is that of the first valid
      answer, none before it being valid; it raises only when no answer is
      valid. */
  lemma {:induction false} AskPresenceFindsFirstValid(answers: seq<string>)
    ensures AskPresence(answers).None? <==> forall i :: 0 <= i < |answers| ==> ReadPresence(answers[i]).None?
    ensures AskPresence(answers).Some? ==>
      var (status, used) := AskPresence(answers).value;
      && ReadPresence(answers[used - 1]) == Some(status)
      && forall i :: 0 <= i < used - 1 ==> ReadPresence(answers[i]).None?
    decreases |answers|
  {
    if answers != [] && ReadPresence(answers[0]).None? {
      AskPresenceFindsFirstValid(answers[1..]);
      assert forall i :: 1 <= i < |answers| ==> answers[i] == answers[1..][i - 1];
    }
  }

  lemma CapitalYes()
    ensures ReadPresence("YES") == Some(Present)
  {
    LowerYes();
  }

  /** `presence_function` does not strip: a padded "yes" is asked again. */
  lemma PaddedYesIsAskedAgain()
    ensures ReadPresence(" yes") == None
  {
    assert |Lower(" yes")| == 4;
    assert |Lower(" yes")| != |"no"|;
  }

  /** Every answer `presence_function` accepts, `mark_attenfance` accepts
      with the same meaning (but not the other way round: see
      `PaddedYesIsAskedAgain`). */
  lemma {:induction false} PresenceAnswerMarks(answer: string)
    requires ReadPresence(answer).Some?
    ensures MarkAnswer(answer) == Some(ReadPresence(answer).value == Present)
  {
    var low := Lower(answer);
    assert |low| == |answer| && |answer| >= 2;
    assert low[0] == LowerChar(answer[0]) && low[|low| - 1] == LowerChar(answer[|answer| - 1]);
    assert !IsSpace(answer[0]) && !IsSpace(answer[|answer| - 1]);
    assert Strip(answer) == answer;
  }

  /** A student entered in `manage_attendance`: the names typed at the two
      prompts of `student_data` and the status `presence_function` gave. */
  datatype NewStudent = NewStudent(firstName: string, lastName: string, status: Status)

  /** A value of the attendance dictionary: the full name and the status. */
  datatype AttendanceEntry = AttendanceEntry(name: string, status: Status)

  /** The string `student_data` returns. */
  function FullName(first: string, last: string): (r: string)
    ensures |r| == |first| + 1 + |last|
    ensures first <= r && r[|first|] == ' '
  {
    first + " " + last
  }

  function EntryOf(s: NewStudent): AttendanceEntry {
    AttendanceEntry(FullName(s.firstName, s.lastName), s.status)
  }

  /** The dictionary after the first `n` students: ids 1 to `n`, in entry order. */
  function Numbered(students: seq<NewStudent>, n: nat): map<int, AttendanceEntry>
    requires n <= |students|
  {
    if n == 0 then map[] else Numbered(students, n - 1)[n := EntryOf(students[n - 1])]
  }

  /** Exactly the ids 1 to `n` are present, and id `k` holds the `k`-th student. */
  lemma {:induction false} NumberedAt(students: seq<NewStudent>, n: nat, id: int)
    requires n <= |students|
    ensures id in Numbered(students, n) <==> 1 <= id <= n
    ensures 1 <= id <= n ==> Numbered(students, n)[id] == EntryOf(students[id - 1])
  {
    if n > 0 {
      NumberedAt(students, n - 1, id);
    }
  }

  /** The ids of a session are consecutive from 1, and id `k` holds the
      full name of the `k`-th student entered. */
  lemma {:induction false} NumberedIds(students: seq<NewStudent>)
    ensures forall id :: id in Numbered(students, |students|) <==> 1 <= id <= |students|
    ensures forall id :: 1 <= id <= |students| ==>
      Numbered(students, |students|)[id].name == FullName(students[id - 1].firstName, students[id - 1].lastName)
  {
    forall id ensures id in Numbered(students, |students|) <==> 1 <= id <= |students| {
      NumberedAt(students, |students|, id);
    }
    forall id | 1 <= id <= |students|
      ensures Numbered(students, |students|)[id].name == FullName(students[id - 1].firstName, students[id - 1].lastName)
    {
      NumberedAt(students, |students|, id);
    }
  }

  /** A full name always holds a space, so it splits into at least two words. */
  lemma {:induction false} FullNameSplits(first: string, last: string)
    ensures |Split(FullName(first, last), ' ')| >= 2
    ensures ' ' !in first && ' ' !in last ==> Split(FullName(first, last), ' ') == [first, last]
  {
    var name := FullName(first, last);
    assert name[|first|] == ' ';
    CountZero(name, ' ');
    if ' ' !in first && ' ' !in last {
      var names := [first, last];
      assert names[1..] == [last];
      assert Join(names, ' ') == name;
      SplitJoin(names, ' ');
    }
  }

  /** One record of the list comprehension in `manage_attendance`: the
      first and second space-separated words, and `present` exactly when
      the status is PRESENT. */
  function ToStudent(e: AttendanceEntry): (r: Student)
    requires |Split(e.name, ' ')| >= 2
    ensures ' ' !in r.firstName && ' ' !in r.lastName
    ensures r.present.Recorded? && (r.present.isPresent <==> e.status == Present)
  {
    var words := Split(e.name, ' ');
    Student(words[0], words[1], Recorded(e.status == Present))
  }

  /** Every entry of the dictionary has a two-word name. */
  predicate Exportable(items: map<int, AttendanceEntry>, n: nat) {
    forall id :: 1 <= id <= n ==> id in items && |Split(items[id].name, ' ')| >= 2
  }

  /** The records `manage_attendance` exports, in dictionary order. */
  function Exported(items: map<int, AttendanceEntry>, n: nat): (r: seq<Student>)
    requires Exportable(items, n)
    ensures |r| == n
    ensures forall i :: 0 <= i < n ==>
      && ' ' !in r[i].firstName && ' ' !in r[i].lastName
      && r[i].present == Recorded(items[i + 1].status == Present)
  {
    seq(n, i requires 0 <= i < n => ToStudent(items[i + 1]))
  }

  lemma {:induction false} NumberedExportable(students: seq<NewStudent>)
    ensures Exportable(Numbered(students, |students|), |students|)
  {
    forall id | 1 <= id <= |students|
      ensures id in Numbered(students, |students|)
      ensures |Split(Numbered(students, |students|)[id].name, ' ')| >= 2
    {
      NumberedAt(students, |students|, id);
      FullNameSplits(students[id - 1].firstName, students[id - 1].lastName);
    }
  }

  /** For names without spaces, the exported records are the students as
      entered, in entry order, present exactly when PRESENT was answered. */
  lemma {:induction false} ExportedInEntryOrder(students: seq<NewStudent>)
    requires forall i :: 0 <= i < |students| ==> ' ' !in students[i].firstName && ' ' !in students[i].lastName
    ensures Exportable(Numbered(students, |students|), |students|)
    ensures |Exported(Numbered(students, |students|), |students|)| == |students|
    ensures forall i :: 0 <= i < |students| ==>
      Exported(Numbered(students, |students|), |students|)[i]
        == Student(students[i].firstName, students[i].lastName, Recorded(students[i].status == Present))
  {
    NumberedExportable(students);
    forall i | 0 <= i < |students|
      ensures Exported(Numbered(students, |students|), |students|)[i]
        == Student(students[i].firstName, students[i].lastName, Recorded(students[i].status == Present))
    {
      NumberedAt(students, |students|, i + 1);
      EntryExports(students[i]);
    }
  }

  /** For names without spaces, the comprehension gives back the names
      that `student_data` joined. */
  lemma {:induction false} EntryExports(s: NewStudent)
    requires ' ' !in s.firstName && ' ' !in s.lastName
    ensures |Split(EntryOf(s).name, ' ')| >= 2
    ensures ToStudent(EntryOf(s)) == Student(s.firstName, s.lastName, Recorded(s.status == Present))
  {
    FullNameSplits(s.firstName, s.lastName);
  }

  /** A first name with a space in it is cut apart: its second word is
      exported as the last name and the real last name is lost. */
  lemma SpacedFirstNameIsCut()
    ensures ToStudent(EntryOf(NewStudent("Mary Ann", "Smith", Present)))
      == Student("Mary", "Ann", Recorded(true))
  {
    var name := FullName("Mary Ann", "Smith");
    assert name == "Mary" + " " + "Ann" + " " + "Smith";
    var words := ["Mary", "Ann", "Smith"];
    assert words[1..] == ["Ann", "Smith"] && words[1..][1..] == ["Smith"];
    assert Join(words, ' ') == name;
    SplitJoin(words, ' ');
  }

  /** The records of a session whose names are storable, on one line and
      without spaces read back unchanged from the file it exports. */
  lemma {:induction false} SessionReadsBack(students: seq<NewStudent>)
    requires forall i :: 0 <= i < |students| ==> ' ' !in students[i].firstName && ' ' !in students[i].lastName
    requires forall i :: 0 <= i < |students| ==>
      StorableName(students[i].firstName) && StorableName(students[i].lastName)
    requires forall i :: 0 <= i < |students| ==>
      OneLine(students[i].firstName) && OneLine(students[i].lastName)
    ensures Exportable(Numbered(students, |students|), |students|)
    ensures Decode(Encode(Exported(Numbered(students, |students|), |students|)))
      == Ok(Exported(Numbered(students, |students|), |students|))
  {
    ExportedInEntryOrder(students);
    var records := Exported(Numbered(students, |students|), |students|);
    forall i | 0 <= i < |records|
      ensures Writable(records[i])
    {
      assert records[i] == Student(students[i].firstName, students[i].lastName, Recorded(students[i].status == Present));
    }
    DecodeEncode(records);
  }

  /** The dictionary after `edit_attendance` gave an existing id a new status. */
  function WithStatus(items: map<int, AttendanceEntry>, id: int, status: Status): (r: map<int, AttendanceEntry>)
    requires id in items
    ensures r.Keys == items.Keys
    ensures r[id] == AttendanceEntry(items[id].name, status)
    ensures forall k :: k in items && k != id ==> r[k] == items[k]
  {
    items[id := items[id].(status := status)]
  }

  /** Changing one status keeps every id, every name and every other
      status, so the exported roster changes in that one record only. */
  lemma {:induction false} WithStatusChangesOneRecord(items: map<int, AttendanceEntry>, n: nat, id: int, status: Status)
    requires id in items && Exportable(items, n)
    ensures WithStatus(items, id, status).Keys == items.Keys
    ensures Exportable(WithStatus(items, id, status), n)
    ensures forall i :: 0 <= i < n && i + 1 != id ==>
      Exported(WithStatus(items, id, status), n)[i] == Exported(items, n)[i]
    ensures 1 <= id <= n ==>
      && Exported(WithStatus(items, id, status), n)[id - 1].firstName == Exported(items, n)[id - 1].firstName
      && Exported(WithStatus(items, id, status), n)[id - 1].lastName == Exported(items, n)[id - 1].lastName
      && Exported(WithStatus(items, id, status), n)[id - 1].present == Recorded(status == Present)
  {
  }

  /** The attendance dictionary, which `edit_attendance` changes in place. */
  class AttendanceBook {
    var items: map<int, AttendanceEntry>

    constructor ()
      ensures items == map[]
    {
      items := map[];
    }

    /** `edit_attendance`: for a known id, asks for a status (again after
        every invalid answer) and stores it; for an unknown id, reports the
        student missing, reads nothing and changes nothing. Running out of
        answers raises and changes nothing. */
    method EditAttendance(studentId: int, answers: seq<string>) returns (r: Result<bool>)
      modifies this
      ensures studentId !in old(items) ==> r == Ok(false) && items == old(items)
      ensures studentId in old(items) && AskPresence(answers).None? ==>
        r == Err(EndOfInput) && items == old(items)
      ensures studentId in old(items) && AskPresence(answers).Some? ==>
        r == Ok(true) && items == WithStatus(old(items), studentId, AskPresence(answers).value.0)
    {
      if studentId !in items {
        return Ok(false);
      }
      match AskPresence(answers)
      case None =>
        return Err(EndOfInput);
      case Some((status, _)) =>
        items := items[studentId := items[studentId].(status := status)];
        return Ok(true);
    }
  }

  /** The answer `presence_function` accepts for a status. */
  function StatusAnswer(status: Status): string {
    if status == Present then "yes" else "no"
  }

  lemma LowerAnswers()
    ensures Lower("yes") == "yes" && Lower("no") == "no"
  {
  }

  lemma {:induction false} StatusAnswerReads(status: Status)
    ensures ReadPresence(StatusAnswer(status)) == Some(status)
  {
    LowerAnswers();
  }

  /** The students a run of `manage_attendance` enters, after those in
      `entered`, reading what the user typed from position `pos` on: two
      names, then status answers until a valid one, then whether to add
      another student, where only "yes" in any case goes on. `None` is the
      `EOFError` of running out of input at any of these prompts. */
  function SessionFrom(input: seq<string>, pos: nat, entered: seq<NewStudent>): Option<seq<NewStudent>>
    requires pos <= |input|
    decreases |input| - pos
  {
    if |input| - pos < 2 then None
    else
      var asked := AskPresence(input[pos + 2..]);
      if asked.None? || pos + 2 + asked.value.1 == |input| then None
      else
        var next := pos + 2 + asked.value.1;
        var now := entered + [NewStudent(input[pos], input[pos + 1], asked.value.0)];
        if Lower(input[next]) == "yes" then SessionFrom(input, next + 1, now) else Some(now)
  }

  /** The students a whole run of `manage_attendance` enters. A run that
      ends enters at least one student, and each student takes at least
      four answers: two names, a valid status and whether to go on. */
  function Session(input: seq<string>): (r: Option<seq<NewStudent>>)
    ensures r.Some? ==> 1 <= |r.value| && 4 * |r.value| <= |input|
  {
    SessionExtends(input, 0, []);
    SessionUsesFourAnswers(input, 0, []);
    SessionFrom(input, 0, [])
  }

  /** A session enters at least one student, after those already entered:
      the loop asks for a student before it asks whether to go on. */
  lemma {:induction false} SessionExtends(input: seq<string>, pos: nat, entered: seq<NewStudent>)
    requires pos <= |input|
    ensures SessionFrom(input, pos, entered).Some? ==>
      |SessionFrom(input, pos, entered).value| > |entered|
      && SessionFrom(input, pos, entered).value[..|entered|] == entered
    decreases |input| - pos
  {
    if |input| - pos >= 2 {
      var asked := AskPresence(input[pos + 2..]);
      if asked.Some? && pos + 2 + asked.value.1 < |input| {
        var next := pos + 2 + asked.value.1;
        var now := entered + [NewStudent(input[pos], input[pos + 1], asked.value.0)];
        if Lower(input[next]) == "yes" {
          SessionExtends(input, next + 1, now);
          if SessionFrom(input, pos, entered).Some? {
            var students := SessionFrom(input, pos, entered).value;
            assert students[..|entered|] == students[..|now|][..|entered|];
            assert now[..|entered|] == entered;
          }
        }
      }
    }
  }

  /** Every student entered from position `pos` on uses up at least four
      of the answers typed from there. */
  lemma {:induction false} SessionUsesFourAnswers(input: seq<string>, pos: nat, entered: seq<NewStudent>)
    requires pos <= |input|
    ensures SessionFrom(input, pos, entered).Some? ==>
      4 * (|SessionFrom(input, pos, entered).value| - |entered|) <= |input| - pos
    decreases |input| - pos
  {
    if |input| - pos >= 2 {
      var asked := AskPresence(input[pos + 2..]);
      if asked.Some? && pos + 2 + asked.value.1 < |input| {
        var next := pos + 2 + asked.value.1;
        var now := entered + [NewStudent(input[pos], input[pos + 1], asked.value.0)];
        if Lower(input[next]) == "yes" {
          SessionUsesFourAnswers(input, next + 1, now);
        }
      }
    }
  }

  /** `presence_function` asks again after an invalid answer: one in front
      changes nothing but the number of answers used. */
  lemma {:induction false} AskPresenceSkips(answer: string, rest: seq<string>)
    requires ReadPresence(answer).None?
    ensures AskPresence([answer] + rest).None? <==> AskPresence(rest).None?
    ensures AskPresence(rest).Some? ==>
      AskPresence([answer] + rest) == Some((AskPresence(rest).value.0, AskPresence(rest).value.1 + 1))
  {
    assert ([answer] + rest)[0] == answer && ([answer] + rest)[1..] == rest;
  }

  /** What a user types to enter these students: for each one, the two
      names and the status, then "yes" to go on, or "no" after the last. */
  function Transcript(students: seq<NewStudent>): seq<string>
    requires |students| >= 1
    decreases |students|
  {
    var s := students[0];
    if |students| == 1 then [s.firstName, s.lastName, StatusAnswer(s.status), "no"]
    else [s.firstName, s.lastName, StatusAnswer(s.status), "yes"] + Transcript(students[1..])
  }

  /** One student typed at position `pos`, with a valid status answer. */
  lemma {:induction false} SessionStep(input: seq<string>, pos: nat, entered: seq<NewStudent>)
    requires pos + 4 <= |input| && ReadPresence(input[pos + 2]).Some?
    ensures SessionFrom(input, pos, entered)
      == var now := entered + [NewStudent(input[pos], input[pos + 1], ReadPresence(input[pos + 2]).value)];
         if Lower(input[pos + 3]) == "yes" then SessionFrom(input, pos + 4, now) else Some(now)
  {
    assert input[pos + 2..][0] == input[pos + 2];
    assert AskPresence(input[pos + 2..]) == Some((ReadPresence(input[pos + 2]).value, 1));
  }

  /** Typing the transcript of some students, after whatever came before,
      enters exactly those students. */
  lemma {:induction false} SessionReadsTranscript(before: seq<string>, students: seq<NewStudent>, entered: seq<NewStudent>)
    requires |students| >= 1
    ensures SessionFrom(before + Transcript(students), |before|, entered) == Some(entered + students)
    decreases |students|
  {
    var s := students[0];
    var input := before + Transcript(students);
    var four := [s.firstName, s.lastName, StatusAnswer(s.status), if |students| == 1 then "no" else "yes"];
    assert Transcript(students)[..4] == four;
    assert input[|before|..|before| + 4] == four;
    StatusAnswerReads(s.status);
    SessionStep(input, |before|, entered);
    if |students| == 1 {
      assert Lower(input[|before| + 3]) != "yes" by { LowerAnswers(); }
      assert [s] == students;
    } else {
      assert Lower(input[|before| + 3]) == "yes" by { LowerAnswers(); }
      assert input == (before + four) + Transcript(students[1..]);
      SessionReadsTranscript(before + four, students[1..], entered + [s]);
      assert entered + [s] + students[1..] == entered + students;
    }
  }

  /** Typing the transcript of some students enters exactly those students. */
  lemma {:induction false} SessionReadsItsTranscript(students: seq<NewStudent>)
    requires |students| >= 1
    ensures Session(Transcript(students)) == Some(students)
  {
    SessionReadsTranscript([], students, []);
    assert [] + Transcript(students) == Transcript(students);
    assert [] + students == students;
  }

  /** One turn of the loop of `manage_attendance`, from position `pos`:
      the student read there and the answer to whether to add another. */
  lemma {:induction false} SessionTurn(input: seq<string>, pos: nat, entered: seq<NewStudent>)
    requires pos + 2 <= |input| && AskPresence(input[pos + 2..]).Some?
    requires pos + 2 + AskPresence(input[pos + 2..]).value.1 < |input|
    ensures var next := pos + 2 + AskPresence(input[pos + 2..]).value.1;
      var now := entered + [NewStudent(input[pos], input[pos + 1], AskPresence(input[pos + 2..]).value.0)];
      SessionFrom(input, pos, entered) == if Lower(input[next]) == "yes" then SessionFrom(input, next + 1, now) else Some(now)
  {
  }

  /** The ways a session runs out of input for its next student. */
  lemma {:induction false} SessionRunsOut(input: seq<string>, pos: nat, entered: seq<NewStudent>)
    requires pos <= |input|
    ensures |input| - pos < 2 ==> SessionFrom(input, pos, entered).None?
    ensures |input| - pos >= 2 && AskPresence(input[pos + 2..]).None? ==> SessionFrom(input, pos, entered).None?
    ensures |input| - pos >= 2 && AskPresence(input[pos + 2..]).Some? && pos + 2 + AskPresence(input[pos + 2..]).value.1 == |input| ==>
      SessionFrom(input, pos, entered).None?
  {
  }

  /** Adding a student leaves the earlier ids as they were. */
  lemma {:induction false} NumberedSnoc(students: seq<NewStudent>, s: NewStudent, n: nat)
    requires n <= |students|
    ensures Numbered(students + [s], n) == Numbered(students, n)
  {
    if n > 0 {
      NumberedSnoc(students, s, n - 1);
      assert (students + [s])[n - 1] == students[n - 1];
    }
  }

  /** The dictionary after one more student: the next id holds that student. */
  lemma {:induction false} NumberedNext(students: seq<NewStudent>, s: NewStudent)
    ensures Numbered(students + [s], |students| + 1) == Numbered(students, |students|)[|students| + 1 := EntryOf(s)]
  {
    NumberedSnoc(students, s, |students|);
    assert (students + [s])[|students|] == s;
  }

  /** The loop of `manage_attendance`: reads students until the user does
      not answer "yes" to adding another, numbering them from 1 in entry
      order. Running out of input raises `EOFError`. */
  method EnterStudents(input: seq<string>) returns (outcome: Outcome, items: map<int, AttendanceEntry>, count: nat)
    ensures outcome == Done <==> SessionFrom(input, 0, []).Some?
    ensures outcome != Done ==> outcome == Failed(EndOfInput)
    ensures outcome == Done ==>
      count == |SessionFrom(input, 0, []).value| && items == Numbered(SessionFrom(input, 0, []).value, count)
  {
    items := map[];
    var entered: seq<NewStudent> := [];
    var pos := 0;
    var going := true;
    ghost var session := SessionFrom(input, 0, []);
    while going
      invariant 0 <= pos <= |input|
      invariant going ==> SessionFrom(input, pos, entered) == session
      invariant !going ==> session == Some(entered)
      invariant items == Numbered(entered, |entered|)
      decreases |input| - pos
    {
      SessionRunsOut(input, pos, entered);
      if |input| - pos < 2 {
        return Failed(EndOfInput), items, 0;
      }
      var asked := AskPresence(input[pos + 2..]);
      if asked.None? {
        return Failed(EndOfInput), items, 0;
      }
      var next := pos + 2 + asked.value.1;
      if next == |input| {
        return Failed(EndOfInput), items, 0;
      }
      var student := NewStudent(input[pos], input[pos + 1], asked.value.0);
      SessionTurn(input, pos, entered);
      NumberedNext(entered, student);
      items := items[|entered| + 1 := EntryOf(student)];
      entered := entered + [student];
      going := Lower(input[next]) == "yes";
      pos := next + 1;
    }
    return Done, items, |entered|;
  }

  /** `manage_attendance`: enters students, exports them to the default
      file and returns the dictionary. Running out of input raises
      `EOFError`: nothing is exported and no dictionary is returned. */
  method ManageAttendance(input: seq<string>, disk: Disk) returns (r: Result<AttendanceBook>)
    modifies disk
    ensures Session(input).None? ==> r == Err(EndOfInput) && disk.files == old(disk.files)
    ensures Session(input).Some? ==>
      var students := Session(input).value;
      && r.Ok? && fresh(r.value)
      && r.value.items == Numbered(students, |students|)
      && Exportable(r.value.items, |students|)
      && disk.files == old(disk.files)[DefaultFile := Encode(Exported(r.value.items, |students|))]
  {
    var outcome, items, count := EnterStudents(input);
    if outcome != Done {
      return Err(EndOfInput);
    }
    NumberedExportable(Session(input).value);
    disk.ExportAttendance(Exported(items, count), DefaultFile);
    var book := new AttendanceBook();
    book.items := items;
    return Ok(book);
  }
}
