/**
 * Students, teachers, contracts, class groups and lessons: their fields and
 * defaults, status choices, validation bounds, `__str__`, orderings, and the
 * group's live member count. The tables themselves live in School.
 */
module Management {
  import opened Wrappers
  import opened Text
  import opened Ordering
  import opened Common

  /** StudentsStatus and TeacherStatus: two enums with the same two choices. */
  datatype Status = Active | Former

  function StatusValue(s: Status): string {
    match s
    case Active => "active"
    case Former => "former"
  }

  /** The choices check on a stored status value. */
  function ParseStatus(v: string): Option<Status> {
    if v == "active" then Some(Active)
    else if v == "former" then Some(Former)
    else None
  }

  /** "active" and "former" are the only choices; each fits the column (max_length=10). */
  lemma StatusChoices(v: string, s: Status)
    ensures ParseStatus(v).Some? <==> v == "active" || v == "former"
    ensures ParseStatus(StatusValue(s)) == Some(s)
    ensures |StatusValue(s)| <= 10
  {
  }

  datatype Student = Student(name: string, birthDate: Date, extraInfo: Option<string>, status: Status)

  datatype Teacher = Teacher(name: string, pixKey: string, status: Status)

  /** One student enrolled in one product; both are foreign keys (cascade on delete). */
  datatype Contract = Contract(student: Id, product: Id)

  datatype StudentsGroup = StudentsGroup(scheduledAt: Instant, teacher: Id, maxStudents: nat)

  datatype Lesson = Lesson(studentsGroup: Id, teacher: Id, occurredAt: Instant, notes: Option<string>)

  /** A row of the group/student many-to-many table. */
  datatype Membership = Membership(group: Id, student: Id)

  const DefaultMaxStudents: nat := 10
  const MinMaxStudents: nat := 1
  const MaxMaxStudents: nat := 50
  const NameMaxLength: nat := 255

  /** `Student.objects.create(...)`: status is "active" and extra_info null unless given. */
  function NewStudent(name: string, birthDate: Date, extraInfo: Option<string> := None,
                      status: Status := Active): Student
  {
    Student(name, birthDate, extraInfo, status)
  }

  /** `Teacher.objects.create(...)`: status is "active" unless given. */
  function NewTeacher(name: string, pixKey: string, status: Status := Active): Teacher {
    Teacher(name, pixKey, status)
  }

  /** `StudentsGroup.objects.create(...)`: max_students is 10 unless given. */
  function NewGroup(scheduledAt: Instant, teacher: Id, maxStudents: nat := DefaultMaxStudents): StudentsGroup {
    StudentsGroup(scheduledAt, teacher, maxStudents)
  }

  /** Students and teachers start active; a group's capacity defaults to 10, which is within 1..50. */
  lemma CreationDefaults(name: string, birthDate: Date, pixKey: string, at: Instant, teacher: Id)
    ensures NewStudent(name, birthDate).status == Active && NewStudent(name, birthDate).extraInfo.None?
    ensures NewTeacher(name, pixKey).status == Active
    ensures NewGroup(at, teacher).maxStudents == 10
    ensures GroupErrors(NewGroup(at, teacher)) == []
  {
  }

  datatype FieldError = NameBlank | NameTooLong | PixKeyBlank | PixKeyTooLong | MaxStudentsBelow | MaxStudentsAbove

  function NameErrors(name: string): seq<FieldError> {
    (if |name| == 0 then [NameBlank] else []) + (if |name| > NameMaxLength then [NameTooLong] else [])
  }

  /** `full_clean()` of a Student: a required name of at most 255 characters. */
  function StudentErrors(s: Student): seq<FieldError> {
    NameErrors(s.name)
  }

  /** `full_clean()` of a Teacher: required name and pix_key, each at most 255 characters. */
  function TeacherErrors(t: Teacher): seq<FieldError> {
    NameErrors(t.name)
    + (if |t.pixKey| == 0 then [PixKeyBlank] else [])
    + (if |t.pixKey| > NameMaxLength then [PixKeyTooLong] else [])
  }

  /** `full_clean()` of a group: MinValueValidator(1) then MaxValueValidator(50) on max_students. */
  function GroupErrors(g: StudentsGroup): seq<FieldError> {
    (if g.maxStudents < MinMaxStudents then [MaxStudentsBelow] else [])
    + (if g.maxStudents > MaxMaxStudents then [MaxStudentsAbove] else [])
  }

  /** A group is valid exactly when 1 <= max_students <= 50. */
  lemma GroupValidIff(g: StudentsGroup)
    ensures GroupErrors(g) == [] <==> 1 <= g.maxStudents <= 50
    ensures g.maxStudents == 0 ==> GroupErrors(g) == [MaxStudentsBelow]
    ensures g.maxStudents == 51 ==> GroupErrors(g) == [MaxStudentsAbove]
  {
  }

  /** Students and teachers are valid exactly when their required text fields are 1..255 characters. */
  lemma PersonValidIff(s: Student, t: Teacher)
    ensures StudentErrors(s) == [] <==> 0 < |s.name| <= NameMaxLength
    ensures TeacherErrors(t) == [] <==> 0 < |t.name| <= NameMaxLength && 0 < |t.pixKey| <= NameMaxLength
  {
  }

  // ---------------------------------------------------------------------
  // __str__
  // ---------------------------------------------------------------------

  /** `str(Student)`: the name. */
  function StudentStr(s: Student): string {
    s.name
  }

  /** `str(Teacher)`: the name. */
  function TeacherStr(t: Teacher): string {
    t.name
  }

  lemma PersonStrIsName(name: string, birthDate: Date, pixKey: string)
    ensures StudentStr(NewStudent(name, birthDate)) == name
    ensures TeacherStr(NewTeacher(name, pixKey)) == name
  {
  }

  const ContractPrefix: string := "Contract: "

  /** `str(Contract)`: "Contract: {student name} - {product name}". */
  function ContractStr(studentName: string, productName: string): string {
    ContractPrefix + studentName + " - " + productName
  }

  /**
   * The contract string carries both names in place: with the student fixed it
   * determines the product, and with the product fixed it determines the student.
   */
  lemma ContractStrDeterminesEachName(s1: string, s2: string, p1: string, p2: string)
    ensures ContractStr(s1, p1) == ContractStr(s1, p2) ==> p1 == p2
    ensures ContractStr(s1, p1) == ContractStr(s2, p1) ==> s1 == s2
  {
    var lead := ContractPrefix + s1 + " - ";
    if ContractStr(s1, p1) == ContractStr(s1, p2) {
      assert ContractStr(s1, p1)[|lead|..] == p1;
      assert ContractStr(s1, p2)[|lead|..] == p2;
    }
    if ContractStr(s1, p1) == ContractStr(s2, p1) {
      var a, b := ContractStr(s1, p1), ContractStr(s2, p1);
      assert |s1| == |s2|;
      assert a[|ContractPrefix|..|ContractPrefix| + |s1|] == s1;
      assert b[|ContractPrefix|..|ContractPrefix| + |s2|] == s2;
    }
  }

  /** A stored date-time as text: its clock reading in decimal (stands for the datetime's `str()`). */
  function InstantText(t: Instant): string {
    DigitString(t)
  }

  const GroupPrefix: string := "Group with "
  const LessonPrefix: string := "Lesson with "
  const AtSeparator: string := " at "

  /** `str(StudentsGroup)`: "Group with {teacher name} at {scheduled_at}". */
  function GroupStr(teacherName: string, scheduledAt: Instant): string {
    GroupPrefix + teacherName + AtSeparator + InstantText(scheduledAt)
  }

  /** `str(Lesson)`: "Lesson with {teacher name} at {occurred_at}". */
  function LessonStr(teacherName: string, occurredAt: Instant): string {
    LessonPrefix + teacherName + AtSeparator + InstantText(occurredAt)
  }

  /** Splits "{name} at {digits}" at the last " at ": the time text is all digits. */
  function SplitNameAndInstant(rest: string): Option<(string, Instant)> {
    var digits := TrailingRun(rest, IsDigit);
    var head := rest[..|rest| - |digits|];
    if digits == [] || !EndsWith(head, AtSeparator) then None
    else Some((head[..|head| - |AtSeparator|], ParseDigits(digits)))
  }

  lemma NameAndInstantOf(name: string, t: Instant)
    ensures SplitNameAndInstant(name + AtSeparator + InstantText(t)) == Some((name, t))
  {
    var digits := InstantText(t);
    var rest := name + AtSeparator + digits;
    assert rest == (name + " at") + [' '] + digits;
    TrailingRunAfterStop(name + " at", ' ', digits, IsDigit);
    var head := name + AtSeparator;
    assert rest[..|rest| - |digits|] == head;
    assert head[|head| - |AtSeparator|..] == AtSeparator;
    assert head[..|head| - |AtSeparator|] == name;
    DigitStringRoundTrip(t);
  }

  function ParseWithPrefix(prefix: string, s: string): Option<(string, Instant)> {
    if StartsWith(s, prefix) then SplitNameAndInstant(s[|prefix|..]) else None
  }

  /** A group's string determines its teacher's name and its scheduled time, whatever the name. */
  lemma GroupStrRoundTrip(teacherName: string, scheduledAt: Instant)
    ensures ParseWithPrefix(GroupPrefix, GroupStr(teacherName, scheduledAt)) == Some((teacherName, scheduledAt))
  {
    var rest := teacherName + AtSeparator + InstantText(scheduledAt);
    assert GroupStr(teacherName, scheduledAt) == GroupPrefix + rest;
    assert (GroupPrefix + rest)[..|GroupPrefix|] == GroupPrefix;
    assert (GroupPrefix + rest)[|GroupPrefix|..] == rest;
    NameAndInstantOf(teacherName, scheduledAt);
  }

  /** A lesson's string determines its teacher's name and when it occurred, whatever the name. */
  lemma LessonStrRoundTrip(teacherName: string, occurredAt: Instant)
    ensures ParseWithPrefix(LessonPrefix, LessonStr(teacherName, occurredAt)) == Some((teacherName, occurredAt))
  {
    var rest := teacherName + AtSeparator + InstantText(occurredAt);
    assert LessonStr(teacherName, occurredAt) == LessonPrefix + rest;
    assert (LessonPrefix + rest)[..|LessonPrefix|] == LessonPrefix;
    assert (LessonPrefix + rest)[|LessonPrefix|..] == rest;
    NameAndInstantOf(teacherName, occurredAt);
  }

  // ---------------------------------------------------------------------
  // Default orderings
  // ---------------------------------------------------------------------

  function StudentName(r: Row<Student>): string { r.rec.data.name }
  function TeacherName(r: Row<Teacher>): string { r.rec.data.name }
  function ContractCreatedAt(r: Row<Contract>): int { r.rec.createdAt }
  function GroupScheduledAt(r: Row<StudentsGroup>): int { r.rec.data.scheduledAt }
  function LessonOccurredAt(r: Row<Lesson>): int { r.rec.data.occurredAt }

  /** Student: `ordering = ["name"]`. */
  function StudentOrder(): (Row<Student>, Row<Student>) -> bool { ByTextAsc(StudentName) }
  /** Teacher: `ordering = ["name"]`. */
  function TeacherOrder(): (Row<Teacher>, Row<Teacher>) -> bool { ByTextAsc(TeacherName) }
  /** Contract: `ordering = ["-created_at"]`, newest first. */
  function ContractOrder(): (Row<Contract>, Row<Contract>) -> bool { ByNumberDesc(ContractCreatedAt) }
  /** StudentsGroup: `ordering = ["scheduled_at"]`, earliest first. */
  function GroupOrder(): (Row<StudentsGroup>, Row<StudentsGroup>) -> bool { ByNumberAsc(GroupScheduledAt) }
  /** Lesson: `ordering = ["-occurred_at"]`, latest first. */
  function LessonOrder(): (Row<Lesson>, Row<Lesson>) -> bool { ByNumberDesc(LessonOccurredAt) }

  /** Every management ordering is total and transitive, so each listing is well defined up to ties. */
  lemma ManagementOrderingsAreTotal()
    ensures TotalPreorder(StudentOrder()) && TotalPreorder(TeacherOrder())
    ensures TotalPreorder(ContractOrder()) && TotalPreorder(GroupOrder()) && TotalPreorder(LessonOrder())
  {
    ByTextAscIsTotalPreorder(StudentName);
    ByTextAscIsTotalPreorder(TeacherName);
    ByNumberIsTotalPreorder(ContractCreatedAt);
    ByNumberIsTotalPreorder(GroupScheduledAt);
    ByNumberIsTotalPreorder(LessonOccurredAt);
  }

  /** The student listing holds exactly the rows of the view, sorted by name. */
  lemma StudentListing(view: Rows<Student>, bound: nat)
    requires forall id | id in view :: id < bound
    ensures var s := Listing(view, bound, StudentOrder());
      && (forall i, j | 0 <= i < j < |s| :: LexLe(s[i].rec.data.name, s[j].rec.data.name))
      && (forall r :: r in s <==> r.id in view && view[r.id] == r.rec)
  {
    ManagementOrderingsAreTotal();
    ListingSpec(view, bound, StudentOrder());
    var s := Listing(view, bound, StudentOrder());
    forall i, j | 0 <= i < j < |s| ensures LexLe(s[i].rec.data.name, s[j].rec.data.name) {
      assert StudentOrder()(s[i], s[j]);
      assert ByTextAsc(StudentName)(s[i], s[j]) == LexLe(StudentName(s[i]), StudentName(s[j]));
    }
  }

  /** The lesson listing holds exactly the rows of the view, latest lesson first. */
  lemma LessonListing(view: Rows<Lesson>, bound: nat)
    requires forall id | id in view :: id < bound
    ensures var s := Listing(view, bound, LessonOrder());
      && (forall i, j | 0 <= i < j < |s| :: s[i].rec.data.occurredAt >= s[j].rec.data.occurredAt)
      && (forall r :: r in s <==> r.id in view && view[r.id] == r.rec)
  {
    ManagementOrderingsAreTotal();
    ListingSpec(view, bound, LessonOrder());
    var s := Listing(view, bound, LessonOrder());
    forall i, j | 0 <= i < j < |s| ensures s[i].rec.data.occurredAt >= s[j].rec.data.occurredAt {
      assert LessonOrder()(s[i], s[j]);
      assert ByNumberDesc(LessonOccurredAt)(s[i], s[j]) == (LessonOccurredAt(s[i]) >= LessonOccurredAt(s[j]));
    }
  }

  // ---------------------------------------------------------------------
  // current_students_count
  // ---------------------------------------------------------------------

  /** The students linked to group g in the many-to-many table, deleted or not. */
  function MemberIds(members: set<Membership>, g: Id): set<Id> {
    set m | m in members && m.group == g :: m.student
  }

  /** The group's members that are stored and not soft-deleted. */
  function LiveMembers(members: set<Membership>, students: Rows<Student>, g: Id): (s: set<Id>)
    ensures forall id :: id in s <==> Membership(g, id) in members && id in DefaultView(students)
  {
    set id | id in MemberIds(members, g) && id in students && !students[id].IsDeleted()
  }

  /** `current_students_count`: the number of the group's members whose deleted_at is null. */
  function CurrentStudentsCount(members: set<Membership>, students: Rows<Student>, g: Id): (n: nat)
    ensures n <= |MemberIds(members, g)|
  {
    var live := LiveMembers(members, students, g);
    assert live <= MemberIds(members, g);
    SubsetCardinality(live, MemberIds(members, g));
    |live|
  }

  lemma {:induction false} SubsetCardinality(a: set<Id>, b: set<Id>)
    requires a <= b
    ensures |a| <= |b|
  {
    if a != {} {
      var x :| x in a;
      SubsetCardinality(a - {x}, b - {x});
    }
  }

  /**
   * Soft-deleting a live member lowers the count by exactly one; soft-deleting
   * any other student leaves it unchanged. Membership itself is untouched.
   */
  lemma CountAfterStudentSoftDeleted(members: set<Membership>, students: Rows<Student>, g: Id,
                                     s: Id, deletedAt: Instant, savedAt: Instant)
    requires s in students
    ensures var after := SoftDeleted(students, s, deletedAt, savedAt);
      CurrentStudentsCount(members, after, g) ==
        CurrentStudentsCount(members, students, g)
        - (if Membership(g, s) in members && !students[s].IsDeleted() then 1 else 0)
  {
    var after := SoftDeleted(students, s, deletedAt, savedAt);
    var before := LiveMembers(members, students, g);
    var now := LiveMembers(members, after, g);
    assert now == before - {s};
    if Membership(g, s) in members && !students[s].IsDeleted() {
      assert s in before;
      assert |before - {s}| == |before| - 1;
    } else {
      assert before - {s} == before;
    }
  }

  /** Linking a live student who is not yet a member raises the count by exactly one, whatever max_students is. */
  lemma CountAfterMemberAdded(members: set<Membership>, students: Rows<Student>, g: Id, s: Id)
    requires s in DefaultView(students) && Membership(g, s) !in members
    ensures CurrentStudentsCount(members + {Membership(g, s)}, students, g)
         == CurrentStudentsCount(members, students, g) + 1
  {
    var before := LiveMembers(members, students, g);
    var now := LiveMembers(members + {Membership(g, s)}, students, g);
    assert now == before + {s};
    assert s !in before;
  }
}
