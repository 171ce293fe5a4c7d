/**
 * The school's tables together: foreign keys, the contract pair constraint,
 * the group/student many-to-many table, and what a hard delete cascades to.
 *
 * Foreign keys and `unique_together` are database constraints, so they hold
 * over every stored row, soft-deleted or not; a hard delete goes through the
 * base manager and so collects soft-deleted dependants too.
 */
module School {
  import opened Wrappers
  import opened Common
  import opened Management
  import Comercial
  import Financial

  /** The tables that take part in foreign keys, plus the group/student link rows. */
  datatype Db = Db(
    students: Rows<Student>,
    teachers: Rows<Teacher>,
    products: Rows<Comercial.Product>,
    contracts: Rows<Contract>,
    groups: Rows<StudentsGroup>,
    lessons: Rows<Lesson>,
    teacherPayments: Rows<Financial.TeacherPayment>,
    members: set<Membership>)

  /** Every foreign key points at a stored row. */
  predicate ReferencesResolve(db: Db) {
    && (forall id | id in db.contracts ::
          db.contracts[id].data.student in db.students && db.contracts[id].data.product in db.products)
    && (forall id | id in db.groups :: db.groups[id].data.teacher in db.teachers)
    && (forall id | id in db.lessons ::
          db.lessons[id].data.studentsGroup in db.groups && db.lessons[id].data.teacher in db.teachers)
    && (forall id | id in db.teacherPayments :: db.teacherPayments[id].data.teacher in db.teachers)
    && (forall m | m in db.members :: m.group in db.groups && m.student in db.students)
  }

  /** `unique_together = ["student", "product"]`: no two stored contracts share a pair. */
  predicate UniquePairs(contracts: Rows<Contract>) {
    forall a, b | a in contracts && b in contracts && a != b :: contracts[a].data != contracts[b].data
  }

  predicate Consistent(db: Db) {
    ReferencesResolve(db) && UniquePairs(db.contracts)
  }

  /** Some stored contract, live or soft-deleted, already holds the pair. */
  predicate PairTaken(contracts: Rows<Contract>, student: Id, product: Id) {
    exists id | id in contracts :: contracts[id].data == Contract(student, product)
  }

  /**
   * A new contract keeps the pairs unique exactly when its pair is not taken;
   * a soft-deleted contract still takes its pair.
   */
  lemma InsertContractUnique(contracts: Rows<Contract>, id: Id, r: Record<Contract>)
    requires UniquePairs(contracts) && id !in contracts
    ensures UniquePairs(contracts[id := r]) <==> !PairTaken(contracts, r.data.student, r.data.product)
  {
    var after := contracts[id := r];
    if PairTaken(contracts, r.data.student, r.data.product) {
      var other :| other in contracts && contracts[other].data == Contract(r.data.student, r.data.product);
      assert other in after && id in after && other != id && after[other].data == after[id].data;
    }
  }

  /** Storing a contract whose student and product are stored, under a fresh id and an untaken pair, keeps the database consistent. */
  lemma InsertContractConsistent(db: Db, id: Id, r: Record<Contract>)
    requires Consistent(db) && id !in db.contracts
    requires r.data.student in db.students && r.data.product in db.products
    requires !PairTaken(db.contracts, r.data.student, r.data.product)
    ensures Consistent(db.(contracts := db.contracts[id := r]))
  {
    InsertContractUnique(db.contracts, id, r);
  }

  /** Linking a stored student to a stored group keeps the database consistent. */
  lemma InsertMemberConsistent(db: Db, m: Membership)
    requires Consistent(db) && m.group in db.groups && m.student in db.students
    ensures Consistent(db.(members := db.members + {m}))
  {
  }

  /** A new group whose teacher is stored keeps the database consistent. */
  lemma InsertGroupConsistent(db: Db, id: Id, r: Record<StudentsGroup>)
    requires Consistent(db) && r.data.teacher in db.teachers
    ensures Consistent(db.(groups := db.groups[id := r]))
  {
  }

  /** A new lesson whose group and teacher are stored keeps the database consistent. */
  lemma InsertLessonConsistent(db: Db, id: Id, r: Record<Lesson>)
    requires Consistent(db) && r.data.studentsGroup in db.groups && r.data.teacher in db.teachers
    ensures Consistent(db.(lessons := db.lessons[id := r]))
  {
  }

  /** A new teacher payment whose teacher is stored keeps the database consistent. */
  lemma InsertTeacherPaymentConsistent(db: Db, id: Id, r: Record<Financial.TeacherPayment>)
    requires Consistent(db) && r.data.teacher in db.teachers
    ensures Consistent(db.(teacherPayments := db.teacherPayments[id := r]))
  {
  }

  // ---------------------------------------------------------------------
  // What a hard delete collects (on_delete=CASCADE, through the base manager)
  // ---------------------------------------------------------------------

  function ContractsOfStudent(contracts: Rows<Contract>, s: Id): (ids: set<Id>)
    ensures forall id :: id in ids <==> id in contracts && contracts[id].data.student == s
  {
    set id | id in contracts && contracts[id].data.student == s
  }

  function ContractsOfProduct(contracts: Rows<Contract>, p: Id): (ids: set<Id>)
    ensures forall id :: id in ids <==> id in contracts && contracts[id].data.product == p
  {
    set id | id in contracts && contracts[id].data.product == p
  }

  function GroupsOfTeacher(groups: Rows<StudentsGroup>, t: Id): (ids: set<Id>)
    ensures forall id :: id in ids <==> id in groups && groups[id].data.teacher == t
  {
    set id | id in groups && groups[id].data.teacher == t
  }

  /** Lessons that belong to one of the groups gs or were given by teacher t (t may be none). */
  function LessonsOf(lessons: Rows<Lesson>, gs: set<Id>, t: Option<Id>): (ids: set<Id>)
    ensures forall id :: id in ids <==>
      id in lessons && (lessons[id].data.studentsGroup in gs || Some(lessons[id].data.teacher) == t)
  {
    set id | id in lessons && (lessons[id].data.studentsGroup in gs || Some(lessons[id].data.teacher) == t)
  }

  function TeacherPaymentsOf(payments: Rows<Financial.TeacherPayment>, t: Id): (ids: set<Id>)
    ensures forall id :: id in ids <==> id in payments && payments[id].data.teacher == t
  {
    set id | id in payments && payments[id].data.teacher == t
  }

  /** The link rows that survive deleting the groups gs and the students ss. */
  function MembersWithout(members: set<Membership>, gs: set<Id>, ss: set<Id>): (kept: set<Membership>)
    ensures forall m :: m in kept <==> m in members && m.group !in gs && m.student !in ss
  {
    set m | m in members && m.group !in gs && m.student !in ss
  }

  /** Hard-deleting a student: its contracts and its group links go with it. */
  function DeleteStudent(db: Db, s: Id): Db {
    db.(students := db.students - {s},
        contracts := db.contracts - ContractsOfStudent(db.contracts, s),
        members := MembersWithout(db.members, {}, {s}))
  }

  /** Hard-deleting a product: its contracts go with it. */
  function DeleteProduct(db: Db, p: Id): Db {
    db.(products := db.products - {p},
        contracts := db.contracts - ContractsOfProduct(db.contracts, p))
  }

  /** Hard-deleting a group: its lessons and its links go with it. */
  function DeleteGroup(db: Db, g: Id): Db {
    db.(groups := db.groups - {g},
        lessons := db.lessons - LessonsOf(db.lessons, {g}, None),
        members := MembersWithout(db.members, {g}, {}))
  }

  /**
   * Hard-deleting a teacher: their groups (and those groups' lessons and
   * links), their own lessons and their payments go with them.
   */
  function DeleteTeacher(db: Db, t: Id): Db {
    var gs := GroupsOfTeacher(db.groups, t);
    db.(teachers := db.teachers - {t},
        groups := db.groups - gs,
        lessons := db.lessons - LessonsOf(db.lessons, gs, Some(t)),
        teacherPayments := db.teacherPayments - TeacherPaymentsOf(db.teacherPayments, t),
        members := MembersWithout(db.members, gs, {}))
  }

  /**
   * After a student is hard-deleted the database is still consistent, nothing
   * refers to the student, and every row that did not refer to it is kept.
   */
  lemma DeleteStudentCascades(db: Db, s: Id)
    requires Consistent(db)
    ensures var after := DeleteStudent(db, s);
      && Consistent(after)
      && s !in after.students
      && (forall id | id in after.contracts :: after.contracts[id].data.student != s)
      && (forall m | m in after.members :: m.student != s)
      && (forall id | id in db.contracts && db.contracts[id].data.student != s ::
            id in after.contracts && after.contracts[id] == db.contracts[id])
      && (forall m | m in db.members && m.student != s :: m in after.members)
      && after.teachers == db.teachers && after.groups == db.groups && after.lessons == db.lessons
  {
  }

  /** What a method needs of a product's hard delete: the database stays consistent. */
  lemma DeleteProductConsistent(db: Db, p: Id)
    requires Consistent(db)
    ensures Consistent(DeleteProduct(db, p))
  {
  }

  /** After a product is hard-deleted no contract refers to it and every other contract is kept. */
  lemma DeleteProductCascades(db: Db, p: Id)
    requires Consistent(db)
    ensures var after := DeleteProduct(db, p);
      && Consistent(after)
      && p !in after.products
      && (forall id | id in after.contracts :: after.contracts[id].data.product != p)
      && (forall id | id in db.contracts && db.contracts[id].data.product != p ::
            id in after.contracts && after.contracts[id] == db.contracts[id])
      && after.students == db.students && after.members == db.members
  {
  }

  /** After a group is hard-deleted none of its lessons or links remain; everything else is kept. */
  lemma DeleteGroupCascades(db: Db, g: Id)
    requires Consistent(db)
    ensures var after := DeleteGroup(db, g);
      && Consistent(after)
      && g !in after.groups
      && (forall id | id in after.lessons :: after.lessons[id].data.studentsGroup != g)
      && (forall m | m in after.members :: m.group != g)
      && (forall id | id in db.lessons && db.lessons[id].data.studentsGroup != g ::
            id in after.lessons && after.lessons[id] == db.lessons[id])
      && (forall m | m in db.members && m.group != g :: m in after.members)
      && after.teachers == db.teachers && after.students == db.students && after.contracts == db.contracts
  {
  }

  /**
   * After a teacher is hard-deleted none of their groups, lessons (their own or
   * their groups') or payments remain, and the rest is kept.
   */
  lemma DeleteTeacherCascades(db: Db, t: Id)
    requires Consistent(db)
    ensures var after := DeleteTeacher(db, t);
      && Consistent(after)
      && t !in after.teachers
      && (forall id | id in after.groups :: after.groups[id].data.teacher != t)
      && (forall id | id in after.lessons :: after.lessons[id].data.teacher != t)
      && (forall id | id in after.teacherPayments :: after.teacherPayments[id].data.teacher != t)
      && (forall id | id in db.groups && db.groups[id].data.teacher != t ::
            id in after.groups && after.groups[id] == db.groups[id])
      && (forall id | id in db.teacherPayments && db.teacherPayments[id].data.teacher != t ::
            id in after.teacherPayments && after.teacherPayments[id] == db.teacherPayments[id])
      && after.students == db.students && after.contracts == db.contracts
  {
  }

  // ---------------------------------------------------------------------
  // The stored tables
  // ---------------------------------------------------------------------

  /** Why an insert is refused by the database. */
  datatype InsertError = MissingStudent | MissingProduct | MissingTeacher | MissingGroup | DuplicatePair

  /** A table shares the school's clock, keeps its own invariant, and has not run ahead of the clock. */
  ghost predicate OnClock<T>(t: Table<T>, clock: Clock)
    reads t, clock
  {
    t.clock == clock && t.Valid() && t.latest <= clock.now
  }

  class SchoolDb {
    const clock: Clock
    const students: Table<Student>
    const teachers: Table<Teacher>
    const products: Table<Comercial.Product>
    const contracts: Table<Contract>
    const groups: Table<StudentsGroup>
    const lessons: Table<Lesson>
    const teacherPayments: Table<Financial.TeacherPayment>
    /** The `management_students_groups_students` link table. */
    var members: set<Membership>

    function Shape(): Db
      reads this, students, teachers, products, contracts, groups, lessons, teacherPayments
    {
      Db(students.rows, teachers.rows, products.rows, contracts.rows, groups.rows, lessons.rows,
         teacherPayments.rows, members)
    }

    ghost predicate Valid()
      reads this, clock, students, teachers, products, contracts, groups, lessons, teacherPayments
    {
      && OnClock(students, clock) && OnClock(teachers, clock) && OnClock(products, clock)
      && OnClock(contracts, clock) && OnClock(groups, clock) && OnClock(lessons, clock)
      && OnClock(teacherPayments, clock)
      && Consistent(Shape())
    }

    constructor ()
      ensures Shape() == Db(map[], map[], map[], map[], map[], map[], map[], {})
      ensures Valid() && fresh(clock)
    {
      var c := new Clock();
      clock := c;
      students := new Table(c);
      teachers := new Table(c);
      products := new Table(c);
      contracts := new Table(c);
      groups := new Table(c);
      lessons := new Table(c);
      teacherPayments := new Table(c);
      members := {};
    }

    /** `Student.objects.create(...)`. */
    method CreateStudent(data: Student) returns (id: Id)
      requires Valid()
      modifies students, clock
      ensures Valid()
      ensures students.rows == old(students.rows)[id := Record(data, old(clock.now) + 1, old(clock.now) + 2, None)]
      ensures id !in old(students.rows)
    {
      id := students.Create(data);
    }

    /** `Teacher.objects.create(...)`. */
    method CreateTeacher(data: Teacher) returns (id: Id)
      requires Valid()
      modifies teachers, clock
      ensures Valid()
      ensures teachers.rows == old(teachers.rows)[id := Record(data, old(clock.now) + 1, old(clock.now) + 2, None)]
      ensures id !in old(teachers.rows)
    {
      id := teachers.Create(data);
    }

    /** `Product.objects.create(...)`. */
    method CreateProduct(data: Comercial.Product) returns (id: Id)
      requires Valid()
      modifies products, clock
      ensures Valid()
      ensures products.rows == old(products.rows)[id := Record(data, old(clock.now) + 1, old(clock.now) + 2, None)]
      ensures id !in old(products.rows)
    {
      id := products.Create(data);
    }

    /**
     * `Contract.objects.create(student=..., product=...)`. The insert is refused
     * when either key names no stored row, or when any stored contract, even a
     * soft-deleted one, already holds the pair; a refused insert changes nothing.
     */
    method CreateContract(student: Id, product: Id) returns (r: Result<Id, InsertError>)
      requires Valid()
      modifies contracts, clock
      ensures Valid()
      ensures r.Err? <==>
        student !in students.rows || product !in products.rows || PairTaken(old(contracts.rows), student, product)
      ensures r == Err(DuplicatePair) ==> PairTaken(old(contracts.rows), student, product)
      ensures r == Err(MissingStudent) ==> student !in students.rows
      ensures r == Err(MissingProduct) ==> product !in products.rows
      ensures r.Err? ==> contracts.rows == old(contracts.rows) && clock.now == old(clock.now)
      ensures r.Ok? ==> (r.value !in old(contracts.rows) &&
        contracts.rows == old(contracts.rows)[r.value := Record(Contract(student, product), old(clock.now) + 1, old(clock.now) + 2, None)])
    {
      if student !in students.rows {
        return Err(MissingStudent);
      }
      if product !in products.rows {
        return Err(MissingProduct);
      }
      if PairTaken(contracts.rows, student, product) {
        return Err(DuplicatePair);
      }
      var id := InsertContract(Contract(student, product));
      r := Ok(id);
    }

    /** The INSERT of a contract whose keys resolve and whose pair is free. */
    method InsertContract(data: Contract) returns (id: Id)
      requires Valid() && data.student in students.rows && data.product in products.rows
      requires !PairTaken(contracts.rows, data.student, data.product)
      modifies contracts, clock
      ensures Valid() && id !in old(contracts.rows)
      ensures contracts.rows == old(contracts.rows)[id := Record(data, old(clock.now) + 1, old(clock.now) + 2, None)]
    {
      var before := Shape();
      var rec := Record(data, clock.now + 1, clock.now + 2, None);
      id := contracts.Create(data);
      assert students.rows == before.students;
      assert teachers.rows == before.teachers;
      assert products.rows == before.products;
      assert contracts.rows == before.contracts[id := rec];
      assert groups.rows == before.groups;
      assert lessons.rows == before.lessons;
      assert teacherPayments.rows == before.teacherPayments;
      assert members == before.members;
      InsertContractConsistent(before, id, rec);
      assert Shape() == before.(contracts := before.contracts[id := rec]);
    }

    /** `StudentsGroup.objects.create(...)`: refused only when the teacher is not stored; max_students is not checked. */
    method CreateGroup(data: StudentsGroup) returns (r: Result<Id, InsertError>)
      requires Valid()
      modifies groups, clock
      ensures Valid()
      ensures r.Err? <==> data.teacher !in teachers.rows
      ensures r.Err? ==> r.error == MissingTeacher && groups.rows == old(groups.rows)
      ensures r.Ok? ==> (r.value !in old(groups.rows) &&
        groups.rows == old(groups.rows)[r.value := Record(data, old(clock.now) + 1, old(clock.now) + 2, None)])
    {
      if data.teacher !in teachers.rows {
        return Err(MissingTeacher);
      }
      var id := InsertGroup(data);
      r := Ok(id);
    }

    /** The INSERT of a group whose teacher is stored. */
    method InsertGroup(data: StudentsGroup) returns (id: Id)
      requires Valid() && data.teacher in teachers.rows
      modifies groups, clock
      ensures Valid() && id !in old(groups.rows)
      ensures groups.rows == old(groups.rows)[id := Record(data, old(clock.now) + 1, old(clock.now) + 2, None)]
    {
      var before := Shape();
      var rec := Record(data, clock.now + 1, clock.now + 2, None);
      id := groups.Create(data);
      assert students.rows == before.students;
      assert teachers.rows == before.teachers;
      assert products.rows == before.products;
      assert contracts.rows == before.contracts;
      assert groups.rows == before.groups[id := rec];
      assert lessons.rows == before.lessons;
      assert teacherPayments.rows == before.teacherPayments;
      assert members == before.members;
      InsertGroupConsistent(before, id, rec);
      assert Shape() == before.(groups := before.groups[id := rec]);
    }

    /** `Lesson.objects.create(...)`: refused when its group or its teacher is not stored. */
    method CreateLesson(data: Lesson) returns (r: Result<Id, InsertError>)
      requires Valid()
      modifies lessons, clock
      ensures Valid()
      ensures r.Err? <==> data.studentsGroup !in groups.rows || data.teacher !in teachers.rows
      ensures r.Err? ==> lessons.rows == old(lessons.rows)
      ensures r.Ok? ==> (r.value !in old(lessons.rows) &&
        lessons.rows == old(lessons.rows)[r.value := Record(data, old(clock.now) + 1, old(clock.now) + 2, None)])
    {
      if data.studentsGroup !in groups.rows {
        return Err(MissingGroup);
      }
      if data.teacher !in teachers.rows {
        return Err(MissingTeacher);
      }
      var id := InsertLesson(data);
      r := Ok(id);
    }

    /** The INSERT of a lesson whose group and teacher are stored. */
    method InsertLesson(data: Lesson) returns (id: Id)
      requires Valid() && data.studentsGroup in groups.rows && data.teacher in teachers.rows
      modifies lessons, clock
      ensures Valid() && id !in old(lessons.rows)
      ensures lessons.rows == old(lessons.rows)[id := Record(data, old(clock.now) + 1, old(clock.now) + 2, None)]
    {
      var before := Shape();
      var rec := Record(data, clock.now + 1, clock.now + 2, None);
      id := lessons.Create(data);
      assert students.rows == before.students;
      assert teachers.rows == before.teachers;
      assert products.rows == before.products;
      assert contracts.rows == before.contracts;
      assert groups.rows == before.groups;
      assert lessons.rows == before.lessons[id := rec];
      assert teacherPayments.rows == before.teacherPayments;
      assert members == before.members;
      InsertLessonConsistent(before, id, rec);
      assert Shape() == before.(lessons := before.lessons[id := rec]);
    }

    /** `TeacherPayments.objects.create(...)`: refused when the teacher is not stored. */
    method CreateTeacherPayment(data: Financial.TeacherPayment) returns (r: Result<Id, InsertError>)
      requires Valid()
      modifies teacherPayments, clock
      ensures Valid()
      ensures r.Err? <==> data.teacher !in teachers.rows
      ensures r.Err? ==> teacherPayments.rows == old(teacherPayments.rows)
      ensures r.Ok? ==> (r.value !in old(teacherPayments.rows) &&
        teacherPayments.rows == old(teacherPayments.rows)[r.value := Record(data, old(clock.now) + 1, old(clock.now) + 2, None)])
    {
      if data.teacher !in teachers.rows {
        return Err(MissingTeacher);
      }
      var id := InsertTeacherPayment(data);
      r := Ok(id);
    }

    /** The INSERT of a teacher payment whose teacher is stored. */
    method InsertTeacherPayment(data: Financial.TeacherPayment) returns (id: Id)
      requires Valid() && data.teacher in teachers.rows
      modifies teacherPayments, clock
      ensures Valid() && id !in old(teacherPayments.rows)
      ensures teacherPayments.rows == old(teacherPayments.rows)[id := Record(data, old(clock.now) + 1, old(clock.now) + 2, None)]
    {
      var before := Shape();
      var rec := Record(data, clock.now + 1, clock.now + 2, None);
      id := teacherPayments.Create(data);
      assert students.rows == before.students;
      assert teachers.rows == before.teachers;
      assert products.rows == before.products;
      assert contracts.rows == before.contracts;
      assert groups.rows == before.groups;
      assert lessons.rows == before.lessons;
      assert teacherPayments.rows == before.teacherPayments[id := rec];
      assert members == before.members;
      InsertTeacherPaymentConsistent(before, id, rec);
      assert Shape() == before.(teacherPayments := before.teacherPayments[id := rec]);
    }

    /**
     * `group.students.add(student)`: links the pair once (adding it again is a
     * no-op). Nothing compares the group's member count with max_students.
     */
    method AddMember(g: Id, s: Id) returns (r: Result<(), InsertError>)
      requires Valid()
      modifies this
      ensures Valid()
      ensures r.Err? <==> g !in groups.rows || s !in students.rows
      ensures r.Ok? ==> members == old(members) + {Membership(g, s)}
      ensures r.Err? ==> members == old(members)
    {
      if g !in groups.rows {
        return Err(MissingGroup);
      }
      if s !in students.rows {
        return Err(MissingStudent);
      }
      var before := Shape();
      InsertMemberConsistent(before, Membership(g, s));
      members := members + {Membership(g, s)};
      assert Shape() == before.(members := before.members + {Membership(g, s)});
      r := Ok(());
    }

    /** `group.current_students_count`. */
    function CurrentStudentsCountOf(g: Id): (n: nat)
      reads this, students
      ensures n <= |MemberIds(members, g)|
    {
      CurrentStudentsCount(members, students.rows, g)
    }

    /** `student.hard_delete()`: the student, their contracts and their group links are removed. */
    method HardDeleteStudent(s: Id)
      requires Valid()
      modifies this, students, contracts
      ensures Valid()
      ensures Shape() == DeleteStudent(old(Shape()), s)
    {
      DeleteStudentCascades(Shape(), s);
      contracts.DeleteRows(ContractsOfStudent(contracts.rows, s));
      members := MembersWithout(members, {}, {s});
      students.DeleteRows({s});
    }

    /** `product.hard_delete()`: the product and its contracts are removed. */
    method HardDeleteProduct(p: Id)
      requires Valid()
      modifies products, contracts
      ensures Valid()
      ensures Shape() == DeleteProduct(old(Shape()), p)
    {
      var before := Shape();
      contracts.DeleteRows(ContractsOfProduct(contracts.rows, p));
      products.DeleteRows({p});
      assert students.rows == before.students && teachers.rows == before.teachers;
      assert groups.rows == before.groups && lessons.rows == before.lessons;
      assert teacherPayments.rows == before.teacherPayments && members == before.members;
      DeleteProductConsistent(before, p);
      assert Shape() == DeleteProduct(before, p);
    }

    /** `group.hard_delete()`: the group, its lessons and its links are removed. */
    method HardDeleteGroup(g: Id)
      requires Valid()
      modifies this, groups, lessons
      ensures Valid()
      ensures Shape() == DeleteGroup(old(Shape()), g)
    {
      DeleteGroupCascades(Shape(), g);
      lessons.DeleteRows(LessonsOf(lessons.rows, {g}, None));
      members := MembersWithout(members, {g}, {});
      groups.DeleteRows({g});
    }

    /** `teacher.hard_delete()`: the teacher, their groups with those groups' lessons and links, their lessons and their payments are removed. */
    method HardDeleteTeacher(t: Id)
      requires Valid()
      modifies this, teachers, groups, lessons, teacherPayments
      ensures Valid()
      ensures Shape() == DeleteTeacher(old(Shape()), t)
    {
      var before := Shape();
      DeleteTeacherCascades(before, t);
      DeleteTeacherRows(t, DeleteTeacher(before, t));
      members := DeleteTeacher(before, t).members;
    }

    /** The DELETE statements of a teacher's cascade, one per table. */
    method DeleteTeacherRows(t: Id, ghost target: Db)
      requires OnClock(teachers, clock) && OnClock(groups, clock)
      requires OnClock(lessons, clock) && OnClock(teacherPayments, clock)
      requires target == DeleteTeacher(Shape(), t)
      modifies teachers, groups, lessons, teacherPayments
      ensures OnClock(teachers, clock) && OnClock(groups, clock)
      ensures OnClock(lessons, clock) && OnClock(teacherPayments, clock)
      ensures teachers.rows == target.teachers && groups.rows == target.groups
      ensures lessons.rows == target.lessons && teacherPayments.rows == target.teacherPayments
    {
      var gs := GroupsOfTeacher(groups.rows, t);
      lessons.DeleteRows(LessonsOf(lessons.rows, gs, Some(t)));
      teacherPayments.DeleteRows(TeacherPaymentsOf(teacherPayments.rows, t));
      groups.DeleteRows(gs);
      teachers.DeleteRows({t});
    }
  }
}
