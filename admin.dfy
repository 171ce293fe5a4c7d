/**
 * The site-wide admin actions (`soft_delete_selected`, `make_active`,
 * `make_inactive`) and the counts the admin dashboard shows.
 *
 * An action receives the selected rows of the model's changelist, which is
 * built on the default manager, so its queryset never holds a soft-deleted row.
 */
module Admin {
  import opened Common
  import opened Management
  import Comercial
  import Crm
  import Financial

  /**
   * The state `soft_delete_selected` has reached from rows0 once the rows in
   * done are soft-deleted: same ids, same fields and created_at everywhere,
   * every other row as it was, and each done row deleted, with deleted_at and
   * then updated_at read from the clock after start and no later than now.
   */
  ghost predicate DeletedExactly<T>(rows0: Rows<T>, rows: Rows<T>, done: set<Id>, start: Instant, now: Instant) {
    && rows.Keys == rows0.Keys
    && (forall id | id in rows :: rows[id].data == rows0[id].data && rows[id].createdAt == rows0[id].createdAt)
    && (forall id | id in rows && id !in done :: rows[id] == rows0[id])
    && (forall id | id in done ::
          id in rows && rows[id].IsDeleted() && start < rows[id].deletedAt.value < rows[id].updatedAt <= now)
  }

  lemma DeletedExactlyStep<T>(rows0: Rows<T>, rows: Rows<T>, done: set<Id>, start: Instant, now: Instant, id: Id)
    requires DeletedExactly(rows0, rows, done, start, now) && id in rows && id !in done && start <= now
    ensures DeletedExactly(rows0, SoftDeleted(rows, id, now + 1, now + 2), done + {id}, start, now + 2)
  {
  }

  /** One iteration of `soft_delete_selected`: `obj.delete()` on a row not yet handled. */
  method SoftDeleteNext<T>(t: Table<T>, ghost rows0: Rows<T>, ghost done: set<Id>, ghost start: Instant, id: Id)
    requires t.Valid() && t.latest <= t.clock.now && start <= t.clock.now
    requires DeletedExactly(rows0, t.rows, done, start, t.clock.now) && id in t.rows && id !in done
    modifies t, t.clock
    ensures t.Valid() && t.latest <= t.clock.now && t.nextId == old(t.nextId)
    ensures t.clock.now == old(t.clock.now) + 2
    ensures DeletedExactly(rows0, t.rows, done + {id}, start, t.clock.now)
  {
    ghost var before, now := t.rows, t.clock.now;
    DeletedExactlyStep(rows0, before, done, start, now, id);
    t.SoftDelete(id);
    assert t.rows == SoftDeleted(before, id, now + 1, now + 2);
  }

  /** Soft-deleting done (a set of live rows) keeps every field and takes exactly done out of the default view. */
  lemma DeletedExactlyViews<T>(rows0: Rows<T>, rows: Rows<T>, done: set<Id>, start: Instant, now: Instant)
    requires DeletedExactly(rows0, rows, done, start, now)
    ensures DataOf(rows) == DataOf(rows0)
    ensures DefaultView(rows).Keys == DefaultView(rows0).Keys - done
  {
    assert DataOf(rows) == DataOf(rows0);
    assert DefaultView(rows).Keys == DefaultView(rows0).Keys - done;
  }

  /** Moving one id from the rows still to do to the rows done keeps their union and disjointness. */
  lemma MoveOne(todo: set<Id>, done: set<Id>, id: Id)
    requires id in todo && todo !! done
    ensures (todo - {id}) + (done + {id}) == todo + done && (todo - {id}) !! (done + {id})
    ensures |done + {id}| == |done| + 1 && |todo - {id}| < |todo|
  {
  }

  /** The `for obj in queryset: obj.delete(); count += 1` loop of `soft_delete_selected`. */
  method DeleteEach<T>(t: Table<T>, queryset: set<Id>) returns (count: nat)
    requires t.Valid() && t.latest <= t.clock.now && queryset <= t.rows.Keys
    modifies t, t.clock
    ensures t.Valid() && t.latest <= t.clock.now && t.nextId == old(t.nextId)
    ensures count == |queryset| && t.clock.now == old(t.clock.now) + 2 * count
    ensures DeletedExactly(old(t.rows), t.rows, queryset, old(t.clock.now), t.clock.now)
  {
    var todo := queryset;
    ghost var done: set<Id> := {};
    ghost var rows0 := t.rows;
    ghost var now0 := t.clock.now;
    count := 0;
    while todo != {}
      invariant todo + done == queryset && todo !! done
      invariant t.Valid() && t.latest <= t.clock.now && t.nextId == old(t.nextId)
      invariant count == |done| && t.clock.now == now0 + 2 * count
      invariant DeletedExactly(rows0, t.rows, done, now0, t.clock.now)
      decreases |todo|
    {
      var id :| id in todo;
      MoveOne(todo, done, id);
      SoftDeleteNext(t, rows0, done, now0, id);
      todo := todo - {id};
      done := done + {id};
      count := count + 1;
    }
  }

  /**
   * `soft_delete_selected`: soft-deletes every selected live row one by one and
   * reports how many it deleted; that is the size of the selection whenever
   * the selection holds only live rows, as a changelist selection does. Rows
   * outside the queryset are untouched; each deleted row keeps its fields and
   * created_at.
   */
  method SoftDeleteSelected<T>(t: Table<T>, selection: set<Id>) returns (count: nat)
    requires t.Valid() && t.latest <= t.clock.now
    modifies t, t.clock
    ensures t.Valid() && t.latest <= t.clock.now && t.nextId == old(t.nextId)
    ensures count == |Matched(old(t.rows), selection)|
    ensures selection <= DefaultView(old(t.rows)).Keys ==> count == |selection|
    ensures t.clock.now == old(t.clock.now) + 2 * count
    ensures DeletedExactly(old(t.rows), t.rows, Matched(old(t.rows), selection), old(t.clock.now), t.clock.now)
    ensures t.Data() == old(t.Data())
    ensures DefaultView(t.rows).Keys == DefaultView(old(t.rows)).Keys - selection
  {
    var queryset := Matched(t.rows, selection);
    ghost var rows0 := t.rows;
    ghost var now0 := t.clock.now;
    count := DeleteEach(t, queryset);
    DeletedExactlyViews(rows0, t.rows, queryset, now0, t.clock.now);
    if selection <= DefaultView(rows0).Keys {
      assert queryset == selection;
    }
    assert DefaultView(rows0).Keys - queryset == DefaultView(rows0).Keys - selection;
  }

  /** The update `make_active` / `make_inactive` apply to each matched product. */
  function SetActive(active: bool): Comercial.Product -> Comercial.Product {
    (p: Comercial.Product) => p.(isActive := active)
  }

  /**
   * One bulk update of is_active over the selected live products: the matched
   * rows get the flag and keep every other field and every timestamp (the
   * update bypasses save(), so updated_at is not refreshed); nothing else
   * changes, no row changes view, and doing it again changes nothing.
   */
  lemma SetActiveEffect(rows: Rows<Comercial.Product>, selection: set<Id>, active: bool)
    ensures var m := Matched(rows, selection);
      var after := Updated(rows, m, SetActive(active));
      && after.Keys == rows.Keys
      && (forall id | id in m ::
            && after[id].data.isActive == active
            && after[id].data == rows[id].data.(isActive := active)
            && after[id].createdAt == rows[id].createdAt && after[id].updatedAt == rows[id].updatedAt
            && after[id].deletedAt == rows[id].deletedAt)
      && (forall id | id in rows && id !in m :: after[id] == rows[id])
      && DefaultView(after).Keys == DefaultView(rows).Keys
      && Matched(after, selection) == m
      && Updated(after, m, SetActive(active)) == after
  {
    var m := Matched(rows, selection);
    var after := Updated(rows, m, SetActive(active));
    assert DefaultView(after).Keys == DefaultView(rows).Keys;
    assert Matched(after, selection) == m;
    assert Updated(after, m, SetActive(active)) == after;
  }

  /** `make_active`: sets is_active on every selected live product and reports how many rows it updated. */
  method MakeActive(t: Table<Comercial.Product>, selection: set<Id>) returns (updated: nat)
    requires t.Valid()
    modifies t
    ensures t.Valid() && t.latest == old(t.latest) && t.nextId == old(t.nextId)
    ensures t.rows == Updated(old(t.rows), Matched(old(t.rows), selection), SetActive(true))
    ensures updated == |Matched(old(t.rows), selection)|
    ensures forall id | id in Matched(old(t.rows), selection) :: t.rows[id].data.isActive
  {
    updated := t.Update(selection, SetActive(true));
  }

  /** `make_inactive`: clears is_active on every selected live product and reports how many rows it updated. */
  method MakeInactive(t: Table<Comercial.Product>, selection: set<Id>) returns (updated: nat)
    requires t.Valid()
    modifies t
    ensures t.Valid() && t.latest == old(t.latest) && t.nextId == old(t.nextId)
    ensures t.rows == Updated(old(t.rows), Matched(old(t.rows), selection), SetActive(false))
    ensures updated == |Matched(old(t.rows), selection)|
    ensures forall id | id in Matched(old(t.rows), selection) :: !t.rows[id].data.isActive
  {
    updated := t.Update(selection, SetActive(false));
  }

  // ---------------------------------------------------------------------
  // Dashboard statistics
  // ---------------------------------------------------------------------

  datatype Stats = Stats(
    activeStudents: nat,
    activeTeachers: nat,
    totalProducts: nat,
    totalContracts: nat,
    totalLeads: nat,
    totalPayments: nat)

  function StudentIsActive(s: Student): bool { s.status == Active }
  function TeacherIsActive(t: Teacher): bool { t.status == Active }

  /**
   * The `stats` of `dashboard_view`: each count runs on the model's default
   * manager, so no count exceeds the live rows of its table, and none exceeds
   * the stored rows.
   */
  function DashboardStats(students: Rows<Student>, teachers: Rows<Teacher>, products: Rows<Comercial.Product>,
                          contracts: Rows<Contract>, leads: Rows<Crm.Lead>, payments: Rows<Financial.Payment>): (s: Stats)
    ensures s.activeStudents <= |DefaultView(students)| <= |students|
    ensures s.activeTeachers <= |DefaultView(teachers)| <= |teachers|
    ensures s.totalProducts <= |products| && s.totalContracts <= |contracts|
    ensures s.totalLeads <= |leads| && s.totalPayments <= |payments|
  {
    SubsetCardinality(LiveWhere(students, StudentIsActive).Keys, DefaultView(students).Keys);
    SubsetCardinality(DefaultView(students).Keys, students.Keys);
    SubsetCardinality(LiveWhere(teachers, TeacherIsActive).Keys, DefaultView(teachers).Keys);
    SubsetCardinality(DefaultView(teachers).Keys, teachers.Keys);
    SubsetCardinality(DefaultView(products).Keys, products.Keys);
    SubsetCardinality(DefaultView(contracts).Keys, contracts.Keys);
    SubsetCardinality(DefaultView(leads).Keys, leads.Keys);
    SubsetCardinality(DefaultView(payments).Keys, payments.Keys);
    Stats(|LiveWhere(students, StudentIsActive)|, |LiveWhere(teachers, TeacherIsActive)|,
          |DefaultView(products)|, |DefaultView(contracts)|, |DefaultView(leads)|, |DefaultView(payments)|)
  }

  lemma FilterOfDefaultView<T>(rows: Rows<T>, p: T -> bool)
    ensures LiveWhere(DefaultView(rows), p) == LiveWhere(rows, p)
    ensures DefaultView(DefaultView(rows)) == DefaultView(rows)
  {
    assert LiveWhere(DefaultView(rows), p).Keys == LiveWhere(rows, p).Keys;
    assert DefaultView(DefaultView(rows)).Keys == DefaultView(rows).Keys;
  }

  /**
   * The dashboard sees only live rows: it reads the same on the default views
   * as on the whole tables, and the active counts never exceed the live counts.
   */
  lemma StatsSeeOnlyLiveRows(students: Rows<Student>, teachers: Rows<Teacher>, products: Rows<Comercial.Product>,
                             contracts: Rows<Contract>, leads: Rows<Crm.Lead>, payments: Rows<Financial.Payment>)
    ensures var s := DashboardStats(students, teachers, products, contracts, leads, payments);
      && s == DashboardStats(DefaultView(students), DefaultView(teachers), DefaultView(products),
                             DefaultView(contracts), DefaultView(leads), DefaultView(payments))
      && s.activeStudents <= |DefaultView(students)| && s.activeTeachers <= |DefaultView(teachers)|
      && s.totalProducts <= |AllWithDeleted(products)| && s.totalContracts <= |AllWithDeleted(contracts)|
  {
    FilterOfDefaultView(students, StudentIsActive);
    FilterOfDefaultView(teachers, TeacherIsActive);
    FilterOfDefaultView(products, (p: Comercial.Product) => true);
    FilterOfDefaultView(contracts, (c: Contract) => true);
    FilterOfDefaultView(leads, (l: Crm.Lead) => true);
    FilterOfDefaultView(payments, (p: Financial.Payment) => true);
  }

  /**
   * Soft-deleting a student lowers active_students by one exactly when the
   * student was live and active; no other statistic moves.
   */
  lemma StatsAfterStudentSoftDeleted(students: Rows<Student>, teachers: Rows<Teacher>, products: Rows<Comercial.Product>,
                                     contracts: Rows<Contract>, leads: Rows<Crm.Lead>, payments: Rows<Financial.Payment>,
                                     id: Id, deletedAt: Instant, savedAt: Instant)
    requires id in students
    ensures var before := DashboardStats(students, teachers, products, contracts, leads, payments);
      var after := DashboardStats(SoftDeleted(students, id, deletedAt, savedAt), teachers, products, contracts, leads, payments);
      && after.activeStudents == before.activeStudents
           - (if !students[id].IsDeleted() && students[id].data.status == Active then 1 else 0)
      && after.(activeStudents := before.activeStudents) == before
  {
    SoftDeleteCountWhere(students, id, deletedAt, savedAt, StudentIsActive);
  }

  /** Soft-deleting a live contract lowers total_contracts by one; no other statistic moves. */
  lemma StatsAfterContractSoftDeleted(students: Rows<Student>, teachers: Rows<Teacher>, products: Rows<Comercial.Product>,
                                      contracts: Rows<Contract>, leads: Rows<Crm.Lead>, payments: Rows<Financial.Payment>,
                                      id: Id, deletedAt: Instant, savedAt: Instant)
    requires id in DefaultView(contracts)
    ensures var before := DashboardStats(students, teachers, products, contracts, leads, payments);
      var after := DashboardStats(students, teachers, products, SoftDeleted(contracts, id, deletedAt, savedAt), leads, payments);
      && after.totalContracts == before.totalContracts - 1
      && after.(totalContracts := before.totalContracts) == before
  {
    SoftDeleteShrinksDefaultView(contracts, id, deletedAt, savedAt);
  }
}
