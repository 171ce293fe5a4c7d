/**
 * The soft-delete record store every entity inherits (BaseModel =
 * TimestampMixin + SoftDeleteMixin, with SoftDeleteManager as `objects`).
 *
 * A table is a map from id to record. Timestamps are readings of an abstract
 * clock that strictly increases on every reading, one reading per call to
 * `timezone.now()`.
 */
module Common {
  import opened Wrappers
  import opened Ordering

  type Id = nat

  /** A reading of the clock that stands for `timezone.now()`; also used for user-supplied date-times. */
  type Instant = nat

  /** A calendar date (DateField), as a day number. */
  type Date = nat

  /** One stored row: the entity's own fields plus the BaseModel fields. */
  datatype Record<T> = Record(data: T, createdAt: Instant, updatedAt: Instant, deletedAt: Option<Instant>)
  {
    /** `is_deleted`: deleted_at is not null. */
    predicate IsDeleted() {
      deletedAt.Some?
    }
  }

  type Rows<T> = map<Id, Record<T>>

  /** A row as a queryset yields it: its id and its stored record. */
  datatype Row<T> = Row(id: Id, rec: Record<T>)

  // ---------------------------------------------------------------------
  // SoftDeleteManager: the three views of a table
  // ---------------------------------------------------------------------

  /** `objects` / `get_queryset()`: the records whose deleted_at is null. */
  function DefaultView<T>(rows: Rows<T>): (v: Rows<T>)
    ensures forall id :: id in v <==> id in rows && !rows[id].IsDeleted()
    ensures forall id | id in v :: v[id] == rows[id]
  {
    map id | id in rows && !rows[id].IsDeleted() :: rows[id]
  }

  /** `all_with_deleted()`: every stored record, live or soft-deleted, as stored. */
  function AllWithDeleted<T>(rows: Rows<T>): (v: Rows<T>)
    ensures forall id :: id in v <==> id in DefaultView(rows) || id in OnlyDeleted(rows)
    ensures forall id | id in v :: id in rows && v[id] == rows[id]
  {
    rows
  }

  /** `only_deleted()`: the records whose deleted_at is set. */
  function OnlyDeleted<T>(rows: Rows<T>): (v: Rows<T>)
    ensures forall id :: id in v <==> id in rows && rows[id].IsDeleted()
    ensures forall id | id in v :: v[id] == rows[id]
  {
    map id | id in rows && rows[id].IsDeleted() :: rows[id]
  }

  /** The default view and the deleted view are disjoint and together are the whole table. */
  lemma ViewsPartition<T>(rows: Rows<T>)
    ensures DefaultView(rows).Keys !! OnlyDeleted(rows).Keys
    ensures DefaultView(rows) + OnlyDeleted(rows) == AllWithDeleted(rows)
    ensures |DefaultView(rows)| + |OnlyDeleted(rows)| == |AllWithDeleted(rows)|
  {
    var live, dead := DefaultView(rows), OnlyDeleted(rows);
    assert live.Keys + dead.Keys == rows.Keys;
    assert |live.Keys + dead.Keys| == |live.Keys| + |dead.Keys|;
  }

  /** `objects.filter(<condition>)`: the live records whose fields satisfy p. */
  function LiveWhere<T>(rows: Rows<T>, p: T -> bool): (v: Rows<T>)
    ensures forall id :: id in v <==> id in rows && !rows[id].IsDeleted() && p(rows[id].data)
    ensures forall id | id in v :: v[id] == rows[id]
  {
    map id | id in rows && !rows[id].IsDeleted() && p(rows[id].data) :: rows[id]
  }

  // ---------------------------------------------------------------------
  // What each lifecycle operation does to the stored rows
  // ---------------------------------------------------------------------

  /** `delete()`: deleted_at := now, then `save()` refreshes updated_at. */
  function SoftDeleted<T>(rows: Rows<T>, id: Id, deletedAt: Instant, savedAt: Instant): Rows<T>
    requires id in rows
  {
    rows[id := rows[id].(deletedAt := Some(deletedAt), updatedAt := savedAt)]
  }

  /** Field assignment followed by `save()`: new fields, updated_at refreshed, nothing else. */
  function Saved<T>(rows: Rows<T>, id: Id, data: T, savedAt: Instant): Rows<T>
    requires id in rows
  {
    rows[id := rows[id].(data := data, updatedAt := savedAt)]
  }

  /** `hard_delete()` (and the rows a cascade collects): the rows are gone. */
  function HardDeleted<T>(rows: Rows<T>, ids: set<Id>): Rows<T> {
    rows - ids
  }

  /** The fields the entity declares, per stored id, without the BaseModel bookkeeping. */
  function DataOf<T>(rows: Rows<T>): (d: map<Id, T>)
    ensures d.Keys == rows.Keys
    ensures forall id | id in d :: d[id] == rows[id].data
  {
    map id | id in rows :: rows[id].data
  }

  /**
   * A soft delete keeps the row stored, moves it from the default view to the
   * deleted view, keeps its fields and created_at, and changes no other row.
   */
  lemma SoftDeleteMovesRow<T>(rows: Rows<T>, id: Id, deletedAt: Instant, savedAt: Instant)
    requires id in rows
    ensures var after := SoftDeleted(rows, id, deletedAt, savedAt);
      && id in AllWithDeleted(after) && id in OnlyDeleted(after) && id !in DefaultView(after)
      && after[id].IsDeleted()
      && after.Keys == rows.Keys
      && after[id].data == rows[id].data && after[id].createdAt == rows[id].createdAt
      && (forall other | other in rows && other != id :: after[other] == rows[other])
      && DefaultView(after) == DefaultView(rows) - {id}
      && OnlyDeleted(after).Keys == OnlyDeleted(rows).Keys + {id}
      && DataOf(after) == DataOf(rows)
  {
    var after := SoftDeleted(rows, id, deletedAt, savedAt);
    assert DefaultView(after).Keys == DefaultView(rows).Keys - {id};
    assert DataOf(after) == DataOf(rows);
  }

  /**
   * A count over a filtered default view drops by one exactly when the
   * soft-deleted row was live and matched the filter; otherwise it is unchanged.
   */
  lemma SoftDeleteCountWhere<T>(rows: Rows<T>, id: Id, deletedAt: Instant, savedAt: Instant, p: T -> bool)
    requires id in rows
    ensures |LiveWhere(SoftDeleted(rows, id, deletedAt, savedAt), p)|
         == |LiveWhere(rows, p)| - (if !rows[id].IsDeleted() && p(rows[id].data) then 1 else 0)
  {
    var before := LiveWhere(rows, p);
    var after := LiveWhere(SoftDeleted(rows, id, deletedAt, savedAt), p);
    assert after.Keys == before.Keys - {id};
    if !rows[id].IsDeleted() && p(rows[id].data) {
      assert id in before.Keys;
      assert |before.Keys - {id}| == |before.Keys| - 1;
    } else {
      assert before.Keys - {id} == before.Keys;
    }
  }

  /** The default view loses exactly one record when a live record is soft-deleted. */
  lemma SoftDeleteShrinksDefaultView<T>(rows: Rows<T>, id: Id, deletedAt: Instant, savedAt: Instant)
    requires id in DefaultView(rows)
    ensures |DefaultView(SoftDeleted(rows, id, deletedAt, savedAt))| == |DefaultView(rows)| - 1
    ensures |AllWithDeleted(SoftDeleted(rows, id, deletedAt, savedAt))| == |AllWithDeleted(rows)|
  {
    var after := SoftDeleted(rows, id, deletedAt, savedAt);
    SoftDeleteMovesRow(rows, id, deletedAt, savedAt);
    assert DefaultView(after).Keys == DefaultView(rows).Keys - {id};
    assert |DefaultView(rows).Keys - {id}| == |DefaultView(rows).Keys| - 1;
    assert after.Keys == rows.Keys;
  }

  /** After a hard delete no view holds the removed rows; the other rows are untouched. */
  lemma HardDeleteRemovesFromAllViews<T>(rows: Rows<T>, ids: set<Id>)
    ensures var after := HardDeleted(rows, ids);
      && (forall id | id in ids :: id !in DefaultView(after) && id !in AllWithDeleted(after) && id !in OnlyDeleted(after))
      && (forall id | id in rows && id !in ids :: id in after && after[id] == rows[id])
  {
  }

  /** A save changes neither which view a row is in nor any other row. */
  lemma SaveKeepsViews<T>(rows: Rows<T>, id: Id, data: T, savedAt: Instant)
    requires id in rows
    ensures var after := Saved(rows, id, data, savedAt);
      && DefaultView(after).Keys == DefaultView(rows).Keys
      && OnlyDeleted(after).Keys == OnlyDeleted(rows).Keys
      && after[id].createdAt == rows[id].createdAt
      && (forall other | other in rows && other != id :: after[other] == rows[other])
  {
    var after := Saved(rows, id, data, savedAt);
    assert DefaultView(after).Keys == DefaultView(rows).Keys;
    assert OnlyDeleted(after).Keys == OnlyDeleted(rows).Keys;
  }

  /** The rows a `QuerySet.update()` over a selection touches: the selected rows of the default view. */
  function Matched<T>(rows: Rows<T>, selection: set<Id>): (m: set<Id>)
    ensures forall id :: id in m <==> id in selection && id in DefaultView(rows)
  {
    set id | id in selection && id in rows && !rows[id].IsDeleted()
  }

  /** `QuerySet.update()`: an SQL UPDATE; it does not go through save(), so updated_at is not refreshed. */
  function Updated<T>(rows: Rows<T>, ids: set<Id>, f: T -> T): Rows<T> {
    map id | id in rows :: if id in ids then rows[id].(data := f(rows[id].data)) else rows[id]
  }

  // ---------------------------------------------------------------------
  // Default ordering of a listing
  // ---------------------------------------------------------------------

  /** The rows of a view with id below bound, in id order. */
  function Scan<T(!new)>(view: Rows<T>, bound: nat): (s: seq<Row<T>>)
    ensures forall r :: r in s <==> r.id < bound && r.id in view && view[r.id] == r.rec
    ensures forall i, j | 0 <= i < j < |s| :: s[i].id < s[j].id
  {
    if bound == 0 then []
    else Scan(view, bound - 1) + (if bound - 1 in view then [Row(bound - 1, view[bound - 1])] else [])
  }

  /** A view as a queryset lists it: in the model's `Meta.ordering`. */
  function Listing<T(!new)>(view: Rows<T>, bound: nat, order: (Row<T>, Row<T>) -> bool): seq<Row<T>> {
    SortBy(Scan(view, bound), order)
  }

  /**
   * A listing holds each row of the view exactly once, nothing else, and is
   * sorted by the model's ordering.
   */
  lemma ListingSpec<T(!new)>(view: Rows<T>, bound: nat, order: (Row<T>, Row<T>) -> bool)
    requires TotalPreorder(order)
    requires forall id | id in view :: id < bound
    ensures SortedBy(Listing(view, bound, order), order)
    ensures forall r :: r in Listing(view, bound, order) <==> r.id in view && view[r.id] == r.rec
    ensures forall r :: multiset(Listing(view, bound, order))[r] <= 1
  {
    var s := Scan(view, bound);
    SortByIsSorted(s, order);
    forall r ensures r in Listing(view, bound, order) <==> r in s {
      assert r in Listing(view, bound, order) <==> r in multiset(Listing(view, bound, order));
    }
    forall r ensures multiset(s)[r] <= 1 {
      DistinctCountsOnce(s, r);
    }
  }

  lemma {:induction false} DistinctCountsOnce<T>(s: seq<Row<T>>, r: Row<T>)
    requires forall i, j | 0 <= i < j < |s| :: s[i].id < s[j].id
    ensures multiset(s)[r] <= 1
  {
    if s != [] {
      var init := s[..|s| - 1];
      assert s == init + [s[|s| - 1]];
      DistinctCountsOnce(init, r);
    }
  }

  // ---------------------------------------------------------------------
  // The clock and the stored table
  // ---------------------------------------------------------------------

  /** `timezone.now()`: every reading is strictly later than the previous one. */
  class Clock {
    var now: Instant

    constructor ()
      ensures now == 0
    {
      now := 0;
    }

    method Tick() returns (t: Instant)
      modifies this
      ensures now == old(now) + 1 && t == now
    {
      now := now + 1;
      t := now;
    }
  }

  /** Timestamps of a stored row never run ahead of the latest reading, and deletion precedes its save. */
  ghost predicate Stamped<T>(r: Record<T>, latest: Instant) {
    && r.createdAt <= r.updatedAt <= latest
    && (r.deletedAt.Some? ==> r.deletedAt.value < r.updatedAt)
  }

  /** One database table of BaseModel rows, with an auto-incrementing id. */
  class Table<T> {
    const clock: Clock
    var rows: Rows<T>
    var nextId: Id
    /** The latest clock reading written into this table. */
    ghost var latest: Instant

    ghost predicate Valid()
      reads this
    {
      forall id | id in rows :: id < nextId && Stamped(rows[id], latest)
    }

    /** The fields of every stored row, without the bookkeeping. */
    ghost function Data(): map<Id, T>
      reads this
    {
      DataOf(rows)
    }

    constructor (clock: Clock)
      ensures this.clock == clock && rows == map[] && nextId == 0 && latest == 0
      ensures Valid()
    {
      this.clock := clock;
      rows := map[];
      nextId := 0;
      latest := 0;
    }

    /** `objects.create(...)`: created_at, then updated_at, are each read from the clock; deleted_at is null. */
    method Create(data: T) returns (id: Id)
      requires Valid() && latest <= clock.now
      modifies this, clock
      ensures Valid() && latest == clock.now && clock.now == old(clock.now) + 2
      ensures id == old(nextId) && id !in old(rows) && nextId == old(nextId) + 1
      ensures rows == old(rows)[id := Record(data, old(clock.now) + 1, old(clock.now) + 2, None)]
      ensures !rows[id].IsDeleted()
    {
      var createdAt := clock.Tick();
      var updatedAt := clock.Tick();
      id := nextId;
      rows := rows[id := Record(data, createdAt, updatedAt, None)];
      nextId := nextId + 1;
      latest := updatedAt;
    }

    /** Assign fields, then `save()`: updated_at moves strictly forward, created_at stays. */
    method Save(id: Id, data: T)
      requires Valid() && latest <= clock.now && id in rows
      modifies this, clock
      ensures Valid() && latest == clock.now && clock.now == old(clock.now) + 1
      ensures nextId == old(nextId)
      ensures rows == Saved(old(rows), id, data, clock.now)
      ensures rows[id].updatedAt > old(rows[id].updatedAt)
      ensures rows[id].createdAt == old(rows[id].createdAt)
    {
      var savedAt := clock.Tick();
      rows := rows[id := rows[id].(data := data, updatedAt := savedAt)];
      latest := savedAt;
    }

    /**
     * `delete()`: deleted_at := now, then `save()`. What that does to the views
     * is SoftDeleteMovesRow; a second delete only moves deleted_at on.
     */
    method SoftDelete(id: Id)
      requires Valid() && latest <= clock.now && id in rows
      modifies this, clock
      ensures Valid() && latest == clock.now && clock.now == old(clock.now) + 2
      ensures nextId == old(nextId)
      ensures rows == SoftDeleted(old(rows), id, old(clock.now) + 1, clock.now)
      ensures rows[id].IsDeleted()
      ensures rows[id].updatedAt > old(rows[id].updatedAt)
      ensures old(rows[id].deletedAt).Some? ==> rows[id].deletedAt.value > old(rows[id].deletedAt).value
    {
      var deletedAt := clock.Tick();
      var savedAt := clock.Tick();
      rows := SoftDeleted(rows, id, deletedAt, savedAt);
      latest := savedAt;
    }

    /** `hard_delete()` of one row, or the batch DELETE a cascade issues: the rows are gone. */
    method DeleteRows(ids: set<Id>)
      requires Valid()
      modifies this
      ensures Valid() && latest == old(latest) && nextId == old(nextId)
      ensures rows == HardDeleted(old(rows), ids)
    {
      rows := rows - ids;
    }

    /**
     * `QuerySet.update(...)` over the selected ids of the default view: one
     * UPDATE statement, returning how many rows it matched.
     */
    method Update(selection: set<Id>, f: T -> T) returns (count: nat)
      requires Valid()
      modifies this
      ensures Valid() && latest == old(latest) && nextId == old(nextId)
      ensures rows == Updated(old(rows), Matched(old(rows), selection), f)
      ensures count == |Matched(old(rows), selection)|
    {
      var matched := Matched(rows, selection);
      rows := Updated(rows, matched, f);
      count := |matched|;
    }
  }
}
