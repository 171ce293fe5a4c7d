/**
 * Default orderings (`Meta.ordering`): a listing is a permutation of the rows
 * of a view that is sorted by the model's ordering relation. Ties are left in
 * any order, as a database may return them in any order.
 */
module Ordering {

  /** The relation is total and transitive, so sorting by it is meaningful. */
  ghost predicate TotalPreorder<T(!new)>(le: (T, T) -> bool) {
    && (forall a, b :: le(a, b) || le(b, a))
    && (forall a, b, c :: le(a, b) && le(b, c) ==> le(a, c))
  }

  predicate SortedBy<T>(s: seq<T>, le: (T, T) -> bool) {
    forall i, j | 0 <= i < j < |s| :: le(s[i], s[j])
  }

  /** Insert x before the first element it is not after. */
  function InsertSorted<T>(x: T, s: seq<T>, le: (T, T) -> bool): (r: seq<T>)
    ensures multiset(r) == multiset(s) + multiset{x}
  {
    if s == [] then [x]
    else if le(x, s[0]) then [x] + s
    else
      assert s == [s[0]] + s[1..];
      [s[0]] + InsertSorted(x, s[1..], le)
  }

  function SortBy<T>(s: seq<T>, le: (T, T) -> bool): (r: seq<T>)
    ensures multiset(r) == multiset(s)
  {
    if s == [] then []
    else
      assert s == [s[0]] + s[1..];
      InsertSorted(s[0], SortBy(s[1..], le), le)
  }

  lemma {:induction false} InsertKeepsSorted<T(!new)>(x: T, s: seq<T>, le: (T, T) -> bool)
    requires TotalPreorder(le)
    requires SortedBy(s, le)
    ensures SortedBy(InsertSorted(x, s, le), le)
  {
    if s != [] && !le(x, s[0]) {
      var tail := s[1..];
      InsertKeepsSorted(x, tail, le);
      InsertStaysAbove(s[0], x, tail, le);
      ConsSorted(s[0], InsertSorted(x, tail, le), le);
    } else if s != [] {
      ConsSorted(x, s, le);
    }
  }

  /** Every element of an insertion comes from the inserted element or the sequence, so a common lower bound survives. */
  lemma InsertStaysAbove<T>(lo: T, x: T, s: seq<T>, le: (T, T) -> bool)
    requires le(lo, x) && forall k | 0 <= k < |s| :: le(lo, s[k])
    ensures forall k | 0 <= k < |InsertSorted(x, s, le)| :: le(lo, InsertSorted(x, s, le)[k])
  {
    var r := InsertSorted(x, s, le);
    forall k | 0 <= k < |r| ensures le(lo, r[k]) {
      assert r[k] in multiset(r);
      if r[k] != x {
        assert r[k] in multiset(s);
        var j :| 0 <= j < |s| && s[j] == r[k];
      }
    }
  }

  /** A sorted sequence stays sorted under a head that is below all of it. */
  lemma ConsSorted<T>(h: T, r: seq<T>, le: (T, T) -> bool)
    requires SortedBy(r, le) && forall k | 0 <= k < |r| :: le(h, r[k])
    ensures SortedBy([h] + r, le)
  {
    var full := [h] + r;
    forall i, j | 0 <= i < j < |full| ensures le(full[i], full[j]) {
      assert full[j] == r[j - 1];
      if i > 0 {
        assert full[i] == r[i - 1];
      }
    }
  }

  /** Sorting yields a listing in the model's order that holds exactly the input rows. */
  lemma {:induction false} SortByIsSorted<T(!new)>(s: seq<T>, le: (T, T) -> bool)
    requires TotalPreorder(le)
    ensures SortedBy(SortBy(s, le), le)
    ensures multiset(SortBy(s, le)) == multiset(s)
  {
    if s != [] {
      SortByIsSorted(s[1..], le);
      InsertKeepsSorted(s[0], SortBy(s[1..], le), le);
    }
  }

  /** Code-point lexicographic order on strings (a shorter prefix comes first). */
  predicate LexLe(a: string, b: string) {
    if a == [] then true
    else if b == [] then false
    else if a[0] != b[0] then a[0] < b[0]
    else LexLe(a[1..], b[1..])
  }

  lemma {:induction false} LexLeTotal(a: string, b: string)
    ensures LexLe(a, b) || LexLe(b, a)
  {
    if a != [] && b != [] && a[0] == b[0] {
      LexLeTotal(a[1..], b[1..]);
    }
  }

  lemma {:induction false} LexLeTransitive(a: string, b: string, c: string)
    requires LexLe(a, b) && LexLe(b, c)
    ensures LexLe(a, c)
  {
    if a != [] && b != [] && c != [] && a[0] == b[0] && b[0] == c[0] {
      LexLeTransitive(a[1..], b[1..], c[1..]);
    }
  }

  lemma {:induction false} LexLeAntisymmetric(a: string, b: string)
    requires LexLe(a, b) && LexLe(b, a)
    ensures a == b
  {
    if a != [] && b != [] {
      LexLeAntisymmetric(a[1..], b[1..]);
      assert a == [a[0]] + a[1..] && b == [b[0]] + b[1..];
    }
  }

  /** Ascending order of a string key (ordering = ["name"]). */
  function ByTextAsc<T>(key: T -> string): (T, T) -> bool {
    (x: T, y: T) => LexLe(key(x), key(y))
  }

  /** Ascending order of a numeric key (ordering = ["scheduled_at"]). */
  function ByNumberAsc<T>(key: T -> int): (T, T) -> bool {
    (x: T, y: T) => key(x) <= key(y)
  }

  /** Descending order of a numeric key (ordering = ["-paid_at"]). */
  function ByNumberDesc<T>(key: T -> int): (T, T) -> bool {
    (x: T, y: T) => key(x) >= key(y)
  }

  lemma ByTextAscIsTotalPreorder<T(!new)>(key: T -> string)
    ensures TotalPreorder(ByTextAsc(key))
  {
    forall x, y ensures LexLe(key(x), key(y)) || LexLe(key(y), key(x)) {
      LexLeTotal(key(x), key(y));
    }
    forall x, y, z | LexLe(key(x), key(y)) && LexLe(key(y), key(z))
      ensures LexLe(key(x), key(z))
    {
      LexLeTransitive(key(x), key(y), key(z));
    }
  }

  lemma ByNumberIsTotalPreorder<T(!new)>(key: T -> int)
    ensures TotalPreorder(ByNumberAsc(key))
    ensures TotalPreorder(ByNumberDesc(key))
  {
  }
}
