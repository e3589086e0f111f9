/**
 * The meaning of the employee table behind EmployeeRepository: a map from
 * primary key to row plus the auto-increment counter that hands out keys.
 * Every repository operation is a function of a `Table` value here; the
 * `EmployeeRepository` class applies them to its own fields.
 */
module EmployeeTable {
  import opened Employees

  datatype Table = Table(rows: map<int, Employee>, nextId: int)

  /** A table with no rows whose counter has never advanced. */
  const Empty: Table := Table(map[], 1)

  /**
   * Representation invariant: every key is positive and below the counter,
   * and every row carries its own key as its id.
   */
  ghost predicate Valid(t: Table) {
    && t.nextId >= 1
    && forall k :: k in t.rows ==> 1 <= k < t.nextId && t.rows[k].id == k
  }

  /** The service's cross-record rule: no two rows share an email. */
  ghost predicate EmailsDistinct(t: Table) {
    forall a, b :: a in t.rows && b in t.rows && t.rows[a].email == t.rows[b].email ==> a == b
  }

  /** No row holds email `x`. */
  ghost predicate EmailFree(t: Table, x: string) {
    forall k :: k in t.rows ==> t.rows[k].email != x
  }

  /** At most one row satisfies `p`. */
  ghost predicate AtMostOne(t: Table, p: Employee -> bool) {
    forall a, b :: a in t.rows && b in t.rows && p(t.rows[a]) && p(t.rows[b]) ==> a == b
  }

  /**
   * `save`: a record whose id names a stored row replaces that row field by
   * field; any other record (no id yet, or an id the table does not hold) is
   * inserted under a freshly generated key. Returns the record as stored.
   */
  function Save(t: Table, e: Employee): (r: (Table, Employee))
    requires Valid(t)
    ensures Valid(r.0)
    ensures r.1.firstName == e.firstName && r.1.lastName == e.lastName && r.1.email == e.email
    ensures FindById(r.0, r.1.id) == Some(r.1)
    ensures forall k :: k != r.1.id ==> FindById(r.0, k) == FindById(t, k)
    ensures e.id in t.rows ==> r.1 == e && r.0.nextId == t.nextId
    ensures e.id !in t.rows ==> r.1.id > 0 && r.1.id !in t.rows && r.1.id == t.nextId && r.0.nextId == t.nextId + 1
  {
    if e.id in t.rows then
      (Table(t.rows[e.id := e], t.nextId), e)
    else
      var saved := e.(id := t.nextId);
      (Table(t.rows[t.nextId := saved], t.nextId + 1), saved)
  }

  /**
   * `findById`: the row with key `id`, or an empty result. The row found
   * carries the id it was asked for.
   */
  function FindById(t: Table, id: int): (r: Option<Employee>)
    ensures r.Some? <==> id in t.rows
    ensures r.Some? ==> r.value == t.rows[id]
    ensures Valid(t) && r.Some? ==> r.value.id == id
  {
    if id in t.rows then Some(t.rows[id]) else None
  }

  /** The rows with keys in [0, n), in ascending key order. */
  function RowsBelow(rows: map<int, Employee>, n: nat): seq<Employee> {
    if n == 0 then []
    else RowsBelow(rows, n - 1) + (if n - 1 in rows then [rows[n - 1]] else [])
  }

  ghost predicate IdsAscending(s: seq<Employee>) {
    forall i, j :: 0 <= i < j < |s| ==> s[i].id < s[j].id
  }

  lemma {:induction false} RowsBelowListsRows(rows: map<int, Employee>, n: nat)
    requires forall k :: k in rows ==> rows[k].id == k
    ensures forall i :: 0 <= i < |RowsBelow(rows, n)| ==>
      0 <= RowsBelow(rows, n)[i].id < n && RowsBelow(rows, n)[i].id in rows
      && rows[RowsBelow(rows, n)[i].id] == RowsBelow(rows, n)[i]
    ensures forall k :: 0 <= k < n && k in rows ==> rows[k] in RowsBelow(rows, n)
    ensures IdsAscending(RowsBelow(rows, n))
  {
    if n > 0 {
      RowsBelowListsRows(rows, n - 1);
    }
  }

  lemma {:induction false} RowsBelowNoKeys(rows: map<int, Employee>, n: nat)
    requires forall k :: k in rows ==> k >= n
    ensures RowsBelow(rows, n) == []
  {
    if n > 0 {
      RowsBelowNoKeys(rows, n - 1);
    }
  }

  /** The keys of `rows` in [0, n). */
  ghost function KeysBelow(rows: map<int, Employee>, n: nat): set<int> {
    set k | k in rows && 0 <= k < n
  }

  lemma {:induction false} RowsBelowCount(rows: map<int, Employee>, n: nat)
    ensures |RowsBelow(rows, n)| == |KeysBelow(rows, n)|
  {
    if n > 0 {
      RowsBelowCount(rows, n - 1);
      if n - 1 in rows {
        assert KeysBelow(rows, n) == KeysBelow(rows, n - 1) + {n - 1};
      } else {
        assert KeysBelow(rows, n) == KeysBelow(rows, n - 1);
      }
    }
  }

  /**
   * `findAll`: every stored row exactly once, so as many records as rows;
   * the model lists them in ascending id order.
   */
  function FindAll(t: Table): (s: seq<Employee>)
    requires Valid(t)
    ensures forall e :: e in s <==> e.id in t.rows && t.rows[e.id] == e
    ensures IdsAscending(s)
    ensures |s| == |t.rows|
  {
    RowsBelowListsRows(t.rows, t.nextId);
    RowsBelowCount(t.rows, t.nextId);
    assert KeysBelow(t.rows, t.nextId) == t.rows.Keys;
    RowsBelow(t.rows, t.nextId)
  }

  /** Every element of `s` has an id above `bound`. */
  ghost predicate IdsAbove(s: seq<Employee>, bound: int) {
    forall i :: 0 <= i < |s| ==> s[i].id > bound
  }

  /** The elements of `s` that satisfy `p`, in their order in `s`. */
  function Filter(s: seq<Employee>, p: Employee -> bool): (r: seq<Employee>)
    ensures forall e :: e in r <==> e in s && p(e)
  {
    if s == [] then []
    else (if p(s[0]) then [s[0]] else []) + Filter(s[1..], p)
  }

  lemma {:induction false} FilterKeepsIdsAbove(s: seq<Employee>, p: Employee -> bool, bound: int)
    requires IdsAbove(s, bound)
    ensures IdsAbove(Filter(s, p), bound)
  {
    if s != [] {
      FilterKeepsIdsAbove(s[1..], p, bound);
    }
  }

  lemma {:induction false} FilterKeepsAscending(s: seq<Employee>, p: Employee -> bool)
    requires IdsAscending(s)
    ensures IdsAscending(Filter(s, p))
  {
    if s != [] {
      FilterKeepsAscending(s[1..], p);
      FilterKeepsIdsAbove(s[1..], p, s[0].id);
    }
  }

  /**
   * How many rows a query returns, given a listing `found` of exactly the
   * rows satisfying `p` without repetition.
   */
  lemma ResultSizeCases(t: Table, p: Employee -> bool, found: seq<Employee>)
    requires Valid(t)
    requires forall e :: e in found <==> e.id in t.rows && t.rows[e.id] == e && p(e)
    requires IdsAscending(found)
    ensures |found| == 0 <==> forall k :: k in t.rows ==> !p(t.rows[k])
    ensures |found| == 1 ==> forall k :: k in t.rows && p(t.rows[k]) ==> k == found[0].id
    ensures |found| >= 2 <==> !AtMostOne(t, p)
  {
    if |found| > 0 {
      assert found[0] in found;
    }
    if |found| == 1 {
      assert found == [found[0]];
    }
    if |found| >= 2 {
      assert found[0] in found && found[1] in found;
    }
    if !AtMostOne(t, p) {
      var a, b :| a in t.rows && b in t.rows && p(t.rows[a]) && p(t.rows[b]) && a != b;
      assert t.rows[a] in found && t.rows[b] in found;
    }
  }

  /**
   * A query declared to return a single record: the rows satisfying `p`
   * are fetched; none gives no match, one gives that row, several give an
   * incorrect-result-size error.
   */
  function SingleResult(t: Table, p: Employee -> bool): (r: Lookup)
    requires Valid(t)
    ensures r.NoMatch? <==> forall k :: k in t.rows ==> !p(t.rows[k])
    ensures r.Match? ==> FindById(t, r.record.id) == Some(r.record) && p(r.record)
    ensures r.Match? ==> forall k :: k in t.rows && p(t.rows[k]) ==> k == r.record.id
    ensures r.NonUniqueResult? <==> !AtMostOne(t, p)
  {
    var found := Filter(FindAll(t), p);
    FilterKeepsAscending(FindAll(t), p);
    ResultSizeCases(t, p, found);
    if |found| == 0 then NoMatch
    else if |found| == 1 then
      assert found[0] in found;
      Match(found[0])
    else NonUniqueResult
  }

  /** `findByEmail`: the row whose email is `x`; absence is an empty result. */
  function FindByEmail(t: Table, x: string): (r: Lookup)
    requires Valid(t)
    ensures r.NoMatch? <==> EmailFree(t, x)
    ensures r.Match? ==> r.record.email == x && FindById(t, r.record.id) == Some(r.record)
    ensures r.Match? ==> forall k :: k in t.rows && t.rows[k].email == x ==> k == r.record.id
    ensures r.NonUniqueResult? <==>
      exists a, b :: a in t.rows && b in t.rows && a != b && t.rows[a].email == x && t.rows[b].email == x
    ensures EmailsDistinct(t) ==> !r.NonUniqueResult?
  {
    SingleResult(t, (e: Employee) => e.email == x)
  }

  /** `findByJpql`: the row whose first and last names are `first` and `last`. */
  function FindByJpql(t: Table, first: string, last: string): (r: Lookup)
    requires Valid(t)
    ensures r.NoMatch? <==> forall k :: k in t.rows ==> !(t.rows[k].firstName == first && t.rows[k].lastName == last)
    ensures r.Match? ==> r.record.firstName == first && r.record.lastName == last
    ensures r.Match? ==> FindById(t, r.record.id) == Some(r.record)
    ensures r.NonUniqueResult? <==>
      exists a, b :: a in t.rows && b in t.rows && a != b
                  && t.rows[a].firstName == first && t.rows[a].lastName == last
                  && t.rows[b].firstName == first && t.rows[b].lastName == last
  {
    SingleResult(t, (e: Employee) => e.firstName == first && e.lastName == last)
  }

  /** `deleteById`: removes the row with key `id`; an absent key is a no-op. */
  function DeleteById(t: Table, id: int): (r: Table)
    requires Valid(t)
    ensures Valid(r) && r.nextId == t.nextId
    ensures FindById(r, id) == None
    ensures forall k :: k != id ==> FindById(r, k) == FindById(t, k)
  {
    Table(t.rows - {id}, t.nextId)
  }

  /** `delete`: removes the row whose key is the entity's id, if there is one. */
  function Delete(t: Table, e: Employee): (r: Table)
    requires Valid(t)
    ensures Valid(r) && r.nextId == t.nextId
    ensures FindById(r, e.id) == None
    ensures forall k :: k != e.id ==> FindById(r, k) == FindById(t, k)
  {
    DeleteById(t, e.id)
  }

  /** `deleteAll`: removes every row; the key counter keeps its value. */
  function DeleteAll(t: Table): (r: Table)
    requires Valid(t)
    ensures Valid(r) && r.nextId == t.nextId
    ensures forall id :: FindById(r, id) == None
    ensures FindAll(r) == []
  {
    var r := Table(map[], t.nextId);
    RowsBelowNoKeys(r.rows, r.nextId);
    r
  }

  /** A record saved with an email no row holds is what `findByEmail` then finds. */
  lemma SavedRecordFoundByEmail(t: Table, e: Employee)
    requires Valid(t) && EmailFree(t, e.email)
    ensures FindByEmail(Save(t, e).0, e.email) == Match(Save(t, e).1)
  {
  }

  /** A record saved with a name pair no row holds is what `findByJpql` then finds. */
  lemma SavedRecordFoundByName(t: Table, e: Employee)
    requires Valid(t)
    requires forall k :: k in t.rows ==> !(t.rows[k].firstName == e.firstName && t.rows[k].lastName == e.lastName)
    ensures FindByJpql(Save(t, e).0, e.firstName, e.lastName) == Match(Save(t, e).1)
  {
  }

  /** Deleting the same id twice is the same as deleting it once. */
  lemma DeleteByIdIdempotent(t: Table, id: int)
    requires Valid(t)
    ensures DeleteById(DeleteById(t, id), id) == DeleteById(t, id)
  {
  }

  /** Removing rows cannot make two emails collide. */
  lemma DeleteByIdKeepsEmailsDistinct(t: Table, id: int)
    requires Valid(t) && EmailsDistinct(t)
    ensures EmailsDistinct(DeleteById(t, id))
  {
  }

  /** Two records without ids saved into an emptied table are exactly what `findAll` lists. */
  lemma {:induction false} TwoSavesAfterDeleteAll(t: Table, a: Employee, b: Employee)
    requires Valid(t)
    requires a.id == Unassigned && b.id == Unassigned
    ensures var t0 := DeleteAll(t);
            var (t1, a') := Save(t0, a);
            var (t2, b') := Save(t1, b);
            && a' == a.(id := t.nextId) && b' == b.(id := t.nextId + 1)
            && FindAll(t2) == [a', b']
  {
    var t0 := DeleteAll(t);
    var (t1, a') := Save(t0, a);
    var (t2, b') := Save(t1, b);
    var n := t.nextId;
    assert t2.rows == map[n := a', n + 1 := b'];
    RowsBelowNoKeys(t2.rows, n);
    assert RowsBelow(t2.rows, n + 1) == [a'];
  }

  /** Saving A and B into an emptied table and then deleting A leaves a listing of exactly B. */
  lemma {:induction false} SaveTwoDeleteFirst(t: Table, a: Employee, b: Employee)
    requires Valid(t)
    requires a.id == Unassigned && b.id == Unassigned
    ensures var t0 := DeleteAll(t);
            var (t1, a') := Save(t0, a);
            var (t2, b') := Save(t1, b);
            FindAll(DeleteById(t2, a'.id)) == [b']
  {
    var t0 := DeleteAll(t);
    var (t1, a') := Save(t0, a);
    var (t2, b') := Save(t1, b);
    var n := t.nextId;
    var t3 := DeleteById(t2, a'.id);
    assert t3.rows == map[n + 1 := b'];
    RowsBelowNoKeys(t3.rows, n + 1);
  }
}
