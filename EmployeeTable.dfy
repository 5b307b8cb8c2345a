/** The employee table behind the service's repository.

    The repository itself is not part of this model. This module keeps what the
    repository's own tests pin down: save hands out a positive id that is not in use,
    re-saving a stored row keeps its id and replaces its fields, find-all lists every
    stored row, and deleting a row makes its id unresolvable. It also assumes more than
    those tests show: ids come from a counter starting at 1, find-all lists rows in
    increasing id order, find-by-email returns the oldest match, and emails compare as
    exact strings. */
module EmployeeTable {
  import opened Wrappers

  /** One employee. `id` is `None` until the store assigns one (a null `Long`). */
  datatype Employee = Employee(id: Option<int>, firstName: string, lastName: string, email: string)

  /** The store: the rows by id, the stored ids in insertion order, and the next id
      the store will hand out. */
  datatype Table = Table(rows: map<int, Employee>, order: seq<int>, nextId: int)

  /** What the repository's save gives back: the new table and the stored row. */
  datatype Stored = Stored(table: Table, employee: Employee)

  /** A fresh, empty store; generated ids start at 1. */
  const Empty: Table := Table(map[], [], 1)

  predicate Increasing(s: seq<int>) {
    forall i, j :: 0 <= i < j < |s| ==> s[i] < s[j]
  }

  /** The store's invariant: every stored row carries its own key as its id, every key
      is positive and below `nextId`, and `order` lists exactly the keys, oldest first. */
  ghost predicate Valid(t: Table) {
    && t.nextId > 0
    && (forall k :: k in t.rows ==> 0 < k < t.nextId && t.rows[k].id == Some(k))
    && Increasing(t.order)
    && (forall i :: 0 <= i < |t.order| ==> t.order[i] in t.rows)
    && (forall k :: k in t.rows ==> k in t.order)
  }

  /** Some stored row has this email. */
  ghost predicate EmailInUse(t: Table, email: string) {
    exists k :: k in t.rows && t.rows[k].email == email
  }

  /** No two stored rows share an email. */
  ghost predicate UniqueEmails(t: Table) {
    forall j, k :: j in t.rows && k in t.rows && t.rows[j].email == t.rows[k].email ==> j == k
  }

  /** The repository's findById: the row stored under `id`, or absence. */
  function FindById(t: Table, id: int): (r: Option<Employee>)
    requires Valid(t)
    ensures r.Some? <==> id in t.rows
    ensures r.Some? ==> r.value == t.rows[id] && r.value.id == Some(id)
  {
    if id in t.rows then Some(t.rows[id]) else None
  }

  /** The first row, in the order of `ids`, whose email is `email`. */
  function FirstWithEmail(rows: map<int, Employee>, ids: seq<int>, email: string): (r: Option<Employee>)
    requires forall i :: 0 <= i < |ids| ==> ids[i] in rows
    ensures r.None? <==> forall i :: 0 <= i < |ids| ==> rows[ids[i]].email != email
    ensures r.Some? ==> exists i :: && 0 <= i < |ids| && rows[ids[i]] == r.value && r.value.email == email
                                    && forall j :: 0 <= j < i ==> rows[ids[j]].email != email
  {
    if ids == [] then None
    else if rows[ids[0]].email == email then Some(rows[ids[0]])
    else
      var r := FirstWithEmail(rows, ids[1..], email);
      assert r.Some? ==> exists i :: && 0 <= i < |ids| && rows[ids[i]] == r.value && r.value.email == email
                                     && forall j :: 0 <= j < i ==> rows[ids[j]].email != email by {
        if r.Some? {
          var i :| && 0 <= i < |ids| - 1 && rows[ids[1..][i]] == r.value && r.value.email == email
                   && forall j :: 0 <= j < i ==> rows[ids[1..][j]].email != email;
          assert rows[ids[i + 1]] == r.value;
          assert forall j :: 0 <= j < i + 1 ==> rows[ids[j]].email != email by {
            forall j | 0 <= j < i + 1 ensures rows[ids[j]].email != email {
              if j > 0 { assert ids[j] == ids[1..][j - 1]; }
            }
          }
        }
      }
      r
  }

  /** The repository's findByEmail: a stored row with that email, or absence. When
      several rows share the email, the oldest is returned. */
  function FindByEmail(t: Table, email: string): (r: Option<Employee>)
    requires Valid(t)
    ensures r.Some? <==> EmailInUse(t, email)
    ensures r.Some? ==> r.value.email == email && r.value.id.Some? && r.value.id.value in t.rows
                        && t.rows[r.value.id.value] == r.value
  {
    var r := FirstWithEmail(t.rows, t.order, email);
    assert EmailInUse(t, email) ==> r.Some? by {
      if EmailInUse(t, email) {
        var k :| k in t.rows && t.rows[k].email == email;
        var i :| 0 <= i < |t.order| && t.order[i] == k;
      }
    }
    r
  }

  /** The rows stored under `ids`, in that order. */
  function RowsOf(rows: map<int, Employee>, ids: seq<int>): (r: seq<Employee>)
    requires forall i :: 0 <= i < |ids| ==> ids[i] in rows
    ensures |r| == |ids|
    ensures forall i :: 0 <= i < |ids| ==> r[i] == rows[ids[i]]
  {
    if ids == [] then [] else [rows[ids[0]]] + RowsOf(rows, ids[1..])
  }

  /** An increasing sequence has as many elements as the set of its elements. */
  lemma {:induction false} IncreasingCardinality(s: seq<int>)
    requires Increasing(s)
    ensures |set i | 0 <= i < |s| :: s[i]| == |s|
  {
    if s != [] {
      var rest := s[1..];
      IncreasingCardinality(rest);
      var whole := set i | 0 <= i < |s| :: s[i];
      var tail := set i | 0 <= i < |rest| :: rest[i];
      assert whole == {s[0]} + tail by {
        forall x | x in whole ensures x in {s[0]} + tail {
          var i :| 0 <= i < |s| && s[i] == x;
          if i > 0 { assert rest[i - 1] == x; }
        }
      }
      assert s[0] !in tail;
    }
  }

  /** In a valid table, `order` holds exactly as many ids as there are rows. */
  lemma OrderCoversRows(t: Table)
    requires Valid(t)
    ensures |t.order| == |t.rows|
  {
    IncreasingCardinality(t.order);
    assert (set i | 0 <= i < |t.order| :: t.order[i]) == t.rows.Keys by {
      forall k | k in t.rows ensures k in set i | 0 <= i < |t.order| :: t.order[i] {
        var i :| 0 <= i < |t.order| && t.order[i] == k;
      }
    }
  }

  /** The repository's findAll: every stored row exactly once, oldest first. */
  function FindAll(t: Table): (r: seq<Employee>)
    requires Valid(t)
    ensures |r| == |t.order| == |t.rows|
    ensures forall e :: e in r <==> e in t.rows.Values
    ensures forall i :: 0 <= i < |r| ==> r[i] == t.rows[t.order[i]]
    ensures forall i, j :: 0 <= i < j < |r| ==> r[i].id.Some? && r[j].id.Some? && r[i].id.value < r[j].id.value
  {
    var r := RowsOf(t.rows, t.order);
    OrderCoversRows(t);
    forall k | k in t.rows ensures t.rows[k] in r {
      var i :| 0 <= i < |t.order| && t.order[i] == k;
      assert r[i] == t.rows[k];
    }
    r
  }

  /** The repository's save. A row whose id is already stored is overwritten in place
      and keeps its id; any other row is inserted under a fresh id. */
  function Save(t: Table, e: Employee): (r: Stored)
    requires Valid(t)
    ensures Valid(r.table)
    ensures r.employee.firstName == e.firstName && r.employee.lastName == e.lastName
            && r.employee.email == e.email
    ensures r.employee.id.Some? && r.employee.id.value > 0
    ensures r.table.rows == t.rows[r.employee.id.value := r.employee]
    ensures e.id.Some? && e.id.value in t.rows ==> r.employee == e && r.table.order == t.order
    ensures !(e.id.Some? && e.id.value in t.rows) ==>
              r.employee.id.value !in t.rows && r.table.order == t.order + [r.employee.id.value]
  {
    if e.id.Some? && e.id.value in t.rows then
      Stored(t.(rows := t.rows[e.id.value := e]), e)
    else
      var k := t.nextId;
      var s := e.(id := Some(k));
      Stored(Table(t.rows[k := s], t.order + [k], k + 1), s)
  }

  /** `s` with every occurrence of `x` taken out. */
  function Without(s: seq<int>, x: int): (r: seq<int>)
    ensures forall y :: y in r <==> y in s && y != x
    ensures Increasing(s) ==> Increasing(r)
  {
    if s == [] then []
    else if s[0] == x then Without(s[1..], x)
    else
      var rest := Without(s[1..], x);
      var r := [s[0]] + rest;
      assert Increasing(s) ==> Increasing(r) by {
        if Increasing(s) {
          forall i, j | 0 <= i < j < |r| ensures r[i] < r[j] {
            assert r[j] == rest[j - 1] && rest[j - 1] in rest;
            var m :| 1 <= m < |s| && s[m] == r[j];
          }
        }
      }
      r
  }

  /** The repository's delete of an entity: the row stored under its id goes away;
      an entity without an id, or with an id not stored, changes nothing. */
  function Delete(t: Table, e: Employee): (r: Table)
    requires Valid(t)
    ensures Valid(r)
    ensures r.rows == if e.id.Some? then t.rows - {e.id.value} else t.rows
    ensures r.nextId == t.nextId
  {
    if e.id.Some? && e.id.value in t.rows then
      var order := Without(t.order, e.id.value);
      assert forall i :: 0 <= i < |order| ==> order[i] in order;
      t.(rows := t.rows - {e.id.value}, order := order)
    else
      t
  }
}
