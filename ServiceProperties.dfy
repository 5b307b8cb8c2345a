/** What the service's operations promise over several calls: create keeps emails
    unique while update does not, create hands out fresh positive ids, update keeps
    the id and replaces the fields, delete removes exactly one row, and list shows
    everything created. */
module ServiceProperties {
  import opened Wrappers
  import opened EmployeeTable
  import opened EmployeeService

  /** A create attempt, successful or not, never leaves two rows with one email. */
  lemma SaveEmployeeKeepsEmailsUnique(t: Table, e: Employee)
    requires Valid(t) && UniqueEmails(t)
    ensures UniqueEmails(SaveTransition(t, e).table)
  {
  }

  /** A create whose email is taken fails with the email named, and the table is left
      exactly as it was: in particular the row holding that email is untouched. */
  lemma SaveEmployeeRejectsTakenEmail(t: Table, e: Employee, k: int)
    requires Valid(t) && k in t.rows && t.rows[k].email == e.email
    ensures SaveTransition(t, e) == Step(t, Failure(EmailAlreadyExists(e.email)))
  {
  }

  /** A create with a free email of an employee that is not stored yet inserts it
      under an id that is positive and was not in use, returns the stored row, leaves
      every other row as it was and lengthens the listing by one. */
  lemma SaveEmployeeInsertsFresh(t: Table, e: Employee)
    requires Valid(t) && !EmailInUse(t, e.email)
    requires e.id.None? || e.id.value !in t.rows
    ensures var r := SaveTransition(t, e);
            && r.result.Success?
            && var saved := r.result.value;
            && saved == e.(id := saved.id)
            && saved.id.Some? && saved.id.value > 0 && saved.id.value !in t.rows
            && FindById(r.table, saved.id.value) == Some(saved)
            && (forall k :: k in t.rows ==> FindById(r.table, k) == FindById(t, k))
            && FindAll(r.table) == FindAll(t) + [saved]
  {
  }

  /** The service's update is not an invariant-keeping operation: re-saving one stored
      row with another row's email leaves two rows with that email. */
  lemma UpdateCanBreakUniqueEmails(t: Table, a: int, b: int)
    requires Valid(t) && UniqueEmails(t)
    requires a in t.rows && b in t.rows && a != b
    ensures !UniqueEmails(Save(t, t.rows[a].(email := t.rows[b].email)).table)
  {
  }

  /** A concrete witness: from an empty store, two creates with distinct emails and
      an update that copies one email onto the other row. */
  lemma UpdateBreaksUniquenessExample()
    ensures exists t: Table, e: Employee :: Valid(t) && UniqueEmails(t) && !UniqueEmails(Save(t, e).table)
  {
    var john := Employee(None, "John", "Cena", "cena@mail.ru");
    var philip := Employee(None, "Philip", "Dubrovskiy", "dubrovskay.7830@mail.ru");
    var t1 := SaveTransition(Empty, john).table;
    var t2 := SaveTransition(t1, philip).table;
    SaveEmployeeKeepsEmailsUnique(Empty, john);
    SaveEmployeeKeepsEmailsUnique(t1, philip);
    assert 1 in t2.rows && 2 in t2.rows;
    UpdateCanBreakUniqueEmails(t2, 1, 2);
  }

  /** Re-saving a stored row keeps its id, replaces its fields and nothing else. */
  lemma UpdateKeepsIdReplacesFields(t: Table, e: Employee)
    requires Valid(t) && e.id.Some? && e.id.value in t.rows
    ensures var s := Save(t, e);
            && s.employee == e
            && FindById(s.table, e.id.value) == Some(e)
            && (forall k :: k in t.rows && k != e.id.value ==> FindById(s.table, k) == FindById(t, k))
            && |FindAll(s.table)| == |FindAll(t)|
  {
  }

  /** Deleting a stored id succeeds, makes that id unresolvable, keeps every other row,
      and takes exactly that row out of the listing. */
  lemma DeleteRemovesOnlyThatRow(t: Table, id: int)
    requires Valid(t) && id in t.rows
    ensures var r := DeleteTransition(t, id);
            && r.result == Pass
            && FindById(r.table, id) == None
            && (forall k :: k != id ==> FindById(r.table, k) == FindById(t, k))
            && (forall e :: e in FindAll(r.table) <==> e in FindAll(t) && e.id != Some(id))
  {
  }

  /** Two creates, of new employees with distinct emails, on an empty store both
      succeed, and the listing then holds exactly the two stored rows, with ids 1 and 2. */
  lemma TwoCreatesListTwo(first: Employee, second: Employee)
    requires first.id.None? && second.id.None? && first.email != second.email
    ensures var s1 := SaveTransition(Empty, first);
            var s2 := SaveTransition(s1.table, second);
            && s1.result == Success(first.(id := Some(1)))
            && s2.result == Success(second.(id := Some(2)))
            && FindAll(s2.table) == [first.(id := Some(1)), second.(id := Some(2))]
  {
  }

  /** The listing of an empty store is empty. */
  lemma ListOfEmptyStore()
    ensures FindAll(Empty) == []
  {
  }

  /** The create, fetch, update, delete sequence that the integration tests drive
      through the controller, stated on the service: the created row gets id 1, a
      larger id is absent, the update keeps id 1 with the new fields, and after the
      delete id 1 is absent again. */
  lemma CreateFetchUpdateDelete()
    ensures var philip := Employee(None, "Philip", "Dubrovskiy", "dubrovskay.7830@mail.ru");
            var created := SaveTransition(Empty, philip);
            var john := Employee(Some(1), "John", "Cena", "test@mail.ru");
            var updated := Save(created.table, john);
            var deleted := DeleteTransition(updated.table, 1);
            && created.result == Success(philip.(id := Some(1)))
            && FindById(created.table, 1) == Some(philip.(id := Some(1)))
            && FindById(created.table, 2) == None
            && updated.employee == john
            && FindById(updated.table, 1) == Some(john)
            && deleted.result == Pass
            && FindById(deleted.table, 1) == None
  {
  }
}

