/**
 * The people lifecycle: `add_kisi`, `update_kisi` and `delete_kisi_by_id`
 * (database.py:97-152, 421-482). A person's item table is found through the
 * normalised name, so a rename moves the table and two names that normalise
 * alike share one.
 */
module People {
  import opened Wrappers
  import opened Naming
  import opened Tables
  import opened Directory
  import opened Database

  // ---------------------------------------------------------------------------
  // add_kisi
  // ---------------------------------------------------------------------------

  /**
   * Registers a person under the next AUTOINCREMENT id and creates the item
   * table if absent; `-1` and no change for an exact name already taken. An
   * item table left behind under the same normalised name is reused with its
   * records. A name whose table name does not quote is registered all the
   * same, without a table (database.py:111-113).
   */
  function AddPerson(db: Db, name: string, floor: int, branch: string): (r: (Db, int))
    ensures Registered(db.people, name) ==> r == (db, -1)
    ensures !Registered(db.people, name) ==>
      && r.1 == db.peopleSeq + 1
      && r.0.people == db.people[db.peopleSeq + 1 := Person(name, floor, branch)]
      && r.0.peopleSeq == db.peopleSeq + 1
      && (IsQuotableName(PersonTableName(name)) ==> PersonTableName(name) in r.0.owned)
      && (PersonTableName(name) !in db.owned && IsQuotableName(PersonTableName(name)) ==>
            r.0.owned == db.owned[PersonTableName(name) := EmptyTable()])
      && (PersonTableName(name) in db.owned || !IsQuotableName(PersonTableName(name)) ==> r.0.owned == db.owned)
      && r.0.catalog == db.catalog && r.0.stock == db.stock && r.0.stockOrder == db.stockOrder
      && r.0.categories == db.categories
    ensures Valid(db) && !Registered(db.people, name) ==> db.peopleSeq + 1 !in db.people
    ensures Valid(db) ==> Valid(r.0)
  {
    if Registered(db.people, name) then (db, -1)
    else
      var id := db.peopleSeq + 1;
      var added := db.(people := db.people[id := Person(name, floor, branch)], peopleSeq := id);
      RegisterKeepsValid(db, name, floor, branch);
      (WithOwnerTable(added, name), id)
  }

  /** The new row keeps validity: its id is fresh and nobody has its name. */
  lemma RegisterKeepsValid(db: Db, name: string, floor: int, branch: string)
    requires !Registered(db.people, name)
    ensures Valid(db) ==> db.peopleSeq + 1 !in db.people
    ensures var id := db.peopleSeq + 1;
      Valid(db) ==> Valid(db.(people := db.people[id := Person(name, floor, branch)], peopleSeq := id))
  {
    if Valid(db) {
      var id := db.peopleSeq + 1;
      var people := db.people[id := Person(name, floor, branch)];
      assert id !in db.people;
      assert UniqueNames(people) by {
        forall a, b | a in people && b in people && a != b ensures people[a].name != people[b].name {
          if a == id { assert people[b] == db.people[b]; }
          else if b == id { assert people[a] == db.people[a]; }
        }
      }
    }
  }

  // ---------------------------------------------------------------------------
  // update_kisi
  // ---------------------------------------------------------------------------

  /** `SELECT id FROM kisiler WHERE kisiisim = ? AND id != ?`: another person already has the name. */
  predicate NameTakenByOther(people: map<nat, Person>, id: nat, name: string)
  {
    exists other | other in people :: other != id && people[other].name == name
  }

  /** The row after `UPDATE kisiler SET …`: absent arguments keep their column. */
  function Updated(p: Person, name: Option<string>, floor: Option<int>, branch: Option<string>): (q: Person)
    ensures q.name == (if name.Some? then name.value else p.name)
    ensures q.floor == (if floor.Some? then floor.value else p.floor)
    ensures q.branch == (if branch.Some? then branch.value else p.branch)
  {
    Person(name.GetOr(p.name), floor.GetOr(p.floor), branch.GetOr(p.branch))
  }

  /** Whether the update renames the person's item table: a new name, different from the old one, whose old table exists. */
  predicate MovesTable(db: Db, id: nat, name: Option<string>)
    requires id in db.people
  {
    name.Some? && name.value != db.people[id].name && PersonTableName(db.people[id].name) in db.owned
  }

  /** Whether `update_kisi` commits. */
  predicate UpdateCommits(db: Db, id: nat, name: Option<string>, floor: Option<int>, branch: Option<string>)
  {
    && !(name.Some? && NameTakenByOther(db.people, id, name.value))
    && (name.Some? || floor.Some? || branch.Some?)
    && id in db.people
    // ALTER TABLE … RENAME TO fails when the target name is taken, itself included
    && !(MovesTable(db, id, name) && PersonTableName(name.value) in db.owned)
    // … and when either quoted name does not parse or the new one is reserved
    && (MovesTable(db, id, name) ==>
          IsQuotableName(PersonTableName(db.people[id].name)) && IsQuotableName(PersonTableName(name.value)))
  }

  /**
   * `update_kisi`. Refused without change when the new name belongs to
   * another id, when no field is given, when the id is unknown, and when the
   * item table cannot be renamed because its new name is taken or does not
   * quote (the row update is rolled back then). Otherwise the row is updated and, on a
   * rename, the item table moves to the new normalised name with its records
   * and counter; a person without a table is renamed all the same.
   */
  function UpdatePerson(db: Db, id: nat, name: Option<string>, floor: Option<int>, branch: Option<string>): (r: (Db, bool))
    ensures r.1 <==> UpdateCommits(db, id, name, floor, branch)
    ensures !r.1 ==> r.0 == db
    ensures r.1 ==> r.0.people == db.people[id := Updated(db.people[id], name, floor, branch)]
    ensures r.1 && MovesTable(db, id, name) ==>
      var old_ := PersonTableName(db.people[id].name);
      var new_ := PersonTableName(name.value);
      && r.0.owned == (db.owned - {old_})[new_ := db.owned[old_]]
      && old_ !in r.0.owned
    ensures r.1 && !MovesTable(db, id, name) ==> r.0.owned == db.owned
    ensures r.0.catalog == db.catalog && r.0.stock == db.stock && r.0.stockOrder == db.stockOrder
    ensures r.0.peopleSeq == db.peopleSeq && r.0.categories == db.categories
    ensures Valid(db) ==> Valid(r.0)
  {
    if !UpdateCommits(db, id, name, floor, branch) then (db, false)
    else
      var people := db.people[id := Updated(db.people[id], name, floor, branch)];
      UpdatedRowKeepsValid(db, id, name, floor, branch);
      if MovesTable(db, id, name) then
        var old_ := PersonTableName(db.people[id].name);
        var new_ := PersonTableName(name.value);
        MovedTableKeepsValid(db.(people := people), old_, new_);
        (db.(people := people, owned := (db.owned - {old_})[new_ := db.owned[old_]]), true)
      else (db.(people := people), true)
  }

  /** Updating a row keeps validity when the new name is nobody else's. */
  lemma UpdatedRowKeepsValid(db: Db, id: nat, name: Option<string>, floor: Option<int>, branch: Option<string>)
    requires id in db.people && !(name.Some? && NameTakenByOther(db.people, id, name.value))
    ensures Valid(db) ==> Valid(db.(people := db.people[id := Updated(db.people[id], name, floor, branch)]))
  {
    if Valid(db) {
      var people := db.people[id := Updated(db.people[id], name, floor, branch)];
      assert UniqueNames(people) by {
        forall a, b | a in people && b in people && a != b ensures people[a].name != people[b].name {
          if a == id { assert people[b] == db.people[b]; }
          else if b == id { assert people[a] == db.people[a]; }
        }
      }
    }
  }

  /** ALTER TABLE … RENAME TO a quotable name keeps validity. */
  lemma MovedTableKeepsValid(db: Db, old_: string, new_: string)
    requires old_ in db.owned && IsQuotableName(new_)
    ensures Valid(db) ==> Valid(db.(owned := (db.owned - {old_})[new_ := db.owned[old_]]))
  {
  }

  /**
   * Renaming to a name that normalises to the same table, such as "Ali Veli"
   * to "aliveli", fails whenever that table exists: the table would be
   * renamed onto itself.
   */
  lemma RenameWithinTableFails(db: Db, id: nat, name: string)
    requires id in db.people && name != db.people[id].name
    requires PersonTableName(name) == PersonTableName(db.people[id].name) && PersonTableName(name) in db.owned
    ensures UpdatePerson(db, id, Some(name), None, None) == (db, false)
  {
  }

  /**
   * Renaming a person who has an item table to `Ali "Usta"` fails: the
   * ALTER TABLE cannot parse the new quoted name, and the row update is
   * rolled back with it.
   */
  lemma RenameToUnquotableFails(db: Db, id: nat)
    requires id in db.people && MovesTable(db, id, Some("Ali \"Usta\""))
    ensures UpdatePerson(db, id, Some("Ali \"Usta\""), None, None) == (db, false)
  {
    UnpairedQuoteNamesNoTable();
  }

  /** A rename keeps every record: the person's list reads the same under the new name. */
  lemma RenameKeepsRecords(db: Db, id: nat, name: string)
    requires id in db.people && MovesTable(db, id, Some(name)) && UpdatePerson(db, id, Some(name), None, None).1
    ensures var r := UpdatePerson(db, id, Some(name), None, None);
      PersonTableName(name) in r.0.owned
      && r.0.owned[PersonTableName(name)] == db.owned[PersonTableName(db.people[id].name)]
  {
  }

  // ---------------------------------------------------------------------------
  // delete_kisi_by_id
  // ---------------------------------------------------------------------------

  /**
   * Deletes the id's row and drops the item table of the name the caller
   * passes, if it exists; the two are not checked against each other.
   */
  function DeletePerson(db: Db, id: nat, name: string): (r: (Db, bool))
    ensures r.1
    ensures r.0.people == db.people - {id}
    ensures r.0.owned == db.owned - {PersonTableName(name)}
    ensures r.0.catalog == db.catalog && r.0.stock == db.stock && r.0.stockOrder == db.stockOrder
    ensures r.0.peopleSeq == db.peopleSeq && r.0.categories == db.categories
    ensures Valid(db) ==> Valid(r.0)
  {
    (db.(people := db.people - {id}, owned := db.owned - {PersonTableName(name)}), true)
  }

  /**
   * Two people whose names normalise alike share one item table, so deleting
   * one drops the other's records as well.
   */
  lemma DeleteDropsSharedTable(db: Db, id: nat, other: nat)
    requires id in db.people && other in db.people && other != id
    requires PersonTableName(db.people[other].name) == PersonTableName(db.people[id].name)
    ensures var r := DeletePerson(db, id, db.people[id].name);
      other in r.0.people && PersonTableName(r.0.people[other].name) !in r.0.owned
  {
  }

  /**
   * Deleting with a name that does not match the id leaves the id's table
   * behind with nobody registered under it, when nobody else shares it.
   */
  lemma MismatchedDeleteLeavesOrphan(db: Db, id: nat, name: string)
    requires id in db.people && PersonTableName(db.people[id].name) in db.owned
    requires PersonTableName(name) != PersonTableName(db.people[id].name)
    requires forall other | other in db.people && other != id :: PersonTableName(db.people[other].name) != PersonTableName(db.people[id].name)
    ensures var r := DeletePerson(db, id, name);
      var tn := PersonTableName(db.people[id].name);
      tn in r.0.owned && forall p | p in r.0.people :: PersonTableName(r.0.people[p].name) != tn
  {
  }
}
