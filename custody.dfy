/**
 * Custody of stickers: `add_zimmetle_malzeme`, `update_varolana_yenizimmet`,
 * `delete_last_zimmet` and `get_zimmetli_malzemeler` (database.py:236-256,
 * 317-345, 503-565, 669-686). Ownership has no index of its own: a sticker's
 * owners are the item tables that hold its code.
 */
module Custody {
  import opened Wrappers
  import opened Text
  import opened Naming
  import opened Tables
  import opened Catalog
  import opened Directory
  import opened Database

  /** At most one item table holds `s`. */
  ghost predicate AtMostOneOwner(owned: map<string, Table<string>>, s: string)
  {
    forall a, b | a in owned && b in owned && Has(owned[a], s) && Has(owned[b], s) :: a == b
  }

  /** Whether some registered person's item table is `name`. */
  predicate IsPersonTable(people: map<nat, Person>, name: string)
  {
    exists id | id in people :: PersonTableName(people[id].name) == name
  }

  /** Every table holding `s` belongs to a registered person, so the owner scan can see it. */
  ghost predicate HeldByRegistered(db: Db, s: string)
  {
    forall n | n in db.owned && Has(db.owned[n], s) :: IsPersonTable(db.people, n)
  }

  // ---------------------------------------------------------------------------
  // add_zimmetle_malzeme
  // ---------------------------------------------------------------------------

  /**
   * Appends a record of `s` to the person's item table. Refused without
   * change when the exact name is not registered, when the table is missing,
   * and when that same table already holds `s` (UNIQUE). Other tables are not
   * looked at.
   */
  function Assign(db: Db, person: string, s: string, itemName: string): (r: (Db, bool))
    ensures r.1 <==>
      && Registered(db.people, person)
      && PersonTableName(person) in db.owned
      && !Has(db.owned[PersonTableName(person)], s)
    ensures !r.1 ==> r.0 == db
    ensures r.1 ==>
      var tn := PersonTableName(person);
      var t := db.owned[tn];
      r.0 == db.(owned := db.owned[tn := Table(t.rows + [Row(t.seqNo + 1, s, itemName)], t.seqNo + 1)])
    ensures r.1 ==> Holders(r.0.owned, s) == Holders(db.owned, s) + {PersonTableName(person)}
    ensures Valid(db) ==> Valid(r.0)
  {
    var tn := PersonTableName(person);
    if !Registered(db.people, person) || tn !in db.owned then (db, false)
    else
      match Insert(db.owned[tn], s, itemName)
      case None => (db, false)
      case Some(t) =>
        assert t.rows == db.owned[tn].rows + [Row(db.owned[tn].seqNo + 1, s, itemName)];
        (db.(owned := db.owned[tn := t]), true)
  }

  /** Assigning a sticker already held elsewhere leaves it with two owners. */
  lemma AssignCanAddSecondOwner(db: Db, person: string, s: string, itemName: string, holder: string)
    requires holder in db.owned && Has(db.owned[holder], s) && holder != PersonTableName(person)
    ensures Assign(db, person, s, itemName).1 ==> !AtMostOneOwner(Assign(db, person, s, itemName).0.owned, s)
  {
    var r := Assign(db, person, s, itemName);
    if r.1 {
      assert holder in Holders(r.0.owned, s) && PersonTableName(person) in Holders(r.0.owned, s);
    }
  }

  // ---------------------------------------------------------------------------
  // update_varolana_yenizimmet
  // ---------------------------------------------------------------------------

  /** Position in `order` of the first sticker table holding `s`; `|order|` when none does. */
  function FirstStockHit(order: seq<string>, stock: map<string, Table<StickerData>>, s: string): (k: nat)
    ensures k <= |order|
    ensures forall j | 0 <= j < k :: !(order[j] in stock && Has(stock[order[j]], s))
    ensures k < |order| ==> order[k] in stock && Has(stock[order[k]], s)
    decreases |order|
  {
    if order == [] then 0
    else if order[0] in stock && Has(stock[order[0]], s) then 0
    else 1 + FirstStockHit(order[1..], stock, s)
  }

  /** The item table the owner scan inspects for the person listed at `id`. */
  function TableOf(people: map<nat, Person>, id: nat): string
    requires id in people
  {
    PersonTableName(people[id].name)
  }

  /** Whether the owner scan stops at `id`: the person's table exists and holds `s`. */
  predicate OwnsAt(people: map<nat, Person>, owned: map<string, Table<string>>, id: nat, s: string)
  {
    id in people && TableOf(people, id) in owned && Has(owned[TableOf(people, id)], s)
  }

  /** Position in `ids` of the first person whose item table holds `s`; `|ids|` when none does. */
  function FirstOwner(ids: seq<nat>, people: map<nat, Person>, owned: map<string, Table<string>>, s: string): (k: nat)
    ensures k <= |ids|
    ensures forall j | 0 <= j < k :: !OwnsAt(people, owned, ids[j], s)
    ensures k < |ids| ==> OwnsAt(people, owned, ids[k], s)
    decreases |ids|
  {
    if ids == [] then 0
    else if OwnsAt(people, owned, ids[0], s) then 0
    else 1 + FirstOwner(ids[1..], people, owned, s)
  }

  /** Whether some sticker table holds `s`. */
  predicate InStock(db: Db, s: string)
  {
    exists n | n in db.stockOrder :: n in db.stock && Has(db.stock[n], s)
  }

  /**
   * The item tables after the transfer's DELETE: the first owner found loses
   * `s`. The DELETE is guarded by the owner's name being non-empty (a
   * truthiness test), so an owner registered under `""` keeps the record.
   */
  function OwnedAfterRelease(db: Db, s: string): (owned: map<string, Table<string>>)
    ensures var ids := Directory.ListingOrder(db.people);
      var j := FirstOwner(ids, db.people, db.owned, s);
      && (j < |ids| && db.people[ids[j]].name != "" ==>
            owned == db.owned[TableOf(db.people, ids[j]) := DeleteCode(db.owned[TableOf(db.people, ids[j])], s)])
      && (j == |ids| || db.people[ids[j]].name == "" ==> owned == db.owned)
    ensures owned.Keys == db.owned.Keys
    ensures forall n | n in db.owned :: owned[n].seqNo == db.owned[n].seqNo
    ensures (forall n | n in db.owned :: WellFormed(db.owned[n])) ==> forall n | n in owned :: WellFormed(owned[n])
  {
    var ids := Directory.ListingOrder(db.people);
    var j := FirstOwner(ids, db.people, db.owned, s);
    if j < |ids| && db.people[ids[j]].name != "" then
      var tn := TableOf(db.people, ids[j]);
      db.owned[tn := DeleteCode(db.owned[tn], s)]
    else db.owned
  }

  lemma NoHitMeansNotInStock(db: Db, s: string)
    requires FirstStockHit(db.stockOrder, db.stock, s) == |db.stockOrder|
    ensures !InStock(db, s)
  {
    forall n | n in db.stockOrder ensures !(n in db.stock && Has(db.stock[n], s)) {
      var j :| 0 <= j < |db.stockOrder| && db.stockOrder[j] == n;
    }
  }

  lemma HitMeansInStock(db: Db, s: string)
    requires FirstStockHit(db.stockOrder, db.stock, s) < |db.stockOrder|
    ensures InStock(db, s)
  {
    var k := FirstStockHit(db.stockOrder, db.stock, s);
    assert db.stockOrder[k] in db.stockOrder;
  }

  /** The item tables stay well formed through the transfer's DELETE and INSERT. */
  lemma ReleasedValid(db: Db, s: string, nt: string, itemName: string)
    requires nt in OwnedAfterRelease(db, s)
    requires Insert(OwnedAfterRelease(db, s)[nt], s, itemName).Some?
    ensures var released := OwnedAfterRelease(db, s);
      Valid(db) ==> Valid(db.(owned := released[nt := Insert(released[nt], s, itemName).value]))
  {
    if Valid(db) {
      var released := OwnedAfterRelease(db, s);
      var owned := released[nt := Insert(released[nt], s, itemName).value];
      assert forall n | n in owned :: WellFormed(owned[n]);
      ValidWithOwned(db, owned);
    }
  }

  /**
   * The transfer's DELETE and INSERT, committed together: the first owner
   * found loses `s`, then the new owner's table gains it; a missing target
   * table or a UNIQUE violation there undoes both.
   */
  function Reassign(db: Db, s: string, itemName: string, newOwner: string): (r: (Db, bool))
    ensures var nt := PersonTableName(newOwner); var released := OwnedAfterRelease(db, s);
      r.1 <==> nt in released && !Has(released[nt], s)
    ensures !r.1 ==> r.0 == db
    ensures r.1 ==>
      var nt := PersonTableName(newOwner); var released := OwnedAfterRelease(db, s);
      && r.0 == db.(owned := r.0.owned)
      && r.0.owned == released[nt := Table(released[nt].rows + [Row(released[nt].seqNo + 1, s, itemName)], released[nt].seqNo + 1)]
    ensures Valid(db) ==> Valid(r.0)
  {
    var released := OwnedAfterRelease(db, s);
    var nt := PersonTableName(newOwner);
    if nt !in released then (db, false)
    else
      match Insert(released[nt], s, itemName)
      case None => (db, false)
      case Some(t) =>
        assert t.rows == released[nt].rows + [Row(released[nt].seqNo + 1, s, itemName)];
        ReleasedValid(db, s, nt, itemName);
        (db.(owned := released[nt := t]), true)
  }

  /**
   * `update_varolana_yenizimmet(s, newOwner)`. Fails without change when no
   * sticker table holds `s`. Otherwise the first person, in name order, whose
   * item table holds `s` loses it, and a record of `s` with the sticker row's
   * name is appended to the table of `newOwner` (whose registration is not
   * checked); a missing target table or a UNIQUE violation there rolls the
   * whole transfer back.
   */
  function Transfer(db: Db, s: string, newOwner: string): (r: (Db, bool))
    ensures !InStock(db, s) ==> r == (db, false)
    ensures InStock(db, s) ==> r == Reassign(db, s, StockName(db, s), newOwner)
    ensures !r.1 ==> r.0 == db
    ensures r.1 ==>
      && InStock(db, s)
      && PersonTableName(newOwner) in db.owned
      && r.0 == db.(owned := r.0.owned) && r.0.owned.Keys == db.owned.Keys
      && Has(r.0.owned[PersonTableName(newOwner)], s)
    ensures Valid(db) ==> Valid(r.0)
  {
    var k := FirstStockHit(db.stockOrder, db.stock, s);
    if k == |db.stockOrder| then
      NoHitMeansNotInStock(db, s);
      (db, false)
    else
      HitMeansInStock(db, s);
      Reassign(db, s, StockName(db, s), newOwner)
  }

  /** The name on the sticker row the stock scan finds first. */
  function StockName(db: Db, s: string): (name: string)
    requires InStock(db, s)
    ensures exists n | n in db.stock :: exists i | 0 <= i < |db.stock[n].rows| ::
      db.stock[n].rows[i].code == s && db.stock[n].rows[i].data.name == name
  {
    var k := FirstStockHit(db.stockOrder, db.stock, s);
    if k < |db.stockOrder| then
      var row := Lookup(db.stock[db.stockOrder[k]], s).value;
      var i :| 0 <= i < |db.stock[db.stockOrder[k]].rows| && db.stock[db.stockOrder[k]].rows[i] == row;
      row.data.name
    else
      NoHitMeansNotInStock(db, s);
      assert false;
      ""
  }

  // ---------------------------------------------------------------------------
  // delete_last_zimmet and get_zimmetli_malzemeler
  // ---------------------------------------------------------------------------

  /**
   * Removes the newest record of the person's item table and returns its
   * sticker code; `None` and no change when the table is missing or empty.
   * The name need not be registered, and sticker tables are untouched.
   */
  function DeleteLastAssignment(db: Db, person: string): (r: (Db, Option<string>))
    ensures var tn := PersonTableName(person);
      (tn !in db.owned || db.owned[tn].rows == []) ==> r == (db, None)
    ensures var tn := PersonTableName(person);
      tn in db.owned && db.owned[tn].rows != [] ==>
        var t := db.owned[tn];
        && r.1 == Some(t.rows[|t.rows| - 1].code)
        && r.0 == db.(owned := db.owned[tn := Table(t.rows[..|t.rows| - 1], t.seqNo)])
    ensures Valid(db) ==> Valid(r.0)
  {
    var tn := PersonTableName(person);
    if tn !in db.owned || db.owned[tn].rows == [] then (db, None)
    else (db.(owned := db.owned[tn := DropLast(db.owned[tn])]), Some(Last(db.owned[tn]).value.code))
  }

  /**
   * `get_zimmetli_malzemeler(person)`: the person's records newest first, or
   * `[]` when the table is missing.
   */
  function OwnedItems(db: Db, person: string): (r: seq<Row<string>>)
    ensures PersonTableName(person) !in db.owned ==> r == []
    ensures PersonTableName(person) in db.owned ==>
      var rows := db.owned[PersonTableName(person)].rows;
      |r| == |rows| && forall i | 0 <= i < |r| :: r[i] == rows[|rows| - 1 - i]
  {
    var tn := PersonTableName(person);
    if tn !in db.owned then []
    else
      var rows := db.owned[tn].rows;
      seq(|rows|, i requires 0 <= i < |rows| => rows[|rows| - 1 - i])
  }

  /** A fresh assignment heads the person's list. */
  lemma AssignedItemListedFirst(db: Db, person: string, s: string, itemName: string)
    ensures var r := Assign(db, person, s, itemName);
      r.1 ==> OwnedItems(r.0, person) != [] && OwnedItems(r.0, person)[0].code == s
  {
  }

  /**
   * `delete_last_zimmet` right after a successful assignment returns the
   * assigned code and restores the person's records; the table's
   * AUTOINCREMENT counter stays one higher.
   */
  lemma UndoAfterAssign(db: Db, person: string, s: string, itemName: string)
    requires Assign(db, person, s, itemName).1
    ensures var tn := PersonTableName(person);
      var u := DeleteLastAssignment(Assign(db, person, s, itemName).0, person);
      && u.1 == Some(s)
      && u.0 == db.(owned := db.owned[tn := Table(db.owned[tn].rows, db.owned[tn].seqNo + 1)])
  {
    var tn := PersonTableName(person);
    var t := db.owned[tn];
    assert (t.rows + [Row(t.seqNo + 1, s, itemName)])[..|t.rows|] == t.rows;
  }

  // ---------------------------------------------------------------------------
  // The one-owner property
  // ---------------------------------------------------------------------------

  /**
   * When every holder of `s` is a registered person's table and there is at
   * most one, the owner scan finds it and the DELETE leaves no table holding `s`.
   */
  lemma ReleaseClearsOwner(db: Db, s: string)
    requires !Registered(db.people, "")
    requires Valid(db) && AtMostOneOwner(db.owned, s) && HeldByRegistered(db, s)
    ensures var released := OwnedAfterRelease(db, s);
      forall n | n in released :: !Has(released[n], s)
  {
    var ids := Directory.ListingOrder(db.people);
    var j := FirstOwner(ids, db.people, db.owned, s);
    if j < |ids| {
      ReleaseAtSoleOwner(db, s);
    } else {
      NoOwnerFoundNoHolder(db, s);
    }
  }

  /** When the scan finds the only holder, registered under a non-empty name, the DELETE clears it. */
  lemma ReleaseAtSoleOwner(db: Db, s: string)
    requires !Registered(db.people, "")
    requires Valid(db) && AtMostOneOwner(db.owned, s)
    requires FirstOwner(Directory.ListingOrder(db.people), db.people, db.owned, s) < |Directory.ListingOrder(db.people)|
    ensures var released := OwnedAfterRelease(db, s);
      forall n | n in released :: !Has(released[n], s)
  {
    var ids := Directory.ListingOrder(db.people);
    var j := FirstOwner(ids, db.people, db.owned, s);
    assert ids[j] in db.people;
    var tn := TableOf(db.people, ids[j]);
    SoleHolderCleared(db.owned, tn, s);
  }

  /** Deleting `s` from the one table that holds it leaves no table holding it. */
  lemma SoleHolderCleared(owned: map<string, Table<string>>, tn: string, s: string)
    requires tn in owned && Has(owned[tn], s) && AtMostOneOwner(owned, s)
    requires forall n | n in owned :: WellFormed(owned[n])
    ensures var released := owned[tn := DeleteCode(owned[tn], s)];
      forall n | n in released :: !Has(released[n], s)
  {
  }

  /** The owner scan finds every holder that is a registered person's table. */
  lemma ScanFindsRegisteredHolder(db: Db, s: string, n: string)
    requires n in db.owned && Has(db.owned[n], s) && IsPersonTable(db.people, n)
    ensures FirstOwner(Directory.ListingOrder(db.people), db.people, db.owned, s) < |Directory.ListingOrder(db.people)|
  {
    var ids := Directory.ListingOrder(db.people);
    var id :| id in db.people && PersonTableName(db.people[id].name) == n;
    var m :| 0 <= m < |ids| && ids[m] == id;
    assert OwnsAt(db.people, db.owned, ids[m], s);
  }

  /** When the scan finds nobody and every holder is registered, nobody holds `s`. */
  lemma NoOwnerFoundNoHolder(db: Db, s: string)
    requires HeldByRegistered(db, s)
    ensures FirstOwner(Directory.ListingOrder(db.people), db.people, db.owned, s) == |Directory.ListingOrder(db.people)| ==>
      var released := OwnedAfterRelease(db, s);
      forall n | n in released :: !Has(released[n], s)
  {
    forall n | n in db.owned && Has(db.owned[n], s)
      ensures FirstOwner(Directory.ListingOrder(db.people), db.people, db.owned, s) < |Directory.ListingOrder(db.people)|
    {
      ScanFindsRegisteredHolder(db, s, n);
    }
  }

  /** After a DELETE that left no holder, a successful INSERT makes the target the only holder. */
  lemma ReassignLeavesSingleOwner(db: Db, s: string, itemName: string, newOwner: string)
    requires var released := OwnedAfterRelease(db, s); forall n | n in released :: !Has(released[n], s)
    ensures var r := Reassign(db, s, itemName, newOwner);
      r.1 ==> Holders(r.0.owned, s) == {PersonTableName(newOwner)}
  {
    var r := Reassign(db, s, itemName, newOwner);
    if r.1 {
      var released := OwnedAfterRelease(db, s);
      var nt := PersonTableName(newOwner);
      var t := released[nt];
      assert r.0.owned[nt].rows[|t.rows|] == Row(t.seqNo + 1, s, itemName);
      assert Has(r.0.owned[nt], s);
      forall n | n in r.0.owned && n != nt ensures !Has(r.0.owned[n], s) {
        assert r.0.owned[n] == released[n];
      }
    }
  }

  /** Under the transfer's conditions of success, its outcome is the DELETE and INSERT step. */
  lemma TransferIsReassign(db: Db, s: string, newOwner: string)
    requires InStock(db, s)
    ensures Transfer(db, s, newOwner) == Reassign(db, s, StockName(db, s), newOwner)
  {
    var k := FirstStockHit(db.stockOrder, db.stock, s);
    if k == |db.stockOrder| { NoHitMeansNotInStock(db, s); }
  }

  /**
   * Transfer restores the one-owner property: if `s` had at most one owner,
   * and that owner is a registered person's table, a successful transfer
   * leaves the new owner's table as the only one holding `s`.
   */
  lemma TransferLeavesSingleOwner(db: Db, s: string, newOwner: string)
    requires !Registered(db.people, "")
    requires Valid(db) && AtMostOneOwner(db.owned, s) && HeldByRegistered(db, s)
    ensures var r := Transfer(db, s, newOwner);
      r.1 ==> Holders(r.0.owned, s) == {PersonTableName(newOwner)}
  {
    if InStock(db, s) {
      ReleaseClearsOwner(db, s);
      TransferIsReassign(db, s, newOwner);
      ReassignLeavesSingleOwner(db, s, StockName(db, s), newOwner);
    }
  }

  /** Under the same conditions the transfer succeeds exactly when the code is in stock and the target table exists. */
  lemma TransferSucceeds(db: Db, s: string, newOwner: string)
    requires !Registered(db.people, "")
    requires Valid(db) && AtMostOneOwner(db.owned, s) && HeldByRegistered(db, s)
    ensures Transfer(db, s, newOwner).1 <==> InStock(db, s) && PersonTableName(newOwner) in db.owned
  {
    if InStock(db, s) && PersonTableName(newOwner) in db.owned {
      ReleaseClearsOwner(db, s);
    }
  }

  /** Undoing a successful INSERT onto a table that did not hold `s` leaves no holder. */
  lemma UndoAfterReassign(db: Db, s: string, itemName: string, newOwner: string)
    requires var released := OwnedAfterRelease(db, s); forall n | n in released :: !Has(released[n], s)
    requires Reassign(db, s, itemName, newOwner).1
    ensures var u := DeleteLastAssignment(Reassign(db, s, itemName, newOwner).0, newOwner);
      u.1 == Some(s) && Holders(u.0.owned, s) == {}
  {
    var r := Reassign(db, s, itemName, newOwner);
    var released := OwnedAfterRelease(db, s);
    var nt := PersonTableName(newOwner);
    var t := released[nt];
    assert r.0.owned[nt].rows == t.rows + [Row(t.seqNo + 1, s, itemName)];
    var u := DeleteLastAssignment(r.0, newOwner);
    assert u.0.owned[nt].rows == t.rows;
    forall n | n in u.0.owned ensures !Has(u.0.owned[n], s) {
      if n != nt { assert u.0.owned[n] == released[n]; }
    }
  }

  /**
   * Undoing right after a transfer: `delete_last_zimmet` on the new owner
   * returns `s`, and then no table holds it.
   */
  lemma UndoAfterTransfer(db: Db, s: string, newOwner: string)
    requires !Registered(db.people, "")
    requires Valid(db) && AtMostOneOwner(db.owned, s) && HeldByRegistered(db, s)
    requires Transfer(db, s, newOwner).1
    ensures var u := DeleteLastAssignment(Transfer(db, s, newOwner).0, newOwner);
      u.1 == Some(s) && Holders(u.0.owned, s) == {}
  {
    ReleaseClearsOwner(db, s);
    TransferIsReassign(db, s, newOwner);
    UndoAfterReassign(db, s, StockName(db, s), newOwner);
  }

  // ---------------------------------------------------------------------------
  // Records nobody is registered under
  // ---------------------------------------------------------------------------

  /** The owner scan only visits registered people's tables, so any other table keeps its records. */
  lemma ReleaseSkipsUnregistered(db: Db, s: string, holder: string)
    requires holder in db.owned && !IsPersonTable(db.people, holder)
    ensures OwnedAfterRelease(db, s)[holder] == db.owned[holder]
  {
    var ids := Directory.ListingOrder(db.people);
    var j := FirstOwner(ids, db.people, db.owned, s);
    if j < |ids| {
      assert OwnsAt(db.people, db.owned, ids[j], s);
      assert TableOf(db.people, ids[j]) != holder;
    }
  }

  /**
   * A record in a table nobody is registered under (left behind by a delete
   * or a rename) is invisible to the owner scan: a transfer adds the new owner
   * and the stale holder keeps `s`, so the sticker ends with two owners.
   */
  lemma OrphanHolderSurvivesTransfer(db: Db, s: string, newOwner: string, holder: string)
    requires holder in db.owned && Has(db.owned[holder], s) && !IsPersonTable(db.people, holder)
    requires holder != PersonTableName(newOwner)
    ensures var r := Transfer(db, s, newOwner);
      r.1 ==>
        && holder in Holders(r.0.owned, s)
        && PersonTableName(newOwner) in Holders(r.0.owned, s)
        && !AtMostOneOwner(r.0.owned, s)
  {
    var r := Transfer(db, s, newOwner);
    if r.1 {
      TransferIsReassign(db, s, newOwner);
      ReleaseSkipsUnregistered(db, s, holder);
      assert r.0.owned[holder] == db.owned[holder];
    }
  }

  // ---------------------------------------------------------------------------
  // Transfers in a row
  // ---------------------------------------------------------------------------

  /** A sticker whose only holder is a registered person's table meets the transfer's conditions again. */
  lemma SingleRegisteredHolder(db: Db, s: string, person: string)
    requires Registered(db.people, person) && Holders(db.owned, s) == {PersonTableName(person)}
    ensures AtMostOneOwner(db.owned, s) && HeldByRegistered(db, s)
  {
    var id :| id in db.people && db.people[id].name == person;
    assert IsPersonTable(db.people, PersonTableName(person));
  }

  /** One transfer to a registered person with a table: it succeeds and leaves the conditions for the next. */
  lemma TransferStep(db: Db, s: string, to: string)
    requires !Registered(db.people, "")
    requires Valid(db) && AtMostOneOwner(db.owned, s) && HeldByRegistered(db, s) && InStock(db, s)
    requires Registered(db.people, to) && PersonTableName(to) in db.owned
    ensures var r := Transfer(db, s, to);
      && r.1 && Valid(r.0) && InStock(r.0, s)
      && r.0.people == db.people && r.0.owned.Keys == db.owned.Keys
      && Holders(r.0.owned, s) == {PersonTableName(to)}
      && AtMostOneOwner(r.0.owned, s) && HeldByRegistered(r.0, s)
  {
    var r := Transfer(db, s, to);
    TransferSucceeds(db, s, to);
    TransferLeavesSingleOwner(db, s, to);
    SingleRegisteredHolder(r.0, s, to);
  }

  /**
   * Handing a sticker from A to B and back: each transfer succeeds and A ends
   * as its only owner, B holding no record of it.
   */
  lemma TransferThereAndBack(db: Db, s: string, a: string, b: string)
    requires !Registered(db.people, "")
    requires Valid(db) && AtMostOneOwner(db.owned, s) && HeldByRegistered(db, s) && InStock(db, s)
    requires Registered(db.people, a) && PersonTableName(a) in db.owned
    requires Registered(db.people, b) && PersonTableName(b) in db.owned
    requires PersonTableName(a) != PersonTableName(b)
    ensures var r1 := Transfer(db, s, a);
      var r2 := Transfer(r1.0, s, b);
      var r3 := Transfer(r2.0, s, a);
      && r1.1 && r2.1 && r3.1
      && Holders(r3.0.owned, s) == {PersonTableName(a)}
      && !Has(r3.0.owned[PersonTableName(b)], s)
  {
    var r1 := Transfer(db, s, a);
    TransferStep(db, s, a);
    var r2 := Transfer(r1.0, s, b);
    TransferStep(r1.0, s, b);
    TransferStep(r2.0, s, a);
  }

  /**
   * Nothing sorts before the empty name, so when a person registered as `""`
   * holds `s` the owner scan stops at someone named `""`, and the DELETE is
   * skipped.
   */
  lemma ReleaseSkipsBlankOwner(db: Db, s: string, id: nat)
    requires id in db.people && db.people[id].name == "" && OwnsAt(db.people, db.owned, id, s)
    ensures OwnedAfterRelease(db, s) == db.owned
  {
    var ids := Directory.ListingOrder(db.people);
    var m :| 0 <= m < |ids| && ids[m] == id;
    var j := FirstOwner(ids, db.people, db.owned, s);
    assert j <= m;
    BlankListedLast(db.people, ids, j, m);
  }

  /** Nothing is listed before a person named `""` but another person named `""`. */
  lemma BlankListedLast(people: map<nat, Person>, ids: seq<nat>, j: nat, m: nat)
    requires Directory.InListingOrder(people, ids)
    requires j <= m < |ids| && people[ids[m]].name == ""
    ensures people[ids[j]].name == ""
  {
    if j < m {
      assert Directory.ListedBefore(ids[j], people[ids[j]], ids[m], people[ids[m]]);
      assert !Below(people[ids[j]].name, "");
    }
  }

  /**
   * Transferring a sticker held by a person registered as `""` adds the new
   * owner without removing the old record: two owners.
   */
  lemma BlankOwnerKeepsRecord(db: Db, s: string, newOwner: string, id: nat)
    requires id in db.people && db.people[id].name == "" && OwnsAt(db.people, db.owned, id, s)
    requires PersonTableName(newOwner) != PersonTableName("")
    ensures var r := Transfer(db, s, newOwner);
      r.1 ==>
        && PersonTableName("") in Holders(r.0.owned, s)
        && PersonTableName(newOwner) in Holders(r.0.owned, s)
        && !AtMostOneOwner(r.0.owned, s)
  {
    var r := Transfer(db, s, newOwner);
    if r.1 {
      TransferIsReassign(db, s, newOwner);
      ReleaseSkipsBlankOwner(db, s, id);
      assert r.0.owned[PersonTableName("")] == db.owned[PersonTableName("")];
    }
  }

  /** A holder listed before every other holder is where the owner scan stops. */
  lemma ScanStopsAtFirstListed(people: map<nat, Person>, owned: map<string, Table<string>>, s: string, a: nat)
    requires OwnsAt(people, owned, a, s)
    requires forall b | OwnsAt(people, owned, b, s) && b != a :: Directory.ListedBefore(a, people[a], b, people[b])
    ensures var ids := Directory.ListingOrder(people);
      var j := FirstOwner(ids, people, owned, s);
      j < |ids| && ids[j] == a
  {
    var ids := Directory.ListingOrder(people);
    var m :| 0 <= m < |ids| && ids[m] == a;
    ScanStopsAt(people, owned, s, ids, m);
  }

  /** In any listing, the scan stops at the place of a holder listed before every other holder. */
  lemma ScanStopsAt(people: map<nat, Person>, owned: map<string, Table<string>>, s: string, ids: seq<nat>, m: nat)
    requires Directory.InListingOrder(people, ids) && m < |ids|
    requires OwnsAt(people, owned, ids[m], s)
    requires forall b | OwnsAt(people, owned, b, s) && b != ids[m] :: Directory.ListedBefore(ids[m], people[ids[m]], b, people[b])
    ensures FirstOwner(ids, people, owned, s) == m
  {
    var j := FirstOwner(ids, people, owned, s);
    assert j <= m;
    if j < m {
      Directory.ListedLater(people, ids, j, m);
      assert false;
    }
  }

  /**
   * The release in terms of the listing alone: when `a`, registered under a
   * non-empty name, holds `s` and is listed before every other holder, the
   * DELETE takes `s` out of `a`'s table and nowhere else.
   */
  lemma FirstListedHolderReleases(db: Db, s: string, a: nat)
    requires OwnsAt(db.people, db.owned, a, s) && db.people[a].name != ""
    requires forall b | OwnsAt(db.people, db.owned, b, s) && b != a :: Directory.ListedBefore(a, db.people[a], b, db.people[b])
    ensures OwnedAfterRelease(db, s) == db.owned[TableOf(db.people, a) := DeleteCode(db.owned[TableOf(db.people, a)], s)]
  {
    ScanStopsAtFirstListed(db.people, db.owned, s, a);
  }

  /** The owner scan stops before a holder whose name sorts after another holder's. */
  lemma ScanStopsBeforeLater(people: map<nat, Person>, owned: map<string, Table<string>>, s: string, a: nat, b: nat)
    requires OwnsAt(people, owned, a, s) && OwnsAt(people, owned, b, s)
    requires Below(people[a].name, people[b].name)
    ensures var ids := Directory.ListingOrder(people);
      var j := FirstOwner(ids, people, owned, s);
      j < |ids| && ids[j] != b
  {
    var ids := Directory.ListingOrder(people);
    var ma :| 0 <= ma < |ids| && ids[ma] == a;
    var mb :| 0 <= mb < |ids| && ids[mb] == b;
    Directory.ListedBeforeComesFirst(people, ids, ma, mb);
    var j := FirstOwner(ids, people, owned, s);
    assert j <= ma;
    Directory.ListingOrderDistinct(people, j, mb);
  }

  /**
   * With two registered holders of `s`, the one whose name sorts later keeps
   * its record through the DELETE, provided nobody else's name maps to its
   * item table.
   */
  lemma LaterHolderKeepsRecord(db: Db, s: string, a: nat, b: nat)
    requires OwnsAt(db.people, db.owned, a, s) && OwnsAt(db.people, db.owned, b, s)
    requires Below(db.people[a].name, db.people[b].name)
    requires forall p | p in db.people && p != b :: TableOf(db.people, p) != TableOf(db.people, b)
    ensures TableOf(db.people, b) in OwnedAfterRelease(db, s)
    ensures OwnedAfterRelease(db, s)[TableOf(db.people, b)] == db.owned[TableOf(db.people, b)]
  {
    ScanStopsBeforeLater(db.people, db.owned, s, a, b);
    var ids := Directory.ListingOrder(db.people);
    var j := FirstOwner(ids, db.people, db.owned, s);
    assert TableOf(db.people, ids[j]) != TableOf(db.people, b);
  }

  /**
   * So a transfer of a sticker two registered people hold moves it away from
   * the one listed first only: the later one keeps it and the new owner gains
   * it, two owners after the transfer.
   */
  lemma TransferKeepsLaterHolder(db: Db, s: string, newOwner: string, a: nat, b: nat)
    requires OwnsAt(db.people, db.owned, a, s) && OwnsAt(db.people, db.owned, b, s)
    requires Below(db.people[a].name, db.people[b].name)
    requires forall p | p in db.people && p != b :: TableOf(db.people, p) != TableOf(db.people, b)
    requires PersonTableName(newOwner) != TableOf(db.people, b)
    ensures var r := Transfer(db, s, newOwner);
      r.1 ==>
        && TableOf(db.people, b) in Holders(r.0.owned, s)
        && PersonTableName(newOwner) in Holders(r.0.owned, s)
        && !AtMostOneOwner(r.0.owned, s)
  {
    var r := Transfer(db, s, newOwner);
    if r.1 {
      LaterHolderKeepsRecord(db, s, a, b);
    }
  }
}
