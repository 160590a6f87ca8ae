/**
 * The engine as the program runs it: one store whose tables are changed in
 * place, statement by statement. Each method is proved to leave the store in
 * the state, and to return the result, of the matching transition function,
 * so every property proved about those functions holds of the methods.
 */
module Engine {
  import opened Wrappers
  import opened Naming
  import opened Tables
  import opened Catalog
  import opened Directory
  import opened Database
  import Inventory
  import Custody
  import People

  class Store {
    var catalog: map<string, Material>
    var stock: map<string, Table<StickerData>>
    var stockOrder: seq<string>
    var people: map<nat, Person>
    var peopleSeq: nat
    var owned: map<string, Table<string>>
    var categories: set<string>

    /** The store's contents as one value. */
    function Snapshot(): Db
      reads this
    {
      Db(catalog, stock, stockOrder, people, peopleSeq, owned, categories)
    }

    ghost predicate Valid()
      reads this
    {
      Database.Valid(Snapshot())
    }

    /** A store right after `create_database`. */
    constructor()
      ensures Snapshot() == EmptyDb() && Valid()
    {
      catalog, stock, stockOrder := map[], map[], [];
      people, peopleSeq, owned, categories := map[], 0, map[], {};
    }

    // -------------------------------------------------------------------------
    // CREATE and DROP
    // -------------------------------------------------------------------------

    /** `create_stokkodu_table`. */
    method CreateStockTable(code: string)
      modifies this
      ensures Snapshot() == WithStockTable(old(Snapshot()), code)
    {
      var name := StockTableName(code);
      if name !in stock && IsBareName(name) {
        stock := stock[name := EmptyTable()];
        stockOrder := stockOrder + [name];
      }
    }

    /** `DROP TABLE` of a sticker table, when it exists. */
    method DropStockTable(name: string)
      modifies this
      ensures Snapshot() == WithoutStockTable(old(Snapshot()), name)
    {
      stock := stock - {name};
      stockOrder := Without(stockOrder, name);
    }

    /** `create_kisi_malzemeleri_table`. */
    method CreateOwnerTable(person: string)
      modifies this
      ensures Snapshot() == WithOwnerTable(old(Snapshot()), person)
    {
      var name := PersonTableName(person);
      if name !in owned && IsQuotableName(name) {
        owned := owned[name := EmptyTable()];
      }
    }

    // -------------------------------------------------------------------------
    // Material types and stickers
    // -------------------------------------------------------------------------

    /** `add_stokkodlu_malzeme_tip`. */
    method AddMaterialType(code: string, name: string, category: Option<string>, photo: Option<seq<byte>>)
      returns (ok: bool)
      modifies this
      ensures (Snapshot(), ok) == Inventory.AddMaterialType(old(Snapshot()), code, name, category, photo)
      ensures old(Valid()) ==> Valid()
    {
      if code in catalog {
        return false;
      }
      catalog := catalog[code := Material(name, category, photo)];
      CreateStockTable(code);
      return true;
    }

    /**
     * `add_sticker_stokkodlutablo`: the sticker table is created if missing,
     * then the batch goes in (see `InsertBatch`) and is committed.
     */
    method Mint(year: nat, code: string, count: int) returns (codes: seq<string>)
      modifies this
      ensures (Snapshot(), codes) == Inventory.Mint(old(Snapshot()), year, code, count)
      ensures old(Valid()) ==> Valid()
      ensures old(Valid()) && code in old(catalog) && IsBareName(StockTableName(code)) ==>
        |codes| == if count < 0 then 0 else count
    {
      if code !in catalog || !IsBareName(StockTableName(code)) {
        return [];
      }
      CreateStockTable(code);
      var name := StockTableName(code);
      var batch := InsertBatch(stock[name], year, code, count, StickerData(catalog[code].name, catalog[code].category));
      stock := stock[name := batch.0];
      return batch.1;
    }

    /** `delete_last_sticker_stokkodlutablo`. */
    method DeleteLastSticker(code: string) returns (deleted: Option<string>)
      modifies this
      ensures (Snapshot(), deleted) == Inventory.DeleteLastSticker(old(Snapshot()), code)
      ensures old(Valid()) ==> Valid()
    {
      var name := StockTableName(code);
      if name !in stock || !IsBareName(name) {
        return None;
      }
      var last := Last(stock[name]);
      if last.None? {
        return None;
      }
      stock := stock[name := DropLast(stock[name])];
      return Some(last.value.code);
    }

    /** The table moves of `update_malzeme_type`: on a code change, DROP the old table and CREATE the new one. */
    method MoveStockTables(oldCode: string, newCode: Option<string>)
      modifies this
      ensures Snapshot() == Inventory.MovedTables(old(Snapshot()), oldCode, newCode)
    {
      if Inventory.CodeChanges(oldCode, newCode) {
        DropStockTable(StockTableName(oldCode));
        CreateStockTable(newCode.value);
      }
    }

    /** The sticker-row UPDATE of `update_malzeme_type`. */
    method RestampStockTable(code: string, name: Option<string>, category: Option<string>)
      modifies this
      ensures Snapshot() == Inventory.RestampedTables(old(Snapshot()), code, name, category)
    {
      var tn := StockTableName(code);
      if (name.Some? || category.Some?) && tn in stock {
        stock := stock[tn := Inventory.Restamp(stock[tn], name, category)];
      }
    }

    /** `update_malzeme_type`, the photo already read into an edit. */
    method UpdateMaterialType(oldCode: string, newCode: Option<string>, name: Option<string>,
                              category: Option<string>, photo: Option<Inventory.PhotoEdit>) returns (ok: bool)
      modifies this
      ensures (Snapshot(), ok) == Inventory.UpdateMaterialType(old(Snapshot()), oldCode, newCode, name, category, photo)
      ensures old(Valid()) ==> Valid()
    {
      if newCode.None? && name.None? && category.None? && photo.None? {
        return false;
      }
      if oldCode !in catalog {
        return false;
      }
      if Inventory.CodeChanges(oldCode, newCode) && newCode.value in catalog {
        return false;
      }
      if Inventory.CodeChanges(oldCode, newCode) && !Parses(stock, StockTableName(oldCode)) {
        return false;
      }
      if (name.Some? || category.Some?) && !Parses(stock, StockTableName(Inventory.RestampCode(oldCode, newCode))) {
        return false;
      }
      var edited := Inventory.UpdatedCatalog(catalog, oldCode, newCode, name, category, photo);
      MoveStockTables(oldCode, newCode);
      catalog := edited;
      RestampStockTable(Inventory.RestampCode(oldCode, newCode), name, category);
      return true;
    }

    /** `delete_malzeme_type_complete`. */
    method DeleteMaterialType(code: string) returns (ok: bool)
      modifies this
      ensures (Snapshot(), ok) == Inventory.DeleteMaterialType(old(Snapshot()), code)
      ensures old(Valid()) ==> Valid()
    {
      if code !in catalog || !Parses(stock, StockTableName(code)) {
        return false;
      }
      DropStockTable(StockTableName(code));
      catalog := catalog - {code};
      return true;
    }

    /** `add_kategori`. */
    method AddCategory(category: string) returns (ok: bool)
      modifies this
      ensures (Snapshot(), ok) == Inventory.AddCategory(old(Snapshot()), category)
      ensures old(Valid()) ==> Valid()
    {
      if category in categories {
        return false;
      }
      categories := categories + {category};
      return true;
    }

    // -------------------------------------------------------------------------
    // Custody
    // -------------------------------------------------------------------------

    /** `add_zimmetle_malzeme`. */
    method Assign(person: string, s: string, itemName: string) returns (ok: bool)
      modifies this
      ensures (Snapshot(), ok) == Custody.Assign(old(Snapshot()), person, s, itemName)
      ensures old(Valid()) ==> Valid()
    {
      if !Registered(people, person) {
        return false;
      }
      var tn := PersonTableName(person);
      if tn !in owned {
        return false;
      }
      var t := Insert(owned[tn], s, itemName);
      if t.None? {
        return false;
      }
      owned := owned[tn := t.value];
      return true;
    }

    /** The scan of the sticker tables, in `sqlite_master` order, for the first row holding `s`. */
    method FindStockRow(s: string) returns (itemName: Option<string>)
      ensures itemName.None? <==> !Custody.InStock(Snapshot(), s)
      ensures itemName.Some? ==> Custody.InStock(Snapshot(), s) && itemName.value == Custody.StockName(Snapshot(), s)
    {
      itemName := None;
      var k := 0;
      while k < |stockOrder|
        invariant k <= |stockOrder|
        invariant itemName == None
        invariant forall j | 0 <= j < k :: !(stockOrder[j] in stock && Has(stock[stockOrder[j]], s))
      {
        var tn := stockOrder[k];
        if tn in stock {
          var row := Lookup(stock[tn], s);
          if row.Some? {
            itemName := Some(row.value.data.name);
            break;
          }
        }
        k := k + 1;
      }
      assert k == Custody.FirstStockHit(stockOrder, stock, s);
      if itemName.None? {
        Custody.NoHitMeansNotInStock(Snapshot(), s);
      } else {
        Custody.HitMeansInStock(Snapshot(), s);
      }
    }

    /** The scan of the people, in listing order, for the first whose item table holds `s`. */
    method FindOwner(listing: seq<nat>, s: string) returns (j: nat)
      requires forall m | 0 <= m < |listing| :: listing[m] in people
      ensures j == Custody.FirstOwner(listing, people, owned, s)
    {
      j := 0;
      while j < |listing|
        invariant j <= |listing|
        invariant forall m | 0 <= m < j :: !Custody.OwnsAt(people, owned, listing[m], s)
      {
        var tn := PersonTableName(people[listing[j]].name);
        if tn in owned && Has(owned[tn], s) {
          break;
        }
        j := j + 1;
      }
    }

    /** The transfer's DELETE: the first owner found loses `s` unless that owner's name is empty. */
    method ReleasedTables(s: string) returns (released: map<string, Table<string>>)
      ensures released == Custody.OwnedAfterRelease(Snapshot(), s)
    {
      var listing := Directory.ListingOrder(people);
      var j := FindOwner(listing, s);
      released := owned;
      if j < |listing| && people[listing[j]].name != "" {
        var tn := PersonTableName(people[listing[j]].name);
        released := released[tn := DeleteCode(released[tn], s)];
      }
    }

    /**
     * `update_varolana_yenizimmet`: the two scans, then the DELETE and the
     * INSERT, committed together.
     */
    method Transfer(s: string, newOwner: string) returns (ok: bool)
      modifies this
      ensures (Snapshot(), ok) == Custody.Transfer(old(Snapshot()), s, newOwner)
      ensures old(Valid()) ==> Valid()
    {
      var itemName := FindStockRow(s);
      if itemName.None? {
        return false;
      }
      Custody.TransferIsReassign(Snapshot(), s, newOwner);
      var released := ReleasedTables(s);
      var nt := PersonTableName(newOwner);
      if nt !in released {
        return false;
      }
      var t := Insert(released[nt], s, itemName.value);
      if t.None? {
        return false;
      }
      owned := released[nt := t.value];
      return true;
    }

    /** `delete_last_zimmet`. */
    method DeleteLastAssignment(person: string) returns (deleted: Option<string>)
      modifies this
      ensures (Snapshot(), deleted) == Custody.DeleteLastAssignment(old(Snapshot()), person)
      ensures old(Valid()) ==> Valid()
    {
      var tn := PersonTableName(person);
      if tn !in owned {
        return None;
      }
      var last := Last(owned[tn]);
      if last.None? {
        return None;
      }
      owned := owned[tn := DropLast(owned[tn])];
      return Some(last.value.code);
    }

    // -------------------------------------------------------------------------
    // People
    // -------------------------------------------------------------------------

    /** `add_kisi`. */
    method AddPerson(name: string, floor: int, branch: string) returns (id: int)
      modifies this
      ensures (Snapshot(), id) == People.AddPerson(old(Snapshot()), name, floor, branch)
      ensures old(Valid()) ==> Valid()
    {
      if Registered(people, name) {
        return -1;
      }
      peopleSeq := peopleSeq + 1;
      people := people[peopleSeq := Person(name, floor, branch)];
      CreateOwnerTable(name);
      return peopleSeq;
    }

    /** `update_kisi`. */
    method UpdatePerson(id: nat, name: Option<string>, floor: Option<int>, branch: Option<string>) returns (ok: bool)
      modifies this
      ensures (Snapshot(), ok) == People.UpdatePerson(old(Snapshot()), id, name, floor, branch)
      ensures old(Valid()) ==> Valid()
    {
      if name.Some? && People.NameTakenByOther(people, id, name.value) {
        return false;
      }
      if name.None? && floor.None? && branch.None? {
        return false;
      }
      if id !in people {
        return false;
      }
      var oldName := people[id].name;
      if name.Some? && name.value != oldName && PersonTableName(oldName) in owned {
        var oldTable, newTable := PersonTableName(oldName), PersonTableName(name.value);
        if newTable in owned || !IsQuotableName(oldTable) || !IsQuotableName(newTable) {
          // ALTER TABLE … RENAME TO an existing or unusable name fails: the row update is rolled back too
          return false;
        }
        owned := (owned - {oldTable})[newTable := owned[oldTable]];
      }
      people := people[id := People.Updated(people[id], name, floor, branch)];
      return true;
    }

    /** `delete_kisi_by_id`. */
    method DeletePerson(id: nat, name: string) returns (ok: bool)
      modifies this
      ensures (Snapshot(), ok) == People.DeletePerson(old(Snapshot()), id, name)
      ensures old(Valid()) ==> Valid()
    {
      people := people - {id};
      owned := owned - {PersonTableName(name)};
      return true;
    }
  }

  /**
   * The mint loop: one INSERT per code `maxId+1 … maxId+count`, numbered on
   * from the largest row id; the batch is given up, and the table returned
   * as it was, at the first UNIQUE violation.
   */
  method InsertBatch(t: Table<StickerData>, year: nat, code: string, count: int, data: StickerData)
    returns (r: (Table<StickerData>, seq<string>))
    ensures r == Inventory.MintInto(t, Inventory.MintedCodes(year, code, MaxId(t), count), data)
  {
    var lastId := MaxId(t);
    ghost var planned := Inventory.MintedCodes(year, code, lastId, count);
    var n := if count < 0 then 0 else count;
    var batch := t;
    var added: seq<string> := [];
    var i := 0;
    while i < n
      invariant 0 <= i <= n == |planned|
      invariant added == planned[..i]
      invariant InsertAll(t, added, data) == Some(batch)
    {
      var c := NextCode(year, code, lastId, count, i);
      var next := Insert(batch, c, data);
      if next.None? {
        MintCollision(t, planned, i, batch, data);
        return (t, []);
      }
      InsertAllSnoc(t, added, c, data, batch);
      PrefixSnoc(planned, i);
      batch, added, i := next.value, added + [c], i + 1;
    }
    assert added == planned;
    MintCommit(t, planned, batch, data);
    return (batch, added);
  }

  /** `create_sticker_id(code, maxId + i + 1)`: the `i`-th code of the batch. */
  method NextCode(year: nat, code: string, lastId: nat, count: int, i: nat) returns (c: string)
    requires i < count
    ensures c == Inventory.MintedCodes(year, code, lastId, count)[i]
  {
    c := StickerCode(year, code, lastId + i + 1);
    Inventory.MintedCodeAt(year, code, lastId, count, i);
  }

  lemma PrefixSnoc<T>(xs: seq<T>, i: nat)
    requires i < |xs|
    ensures xs[..i + 1] == xs[..i] + [xs[i]]
  {
  }

  /** In a table that lacked the first `i` planned codes, the code that failed to go in was there before the batch. */
  lemma MintCollision(t: Table<StickerData>, planned: seq<string>, i: nat, batch: Table<StickerData>, data: StickerData)
    requires i < |planned| && Distinct(planned)
    requires InsertAll(t, planned[..i], data) == Some(batch)
    requires Has(batch, planned[i])
    ensures Inventory.MintInto(t, planned, data) == (t, [])
  {
    HasAfterBatch(t, planned[..i], data, batch.seqNo, planned[i]);
    assert planned[i] !in planned[..i];
  }

  /** A batch whose every INSERT went in is what the transaction commits. */
  lemma MintCommit(t: Table<StickerData>, planned: seq<string>, batch: Table<StickerData>, data: StickerData)
    requires Distinct(planned) && InsertAll(t, planned, data) == Some(batch)
    ensures Inventory.MintInto(t, planned, data) == (batch, planned)
  {
  }

  /** Inserting one more code extends a batch that went in. */
  lemma InsertAllSnoc<D>(t: Table<D>, codes: seq<string>, c: string, data: D, batch: Table<D>)
    requires InsertAll(t, codes, data) == Some(batch)
    ensures InsertAll(t, codes + [c], data) == Insert(batch, c, data)
  {
    assert (codes + [c])[..|codes|] == codes;
  }
}
