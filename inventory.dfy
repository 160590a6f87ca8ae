/**
 * Material types and their sticker tables: `add_stokkodlu_malzeme_tip`,
 * `add_sticker_stokkodlutablo`, `delete_last_sticker_stokkodlutablo`,
 * `update_malzeme_type`, `delete_malzeme_type_complete` and `add_kategori`
 * (database.py:158-315, 347-419, 601-620), as transitions of the store.
 */
module Inventory {
  import opened Wrappers
  import opened Naming
  import opened Tables
  import opened Catalog
  import opened Database

  // ---------------------------------------------------------------------------
  // add_stokkodlu_malzeme_tip
  // ---------------------------------------------------------------------------

  /**
   * Registers a material type and creates its sticker table if absent; an
   * already registered code is refused. `photo` is the file's bytes when a
   * readable file was named. When the table name does not parse the CREATE
   * fails unseen and the material is registered without a table.
   */
  function AddMaterialType(db: Db, code: string, name: string, category: Option<string>, photo: Option<seq<byte>>): (r: (Db, bool))
    ensures r.1 <==> code !in db.catalog
    ensures !r.1 ==> r.0 == db
    ensures r.1 ==> r.0.catalog == db.catalog[code := Material(name, category, photo)]
    ensures r.1 ==> r.0.stock.Keys == db.stock.Keys + (if IsBareName(StockTableName(code)) then {StockTableName(code)} else {})
    ensures r.1 && StockTableName(code) !in db.stock && IsBareName(StockTableName(code)) ==>
      && r.0.stock[StockTableName(code)].rows == []
      && r.0.stockOrder == db.stockOrder + [StockTableName(code)]
    ensures StockTableName(code) in db.stock || !IsBareName(StockTableName(code)) ==> r.0.stockOrder == db.stockOrder
    ensures forall n | n in db.stock :: r.0.stock[n] == db.stock[n]
    ensures r.0.people == db.people && r.0.peopleSeq == db.peopleSeq
    ensures r.0.owned == db.owned && r.0.categories == db.categories
    ensures Valid(db) ==> Valid(r.0)
  {
    if code in db.catalog then (db, false)
    else
      var catalog := db.catalog[code := Material(name, category, photo)];
      ValidWithCatalog(db, catalog);
      (WithStockTable(db.(catalog := catalog), code), true)
  }

  // ---------------------------------------------------------------------------
  // add_sticker_stokkodlutablo
  // ---------------------------------------------------------------------------

  /** Appending a code with the next number keeps a numbered batch numbered, hence distinct. */
  lemma AppendNumbered(prefix: seq<string>, c: string, maxId: nat)
    requires NumberedFrom(prefix, maxId) && StickerNumber(c) == maxId + |prefix| + 1
    ensures NumberedFrom(prefix + [c], maxId) && Distinct(prefix + [c])
  {
    var r := prefix + [c];
    assert forall i | 0 <= i < |prefix| :: r[i] == prefix[i];
    forall i, j | 0 <= i < j < |r| ensures r[i] != r[j] {
      assert StickerNumber(r[i]) != StickerNumber(r[j]);
    }
  }

  /**
   * The codes one mint call builds, in loop order: `range(count)` numbered on
   * from the largest row id `maxId`; a negative count yields none. Each code
   * is spelled out by `MintedCodeAt`.
   */
  function MintedCodes(year: nat, code: string, maxId: nat, count: int): (r: seq<string>)
    ensures |r| == if count < 0 then 0 else count
    ensures NumberedFrom(r, maxId) && Distinct(r)
    decreases if count < 0 then 0 else count
  {
    if count <= 0 then []
    else
      var prefix := MintedCodes(year, code, maxId, count - 1);
      var c := StickerCode(year, code, maxId + count);
      StickerNumberOfCode(year, code, maxId + count);
      AppendNumbered(prefix, c, maxId);
      prefix + [c]
  }

  /** The `i`-th minted code is `create_sticker_id(code, maxId + i + 1)`. */
  lemma {:induction false} MintedCodeAt(year: nat, code: string, maxId: nat, count: int, i: nat)
    requires i < count
    ensures MintedCodes(year, code, maxId, count)[i] == StickerCode(year, code, maxId + i + 1)
    decreases count
  {
    if i < count - 1 {
      MintedCodeAt(year, code, maxId, count - 1, i);
    }
  }

  /** Codes whose numbers run on from `base`. */
  predicate NumberedFrom(codes: seq<string>, base: nat)
  {
    forall i | 0 <= i < |codes| :: StickerNumber(codes[i]) == base + i + 1
  }

  /** A number above the largest row id is on no row of a table whose numbers stay below their ids. */
  lemma NumberAboveIdsIsNew(t: Table<StickerData>, c: string)
    requires WellFormed(t) && NumbersBelowIds(t) && StickerNumber(c) > MaxId(t)
    ensures !Has(t, c)
  {
    forall k | 0 <= k < |t.rows| ensures t.rows[k].code != c {
      assert StickerNumber(t.rows[k].code) <= t.rows[k].id <= MaxId(t);
    }
  }

  /** The appended rows keep every number at or below its row id. */
  lemma AppendKeepsNumbersBelowIds(t: Table<StickerData>, codes: seq<string>, data: StickerData)
    requires WellFormed(t) && NumbersBelowIds(t) && NumberedFrom(codes, MaxId(t))
    ensures NumbersBelowIds(Table(t.rows + NewRows(t.seqNo, codes, data), t.seqNo + |codes|))
  {
    var added := NewRows(t.seqNo, codes, data);
    var rows := t.rows + added;
    forall i | 0 <= i < |rows| ensures StickerNumber(rows[i].code) <= rows[i].id {
      if i >= |t.rows| {
        assert rows[i] == added[i - |t.rows|];
      } else {
        assert rows[i] == t.rows[i];
      }
    }
  }

  /**
   * One mint batch on one sticker table, in one transaction: every code goes
   * in, or the table is left as it was and no code is returned. In a table
   * whose numbers stay below their row ids, codes numbered on from the
   * largest id always go in: the UNIQUE rollback of database.py:229-234 never
   * fires there.
   */
  function MintInto(t: Table<StickerData>, codes: seq<string>, data: StickerData): (r: (Table<StickerData>, seq<string>))
    requires Distinct(codes)
    ensures (exists i | 0 <= i < |codes| :: Has(t, codes[i])) ==> r == (t, [])
    ensures (forall i | 0 <= i < |codes| :: !Has(t, codes[i])) ==>
      r == (Table(t.rows + NewRows(t.seqNo, codes, data), t.seqNo + |codes|), codes)
    ensures WellFormed(t) ==> WellFormed(r.0)
    ensures WellFormed(t) && NumbersBelowIds(t) && NumberedFrom(codes, MaxId(t)) ==>
      r.1 == codes && NumbersBelowIds(r.0)
  {
    FreshBatchFacts(t, codes, data);
    match InsertAll(t, codes, data)
    case None => (t, [])
    case Some(t') => (t', codes)
  }

  lemma FreshBatchFacts(t: Table<StickerData>, codes: seq<string>, data: StickerData)
    ensures WellFormed(t) && NumbersBelowIds(t) && NumberedFrom(codes, MaxId(t)) ==>
      && (forall i | 0 <= i < |codes| :: !Has(t, codes[i]))
      && NumbersBelowIds(Table(t.rows + NewRows(t.seqNo, codes, data), t.seqNo + |codes|))
  {
    if WellFormed(t) && NumbersBelowIds(t) && NumberedFrom(codes, MaxId(t)) {
      forall i | 0 <= i < |codes| ensures !Has(t, codes[i]) {
        NumberAboveIdsIsNew(t, codes[i]);
      }
      AppendKeepsNumbersBelowIds(t, codes, data);
    }
  }

  /** Replacing one sticker table by a well-formed one keeps the store valid. */
  lemma ReplacingStockTableKeepsValid(db: Db, name: string, t: Table<StickerData>)
    requires name in db.stock
    ensures Valid(db) && WellFormed(t) && NumbersBelowIds(t) ==> Valid(db.(stock := db.stock[name := t]))
  {
  }

  /**
   * `add_sticker_stokkodlutablo(code, count)`. An unknown code gives `[]` and
   * no change. Otherwise the sticker table is created if missing (and stays
   * created whatever follows), and `count` codes numbered on from the largest
   * row id are inserted in one transaction, each row carrying the material's
   * current name and category; if any code is already in the table the batch
   * is rolled back and `[]` is returned. When the table name does not parse
   * no table is created and the SELECT of the largest id fails: `[]`.
   */
  function Mint(db: Db, year: nat, code: string, count: int): (r: (Db, seq<string>))
    ensures code !in db.catalog || !IsBareName(StockTableName(code)) ==> r == (db, [])
    ensures code in db.catalog && IsBareName(StockTableName(code)) ==>
      var made := WithStockTable(db, code);
      var name := StockTableName(code);
      var t := made.stock[name];
      var m := MintInto(t, MintedCodes(year, code, MaxId(t), count), StickerData(db.catalog[code].name, db.catalog[code].category));
      r == (made.(stock := made.stock[name := m.0]), m.1)
    ensures Valid(db) && code in db.catalog && IsBareName(StockTableName(code)) ==>
      |r.1| == if count < 0 then 0 else count
    ensures Valid(db) ==> Valid(r.0)
  {
    if code !in db.catalog || !IsBareName(StockTableName(code)) then (db, [])
    else
      var made := WithStockTable(db, code);
      var name := StockTableName(code);
      var t := made.stock[name];
      var m := MintInto(t, MintedCodes(year, code, MaxId(t), count), StickerData(db.catalog[code].name, db.catalog[code].category));
      ReplacingStockTableKeepsValid(made, name, m.0);
      (made.(stock := made.stock[name := m.0]), m.1)
  }

  // ---------------------------------------------------------------------------
  // delete_last_sticker_stokkodlutablo
  // ---------------------------------------------------------------------------

  /** Dropping the newest row keeps every remaining number below its id. */
  lemma DropLastKeepsNumbersBelowIds(t: Table<StickerData>)
    requires t.rows != []
    ensures NumbersBelowIds(t) ==> NumbersBelowIds(DropLast(t))
  {
    var r := DropLast(t);
    if NumbersBelowIds(t) {
      forall i | 0 <= i < |r.rows| ensures StickerNumber(r.rows[i].code) <= r.rows[i].id {
        assert r.rows[i] == t.rows[i];
      }
    }
  }

  /**
   * Removes the sticker row with the largest id and returns its code; `None`
   * and no change when the table is missing or empty or its name does not
   * parse. Item tables are not consulted, so an assigned sticker can be
   * removed.
   */
  function DeleteLastSticker(db: Db, code: string): (r: (Db, Option<string>))
    ensures var name := StockTableName(code);
      (name !in db.stock || !IsBareName(name) || db.stock[name].rows == []) ==> r == (db, None)
    ensures var name := StockTableName(code);
      name in db.stock && IsBareName(name) && db.stock[name].rows != [] ==>
        var t := db.stock[name];
        && r.1 == Some(t.rows[|t.rows| - 1].code)
        && r.0 == db.(stock := db.stock[name := Table(t.rows[..|t.rows| - 1], t.seqNo)])
    ensures Valid(db) && r.1.Some? ==>
      var t := db.stock[StockTableName(code)];
      forall i | 0 <= i < |t.rows| - 1 :: t.rows[i].id < t.rows[|t.rows| - 1].id
    ensures Valid(db) ==> Valid(r.0)
  {
    var name := StockTableName(code);
    if name !in db.stock || !IsBareName(name) || db.stock[name].rows == [] then (db, None)
    else
      var t := db.stock[name];
      DropLastKeepsNumbersBelowIds(t);
      ReplacingStockTableKeepsValid(db, name, DropLast(t));
      (db.(stock := db.stock[name := DropLast(t)]), Some(Last(t).value.code))
  }

  // ---------------------------------------------------------------------------
  // update_malzeme_type
  // ---------------------------------------------------------------------------

  /** A photo change: `""` clears the photo, a readable file replaces it. */
  datatype PhotoEdit = Clear | Replace(bytes: seq<byte>)

  /** The catalog row after `UPDATE malzemetypes SET …`: absent arguments keep their column. */
  function Edited(m: Material, name: Option<string>, category: Option<string>, photo: Option<PhotoEdit>): (r: Material)
    ensures r.name == (if name.Some? then name.value else m.name)
    ensures r.category == (if category.Some? then category else m.category)
    ensures photo.None? ==> r.photo == m.photo
    ensures photo == Some(Clear) ==> r.photo == None
    ensures photo.Some? && photo.value.Replace? ==> r.photo == Some(photo.value.bytes)
  {
    Material(
      name.GetOr(m.name),
      if category.Some? then category else m.category,
      match photo
      case None => m.photo
      case Some(Clear) => None
      case Some(Replace(bytes)) => Some(bytes))
  }

  /** A sticker row's copy of name and category after the restamp. */
  function Restamped(d: StickerData, name: Option<string>, category: Option<string>): StickerData
  {
    StickerData(name.GetOr(d.name), if category.Some? then category else d.category)
  }

  /**
   * `UPDATE stok_… SET isim = ?, kategori = ?` without a WHERE clause: every
   * row gets the new values, ids and codes stay.
   */
  function Restamp(t: Table<StickerData>, name: Option<string>, category: Option<string>): (r: Table<StickerData>)
    ensures r.seqNo == t.seqNo && |r.rows| == |t.rows|
    ensures forall i | 0 <= i < |t.rows| ::
      && r.rows[i].id == t.rows[i].id && r.rows[i].code == t.rows[i].code
      && r.rows[i].data.name == (if name.Some? then name.value else t.rows[i].data.name)
      && r.rows[i].data.category == (if category.Some? then category else t.rows[i].data.category)
    ensures WellFormed(t) ==> WellFormed(r)
    ensures NumbersBelowIds(t) ==> NumbersBelowIds(r)
  {
    var rows := seq(|t.rows|, i requires 0 <= i < |t.rows| =>
      Row(t.rows[i].id, t.rows[i].code, Restamped(t.rows[i].data, name, category)));
    Table(rows, t.seqNo)
  }

  /** Whether a change of stock code was asked for (`yeni_stokkodu != eski_stokkodu`). */
  predicate CodeChanges(oldCode: string, newCode: Option<string>)
  {
    newCode.Some? && newCode.value != oldCode
  }

  /**
   * The code whose sticker table gets restamped: the new one only when it is
   * a non-empty string different from the old one (Python truthiness). It is
   * the code the catalog row ends up under, except for a new code of `""`,
   * which re-keys the row but leaves the old code's table to be restamped.
   */
  function RestampCode(oldCode: string, newCode: Option<string>): (c: string)
    ensures newCode != Some("") ==> c == newCode.GetOr(oldCode)
    ensures newCode == Some("") ==> c == oldCode
  {
    if CodeChanges(oldCode, newCode) && newCode.value != "" then newCode.value else oldCode
  }

  /** The catalog, keyed by the final code, after a successful update. */
  function UpdatedCatalog(catalog: map<string, Material>, oldCode: string, newCode: Option<string>,
                          name: Option<string>, category: Option<string>, photo: Option<PhotoEdit>): (r: map<string, Material>)
    requires oldCode in catalog
    ensures var key := newCode.GetOr(oldCode);
      && r.Keys == catalog.Keys - {oldCode} + {key}
      && r[key] == Edited(catalog[oldCode], name, category, photo)
      && forall k | k in catalog && k != oldCode && k != key :: r[k] == catalog[k]
  {
    (catalog - {oldCode})[newCode.GetOr(oldCode) := Edited(catalog[oldCode], name, category, photo)]
  }

  /**
   * The sticker tables after a code change: the old one dropped, the new one
   * created if absent and its name parses.
   */
  function MovedTables(db: Db, oldCode: string, newCode: Option<string>): (r: Db)
    ensures r.catalog == db.catalog && r.people == db.people && r.peopleSeq == db.peopleSeq
    ensures r.owned == db.owned && r.categories == db.categories
    ensures CodeChanges(oldCode, newCode) ==>
      var tn := StockTableName(newCode.value);
      && (tn in r.stock <==> IsBareName(tn) || (tn in db.stock && tn != StockTableName(oldCode)))
      && (tn in r.stock && (tn == StockTableName(oldCode) || tn !in db.stock) ==> r.stock[tn].rows == [])
      && (StockTableName(newCode.value) != StockTableName(oldCode) ==> StockTableName(oldCode) !in r.stock)
    ensures !CodeChanges(oldCode, newCode) ==> r == db
    ensures CodeChanges(oldCode, newCode) ==>
      var tn := StockTableName(newCode.value);
      r.stockOrder == Without(db.stockOrder, StockTableName(oldCode))
        + (if IsBareName(tn) && (tn !in db.stock || tn == StockTableName(oldCode)) then [tn] else [])
    ensures forall n | n in db.stock && n != StockTableName(oldCode) :: n in r.stock && r.stock[n] == db.stock[n]
    ensures forall n | n in r.stock && n !in db.stock :: CodeChanges(oldCode, newCode) && n == StockTableName(newCode.value)
    ensures Valid(db) ==> Valid(r)
  {
    if CodeChanges(oldCode, newCode) then
      MovedOrder(db, StockTableName(oldCode), newCode.value);
      WithStockTable(WithoutStockTable(db, StockTableName(oldCode)), newCode.value)
    else db
  }

  /** The scan order after DROP TABLE of `oldName` and CREATE TABLE IF NOT EXISTS for `code`. */
  lemma MovedOrder(db: Db, oldName: string, code: string)
    ensures var tn := StockTableName(code);
      WithStockTable(WithoutStockTable(db, oldName), code).stockOrder
        == Without(db.stockOrder, oldName) + (if IsBareName(tn) && (tn !in db.stock || tn == oldName) then [tn] else [])
  {
    var d := WithoutStockTable(db, oldName);
    var tn := StockTableName(code);
    if !IsBareName(tn) || tn in d.stock {
      assert Without(db.stockOrder, oldName) + [] == Without(db.stockOrder, oldName);
    }
  }

  /** The restamp step: the table of `code`, when it exists and a field was given. */
  function RestampedTables(db: Db, code: string, name: Option<string>, category: Option<string>): (r: Db)
    ensures r.catalog == db.catalog && r.stockOrder == db.stockOrder && r.people == db.people
    ensures r.peopleSeq == db.peopleSeq && r.owned == db.owned && r.categories == db.categories
    ensures r.stock.Keys == db.stock.Keys
    ensures var tn := StockTableName(code);
      tn in db.stock && (name.Some? || category.Some?) ==> r.stock[tn] == Restamp(db.stock[tn], name, category)
    ensures forall n | n in db.stock && (n != StockTableName(code) || (name.None? && category.None?)) :: r.stock[n] == db.stock[n]
    ensures Valid(db) ==> Valid(r)
  {
    var tn := StockTableName(code);
    if (name.Some? || category.Some?) && tn in db.stock then
      ReplacingStockTableKeepsValid(db, tn, Restamp(db.stock[tn], name, category));
      db.(stock := db.stock[tn := Restamp(db.stock[tn], name, category)])
    else db
  }

  /** Whether `update_malzeme_type` commits. */
  predicate UpdateCommits(db: Db, oldCode: string, newCode: Option<string>,
                          name: Option<string>, category: Option<string>, photo: Option<PhotoEdit>)
  {
    && (newCode.Some? || name.Some? || category.Some? || photo.Some?)
    && oldCode in db.catalog
    && !(CodeChanges(oldCode, newCode) && newCode.value in db.catalog)
    && (CodeChanges(oldCode, newCode) ==> Parses(db.stock, StockTableName(oldCode)))
    && (name.Some? || category.Some? ==> Parses(db.stock, StockTableName(RestampCode(oldCode, newCode))))
  }

  /**
   * `update_malzeme_type`. It fails without change when no field is given,
   * when the old code is unknown (no row updated) and when the new code is
   * already another material's (PRIMARY KEY violation), and when the DROP or
   * the UPDATE names an existing table whose name does not parse (all its
   * statements are rolled back). Otherwise the catalog
   * row is updated and moved to the new code; a code change drops the old
   * sticker table and creates the new code's table if absent; a new name or
   * category is copied onto every row of the restamp code's table.
   */
  function UpdateMaterialType(db: Db, oldCode: string, newCode: Option<string>,
                              name: Option<string>, category: Option<string>, photo: Option<PhotoEdit>): (r: (Db, bool))
    ensures r.1 <==> UpdateCommits(db, oldCode, newCode, name, category, photo)
    ensures !r.1 ==> r.0 == db
    ensures r.1 ==> r.0.catalog == UpdatedCatalog(db.catalog, oldCode, newCode, name, category, photo)
    ensures r.1 && !CodeChanges(oldCode, newCode) ==> r.0.stockOrder == db.stockOrder
    ensures r.1 && CodeChanges(oldCode, newCode) ==>
      var tn := StockTableName(newCode.value);
      r.0.stockOrder == Without(db.stockOrder, StockTableName(oldCode))
        + (if IsBareName(tn) && (tn !in db.stock || tn == StockTableName(oldCode)) then [tn] else [])
    ensures r.0.people == db.people && r.0.peopleSeq == db.peopleSeq
    ensures r.0.owned == db.owned && r.0.categories == db.categories
    ensures Valid(db) ==> Valid(r.0)
  {
    if !UpdateCommits(db, oldCode, newCode, name, category, photo) then (db, false)
    else
      var moved := MovedTables(db, oldCode, newCode);
      var catalog := UpdatedCatalog(db.catalog, oldCode, newCode, name, category, photo);
      ValidWithCatalog(moved, catalog);
      var recataloged := moved.(catalog := catalog);
      (RestampedTables(recataloged, RestampCode(oldCode, newCode), name, category), true)
  }

  /**
   * A code change drops the old sticker table and leaves an empty one for the
   * new code, unless the new code's table already existed under another name,
   * in which case that table keeps its rows and is restamped. No other
   * sticker table appears, disappears or changes.
   */
  lemma CodeChangeRenewsTable(db: Db, oldCode: string, newCode: Option<string>,
                              name: Option<string>, category: Option<string>, photo: Option<PhotoEdit>)
    requires CodeChanges(oldCode, newCode)
    ensures var r := UpdateMaterialType(db, oldCode, newCode, name, category, photo);
      var tn := StockTableName(newCode.value);
      r.1 ==>
        && (tn in r.0.stock <==> IsBareName(tn) || (tn in db.stock && tn != StockTableName(oldCode)))
        && (tn in r.0.stock && (tn == StockTableName(oldCode) || tn !in db.stock) ==> r.0.stock[tn].rows == [])
        && (forall n | n in db.stock && n != StockTableName(oldCode) && n != tn :: n in r.0.stock && r.0.stock[n] == db.stock[n])
        && (forall n | n in r.0.stock :: n in db.stock || n == tn)
        && (tn != StockTableName(oldCode) ==> StockTableName(oldCode) !in r.0.stock)
        && (tn != StockTableName(oldCode) && tn in db.stock && newCode.value != "" && (name.Some? || category.Some?) ==>
              r.0.stock[tn] == Restamp(db.stock[tn], name, category))
  {
    var r := UpdateMaterialType(db, oldCode, newCode, name, category, photo);
    if r.1 {
      var tn := StockTableName(newCode.value);
      var moved := MovedTables(db, oldCode, newCode);
      var catalog := UpdatedCatalog(db.catalog, oldCode, newCode, name, category, photo);
      ValidWithCatalog(moved, catalog);
      var recataloged := moved.(catalog := catalog);
      assert r.0 == RestampedTables(recataloged, RestampCode(oldCode, newCode), name, category);
      if tn != StockTableName(oldCode) && tn in db.stock {
        assert recataloged.stock[tn] == db.stock[tn];
      }
    }
  }

  /**
   * Without a code change the sticker table keeps its ids and codes, and a
   * new name or category is copied onto every one of its rows.
   */
  lemma FieldChangeRestampsRows(db: Db, oldCode: string, newCode: Option<string>,
                                name: Option<string>, category: Option<string>, photo: Option<PhotoEdit>)
    requires !CodeChanges(oldCode, newCode)
    ensures var r := UpdateMaterialType(db, oldCode, newCode, name, category, photo);
      var tn := StockTableName(oldCode);
      r.1 ==>
        && (tn in r.0.stock <==> tn in db.stock)
        && (tn in db.stock && (name.Some? || category.Some?) ==> r.0.stock[tn] == Restamp(db.stock[tn], name, category))
        && (tn in db.stock && name.None? && category.None? ==> r.0.stock[tn] == db.stock[tn])
        && (forall n | n in db.stock :: n in r.0.stock && (n != tn ==> r.0.stock[n] == db.stock[n]))
  {
  }

  // ---------------------------------------------------------------------------
  // delete_malzeme_type_complete
  // ---------------------------------------------------------------------------

  /**
   * Drops the code's sticker table (if any) and its catalog row; an unknown
   * code is refused, and so is a DROP of a table whose name does not parse.
   * Item tables are left alone, so records of its stickers
   * stay behind.
   */
  function DeleteMaterialType(db: Db, code: string): (r: (Db, bool))
    ensures r.1 <==> code in db.catalog && Parses(db.stock, StockTableName(code))
    ensures !r.1 ==> r.0 == db
    ensures r.1 ==> r.0.catalog == db.catalog - {code} && StockTableName(code) !in r.0.stock
    ensures r.1 ==> r.0.stock == db.stock - {StockTableName(code)}
    ensures r.1 ==> r.0.stockOrder == Without(db.stockOrder, StockTableName(code))
    ensures r.0.owned == db.owned && r.0.people == db.people && r.0.peopleSeq == db.peopleSeq
    ensures r.0.categories == db.categories
    ensures Valid(db) ==> Valid(r.0)
  {
    if code !in db.catalog || !Parses(db.stock, StockTableName(code)) then (db, false)
    else
      var dropped := WithoutStockTable(db, StockTableName(code));
      ValidWithCatalog(dropped, db.catalog - {code});
      (dropped.(catalog := db.catalog - {code}), true)
  }

  // ---------------------------------------------------------------------------
  // add_kategori
  // ---------------------------------------------------------------------------

  /** Adds a category name; an existing one is refused (UNIQUE column). */
  function AddCategory(db: Db, category: string): (r: (Db, bool))
    ensures r.1 <==> category !in db.categories
    ensures r.0 == db.(categories := db.categories + {category})
    ensures Valid(db) ==> Valid(r.0)
  {
    if category in db.categories then (db, false)
    else (db.(categories := db.categories + {category}), true)
  }

  // ---------------------------------------------------------------------------
  // Row ids and code numbers
  // ---------------------------------------------------------------------------

  /**
   * Deleting the last sticker undoes a one-sticker mint: the rows are back as
   * they were and the deleted code is the minted one, but the AUTOINCREMENT
   * counter stays one higher.
   */
  lemma DeleteLastUndoesMint(t: Table<StickerData>, codes: seq<string>, data: StickerData)
    requires |codes| == 1 && !Has(t, codes[0])
    ensures var m := MintInto(t, codes, data);
      && m.1 == codes
      && m.0.rows != []
      && Last(m.0).value == Row(t.seqNo + 1, codes[0], data)
      && DropLast(m.0) == Table(t.rows, t.seqNo + 1)
  {
    var m := MintInto(t, codes, data);
    assert m.0 == Table(t.rows + NewRows(t.seqNo, codes, data), t.seqNo + 1);
    assert (t.rows + NewRows(t.seqNo, codes, data))[..|t.rows|] == t.rows;
  }

  /** Two mint batches build the same code for the same number. */
  lemma SameNumberSameCode(year: nat, code: string, a: nat, ca: int, i: nat, b: nat, cb: int, j: nat)
    requires i < ca && j < cb && a + i == b + j
    ensures MintedCodes(year, code, a, ca)[i] == MintedCodes(year, code, b, cb)[j]
  {
    MintedCodeAt(year, code, a, ca, i);
    MintedCodeAt(year, code, b, cb, j);
  }

  /** A fresh table after minting three and deleting the last one. */
  lemma MintThreeDeleteOne(year: nat, code: string, data: StickerData)
    ensures var t1 := MintInto(EmptyTable(), MintedCodes(year, code, 0, 3), data).0;
      && |t1.rows| == 3 && t1.rows[2].code == MintedCodes(year, code, 0, 3)[2]
      && var t2 := DropLast(t1);
         WellFormed(t2) && NumbersBelowIds(t2) && MaxId(t2) == 2 && t2.seqNo == 3
  {
    FreshThreeDropLast(MintedCodes(year, code, 0, 3), data);
  }

  lemma FreshThreeDropLast(codes: seq<string>, data: StickerData)
    requires |codes| == 3 && Distinct(codes) && NumberedFrom(codes, 0)
    ensures var t1 := MintInto(EmptyTable(), codes, data).0;
      && |t1.rows| == 3 && t1.rows[2].code == codes[2]
      && var t2 := DropLast(t1);
         WellFormed(t2) && NumbersBelowIds(t2) && MaxId(t2) == 2 && t2.seqNo == 3
  {
    var t1 := MintInto(EmptyTable(), codes, data).0;
    FreshMint(codes, data);
    DropThird(t1);
  }

  /** Minting into a fresh table: rows numbered 1, 2, … in batch order. */
  lemma FreshMint(codes: seq<string>, data: StickerData)
    requires Distinct(codes) && NumberedFrom(codes, 0)
    ensures var t1 := MintInto(EmptyTable(), codes, data).0;
      && t1 == Table(NewRows(0, codes, data), |codes|)
      && WellFormed(t1) && NumbersBelowIds(t1)
  {
    var t0: Table<StickerData> := EmptyTable();
    assert MaxId(t0) == 0;
    assert t0.rows + NewRows(0, codes, data) == NewRows(0, codes, data);
  }

  lemma DropThird(t1: Table<StickerData>)
    requires |t1.rows| == 3 && t1.seqNo == 3 && t1.rows[1].id == 2
    requires WellFormed(t1) && NumbersBelowIds(t1)
    ensures var t2 := DropLast(t1);
      WellFormed(t2) && NumbersBelowIds(t2) && MaxId(t2) == 2 && t2.seqNo == 3
  {
    DropLastKeepsNumbersBelowIds(t1);
    assert DropLast(t1).rows[1] == t1.rows[1];
  }

  /**
   * Row ids and code numbers drift apart: in a fresh table, mint three and
   * delete the last. The next mint reissues the deleted code, number 3, on
   * row 4; the mint after it skips number 4 and issues number 5 on row 5.
   */
  lemma NumbersReissuedAfterDeleteLast(year: nat, code: string, data: StickerData)
    ensures var t1 := MintInto(EmptyTable(), MintedCodes(year, code, 0, 3), data).0;
      && |t1.rows| == 3
      && var t2 := DropLast(t1);
         var m3 := MintInto(t2, MintedCodes(year, code, MaxId(t2), 1), data);
         var m4 := MintInto(m3.0, MintedCodes(year, code, MaxId(m3.0), 1), data);
         && m3.1 == [t1.rows[2].code] && StickerNumber(m3.1[0]) == 3 && MaxId(m3.0) == 4
         && |m4.1| == 1 && StickerNumber(m4.1[0]) == 5 && MaxId(m4.0) == 5
  {
    MintThreeDeleteOne(year, code, data);
    var t1 := MintInto(EmptyTable(), MintedCodes(year, code, 0, 3), data).0;
    var t2 := DropLast(t1);
    var c3 := MintedCodes(year, code, 2, 1);
    SameNumberSameCode(year, code, 0, 3, 2, 2, 1, 0);
    FreshBatchFacts(t2, c3, data);
    DeleteLastUndoesMint(t2, c3, data);
    var m3 := MintInto(t2, c3, data);
    var c4 := MintedCodes(year, code, 4, 1);
    FreshBatchFacts(m3.0, c4, data);
    DeleteLastUndoesMint(m3.0, c4, data);
  }
}
