/**
 * The SQLite file as one value: the catalog, one sticker table per stock
 * table name, the people with their AUTOINCREMENT counter, one item table
 * per person table name, and the category set. `sqlite_master` lookups
 * become map membership.
 */
module Database {
  import opened Wrappers
  import opened Tables
  import opened Naming
  import opened Catalog
  import opened Directory

  datatype Db = Db(
    catalog: map<string, Material>,
    /** Sticker tables by table name (`stok_…`); rows carry name and category. */
    stock: map<string, Table<StickerData>>,
    /** The sticker tables in `sqlite_master` order, which the transfer scan follows. */
    stockOrder: seq<string>,
    people: map<nat, Person>,
    /** The `sqlite_sequence` entry of `kisiler`. */
    peopleSeq: nat,
    /** Item tables by table name (`…_malzemeleri`); rows carry the item name. */
    owned: map<string, Table<string>>,
    categories: set<string>)

  /** The store right after `create_database`. */
  function EmptyDb(): (db: Db)
    ensures Valid(db)
    ensures db.catalog == map[] && db.stock == map[] && db.people == map[] && db.owned == map[]
  {
    Db(map[], map[], [], map[], 0, map[], {})
  }

  /**
   * Sticker codes are numbered from the largest row id (database.py:214-217)
   * and row ids only grow, so no code carries a number above its row's id.
   */
  ghost predicate NumbersBelowIds(t: Table<StickerData>)
  {
    forall i | 0 <= i < |t.rows| :: StickerNumber(t.rows[i].code) <= t.rows[i].id
  }

  predicate DistinctNames(order: seq<string>)
  {
    forall i, j | 0 <= i < j < |order| :: order[i] != order[j]
  }

  /** What every reachable state satisfies. */
  ghost predicate Valid(db: Db)
  {
    && (forall n | n in db.stock :: WellFormed(db.stock[n]) && NumbersBelowIds(db.stock[n]))
    && (forall n | n in db.stock :: IsBareName(n))
    && (forall n | n in db.owned :: WellFormed(db.owned[n]))
    && (forall n | n in db.owned :: IsQuotableName(n))
    && DistinctNames(db.stockOrder)
    && (forall n :: n in db.stockOrder <==> n in db.stock)
    && (forall id | id in db.people :: 1 <= id <= db.peopleSeq)
    && UniqueNames(db.people)
  }

  /** `order` without `name`, the rest kept in order. */
  function Without(order: seq<string>, name: string): (r: seq<string>)
    ensures forall x :: x in r <==> x in order && x != name
    ensures DistinctNames(order) ==> DistinctNames(r)
  {
    if order == [] then []
    else
      var tail := Without(order[1..], name);
      if order[0] == name then tail
      else
        var r := [order[0]] + tail;
        assert forall i | 1 <= i < |r| :: r[i] == tail[i - 1];
        assert DistinctNames(order) ==> DistinctNames(r) by {
          if DistinctNames(order) {
            assert DistinctNames(order[1..]) by {
              forall i, j | 0 <= i < j < |order| - 1 ensures order[1..][i] != order[1..][j] {
                assert order[1..][i] == order[i + 1] && order[1..][j] == order[j + 1];
              }
            }
            assert order[0] !in order[1..];
            forall i, j | 0 <= i < j < |r| ensures r[i] != r[j] {
              if i == 0 { assert r[j] in tail; }
            }
          }
        }
        r
  }

  /**
   * `create_stokkodu_table`: CREATE TABLE IF NOT EXISTS for the code's sticker
   * table. The statement fails, and nothing is created, when the table name
   * is not one bare identifier; the failure is swallowed (database.py:68-72).
   */
  function WithStockTable(db: Db, code: string): (r: Db)
    ensures IsBareName(StockTableName(code)) ==> StockTableName(code) in r.stock
    ensures StockTableName(code) in db.stock || !IsBareName(StockTableName(code)) ==> r == db
    ensures StockTableName(code) !in db.stock && IsBareName(StockTableName(code)) ==>
      && r.stock == db.stock[StockTableName(code) := EmptyTable()]
      && r.stockOrder == db.stockOrder + [StockTableName(code)]
    ensures r.catalog == db.catalog && r.people == db.people && r.peopleSeq == db.peopleSeq
    ensures r.owned == db.owned && r.categories == db.categories
    ensures Valid(db) ==> Valid(r)
    ensures Valid(db) ==> (StockTableName(code) in r.stock <==> IsBareName(StockTableName(code)))
  {
    var name := StockTableName(code);
    if name in db.stock || !IsBareName(name) then db
    else
      var r := db.(stock := db.stock[name := EmptyTable()], stockOrder := db.stockOrder + [name]);
      assert Valid(db) ==> DistinctNames(r.stockOrder) by {
        if Valid(db) {
          forall i, j | 0 <= i < j < |r.stockOrder| ensures r.stockOrder[i] != r.stockOrder[j] {
            if j == |db.stockOrder| { assert r.stockOrder[i] == db.stockOrder[i]; }
          }
        }
      }
      r
  }

  /**
   * A statement on sticker table `name` that first checks `sqlite_master`
   * either is skipped (no such table) or parses (a bare name).
   */
  predicate Parses(stock: map<string, Table<StickerData>>, name: string)
  {
    name in stock ==> IsBareName(name)
  }

  /** In a valid store every statement on an existing sticker table parses. */
  lemma ValidTablesParse(db: Db, name: string)
    requires Valid(db)
    ensures Parses(db.stock, name)
  {
  }

  /** Validity asks of the item tables only that each be well formed and quotable. */
  lemma ValidWithOwned(db: Db, owned: map<string, Table<string>>)
    requires Valid(db)
    requires owned.Keys <= db.owned.Keys
    requires forall n | n in owned :: WellFormed(owned[n])
    ensures Valid(db.(owned := owned))
  {
  }

  /** Validity does not look at the material catalog. */
  lemma ValidWithCatalog(db: Db, catalog: map<string, Material>)
    ensures Valid(db) ==> Valid(db.(catalog := catalog))
  {
  }

  /** DROP TABLE of a sticker table, when it exists. */
  function WithoutStockTable(db: Db, name: string): (r: Db)
    ensures name !in r.stock
    ensures r.stock == db.stock - {name}
    ensures r.stockOrder == Without(db.stockOrder, name)
    ensures forall n :: n in r.stockOrder <==> n in db.stockOrder && n != name
    ensures r.catalog == db.catalog && r.people == db.people && r.peopleSeq == db.peopleSeq
    ensures r.owned == db.owned && r.categories == db.categories
    ensures Valid(db) ==> Valid(r)
  {
    db.(stock := db.stock - {name}, stockOrder := Without(db.stockOrder, name))
  }

  /**
   * `create_kisi_malzemeleri_table`: CREATE TABLE IF NOT EXISTS for the
   * person's item table. When the quoted name does not parse, or is reserved,
   * the CREATE fails and the error is swallowed (database.py:91-95).
   */
  function WithOwnerTable(db: Db, person: string): (r: Db)
    ensures IsQuotableName(PersonTableName(person)) ==> PersonTableName(person) in r.owned
    ensures PersonTableName(person) in db.owned || !IsQuotableName(PersonTableName(person)) ==> r == db
    ensures PersonTableName(person) !in db.owned && IsQuotableName(PersonTableName(person)) ==>
      r.owned == db.owned[PersonTableName(person) := EmptyTable()]
    ensures Valid(db) ==> (PersonTableName(person) in r.owned <==> IsQuotableName(PersonTableName(person)))
    ensures r.catalog == db.catalog && r.stock == db.stock && r.stockOrder == db.stockOrder
    ensures r.people == db.people && r.peopleSeq == db.peopleSeq && r.categories == db.categories
    ensures Valid(db) ==> Valid(r)
  {
    var name := PersonTableName(person);
    if name in db.owned || !IsQuotableName(name) then db else db.(owned := db.owned[name := EmptyTable()])
  }

  /** The item tables that hold sticker code `s`: its owners. */
  function Holders(owned: map<string, Table<string>>, s: string): (r: set<string>)
    ensures forall n :: n in r <==> n in owned && Has(owned[n], s)
  {
    set n | n in owned && Has(owned[n], s)
  }
}
