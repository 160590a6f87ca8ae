/**
 * Flows of the assignment window (zimmetle.py) over the store: assign a
 * freshly minted sticker, and take it back again.
 */
module Scenarios {
  import opened Wrappers
  import opened Naming
  import opened Tables
  import opened Catalog
  import opened Directory
  import opened Database
  import opened Inventory
  import opened Custody
  import People

  /**
   * Mint one sticker and assign it (zimmetle.py:137-142): for a registered
   * person with an item table the mint yields one code, and the assignment
   * goes in unless that table already records the same code.
   */
  lemma AssignFreshSticker(db: Db, year: nat, code: string, person: string)
    requires Valid(db) && code in db.catalog && IsBareName(StockTableName(code))
    requires Registered(db.people, person) && PersonTableName(person) in db.owned
    ensures var m := Mint(db, year, code, 1);
      && |m.1| == 1
      && m.0.owned == db.owned
      && (Assign(m.0, person, m.1[0], db.catalog[code].name).1 <==> !Has(db.owned[PersonTableName(person)], m.1[0]))
  {
  }

  /**
   * The sticker table of `code` once it exists: the table already there, or a
   * new empty one; in a valid store it is well formed with its numbers below
   * its ids.
   */
  function StickerTable(db: Db, code: string): (t: Table<StickerData>)
    requires IsBareName(StockTableName(code))
    ensures StockTableName(code) in db.stock ==> t == db.stock[StockTableName(code)]
    ensures StockTableName(code) !in db.stock ==> t.rows == [] && t.seqNo == 0
    ensures Valid(db) ==> WellFormed(t) && NumbersBelowIds(t)
  {
    WithStockTable(db, code).stock[StockTableName(code)]
  }

  /** One sticker minted in a valid store: the planned code goes in on a new row. */
  lemma MintOne(db: Db, year: nat, code: string)
    requires Valid(db) && code in db.catalog && IsBareName(StockTableName(code))
    ensures var t := StickerTable(db, code);
      var codes := MintedCodes(year, code, MaxId(t), 1);
      var data := StickerData(db.catalog[code].name, db.catalog[code].category);
      var made := WithStockTable(db, code);
      && |codes| == 1 && !Has(t, codes[0]) && WellFormed(t) && NumbersBelowIds(t)
      && Mint(db, year, code, 1) == (made.(stock := made.stock[StockTableName(code) := MintInto(t, codes, data).0]), codes)
  {
    var t := StickerTable(db, code);
    var codes := MintedCodes(year, code, MaxId(t), 1);
    var data := StickerData(db.catalog[code].name, db.catalog[code].category);
    FreshBatchFacts(t, codes, data);
  }

  /**
   * Undo the assignment and delete the product's last sticker
   * (zimmetle.py:177-180) right after the flow above: both return the minted
   * code, the sticker table has its old rows again with the counter one
   * higher, and the next mint issues the same code again.
   */
  lemma UndoFreshSticker(db: Db, year: nat, code: string, person: string)
    requires Valid(db) && code in db.catalog && IsBareName(StockTableName(code))
    requires Registered(db.people, person) && PersonTableName(person) in db.owned
    ensures var m := Mint(db, year, code, 1);
      |m.1| == 1 &&
      var a := Assign(m.0, person, m.1[0], db.catalog[code].name);
      a.1 ==>
        var u := DeleteLastAssignment(a.0, person);
        var d := DeleteLastSticker(u.0, code);
        var t := StickerTable(db, code);
        && u.1 == Some(m.1[0]) && d.1 == Some(m.1[0])
        && d.0 == m.0.(stock := d.0.stock, owned := u.0.owned)
        && d.0.stock[StockTableName(code)] == Table(t.rows, t.seqNo + 1)
        && Mint(d.0, year, code, 1).1 == m.1
  {
    var name := StockTableName(code);
    var t := StickerTable(db, code);
    var codes := MintedCodes(year, code, MaxId(t), 1);
    var data := StickerData(db.catalog[code].name, db.catalog[code].category);
    MintOne(db, year, code);
    var m := Mint(db, year, code, 1);
    var a := Assign(m.0, person, m.1[0], db.catalog[code].name);
    if a.1 {
      UndoAfterAssign(m.0, person, m.1[0], db.catalog[code].name);
      var u := DeleteLastAssignment(a.0, person);
      assert u.0.stock == m.0.stock;
      DeleteLastUndoesMint(t, codes, data);
      var d := DeleteLastSticker(u.0, code);
      assert d.0.stock[name] == Table(t.rows, t.seqNo + 1);
      ReissuedAfterUndo(t, codes, data);
      NextMintReissues(d.0, year, code, t, codes, data);
    }
  }

  /**
   * A stock code the entry form accepts but whose table name does not parse
   * (zimmetle.py and ekle_duzenle.py only ask for a non-empty code): the
   * material is registered, no sticker table is created, and minting for it
   * yields nothing and changes nothing.
   */
  lemma UnparseableCodeMintsNothing(db: Db, year: nat, name: string, count: int)
    requires Valid(db) && "PC/01" !in db.catalog
    ensures var a := AddMaterialType(db, "PC/01", name, None, None);
      && a.1
      && a.0.stock == db.stock
      && "PC/01" in a.0.catalog
      && Mint(a.0, year, "PC/01", count) == (a.0, [])
  {
    SlashCodeNamesNoTable();
  }

  /**
   * Registering `Ali "Usta"`: the id is handed out, but the quoted CREATE
   * fails, so the person has no item table, and both an assignment to them
   * and a transfer to them fail.
   */
  lemma UnquotableNameGetsNoTable(db: Db, floor: int, branch: string, s: string, itemName: string)
    requires Valid(db) && !Registered(db.people, "Ali \"Usta\"")
    ensures var a := People.AddPerson(db, "Ali \"Usta\"", floor, branch);
      && a.1 == db.peopleSeq + 1
      && Registered(a.0.people, "Ali \"Usta\"")
      && a.0.owned == db.owned
      && !Assign(a.0, "Ali \"Usta\"", s, itemName).1
      && !Transfer(a.0, s, "Ali \"Usta\"").1
  {
    UnpairedQuoteNamesNoTable();
    var a := People.AddPerson(db, "Ali \"Usta\"", floor, branch);
    assert a.0.people[db.peopleSeq + 1].name == "Ali \"Usta\"";
  }

  /** The store after the undo mints into the restored table, with the same codes. */
  lemma NextMintReissues(db: Db, year: nat, code: string, t: Table<StickerData>, codes: seq<string>, data: StickerData)
    requires code in db.catalog && StockTableName(code) in db.stock && IsBareName(StockTableName(code))
    requires db.stock[StockTableName(code)] == Table(t.rows, t.seqNo + 1)
    requires data == StickerData(db.catalog[code].name, db.catalog[code].category)
    requires codes == MintedCodes(year, code, MaxId(t), 1)
    requires MaxId(Table(t.rows, t.seqNo + 1)) == MaxId(t)
    requires MintInto(Table(t.rows, t.seqNo + 1), codes, data).1 == codes
    ensures Mint(db, year, code, 1).1 == codes
  {
  }
  /** A table with the rows of `t` and a higher counter numbers the next batch as `t` would. */
  lemma ReissuedAfterUndo(t: Table<StickerData>, codes: seq<string>, data: StickerData)
    requires WellFormed(t) && NumbersBelowIds(t) && NumberedFrom(codes, MaxId(t)) && Distinct(codes)
    ensures var t' := Table(t.rows, t.seqNo + 1);
      && WellFormed(t') && NumbersBelowIds(t') && MaxId(t') == MaxId(t)
      && MintInto(t', codes, data).1 == codes
  {
    var t' := Table(t.rows, t.seqNo + 1);
    FreshBatchFacts(t', codes, data);
  }
}
