/**
 * One SQLite table of the engine, abstracted: an `id INTEGER PRIMARY KEY
 * AUTOINCREMENT` column, a `TEXT UNIQUE NOT NULL` sticker-code column and a
 * payload. Both the sticker tables (database.py:55-63) and the per-person
 * item tables (database.py:79-86) have this shape.
 */
module Tables {
  import opened Wrappers

  datatype Row<D> = Row(id: nat, code: string, data: D)

  /**
   * The rows in rowid order, and the table's AUTOINCREMENT high-water mark
   * (its entry in `sqlite_sequence`): the largest id ever handed out, which
   * deleting rows never lowers.
   */
  datatype Table<D> = Table(rows: seq<Row<D>>, seqNo: nat)

  /** A freshly created table (`CREATE TABLE`); dropping a table discards its counter too. */
  function EmptyTable<D>(): (t: Table<D>)
    ensures WellFormed(t) && t.rows == []
  {
    Table([], 0)
  }

  /** Ids increase along the rows, never exceed the counter, and codes are unique. */
  ghost predicate WellFormed<D>(t: Table<D>)
  {
    && (forall i, j :: 0 <= i < j < |t.rows| ==> t.rows[i].id < t.rows[j].id)
    && (forall i :: 0 <= i < |t.rows| ==> 1 <= t.rows[i].id <= t.seqNo)
    && (forall i, j :: 0 <= i < j < |t.rows| ==> t.rows[i].code != t.rows[j].code)
  }

  predicate Has<D>(t: Table<D>, code: string)
  {
    exists i | 0 <= i < |t.rows| :: t.rows[i].code == code
  }

  /** Position of the first row holding `code`, `|rows|` when none does. */
  function IndexOf<D>(rows: seq<Row<D>>, code: string): (k: nat)
    ensures k <= |rows|
    ensures forall i | 0 <= i < k :: rows[i].code != code
    ensures k < |rows| ==> rows[k].code == code
    decreases |rows|
  {
    if rows == [] then 0
    else if rows[0].code == code then 0
    else
      var k := IndexOf(rows[1..], code);
      assert forall i | 1 <= i < k + 1 :: rows[i] == rows[1..][i - 1];
      k + 1
  }

  /** `SELECT … WHERE code = ?` and `fetchone()`: the row holding `code`, if any. */
  function Lookup<D>(t: Table<D>, code: string): (r: Option<Row<D>>)
    ensures r.Some? <==> Has(t, code)
    ensures r.Some? ==> r.value in t.rows && r.value.code == code
  {
    var k := IndexOf(t.rows, code);
    if k < |t.rows| then Some(t.rows[k]) else None
  }

  /**
   * `INSERT`: the UNIQUE constraint rejects a code that is already present;
   * otherwise the row is appended with the next AUTOINCREMENT id.
   */
  function Insert<D>(t: Table<D>, code: string, data: D): (r: Option<Table<D>>)
    ensures r.None? <==> Has(t, code)
    ensures r.Some? ==> |r.value.rows| == |t.rows| + 1 && r.value.rows[..|t.rows|] == t.rows
    ensures r.Some? ==> r.value.rows[|t.rows|] == Row(t.seqNo + 1, code, data) && r.value.seqNo == t.seqNo + 1
    ensures r.Some? && WellFormed(t) ==> WellFormed(r.value) && Has(r.value, code)
  {
    if Has(t, code) then None
    else
      var r := Table(t.rows + [Row(t.seqNo + 1, code, data)], t.seqNo + 1);
      assert r.rows[|t.rows|].code == code;
      Some(r)
  }

  /** `SELECT … ORDER BY id DESC LIMIT 1`: the row with the highest id. */
  function Last<D>(t: Table<D>): (r: Option<Row<D>>)
    ensures r.None? <==> t.rows == []
    ensures r.Some? ==> r.value in t.rows
    ensures r.Some? && WellFormed(t) ==> forall i | 0 <= i < |t.rows| :: t.rows[i].id <= r.value.id
  {
    if t.rows == [] then None else Some(t.rows[|t.rows| - 1])
  }

  /** The id of the last row, 0 when the table is empty (database.py:214-216). */
  function MaxId<D>(t: Table<D>): (m: nat)
    ensures WellFormed(t) ==> m <= t.seqNo
    ensures WellFormed(t) ==> forall i | 0 <= i < |t.rows| :: t.rows[i].id <= m
    ensures WellFormed(t) ==> (m == 0 <==> t.rows == [])
  {
    match Last(t)
    case None => 0
    case Some(row) => row.id
  }

  /** Row `k` cut out: every later row moves down by one place. */
  lemma SpliceIndex<D>(rows: seq<Row<D>>, k: nat)
    requires k < |rows|
    ensures var rs := rows[..k] + rows[k + 1..];
      |rs| == |rows| - 1 && forall i | 0 <= i < |rs| :: rs[i] == rows[if i < k then i else i + 1]
  {
  }

  lemma SpliceMembers<D>(rows: seq<Row<D>>, k: nat)
    requires k < |rows|
    requires forall i, j :: 0 <= i < j < |rows| ==> rows[i].code != rows[j].code
    ensures forall x :: x in rows[..k] + rows[k + 1..] <==> x in rows && x != rows[k]
  {
    var rs := rows[..k] + rows[k + 1..];
    SpliceIndex(rows, k);
    forall x | x in rows && x != rows[k] ensures x in rs {
      var i :| 0 <= i < |rows| && rows[i] == x;
      assert rs[if i < k then i else i - 1] == x;
    }
    forall x | x in rs ensures x in rows && x != rows[k] {
      var i :| 0 <= i < |rs| && rs[i] == x;
      assert x == rows[if i < k then i else i + 1];
    }
  }

  lemma SpliceWellFormed<D>(t: Table<D>, k: nat)
    requires k < |t.rows| && WellFormed(t)
    ensures WellFormed(Table(t.rows[..k] + t.rows[k + 1..], t.seqNo))
    ensures !Has(Table(t.rows[..k] + t.rows[k + 1..], t.seqNo), t.rows[k].code)
  {
    SpliceIndex(t.rows, k);
  }

  lemma SpliceWhenWellFormed<D>(t: Table<D>, k: nat)
    requires k < |t.rows|
    ensures var r := Table(t.rows[..k] + t.rows[k + 1..], t.seqNo);
      WellFormed(t) ==> (forall x :: x in r.rows <==> x in t.rows && x != t.rows[k]) && WellFormed(r) && !Has(r, t.rows[k].code)
  {
    if WellFormed(t) {
      SpliceMembers(t.rows, k);
      SpliceWellFormed(t, k);
    }
  }

  /** `DELETE FROM … WHERE id = ?` for the id of the row at position `k`. */
  function DeleteAt<D(!new)>(t: Table<D>, k: nat): (r: Table<D>)
    requires k < |t.rows|
    ensures r.seqNo == t.seqNo && |r.rows| == |t.rows| - 1
    ensures forall x :: x in r.rows ==> x in t.rows
    ensures WellFormed(t) ==> forall x :: x in r.rows <==> x in t.rows && x != t.rows[k]
    ensures WellFormed(t) ==> WellFormed(r) && !Has(r, t.rows[k].code)
  {
    var r := Table(t.rows[..k] + t.rows[k + 1..], t.seqNo);
    SpliceIndex(t.rows, k);
    assert forall x :: x in r.rows ==> x in t.rows;
    SpliceWhenWellFormed(t, k);
    r
  }

  /** `DELETE FROM … WHERE code = ?`: at most one row goes, since codes are unique. */
  function DeleteCode<D(!new)>(t: Table<D>, code: string): (r: Table<D>)
    ensures r.seqNo == t.seqNo
    ensures WellFormed(t) ==> WellFormed(r) && !Has(r, code)
    ensures WellFormed(t) ==> forall x :: x in r.rows <==> x in t.rows && x.code != code
  {
    var k := IndexOf(t.rows, code);
    if k < |t.rows| then
      var r := DeleteAt(t, k);
      assert WellFormed(t) ==> forall x :: x in t.rows && x.code == code ==> x == t.rows[k];
      r
    else t
  }

  /** The last row removed: what `DELETE … WHERE id = <highest id>` leaves. */
  function DropLast<D(!new)>(t: Table<D>): (r: Table<D>)
    requires t.rows != []
    ensures r.seqNo == t.seqNo && r.rows == t.rows[..|t.rows| - 1]
    ensures WellFormed(t) ==> WellFormed(r) && !Has(r, Last(t).value.code)
  {
    var r := DeleteAt(t, |t.rows| - 1);
    assert r.rows == t.rows[..|t.rows| - 1];
    r
  }

  predicate Distinct(codes: seq<string>)
  {
    forall i, j :: 0 <= i < j < |codes| ==> codes[i] != codes[j]
  }

  /** The rows a batch appends: consecutive ids after `seqNo`, one per code. */
  function NewRows<D>(seqNo: nat, codes: seq<string>, data: D): (rows: seq<Row<D>>)
    ensures |rows| == |codes|
    ensures forall i | 0 <= i < |codes| :: rows[i] == Row(seqNo + 1 + i, codes[i], data)
  {
    seq(|codes|, i requires 0 <= i < |codes| => Row(seqNo + 1 + i, codes[i], data))
  }

  lemma DistinctSnoc(codes: seq<string>, c: string)
    ensures Distinct(codes + [c]) <==> Distinct(codes) && c !in codes
  {
    var all := codes + [c];
    if Distinct(codes) && c !in codes {
      forall i, j | 0 <= i < j < |all| ensures all[i] != all[j] {
        if j == |codes| { assert all[i] == codes[i]; }
      }
    }
    if Distinct(all) {
      forall i, j | 0 <= i < j < |codes| ensures codes[i] != codes[j] {
        assert all[i] == codes[i] && all[j] == codes[j];
      }
      forall i | 0 <= i < |codes| ensures codes[i] != c {
        assert all[i] == codes[i] && all[|codes|] == c;
      }
    }
  }

  lemma HasAfterBatch<D>(t: Table<D>, codes: seq<string>, data: D, seqNo: nat, c: string)
    ensures Has(Table(t.rows + NewRows(t.seqNo, codes, data), seqNo), c) <==> Has(t, c) || c in codes
  {
    var rows := t.rows + NewRows(t.seqNo, codes, data);
    if exists i | 0 <= i < |rows| :: rows[i].code == c {
      var i :| 0 <= i < |rows| && rows[i].code == c;
      if i >= |t.rows| { assert codes[i - |t.rows|] == c; }
    }
    if c in codes {
      var i :| 0 <= i < |codes| && codes[i] == c;
      assert rows[|t.rows| + i].code == c;
    }
    if Has(t, c) {
      var i :| 0 <= i < |t.rows| && t.rows[i].code == c;
      assert rows[i].code == c;
    }
  }

  lemma NewRowsSnoc<D>(seqNo: nat, codes: seq<string>, c: string, data: D)
    ensures NewRows(seqNo, codes + [c], data) == NewRows(seqNo, codes, data) + [Row(seqNo + 1 + |codes|, c, data)]
  {
  }

  /** Whether a batch can commit on `t`: no code already present, none repeated. */
  predicate Fresh<D>(t: Table<D>, codes: seq<string>)
  {
    (forall i | 0 <= i < |codes| :: !Has(t, codes[i])) && Distinct(codes)
  }

  lemma FreshSnoc<D>(t: Table<D>, prefix: seq<string>, c: string)
    ensures Fresh(t, prefix + [c]) <==> Fresh(t, prefix) && !Has(t, c) && c !in prefix
  {
    var codes := prefix + [c];
    DistinctSnoc(prefix, c);
    assert forall i | 0 <= i < |prefix| :: codes[i] == prefix[i];
    assert codes[|prefix|] == c;
  }

  /** The last INSERT of a batch, after the others went in. */
  lemma InsertAfterBatch<D>(t: Table<D>, prefix: seq<string>, c: string, data: D)
    ensures var t' := Table(t.rows + NewRows(t.seqNo, prefix, data), t.seqNo + |prefix|);
      var r := Insert(t', c, data);
      && (r.None? <==> Has(t, c) || c in prefix)
      && (r.Some? ==> r.value == Table(t.rows + NewRows(t.seqNo, prefix + [c], data), t.seqNo + |prefix + [c]|))
  {
    var t' := Table(t.rows + NewRows(t.seqNo, prefix, data), t.seqNo + |prefix|);
    HasAfterBatch(t, prefix, data, t'.seqNo, c);
    NewRowsSnoc(t.seqNo, prefix, c, data);
    assert t.rows + NewRows(t.seqNo, prefix + [c], data) == t'.rows + [Row(t'.seqNo + 1, c, data)];
  }

  /**
   * A batch of INSERTs, one per code in order, inside a single transaction:
   * it commits exactly when no code is already present and no code repeats,
   * and then appends one row per code with consecutive ids; otherwise the
   * whole batch is rolled back.
   */
  function InsertAll<D>(t: Table<D>, codes: seq<string>, data: D): (r: Option<Table<D>>)
    ensures r.Some? <==> (forall i | 0 <= i < |codes| :: !Has(t, codes[i])) && Distinct(codes)
    ensures r.Some? ==> r.value == Table(t.rows + NewRows(t.seqNo, codes, data), t.seqNo + |codes|)
    ensures r.Some? && WellFormed(t) ==> WellFormed(r.value)
    decreases |codes|
  {
    if codes == [] then
      assert t.rows + NewRows(t.seqNo, codes, data) == t.rows;
      Some(t)
    else
      var n := |codes| - 1;
      var prefix, c := codes[..n], codes[n];
      assert codes == prefix + [c];
      FreshSnoc(t, prefix, c);
      match InsertAll(t, prefix, data)
      case None => None
      case Some(t') =>
        InsertAfterBatch(t, prefix, c, data);
        Insert(t', c, data)
  }
}
