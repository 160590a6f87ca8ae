# Inventory custody engine — Dafny model

This project models the custody engine of a small inventory (zimmet) program.
The engine is `database.py`: one SQLite file holding

- a catalog of material types keyed by stock code;
- one sticker table per stock code (`stok_…`), whose rows apply an `AUTOINCREMENT` id and a `UNIQUE` sticker code;
- the people (`kisiler`);
- one item table per person (`…_malzemeleri`) recording the stickers handed to them;
- a set of category names.

The SQLite file is the value `Database.Db`. Each table is a `Tables.Table`: its rows in id order plus its
`sqlite_sequence` high-water mark. A `sqlite_master` lookup becomes map membership.

Each operation of the engine is modelled twice:

- **A transition function** (`Inventory.Mint`, `Custody.Transfer`, `People.UpdatePerson`, …). It maps a store to the
  new store and the result the Python function returns: `False`, `None`, `-1` or `[]` on its error paths. Its
  contract states the success condition (both directions), the new state and preservation of `Database.Valid`,
  the invariant of every reachable store. `Custody.Transfer` states these for a code in stock by equating itself
  with `Custody.Reassign`, the DELETE and INSERT whose contract gives them.
- **A method of the class `Engine.Store`.** Its fields are updated in place, with the loops of the source, and it
  is proved to reach exactly the state and result of the transition function.
  - The mint loop inserts one row per code and gives the batch up at the first `UNIQUE` violation.
  - The transfer performs two scans with `break`, then a DELETE and an INSERT committed together.

So every property proved about the functions holds for the methods too.

What is proved, besides each operation's contract:

- **Table names.** Stock and person table names are derived exactly. Distinct stock codes (`"A B"`, `"AB"`) and
  distinct people (`"Ali Veli"`, `"aliveli"`) can share one table.
- **Sticker codes.** A code reads back to its year, stock code and number, so codes are injective.
- **Numbering.** Inside a store a freshly minted code can never collide. Codes are numbered from the largest row id
  and no code's number exceeds its row id. So the mint's rollback branch is unreachable in valid stores.
- **Row ids and code numbers drift apart.** After a delete-last, the next mint reissues the deleted code on a new
  row id. The mint after that skips a number.
- **At most one owner.**
  - Assignment can give a sticker a second owner.
  - Transfer leaves the new owner as the only one, provided the sticker had at most one owner and that owner is a
    registered person.
  - A record in a table nobody is registered under survives a transfer, giving two owners.
  - Of two registered holders, a transfer removes the sticker only from the one listed first by name.
    The other keeps it, again two owners.
  - A transfer from A to B and back leaves A as the sole owner.
- **Undo.** Undoing right after an assignment or a transfer removes exactly that record.
- **Renames and deletes of people.** A rename moves the item table with its records. A rename between names that
  normalise alike fails. Deleting one of two people who share a table drops the other's records. Deleting with a
  mismatched name leaves an orphan table.

Four places where the model follows the code where it departs from what one might expect:

- Sticker table names are spliced into SQL unquoted (database.py:55-56, 214, 270, 302, 390, 407). Only a name that
  is one bare identifier parses: ASCII letters and digits, `_`, `$`, or characters outside ASCII
  (`Naming.IsBareName`). The entry form accepts any non-empty stock code (ekle_duzenle.py:105-110).
  - For a code such as `PC/01` the CREATE fails and the failure is swallowed (database.py:68-72).
  - The material is still registered and `True` is returned (database.py:177-180).
  - Every mint then fails at the SELECT of the largest id and returns `[]` (database.py:214).
  - The model does the same (`Scenarios.UnparseableCodeMintsNothing`).
  - `Database.Valid` includes that every sticker table's name parses. So the DROP and UPDATE failures on such a
    table are modelled but cannot occur in a reachable store.
- Person table names are spliced between double quotes without escaping (database.py:80, 246, 464, 549). SQLite
  reads `"…"` as one identifier only when every `"` inside is doubled, and refuses to create or rename to a table
  whose name starts with `sqlite_` (`Naming.IsQuotableName`). The add-person window only rejects the empty name
  (zimmetle.py:73).
  - For `Ali "Usta"` the CREATE fails and the failure is swallowed (database.py:91-95). `add_kisi` still returns
    the new id (database.py:111-113), and the person has no item table.
  - Assigning to that person and transferring to them then fail (`Scenarios.UnquotableNameGetsNoTable`).
  - A rename to such a name fails at the ALTER and rolls everything back (database.py:463-469,
    `People.RenameToUnquotableFails`).
  - `Database.Valid` includes that every item table's name quotes: SQLite can hold no table under any other
    spelling.

- One might expect that transferring a sticker whose material type was deleted still moves the record. The code
  returns `False` whenever no sticker table holds the code (database.py:526-529), and `Custody.Transfer` does the same.
- The transfer deletes the old record only when the found owner's name is a non-empty string (database.py:542).
  A person registered under `""` therefore keeps the record and the sticker gains a second owner
  (`Custody.BlankOwnerKeepsRecord`). The add-person window rejects empty names (zimmetle.py:73), but the engine
  does not. The one-owner lemmas assume no person named `""`.

## Model

| member | source | states |
|---|---|---|
| Naming.StockTableName | database.py:54 | the sticker table name is `stok_` followed by the code with spaces removed and `-` turned to `_`; it contains neither |
| Naming.StockTableNameOfPlainCode | database.py:54 | a code without spaces or hyphens keeps its spelling after `stok_` |
| Naming.StockCodesShareTable | database.py:54 | `"A B"`/`"AB"` and `"A-B"`/`"A_B"` map to one sticker table |
| Naming.SlashCodeNamesNoTable | database.py:54-56 | the table name of `PC/01` is not one bare identifier |
| Naming.PlainCodeNamesTable | database.py:54-56 | a code of identifier characters and hyphens always names a table that parses |
| Naming.PersonTableName | database.py:78 | the item table name has no spaces and no upper-case letters |
| Naming.PlainNamesQuote | database.py:78-80 | a person name without `"` gives an item table name whose quoting parses |
| Naming.UnpairedQuoteNamesNoTable | database.py:78-80 | the item table name of `Ali "Usta"` does not parse between double quotes |
| Naming.ReservedNamesNoTable | database.py:78-80 | the item table name of `SQLite_Ali` starts with the reserved `sqlite_` |
| Naming.PersonTableNameShape | database.py:78 | the item table name is the lowered, space-free name followed by `_malzemeleri` |
| Naming.SamePersonTable | database.py:78 | two names share an item table exactly when they agree once spaces are dropped and letters lowered |
| Naming.DistinctNamesShareTable | database.py:78 | `"Ali Veli"` and `"aliveli"` are different names with one item table |
| Naming.ParseStickerCodeRoundTrip | database.py:154-156 | a code built from year, stock code and number reads back to those three parts |
| Naming.StickerCodeInjective | database.py:154-156 | different (year, stock code, number) triples give different codes |
| Naming.StickerNumberOfCode | database.py:154-156 | the number read back from a built code is the number it was built with |
| Text.Pad6 | database.py:156 | `{n:06d}`: all digits, at least six of them, ending in the decimal numeral of `n` |
| Text.Pad6Value | database.py:156 | the zero-padded numeral denotes the number |
| Text.Decimal | database.py:156 | the numeral of the year is all digits, without a leading zero unless it is 0 |
| Text.ValueOfDecimal | database.py:156 | the decimal numeral of `n` denotes `n` |
| Text.Lower | database.py:78 | lowercasing keeps the length and lowers each character |
| Text.Contains | database.py:590-592 | `Contains` holds exactly when the needle occurs at some position |
| Tables.Insert | database.py:58 | INSERT fails exactly when the code is present (UNIQUE), else appends the row with the next AUTOINCREMENT id, keeping well-formedness |
| Tables.InsertAll | database.py:218-224 | a batch commits exactly when no code is present and none repeats, and then appends one row per code with consecutive ids |
| Tables.Last | database.py:214-216 | the last row has the largest id, `None` exactly for an empty table |
| Tables.MaxId | database.py:214-216 | the largest row id, 0 exactly for an empty table, never above the counter |
| Tables.DeleteCode | database.py:543 | DELETE by code removes exactly the rows with that code and keeps the counter |
| Tables.DropLast | database.py:276 | DELETE of the highest id keeps every other row and the counter |
| Database.WithStockTable | database.py:50-72 | CREATE TABLE IF NOT EXISTS of a sticker table: existing table untouched, new one empty and listed last; no table at all when its name does not parse; validity kept |
| Database.WithOwnerTable | database.py:74-95 | CREATE TABLE IF NOT EXISTS of an item table: existing records kept; a new empty table exactly when the quoted name parses and is not reserved, else no change; validity kept |
| Database.Holders | database.py:531-540 | the definition of a code's owners that the one-owner lemmas are stated over: the item tables holding it (a definition, not the scan) |
| Catalog.ListingOrder | database.py:592 | every code, in `ORDER BY isim` order |
| Catalog.Search | database.py:581-599 | the listings are exactly the catalog entries whose code, name or (non-NULL) category contains the lowered text, in name order |
| Catalog.SearchEmptyListsAll | database.py:581-599 | searching for the empty text lists every material type |
| Catalog.SearchSortedByName | database.py:592 | a listing precedes another only if its name does not sort after the other's |
| Directory.ListingOrder | database.py:121-132 | every person id, in `ORDER BY kisiisim` order |
| Directory.ListingOrderDistinct | database.py:121-132 | the listing never repeats an id |
| Inventory.AddMaterialType | database.py:158-191 | succeeds exactly for a new code and then adds the catalog row; the sticker tables gain exactly the code's table when missing and its name parses, listed last and empty; existing tables unchanged; people, counter and item tables untouched; keeps validity |
| Inventory.MintedCodes | database.py:218-220 | `count` distinct codes numbered from `maxId+1`, none for a negative count |
| Inventory.MintedCodeAt | database.py:218-220 | the i-th code of a batch is the code numbered `maxId+i+1` |
| Inventory.MintInto | database.py:218-234 | a batch appends all its rows or, on a collision, leaves the table and returns `[]`; in a valid table codes numbered from the largest id never collide |
| Inventory.Mint | database.py:193-234 | unknown code, or a table name that does not parse, gives `[]` and no change; otherwise the table is created if missing and the batch minted with the material's name and category; in a valid store exactly `max(0, count)` codes; validity kept |
| Inventory.DeleteLastSticker | database.py:258-287 | missing or empty table, or a name that does not parse, gives `None` and no change; otherwise the highest-id row goes, its code is returned and it had the largest id; item tables are not looked at |
| Inventory.Edited | database.py:352-370 | given fields replace the catalog row's, `Clear` removes the photo |
| Inventory.Restamp | database.py:393-409 | every sticker row takes the new name or category, ids and codes kept |
| Inventory.UpdateMaterialType | database.py:347-419 | succeeds exactly when a field is given, the code is known, a new code is not taken and the DROP and UPDATE name no existing table whose name does not parse; failure changes nothing; the catalog row is edited and re-keyed; the scan order of sticker tables is kept without a code change, and otherwise loses the old table's entry and gains the new table's at the end when it is created; people and item tables untouched |
| Inventory.CodeChangeRenewsTable | database.py:386-409 | a code change drops the old sticker table; the new code's table exists afterwards exactly when its name parses or it already existed under another name; it is empty if new, or restamped if it was already there; every other sticker table is unchanged and no other table appears |
| Inventory.FieldChangeRestampsRows | database.py:393-409 | without a code change the sticker rows are restamped and every other table is kept |
| Inventory.DeleteMaterialType | database.py:289-315 | succeeds exactly for a known code whose existing table's name parses; drops the catalog row, the sticker table and its entry in the scan order; people, their counter and item tables untouched |
| Inventory.AddCategory | database.py:601-620 | succeeds exactly for a new category, which is then in the set |
| Inventory.DeleteLastUndoesMint | database.py:264-281 | deleting the last sticker after a one-sticker mint returns its code and restores the rows, the counter one higher |
| Inventory.SameNumberSameCode | database.py:218-220 | two batches build the same code for the same number |
| Inventory.MintThreeDeleteOne | database.py:214-219 | in a fresh table, after minting three and deleting the last, the largest id is 2 and the counter 3 |
| Inventory.NumbersReissuedAfterDeleteLast | database.py:214-219 | after mint 3 and delete-last, the next mint reissues number 3 on row 4 and the one after issues number 5 on row 5 |
| Custody.Assign | database.py:236-256 | succeeds exactly when the exact name is registered, its table exists and does not hold the code; appends the record; adds that table to the holders |
| Custody.AssignCanAddSecondOwner | database.py:236-256 | assigning a code held in another table leaves it with two owners |
| Custody.FirstStockHit | database.py:515-524 | the position of the first sticker table in `sqlite_master` order holding the code |
| Custody.FirstOwner | database.py:531-540 | the position of the first person in name order whose item table holds the code |
| Custody.OwnedAfterRelease | database.py:531-546 | when the first person in name order whose table holds the code has a non-empty name, that table loses the code and nothing else changes; otherwise no table changes; tables, counters and well-formedness kept |
| Custody.Reassign | database.py:542-565 | DELETE and INSERT commit exactly when the target table exists and no longer holds the code; otherwise nothing changes |
| Custody.Transfer | database.py:503-565 | no sticker table holding the code gives `False` and no change; for a code in stock it is exactly `Custody.Reassign` with the sticker row's name; success only when the target table existed, touching item tables only; validity kept |
| Custody.StockName | database.py:519-523 | the item name is taken from a sticker row holding the code |
| Custody.DeleteLastAssignment | database.py:317-345 | missing or empty table gives `None` and no change; otherwise the newest record goes and its code is returned; sticker tables untouched |
| Custody.OwnedItems | database.py:669-686 | the person's records newest first, `[]` when the table is missing |
| Custody.AssignedItemListedFirst | database.py:669-686 | a fresh assignment heads the person's list |
| Custody.UndoAfterAssign | database.py:317-345 | undo right after an assignment returns its code and restores the records, the counter one higher |
| Custody.ReleaseClearsOwner | database.py:531-546 | with at most one registered holder the DELETE leaves no table holding the code |
| Custody.TransferIsReassign | database.py:503-565 | for a code in stock the transfer is the DELETE and INSERT with the sticker row's name |
| Custody.TransferLeavesSingleOwner | database.py:503-565 | with at most one registered holder, a successful transfer leaves the new owner as the only holder |
| Custody.TransferSucceeds | database.py:503-565 | under the same conditions the transfer succeeds exactly when the code is in stock and the target table exists |
| Custody.UndoAfterTransfer | database.py:317-345 | undo right after a transfer returns the code and then no table holds it |
| Custody.OrphanHolderSurvivesTransfer | database.py:531-540 | a holder table nobody is registered under keeps the code through a transfer: two owners |
| Custody.TransferThereAndBack | database.py:503-565 | transferring A to B and back succeeds each time and leaves A as the only owner |
| Custody.BlankOwnerKeepsRecord | database.py:542-546 | an owner registered as `""` keeps the record through a transfer: two owners |
| Custody.FirstListedHolderReleases | database.py:531-546 | when a holder with a non-empty name is listed before every other holder, exactly its table loses the code |
| Custody.LaterHolderKeepsRecord | database.py:531-546 | of two holders, the one whose name sorts later keeps its record through the DELETE when no one else maps to its table |
| Custody.TransferKeepsLaterHolder | database.py:503-565 | so a successful transfer of a code two registered people hold leaves the later one and the new owner both holding it |
| People.AddPerson | database.py:97-119 | an existing exact name gives -1 and no change; otherwise the next id and the row, plus an item table when its quoted name parses (an existing one reused), none otherwise; validity kept |
| People.UpdatePerson | database.py:421-482 | succeeds exactly when the name is not another id's, a field is given, the id is known and, on a table rename, both quoted names parse and are not reserved and the target is free; failure changes nothing; a rename moves the table |
| People.RenameWithinTableFails | database.py:455-469 | renaming to a name with the same item table fails and changes nothing |
| People.RenameToUnquotableFails | database.py:459-469 | renaming a person with an item table to `Ali "Usta"` fails and changes nothing |
| People.RenameKeepsRecords | database.py:455-466 | after a rename the new table holds the old table's records and counter |
| People.DeletePerson | database.py:134-152 | always `True`; removes the id's row and the item table of the given name |
| People.DeleteDropsSharedTable | database.py:134-152 | deleting one of two people sharing a table drops the other's records |
| People.MismatchedDeleteLeavesOrphan | database.py:134-152 | deleting with another person's name leaves the id's table with nobody registered under it |
| Engine.Store.constructor | database.py:7-48 | a new store is empty and valid |
| Engine.Store.AddMaterialType | database.py:158-191 | reaches the state and result of `Inventory.AddMaterialType` |
| Engine.Store.Mint | database.py:193-234 | reaches the state and result of `Inventory.Mint` |
| Engine.InsertBatch | database.py:218-234 | the INSERT loop returns what `Inventory.MintInto` describes for the planned codes |
| Engine.NextCode | database.py:219-220 | the code built in iteration `i` is the i-th planned code |
| Engine.Store.DeleteLastSticker | database.py:258-287 | reaches the state and result of `Inventory.DeleteLastSticker` |
| Engine.Store.UpdateMaterialType | database.py:347-419 | reaches the state and result of `Inventory.UpdateMaterialType` |
| Engine.Store.DeleteMaterialType | database.py:289-315 | reaches the state and result of `Inventory.DeleteMaterialType` |
| Engine.Store.AddCategory | database.py:601-620 | reaches the state and result of `Inventory.AddCategory` |
| Engine.Store.Assign | database.py:236-256 | reaches the state and result of `Custody.Assign` |
| Engine.Store.FindStockRow | database.py:515-529 | the scan finds a name exactly when some sticker table holds the code, and the name is the first hit's |
| Engine.Store.FindOwner | database.py:531-540 | the scan stops at the first person whose item table holds the code |
| Engine.Store.Transfer | database.py:503-565 | reaches the state and result of `Custody.Transfer` |
| Engine.Store.DeleteLastAssignment | database.py:317-345 | reaches the state and result of `Custody.DeleteLastAssignment` |
| Engine.Store.AddPerson | database.py:97-119 | reaches the state and result of `People.AddPerson` |
| Engine.Store.UpdatePerson | database.py:421-482 | reaches the state and result of `People.UpdatePerson` |
| Engine.Store.DeletePerson | database.py:134-152 | reaches the state and result of `People.DeletePerson` |
| Scenarios.AssignFreshSticker | zimmetle.py:137-142 | for a code whose table name parses, minting one sticker yields one code, and assigning it succeeds exactly when the person's table does not already record it |
| Scenarios.UndoFreshSticker | zimmetle.py:177-180 | for a code whose table name parses, undo then delete-last both return the freshly minted code, restore the sticker rows, and the next mint reissues the same code |
| Scenarios.UnquotableNameGetsNoTable | database.py:97-113 | registering `Ali "Usta"` returns the next id without an item table; assigning to or transferring to that person then fails |
| Scenarios.UnparseableCodeMintsNothing | database.py:158-234 | adding `PC/01` succeeds without creating a sticker table, and minting for it returns `[]` and changes nothing |

## Left out

- Connections, cursors, `print` logging and exception plumbing are not modelled. An exception path that rolls back becomes a result with the store unchanged.
- One namespace: SQLite keeps sticker tables and item tables in one namespace, and the model keeps them apart. The transfer's stock scan lists every table matching `stok_%` (database.py:515), where LIKE ignores ASCII case and `_` matches any one character. So an item table such as `stoka_malzemeleri` or `stok_x_malzemeleri` is scanned too. Its `SELECT isim … WHERE stickerkod` fails, since its column is `stickerid`, and the transfer returns `False` whenever the scan reaches that table before a sticker table holding the code. The model scans sticker tables only. A person whose table name equals a sticker table's would also share that table.
- SQLite identifiers are case-insensitive. The model compares table names exactly; person tables are already lowercased.
- `str.lower()` and SQLite `LOWER()` are modelled as ASCII lowercasing. Unicode case mapping is not modelled.
- `LIKE` wildcards: `_` and `%` inside the search text are read literally.
- Catalog.Search: a literal, case-insensitive substring filter. A NULL category never matches.
- Catalog.Search: ties between equal names (`ORDER BY isim`) are broken by stock code. Directory.ListingOrder breaks ties between equal names by id. SQLite leaves both ties unspecified.
- Engine.Store.Transfer: the sticker tables are scanned in creation order, which stands in for `sqlite_master` order.
- `create_database` (database.py:7-48) is left out; the store starts empty.
- Photo files: the `os.path.exists` and `open` calls are not modelled. A photo is the file's bytes, `None` when no readable file was named. In an update, `Clear` is the `""` path and a missing file is no photo field at all.
- Inventory.UpdateMaterialType: the second connection opened by `create_stokkodu_table` while the first holds the write lock (database.py:392) is modelled as a plain CREATE TABLE IF NOT EXISTS.
- Inventory.Mint: the year is a parameter, fixed for the whole batch. The source reads `datetime.now().year` once per sticker (database.py:155, 218-223), so a batch minted across New Year can mix years.
- Custody.OwnedItems: rows are ordered by row id, newest first, in place of `ORDER BY olusturmatarihi DESC`.
- `get_stickers`, `get_all_kisiler`'s dictionaries, `get_all_kategoriler`, `get_all_malzeme_types`, `get_kisi` and `save_image_to_file` are not modelled beyond the orders the core uses, because they only read rows or files.
- The PyQt windows (zimmetle.py, zimmetleyeni.py, ekle_duzenle.py, erpmain.py), main.py and bench_sensitivity.py are UI, launcher and measurement code. Only the two assignment-window flows appear, as scenario lemmas.
- Naming.IsBareName: any name outside this rule is taken to make its statement fail. SQLite keywords cannot occur, since every name starts with `stok_`.
- Naming.IsQuotableName: a name whose every `"` is doubled parses, but SQLite then names the table with each pair collapsed to one `"`. The `sqlite_master` lookups compare the spliced name itself (database.py:140, 323, 461, 533, 675), so on such a name they miss the table in the source, while the model finds it. Names with a NUL character, which the driver refuses, are not modelled.
- Custody lemmas about one owner assume no person is registered under the empty name, for the reason given above.
