/**
 * The material-type registry (`malzemetypes`): stock code to name, category
 * and photo, its `ORDER BY isim` listing and `search_malzeme_types`
 * (database.py:581-599).
 */
module Catalog {
  import opened Wrappers
  import opened Text

  newtype byte = x: int | 0 <= x < 256

  /** A row of `malzemetypes`: display name, optional category, optional photo BLOB. */
  datatype Material = Material(name: string, category: Option<string>, photo: Option<seq<byte>>)

  /** What a sticker row copies from its material (database.py:221-222). */
  datatype StickerData = StickerData(name: string, category: Option<string>)

  // ---------------------------------------------------------------------------
  // ORDER BY isim
  // ---------------------------------------------------------------------------

  /** Listing order: by name, and by stock code between equal names. */
  predicate ListedBefore(c1: string, m1: Material, c2: string, m2: Material)
  {
    Below(m1.name, m2.name) || (m1.name == m2.name && Below(c1, c2))
  }

  lemma ListedBeforeAsymmetric(c1: string, m1: Material, c2: string, m2: Material)
    ensures !(ListedBefore(c1, m1, c2, m2) && ListedBefore(c2, m2, c1, m1))
  {
    BelowAsymmetric(m1.name, m2.name);
    BelowAsymmetric(c1, c2);
    BelowIrreflexive(m1.name);
  }

  lemma ListedBeforeTransitive(c1: string, m1: Material, c2: string, m2: Material, c3: string, m3: Material)
    requires ListedBefore(c1, m1, c2, m2) && ListedBefore(c2, m2, c3, m3)
    ensures ListedBefore(c1, m1, c3, m3)
  {
    if Below(m1.name, m2.name) && Below(m2.name, m3.name) { BelowTransitive(m1.name, m2.name, m3.name); }
    if m1.name == m2.name && m2.name == m3.name {
      BelowIrreflexive(m1.name);
      BelowTransitive(c1, c2, c3);
    }
  }

  lemma ListedBeforeTotal(c1: string, m1: Material, c2: string, m2: Material)
    requires c1 != c2
    ensures ListedBefore(c1, m1, c2, m2) || ListedBefore(c2, m2, c1, m1)
  {
    BelowTotal(m1.name, m2.name);
    BelowTotal(c1, c2);
  }

  predicate IsFirstListed(catalog: map<string, Material>, k: string)
  {
    k in catalog && forall j | j in catalog && j != k :: ListedBefore(k, catalog[k], j, catalog[j])
  }

  lemma {:induction false} FirstListedExists(catalog: map<string, Material>)
    requires |catalog| > 0
    ensures exists k :: IsFirstListed(catalog, k)
    decreases |catalog|
  {
    var j :| j in catalog;
    var rest := catalog - {j};
    if |rest| == 0 {
      assert IsFirstListed(catalog, j);
    } else {
      FirstListedExists(rest);
      var k :| IsFirstListed(rest, k);
      if ListedBefore(j, catalog[j], k, catalog[k]) {
        forall x | x in catalog && x != j ensures ListedBefore(j, catalog[j], x, catalog[x]) {
          if x != k {
            assert x in rest && rest[x] == catalog[x];
            assert ListedBefore(k, catalog[k], x, catalog[x]);
            ListedBeforeTransitive(j, catalog[j], k, catalog[k], x, catalog[x]);
          }
        }
        assert IsFirstListed(catalog, j);
      } else {
        forall x | x in catalog && x != k ensures ListedBefore(k, catalog[k], x, catalog[x]) {
          if x == j {
            ListedBeforeTotal(j, catalog[j], k, catalog[k]);
          } else {
            assert x in rest && rest[x] == catalog[x];
          }
        }
        assert IsFirstListed(catalog, k);
      }
    }
  }

  lemma FirstListedUnique(catalog: map<string, Material>)
    ensures forall a, b :: IsFirstListed(catalog, a) && IsFirstListed(catalog, b) ==> a == b
  {
    forall a, b | IsFirstListed(catalog, a) && IsFirstListed(catalog, b) ensures a == b {
      ListedBeforeAsymmetric(a, catalog[a], b, catalog[b]);
    }
  }

  /** Stock codes listed in strictly increasing listing order. */
  ghost predicate InListingOrder(catalog: map<string, Material>, codes: seq<string>)
  {
    && (forall i | 0 <= i < |codes| :: codes[i] in catalog)
    && (forall i, j | 0 <= i < j < |codes| :: ListedBefore(codes[i], catalog[codes[i]], codes[j], catalog[codes[j]]))
  }

  /** Every stock code of the catalog, in `ORDER BY isim` order. */
  function ListingOrder(catalog: map<string, Material>): (r: seq<string>)
    ensures InListingOrder(catalog, r)
    ensures forall k | k in catalog :: k in r
    decreases |catalog|
  {
    if |catalog| == 0 then []
    else
      FirstListedExists(catalog);
      FirstListedUnique(catalog);
      var k :| IsFirstListed(catalog, k);
      var rest := catalog - {k};
      var tail := ListingOrder(rest);
      assert forall i | 0 <= i < |tail| :: tail[i] in catalog && tail[i] != k && rest[tail[i]] == catalog[tail[i]];
      [k] + tail
  }

  // ---------------------------------------------------------------------------
  // search_malzeme_types
  // ---------------------------------------------------------------------------

  /** The columns a listing row carries, with the `fotograf_var` flag. */
  datatype Listing = Listing(code: string, name: string, category: Option<string>, photo: Option<seq<byte>>, hasPhoto: bool)

  function ListingOf(code: string, m: Material): Listing
  {
    Listing(code, m.name, m.category, m.photo, m.photo.Some?)
  }

  /**
   * The WHERE clause of the search: the lowercased text occurs in the
   * lowercased stock code, name or category; a NULL category never matches.
   */
  predicate Matches(code: string, m: Material, text: string)
  {
    var q := Lower(text);
    || Contains(Lower(code), q)
    || Contains(Lower(m.name), q)
    || (m.category.Some? && Contains(Lower(m.category.value), q))
  }

  /** The entries of `codes` that match `text`, kept in their order. */
  function MatchingCodes(catalog: map<string, Material>, codes: seq<string>, text: string): (r: seq<string>)
    requires forall i | 0 <= i < |codes| :: codes[i] in catalog
    ensures forall i | 0 <= i < |r| :: r[i] in codes && Matches(r[i], catalog[r[i]], text)
    ensures forall k | k in codes && Matches(k, catalog[k], text) :: k in r
    ensures InListingOrder(catalog, codes) ==> InListingOrder(catalog, r)
    decreases |codes|
  {
    if codes == [] then []
    else
      var tail := MatchingCodes(catalog, codes[1..], text);
      if Matches(codes[0], catalog[codes[0]], text) then [codes[0]] + tail else tail
  }

  /** The listing rows for `codes`, one per code, in the same order. */
  function Listings(catalog: map<string, Material>, codes: seq<string>): (r: seq<Listing>)
    requires forall i | 0 <= i < |codes| :: codes[i] in catalog
    ensures |r| == |codes|
    ensures forall i | 0 <= i < |r| :: r[i] == ListingOf(codes[i], catalog[codes[i]])
  {
    seq(|codes|, i requires 0 <= i < |codes| => ListingOf(codes[i], catalog[codes[i]]))
  }

  lemma ListingsCover(catalog: map<string, Material>, codes: seq<string>, k: string)
    requires forall i | 0 <= i < |codes| :: codes[i] in catalog
    ensures k in codes <==> exists i | 0 <= i < |Listings(catalog, codes)| :: Listings(catalog, codes)[i].code == k
  {
    var r := Listings(catalog, codes);
    if k in codes {
      var i :| 0 <= i < |codes| && codes[i] == k;
      assert r[i].code == k;
    }
  }

  /**
   * `search_malzeme_types(text)`: exactly the materials matching the text,
   * each once, with its columns, in listing order.
   */
  function Search(catalog: map<string, Material>, text: string): (r: seq<Listing>)
    ensures forall i | 0 <= i < |r| :: r[i].code in catalog && r[i] == ListingOf(r[i].code, catalog[r[i].code])
    ensures forall k | k in catalog :: Matches(k, catalog[k], text) <==> exists i | 0 <= i < |r| :: r[i].code == k
    ensures forall i, j | 0 <= i < j < |r| :: ListedBefore(r[i].code, catalog[r[i].code], r[j].code, catalog[r[j].code])
  {
    var order := ListingOrder(catalog);
    var codes := MatchingCodes(catalog, order, text);
    forall k | k in catalog
      ensures Matches(k, catalog[k], text) <==> exists i | 0 <= i < |Listings(catalog, codes)| :: Listings(catalog, codes)[i].code == k
    {
      ListingsCover(catalog, codes, k);
    }
    Listings(catalog, codes)
  }

  /** An empty search text lists the whole catalog. */
  lemma SearchEmptyListsAll(catalog: map<string, Material>)
    ensures forall k | k in catalog :: exists i | 0 <= i < |Search(catalog, "")| :: Search(catalog, "")[i].code == k
  {
    var r := Search(catalog, "");
    forall k | k in catalog ensures exists i | 0 <= i < |r| :: r[i].code == k {
      assert |Lower("")| == 0;
      assert OccursAt(Lower(k), Lower(""), 0);
      assert Matches(k, catalog[k], "");
    }
  }

  /** Listing order puts names in non-decreasing order, as `ORDER BY isim` does. */
  lemma SearchSortedByName(catalog: map<string, Material>, text: string, i: nat, j: nat)
    requires i < j < |Search(catalog, text)|
    ensures !Below(Search(catalog, text)[j].name, Search(catalog, text)[i].name)
  {
    var r := Search(catalog, text);
    BelowAsymmetric(r[i].name, r[j].name);
    BelowIrreflexive(r[i].name);
  }
}
