/**
 * The `kisiler` table: people by AUTOINCREMENT id, and the
 * `ORDER BY kisiisim` listing of `get_all_kisiler` (database.py:121-132)
 * that the transfer scan walks.
 */
module Directory {
  import opened Text

  /** A row of `kisiler`: name, floor (`bulunankat`) and branch (`bulunansube`). */
  datatype Person = Person(name: string, floor: int, branch: string)

  /** Exact-name registration, the `WHERE kisiisim = ?` test of database.py:101 and 240. */
  predicate Registered(people: map<nat, Person>, name: string)
  {
    exists id | id in people :: people[id].name == name
  }

  /** No two ids carry the same exact name. */
  ghost predicate UniqueNames(people: map<nat, Person>)
  {
    forall a, b | a in people && b in people && a != b :: people[a].name != people[b].name
  }

  /** Listing order: by name, and by id between equal names. */
  predicate ListedBefore(a: nat, p: Person, b: nat, q: Person)
  {
    Below(p.name, q.name) || (p.name == q.name && a < b)
  }

  lemma ListedBeforeAsymmetric(a: nat, p: Person, b: nat, q: Person)
    ensures !(ListedBefore(a, p, b, q) && ListedBefore(b, q, a, p))
  {
    BelowAsymmetric(p.name, q.name);
    BelowIrreflexive(p.name);
  }

  lemma ListedBeforeTransitive(a: nat, p: Person, b: nat, q: Person, c: nat, s: Person)
    requires ListedBefore(a, p, b, q) && ListedBefore(b, q, c, s)
    ensures ListedBefore(a, p, c, s)
  {
    if Below(p.name, q.name) && Below(q.name, s.name) { BelowTransitive(p.name, q.name, s.name); }
    if p.name == q.name && q.name == s.name { BelowIrreflexive(p.name); }
  }

  lemma ListedBeforeTotal(a: nat, p: Person, b: nat, q: Person)
    requires a != b
    ensures ListedBefore(a, p, b, q) || ListedBefore(b, q, a, p)
  {
    BelowTotal(p.name, q.name);
  }

  predicate IsFirstListed(people: map<nat, Person>, k: nat)
  {
    k in people && forall j | j in people && j != k :: ListedBefore(k, people[k], j, people[j])
  }

  lemma {:induction false} FirstListedExists(people: map<nat, Person>)
    requires |people| > 0
    ensures exists k :: IsFirstListed(people, k)
    decreases |people|
  {
    var j :| j in people;
    var rest := people - {j};
    if |rest| == 0 {
      assert IsFirstListed(people, j);
    } else {
      FirstListedExists(rest);
      var k :| IsFirstListed(rest, k);
      if ListedBefore(j, people[j], k, people[k]) {
        forall x | x in people && x != j ensures ListedBefore(j, people[j], x, people[x]) {
          if x != k {
            assert x in rest && rest[x] == people[x];
            assert ListedBefore(k, people[k], x, people[x]);
            ListedBeforeTransitive(j, people[j], k, people[k], x, people[x]);
          }
        }
        assert IsFirstListed(people, j);
      } else {
        forall x | x in people && x != k ensures ListedBefore(k, people[k], x, people[x]) {
          if x == j {
            ListedBeforeTotal(j, people[j], k, people[k]);
          } else {
            assert x in rest && rest[x] == people[x];
          }
        }
        assert IsFirstListed(people, k);
      }
    }
  }

  lemma FirstListedUnique(people: map<nat, Person>)
    ensures forall a, b :: IsFirstListed(people, a) && IsFirstListed(people, b) ==> a == b
  {
    forall a, b | IsFirstListed(people, a) && IsFirstListed(people, b) ensures a == b {
      ListedBeforeAsymmetric(a, people[a], b, people[b]);
    }
  }

  /** Ids listed in strictly increasing listing order. */
  ghost predicate InListingOrder(people: map<nat, Person>, ids: seq<nat>)
  {
    && (forall i | 0 <= i < |ids| :: ids[i] in people)
    && (forall i, j | 0 <= i < j < |ids| :: ListedBefore(ids[i], people[ids[i]], ids[j], people[ids[j]]))
  }

  /** `get_all_kisiler`: every id, each once, in `ORDER BY kisiisim` order. */
  function ListingOrder(people: map<nat, Person>): (r: seq<nat>)
    ensures InListingOrder(people, r)
    ensures forall k | k in people :: k in r
    decreases |people|
  {
    if |people| == 0 then []
    else
      FirstListedExists(people);
      FirstListedUnique(people);
      var k :| IsFirstListed(people, k);
      var rest := people - {k};
      var tail := ListingOrder(rest);
      assert forall i | 0 <= i < |tail| :: tail[i] in people && tail[i] != k && rest[tail[i]] == people[tail[i]];
      [k] + tail
  }

  /** A listed order never repeats an id. */
  lemma ListingOrderDistinct(people: map<nat, Person>, i: nat, j: nat)
    requires i < j < |ListingOrder(people)|
    ensures ListingOrder(people)[i] != ListingOrder(people)[j]
  {
    var r := ListingOrder(people);
    ListedBeforeAsymmetric(r[i], people[r[i]], r[j], people[r[j]]);
  }

  /** Of two places in a listing, the person listed before comes first. */
  lemma ListedBeforeComesFirst(people: map<nat, Person>, ids: seq<nat>, i: nat, k: nat)
    requires InListingOrder(people, ids)
    requires i < |ids| && k < |ids|
    requires ListedBefore(ids[i], people[ids[i]], ids[k], people[ids[k]])
    ensures i < k
  {
    if k <= i {
      ListedBeforeAsymmetric(ids[i], people[ids[i]], ids[k], people[ids[k]]);
      assert false;
    }
  }

  /** A later place in a listing holds another person, not listed before the earlier one. */
  lemma ListedLater(people: map<nat, Person>, ids: seq<nat>, j: nat, m: nat)
    requires InListingOrder(people, ids)
    requires j < m < |ids|
    ensures ids[j] != ids[m]
    ensures !ListedBefore(ids[m], people[ids[m]], ids[j], people[ids[j]])
  {
    ListedBeforeAsymmetric(ids[j], people[ids[j]], ids[m], people[ids[m]]);
  }
}
