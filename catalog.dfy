/** The fixed two-level catalog shared by the page (index.js:1-13) and the read
    endpoint (get_backups.php:21-33), and the table shape built on it:
    category -> item -> backup timestamps, newest first. */
module Catalog {
  import opened Common

  type Table = map<string, map<string, seq<string>>>

  const Clasificados: string := "clasificados"
  const Suscripciones: string := "suscripciones"

  /** The categories in the order the object literal declares them. */
  const Categories: seq<string> := [Clasificados, Suscripciones]

  /** The items of a category in declaration order; none for an unknown category. */
  function ItemsOf(category: string): seq<string>
  {
    if category == Clasificados then ["Edictos", "Cristina", "Homero", "MP", "Qhubo"]
    else if category == Suscripciones then ["Ana", "Juliana"]
    else []
  }

  predicate InCatalog(category: string, item: string)
  {
    category in Categories && item in ItemsOf(category)
  }

  /** Every (category, item) pair, categories in order and items in order within each. */
  const Pairs: seq<(string, string)> :=
    [ (Clasificados, "Edictos"), (Clasificados, "Cristina"), (Clasificados, "Homero"),
      (Clasificados, "MP"), (Clasificados, "Qhubo"),
      (Suscripciones, "Ana"), (Suscripciones, "Juliana") ]

  /** A table whose two levels of keys are exactly the catalog's. */
  predicate Shaped(t: Table)
  {
    && t.Keys == {Clasificados, Suscripciones}
    && forall c :: c in t ==> t[c].Keys == set i | i in ItemsOf(c)
  }

  /** `backups[category][item]` on a table that may lack the key. */
  function Lookup(t: Table, category: string, item: string): seq<string>
  {
    if category in t && item in t[category] then t[category][item] else []
  }

  /** The catalog with every list empty: the initial `backups` of the page and the
      skeleton the read endpoint fills. */
  function Skeleton(): (t: Table)
    ensures Shaped(t)
    ensures forall c, i :: InCatalog(c, i) ==> c in t && i in t[c] && t[c][i] == []
  {
    map c | c in Categories :: map i | i in ItemsOf(c) :: []
  }

  /** No item name appears in two categories. */
  lemma ItemInOneCategory(c1: string, c2: string, item: string)
    requires InCatalog(c1, item) && InCatalog(c2, item)
    ensures c1 == c2
  {
  }

  /** Pairs lists exactly the catalog. */
  lemma PairsAreCatalog(c: string, i: string)
    ensures |Pairs| == 7
    ensures (c, i) in Pairs <==> InCatalog(c, i)
  {
  }

  /** Pairs lists each pair once: the item names already differ in their first letter. */
  lemma PairsDistinct(p: nat, q: nat)
    requires p < q < |Pairs|
    ensures Pairs[p] != Pairs[q]
  {
    var initials := "ECHMQAJ";
    assert forall k :: 0 <= k < |Pairs| ==> Pairs[k].1 != [] && Pairs[k].1[0] == initials[k];
    assert initials[p] != initials[q];
  }

  /** On a shaped table the present keys are exactly the catalog pairs. */
  lemma ShapedKeys(t: Table, c: string, i: string)
    requires Shaped(t)
    ensures c in t && i in t[c] <==> InCatalog(c, i)
  {
    if c in t {
      assert c == Clasificados || c == Suscripciones;
      assert i in t[c] <==> i in ItemsOf(c);
    }
  }

  predicate Holds(t: Table, category: string, item: string)
  {
    category in t && item in t[category]
  }

  /** `Object.keys(backups).find(cat => backups[cat].hasOwnProperty(item))` with the
      keys taken in the order `categories`: the first category whose items include `item`. */
  function FirstContaining(t: Table, categories: seq<string>, item: string): (r: Option<string>)
    ensures r.Some? ==> Holds(t, r.value, item)
    ensures r.None? <==> forall k :: 0 <= k < |categories| ==> !Holds(t, categories[k], item)
    ensures r.Some? ==> exists k :: 0 <= k < |categories| && categories[k] == r.value
                                   && forall j :: 0 <= j < k ==> !Holds(t, categories[j], item)
  {
    if categories == [] then None
    else if Holds(t, categories[0], item) then Some(categories[0])
    else
      var r := FirstContaining(t, categories[1..], item);
      assert r.Some? ==> exists k :: 0 <= k < |categories[1..]| && categories[1..][k] == r.value
                                   && forall j :: 0 <= j < k ==> !Holds(t, categories[1..][j], item);
      assert r.Some? ==> exists k :: 1 <= k < |categories| && categories[k] == r.value
                                   && forall j :: 1 <= j < k ==> !Holds(t, categories[j], item);
      r
  }

  /** The category handleSave resolves an item to. */
  function CategoryOf(t: Table, item: string): Option<string>
  {
    FirstContaining(t, Categories, item)
  }

  /** On a shaped table an item resolves to its catalog category, and an item outside
      the catalog resolves to none. */
  lemma CategoryOfShaped(t: Table, item: string)
    requires Shaped(t)
    ensures forall c :: CategoryOf(t, item) == Some(c) <==> InCatalog(c, item)
    ensures CategoryOf(t, item).None? <==> forall c :: !InCatalog(c, item)
  {
    ShapedKeys(t, Clasificados, item);
    ShapedKeys(t, Suscripciones, item);
    assert Categories[0] == Clasificados && Categories[1] == Suscripciones;
  }

  /** The resolution depends only on the keys of the table, not on the lists. */
  lemma CategoryOfSameKeys(t: Table, u: Table, item: string)
    requires t.Keys == u.Keys && forall c :: c in t ==> t[c].Keys == u[c].Keys
    ensures CategoryOf(t, item) == CategoryOf(u, item)
  {
    assert forall c :: Holds(t, c, item) == Holds(u, c, item);
    assert Categories[0] == Clasificados && Categories[1] == Suscripciones;
  }
}
