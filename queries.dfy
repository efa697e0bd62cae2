/** The read side of PriceListService.java: findByArticleNumber and
    searchByPrefix over the catalog state. */
module Queries {
  import opened Wrappers
  import opened JavaStrings
  import opened KeyNormalization
  import opened Seqs
  import opened Catalog

  /** The fallback filter of findByArticleNumber: the normalised emNr is
      the key, or the normalised name contains it. */
  predicate MatchesKey(item: PriceItem, k: string) {
    Normalize(item.emNr) == k || Contains(Normalize(item.name), k)
  }

  /** The filter of searchByPrefix: the normalised emNr starts with p, or
      the normalised name contains it. */
  predicate MatchesPrefix(item: PriceItem, p: string) {
    StartsWith(Normalize(item.emNr), p) || Contains(Normalize(item.name), p)
  }

  /** findByArticleNumber: null for null; the item filed under the
      normalised query when there is one; otherwise the first item of
      allItems the fallback filter accepts, or null. */
  function FindByArticleNumber(c: Catalog, q: Option<string>): (r: Option<PriceItem>)
    ensures q.None? ==> r.None?
    ensures q.Some? && Normalize(q.value) in c.byEm ==> r == Some(c.byEm[Normalize(q.value)])
    ensures q.Some? && Normalize(q.value) !in c.byEm ==>
      && (r.None? <==> forall i :: 0 <= i < |c.allItems| ==> !MatchesKey(c.allItems[i], Normalize(q.value)))
      && (r.Some? ==>
            exists i :: (0 <= i < |c.allItems| && c.allItems[i] == r.value
              && MatchesKey(r.value, Normalize(q.value))
              && forall j :: 0 <= j < i ==> !MatchesKey(c.allItems[j], Normalize(q.value))))
  {
    if q.None? then None
    else
      var k := Normalize(q.value);
      if k in c.byEm then Some(c.byEm[k])
      else FindFirst(c.allItems, (it: PriceItem) => MatchesKey(it, k))
  }

  /** In a consistent catalog every answer is an item of allItems. */
  lemma FoundItemIsListed(c: Catalog, q: Option<string>)
    requires Consistent(c)
    ensures var r := FindByArticleNumber(c, q); r.Some? ==> r.value in c.allItems
  {
  }

  /** In a consistent catalog the fallback never matches on emNr: a key
      missing from byEm is no item's key, so only names can match. */
  lemma FallbackMatchesOnlyNames(c: Catalog, q: string)
    requires Consistent(c) && Normalize(q) !in c.byEm
    ensures forall i :: 0 <= i < |c.allItems| ==>
      (MatchesKey(c.allItems[i], Normalize(q)) <==> Contains(Normalize(c.allItems[i].name), Normalize(q)))
  {
    forall i | 0 <= i < |c.allItems|
      ensures Key(c.allItems[i]) != Normalize(q)
    {
      assert Key(c.allItems[i]) in c.byEm;
    }
  }

  /** A blank, non-null query normalises to "", which is no key, and every
      name contains "": the first item of a non-empty catalog comes back. */
  lemma BlankQueryFindsFirstItem(c: Catalog, q: string)
    requires Consistent(c) && Trim(q) == [] && c.allItems != []
    ensures FindByArticleNumber(c, Some(q)) == Some(c.allItems[0])
  {
    BlankKeyNotFiled(c, q);
    FallbackSearch(c, q);
    FirstMatchOfEmptyKey(c.allItems, Normalize(q));
  }

  lemma BlankKeyNotFiled(c: Catalog, q: string)
    requires Consistent(c) && Trim(q) == []
    ensures Normalize(q) == [] && Normalize(q) !in c.byEm
  {
    assert MapInList(c, Key);
  }

  /** A key that is not filed sends findByArticleNumber to the scan. */
  lemma FallbackSearch(c: Catalog, q: string)
    requires Normalize(q) !in c.byEm
    ensures FindByArticleNumber(c, Some(q))
      == FindFirst(c.allItems, (it: PriceItem) => MatchesKey(it, Normalize(q)))
  {
  }

  lemma FirstMatchOfEmptyKey(items: seq<PriceItem>, k: string)
    requires items != [] && k == []
    ensures FindFirst(items, (it: PriceItem) => MatchesKey(it, k)) == Some(items[0])
  {
    var f := (it: PriceItem) => MatchesKey(it, k);
    ContainsEmpty(Normalize(items[0].name));
    assert f(items[0]);
    var r := FindFirst(items, f);
    assert r.Some?;
    var i :| 0 <= i < |items| && items[i] == r.value && f(items[i]) && forall j :: 0 <= j < i ==> !f(items[j]);
    assert i == 0;
  }

  /** An empty catalog finds nothing. */
  lemma EmptyCatalogFindsNothing(q: Option<string>)
    ensures FindByArticleNumber(Empty, q).None?
  {
  }

  /** searchByPrefix: nothing for a null or blank prefix; otherwise the
      first limit items of allItems, in order, that the filter accepts. */
  function SearchByPrefix(c: Catalog, prefix: Option<string>, limit: nat): (r: seq<PriceItem>)
    ensures prefix.None? || Trim(prefix.value) == [] ==> r == []
    ensures |r| <= limit
    ensures IsSubsequence(r, c.allItems)
    ensures prefix.Some? && Trim(prefix.value) != [] ==>
      var p := Normalize(prefix.value);
      && (forall i :: 0 <= i < |r| ==> MatchesPrefix(r[i], p))
      && (|r| < limit ==> forall i :: 0 <= i < |c.allItems| && MatchesPrefix(c.allItems[i], p) ==> c.allItems[i] in r)
      && r <= Filter(c.allItems, (it: PriceItem) => MatchesPrefix(it, p))
  {
    if prefix.None? || Trim(prefix.value) == [] then []
    else
      var p := Normalize(prefix.value);
      var f := (it: PriceItem) => MatchesPrefix(it, p);
      TakeFiltered(c.allItems, f, limit);
      Take(Filter(c.allItems, f), limit)
  }
}
