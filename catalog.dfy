/** The in-memory catalog of PriceListService.java: the PriceItem record,
    the two structures byEm and allItems kept in step, and the add rule of
    addPriceItemIfValid. */
module Catalog {
  import opened Wrappers
  import opened JavaStrings
  import opened KeyNormalization
  import opened Seqs

  /** PriceItem.java: one priced article of the price list. */
  datatype PriceItem = PriceItem(emNr: string, name: string, price: real, unit: string, sourceSheet: string)

  /** The arguments of one addPriceItemIfValid call; None stands for null. */
  datatype AddRequest = AddRequest(
    material: Option<string>,
    emNr: Option<string>,
    artNr: Option<string>,
    price: Option<real>,
    unit: Option<string>,
    sheet: string)

  /** The two structures of the service: byEm, from normalised key to item,
      and allItems, the items in insertion order. */
  datatype Catalog = Catalog(byEm: map<string, PriceItem>, allItems: seq<PriceItem>)

  const Empty: Catalog := Catalog(map[], [])

  /** The key an item is stored under: its normalised emNr. */
  function Key(item: PriceItem): string {
    Normalize(item.emNr)
  }

  /** byEm and allItems describe the same items when items are filed
      under kf: keys are unique in allItems, each item is stored in byEm
      under its key, and every byEm entry is an item of allItems filed
      under its own, non-empty, key. The catalog rules below hold for any
      key function; the service files items under Key. */
  ghost predicate ConsistentUnder(c: Catalog, kf: PriceItem -> string) {
    DistinctKeys(c.allItems, kf) && ListedInMap(c, kf) && MapInList(c, kf)
  }

  ghost predicate DistinctKeys(items: seq<PriceItem>, kf: PriceItem -> string) {
    forall i, j :: 0 <= i < j < |items| ==> kf(items[i]) != kf(items[j])
  }

  ghost predicate ListedInMap(c: Catalog, kf: PriceItem -> string) {
    forall i :: 0 <= i < |c.allItems| ==>
      kf(c.allItems[i]) in c.byEm && c.byEm[kf(c.allItems[i])] == c.allItems[i]
  }

  ghost predicate MapInList(c: Catalog, kf: PriceItem -> string) {
    forall k :: k in c.byEm ==> k != [] && kf(c.byEm[k]) == k && c.byEm[k] in c.allItems
  }

  /** The class invariant of the service: byEm and allItems in step. */
  ghost predicate Consistent(c: Catalog) {
    ConsistentUnder(c, Key)
  }

  /** A string argument that is null or blank. */
  predicate Absent(s: Option<string>) {
    s.None? || IsBlank(s.value)
  }

  /** The trimmed value of a non-blank argument. */
  function Given(s: Option<string>): (r: Option<string>)
    ensures r.Some? <==> !Absent(s)
  {
    if Absent(s) then None else Some(Trim(s.value))
  }

  /** The item's name: the trimmed material when it is not blank, else the
      trimmed article number (blank or not), else null. */
  function NameOf(req: AddRequest): (r: Option<string>)
    ensures !Absent(req.material) ==> r == Some(Trim(req.material.value))
    ensures Absent(req.material) ==> r == if req.artNr.Some? then Some(Trim(req.artNr.value)) else None
  {
    if !Absent(req.material) then Given(req.material)
    else if req.artNr.Some? then Some(Trim(req.artNr.value))
    else None
  }

  /** The longest name prefix a synthesised key keeps. */
  const NameKeyLength: nat := 60

  /** The emNr synthesised for an item known only by name: the name when
      its length is at most 60, otherwise its first 60 code units (59 when
      the 60th would be the first half of a surrogate pair). */
  function NameKey(name: string): (r: string)
    ensures 5 <= |r| <= 5 + NameKeyLength && r[..5] == "NAME:"
    ensures r[5..] <= name && Utf16Length(r[5..]) <= NameKeyLength
    ensures Utf16Length(name) <= NameKeyLength ==> r[5..] == name
    ensures Utf16Length(name) > NameKeyLength ==>
      |r| - 5 < |name| && Utf16Length(r[5..]) + Units(name[|r| - 5]) > NameKeyLength
  {
    var cut := if Utf16Length(name) > NameKeyLength then Utf16Prefix(name, NameKeyLength) else name;
    assert ("NAME:" + cut)[5..] == cut;
    assert Utf16Length(name) > NameKeyLength ==> cut != name && |cut| < |name|;
    "NAME:" + cut
  }

  /** For a name of characters up to U+FFFF, the key is "NAME:" followed by
      exactly the first 60 characters once the name is longer than that. */
  lemma NameKeyBmp(name: string)
    requires forall i :: 0 <= i < |name| ==> name[i] as int < 0x1_0000
    requires |name| > NameKeyLength
    ensures NameKey(name) == "NAME:" + name[..NameKeyLength]
  {
    Utf16LengthBmp(name);
    var cut := NameKey(name)[5..];
    assert cut == name[..|cut|];
    Utf16LengthBmp(cut);
    assert Units(name[|cut|]) == 1;
    assert |cut| == NameKeyLength;
    assert NameKey(name) == "NAME:" + cut;
  }

  /** The item addPriceItemIfValid builds, or None when both the emNr and
      the name are null or blank. */
  function NewItem(req: AddRequest): (r: Option<PriceItem>)
    ensures r.None? <==> Absent(Given(req.emNr)) && Absent(NameOf(req))
    ensures r.Some? ==> var item := r.value;
      && item.sourceSheet == req.sheet
      && (req.price.None? ==> item.price == 0.0)
      && (req.price.Some? ==> item.price == req.price.value)
      && (Absent(req.unit) ==> item.unit == "st")
      && (!Absent(req.unit) ==> item.unit == Trim(req.unit.value))
      && (!Absent(Given(req.emNr)) ==> item.emNr == Trim(req.emNr.value))
      && (Absent(Given(req.emNr)) ==> item.emNr == NameKey(NameOf(req).value))
      && item.name == (if NameOf(req).Some? then NameOf(req).value else "")
  {
    var name := NameOf(req);
    var em := Given(req.emNr);
    if Absent(em) && Absent(name) then None
    else
      var emNr := if !Absent(em) then em.value else NameKey(name.value);
      Some(PriceItem(
        emNr,
        if name.Some? then name.value else "",
        if req.price.Some? then req.price.value else 0.0,
        if !Absent(req.unit) then Trim(req.unit.value) else "st",
        req.sheet))
  }

  /** Every item addPriceItemIfValid builds has a non-empty key: a given
      emNr is non-blank, and a synthesised one starts with "NAME:". */
  lemma NewItemKey(req: AddRequest)
    requires NewItem(req).Some?
    ensures Key(NewItem(req).value) != []
  {
    var emNr := NewItem(req).value.emNr;
    if !Absent(Given(req.emNr)) {
      var t := Trim(req.emNr.value);
      assert !IsBlank(t);
      assert t != [];
      TrimOfTrimmed(t);
    } else {
      assert emNr[0] == 'N';
    }
    assert Trim(emNr) != [];
  }

  /** The replace rule: an existing item whose price is 0 or below 0.0001
      gives way to a new item with a positive price. */
  predicate Replaces(existing: PriceItem, item: PriceItem) {
    (existing.price == 0.0 || existing.price < 0.0001) && item.price > 0.0
  }

  /** The put/add/remove step of addPriceItemIfValid for an item filed
      under key. */
  function Put(c: Catalog, key: string, item: PriceItem): Catalog {
    if key !in c.byEm then
      Catalog(c.byEm[key := item], c.allItems + [item])
    else if Replaces(c.byEm[key], item) then
      Catalog(c.byEm[key := item], RemoveFirst(c.allItems, c.byEm[key]) + [item])
    else
      c
  }

  /** The put/add/remove step for a built item, under its normalised key. */
  function AddItem(c: Catalog, item: PriceItem): Catalog {
    Put(c, Key(item), item)
  }

  /** One addPriceItemIfValid call. */
  function Apply(c: Catalog, req: AddRequest): Catalog {
    match NewItem(req)
    case None => c
    case Some(item) => AddItem(c, item)
  }

  /** A run of addPriceItemIfValid calls, in order. */
  function ApplyAll(c: Catalog, reqs: seq<AddRequest>): Catalog {
    if reqs == [] then c else Apply(ApplyAll(c, reqs[..|reqs| - 1]), reqs[|reqs| - 1])
  }

  /** In a consistent catalog the item filed under k sits at an index of
      allItems before which nothing equals it. */
  lemma StoredAt(c: Catalog, kf: PriceItem -> string, k: string) returns (i: nat)
    requires ConsistentUnder(c, kf) && k in c.byEm
    ensures i < |c.allItems| && c.allItems[i] == c.byEm[k] && c.byEm[k] !in c.allItems[..i]
  {
    var x := c.byEm[k];
    i :| 0 <= i < |c.allItems| && c.allItems[i] == x;
    forall j | 0 <= j < i
      ensures c.allItems[..i][j] != x
    {
      assert kf(c.allItems[j]) != kf(c.allItems[i]);
    }
  }

  /** What one put does to a consistent catalog: a new key appends the
      item; an existing key whose item the replace rule lets go has that
      item taken out of allItems, the others kept in order, and the new one
      appended; any other put changes nothing. */
  lemma {:induction false} PutOutcome(c: Catalog, kf: PriceItem -> string, key: string, item: PriceItem)
    requires ConsistentUnder(c, kf)
    ensures var c' := Put(c, key, item);
      && (key !in c.byEm ==> c'.allItems == c.allItems + [item] && c'.byEm == c.byEm[key := item])
      && (key in c.byEm && Replaces(c.byEm[key], item) ==>
            c'.byEm == c.byEm[key := item] &&
            exists i :: 0 <= i < |c.allItems| && c.allItems[i] == c.byEm[key] &&
              c'.allItems == c.allItems[..i] + c.allItems[i + 1..] + [item])
      && (key in c.byEm && !Replaces(c.byEm[key], item) ==> c' == c)
  {
    if key in c.byEm && Replaces(c.byEm[key], item) {
      var i := StoredAt(c, kf, key);
      RemoveFirstAt(c.allItems, c.byEm[key], i);
    }
  }

  /** Putting an item under its own non-empty key keeps the catalog
      consistent. */
  lemma PutPreservesConsistency(c: Catalog, kf: PriceItem -> string, key: string, item: PriceItem)
    requires ConsistentUnder(c, kf) && key == kf(item) && key != []
    ensures ConsistentUnder(Put(c, key, item), kf)
  {
    if key !in c.byEm {
      PutNewKey(c, kf, key, item);
    } else if Replaces(c.byEm[key], item) {
      PutReplacing(c, kf, key, item);
    }
  }

  lemma PutNewKey(c: Catalog, kf: PriceItem -> string, key: string, item: PriceItem)
    requires ConsistentUnder(c, kf) && key == kf(item) && key != [] && key !in c.byEm
    ensures ConsistentUnder(Put(c, key, item), kf)
  {
    forall i | 0 <= i < |c.allItems|
      ensures kf(c.allItems[i]) != key
    {
    }
  }

  lemma PutReplacing(c: Catalog, kf: PriceItem -> string, key: string, item: PriceItem)
    requires ConsistentUnder(c, kf) && key == kf(item) && key != []
    requires key in c.byEm && Replaces(c.byEm[key], item)
    ensures ConsistentUnder(Put(c, key, item), kf)
  {
    var d := Catalog(c.byEm - {key}, RemoveFirst(c.allItems, c.byEm[key]));
    RemoveKeyConsistent(c, kf, key);
    PutNewKey(d, kf, key, item);
    assert Put(d, key, item).byEm == Put(c, key, item).byEm;
  }

  /** Taking the item filed under key out of both structures keeps the
      catalog consistent. */
  lemma RemoveKeyConsistent(c: Catalog, kf: PriceItem -> string, key: string)
    requires ConsistentUnder(c, kf) && key in c.byEm
    ensures ConsistentUnder(Catalog(c.byEm - {key}, RemoveFirst(c.allItems, c.byEm[key])), kf)
  {
    var i := StoredAt(c, kf, key);
    RemoveFirstAt(c.allItems, c.byEm[key], i);
    var s := c.allItems;
    var rest := s[..i] + s[i + 1..];
    var m := c.byEm - {key};
    forall j | 0 <= j < |rest|
      ensures rest[j] == s[Skip(i, j)]
    {
    }
    RemovedDistinct(s, kf, i, rest);
    RemovedListed(c, kf, key, i, rest);
    RemovedInList(c, kf, key, i, rest);
  }

  /** The index in s of element j of s with index i taken out. */
  function Skip(i: nat, j: nat): nat {
    if j < i then j else j + 1
  }

  lemma RemovedDistinct(s: seq<PriceItem>, kf: PriceItem -> string, i: nat, rest: seq<PriceItem>)
    requires DistinctKeys(s, kf) && i < |s| && |rest| == |s| - 1
    requires forall j :: 0 <= j < |rest| ==> rest[j] == s[Skip(i, j)]
    ensures DistinctKeys(rest, kf)
  {
    forall j1, j2 | 0 <= j1 < j2 < |rest|
      ensures kf(rest[j1]) != kf(rest[j2])
    {
      assert Skip(i, j1) < Skip(i, j2);
    }
  }

  lemma RemovedListed(c: Catalog, kf: PriceItem -> string, key: string, i: nat, rest: seq<PriceItem>)
    requires ConsistentUnder(c, kf) && key in c.byEm
    requires i < |c.allItems| && c.allItems[i] == c.byEm[key] && |rest| == |c.allItems| - 1
    requires forall j :: 0 <= j < |rest| ==> rest[j] == c.allItems[Skip(i, j)]
    ensures ListedInMap(Catalog(c.byEm - {key}, rest), kf)
  {
    var s := c.allItems;
    forall j | 0 <= j < |rest|
      ensures kf(rest[j]) != key
    {
      assert kf(s[Skip(i, j)]) != kf(s[i]);
    }
  }

  lemma RemovedInList(c: Catalog, kf: PriceItem -> string, key: string, i: nat, rest: seq<PriceItem>)
    requires ConsistentUnder(c, kf) && key in c.byEm
    requires i < |c.allItems| && c.allItems[i] == c.byEm[key] && |rest| == |c.allItems| - 1
    requires forall j :: 0 <= j < |rest| ==> rest[j] == c.allItems[Skip(i, j)]
    ensures MapInList(Catalog(c.byEm - {key}, rest), kf)
  {
    var s := c.allItems;
    forall k | k in c.byEm && k != key
      ensures c.byEm[k] in rest
    {
      var n :| 0 <= n < |s| && s[n] == c.byEm[k];
      assert n != i;
      if n < i {
        assert rest[n] == s[n];
      } else {
        assert rest[n - 1] == s[n];
      }
    }
  }

  /** An optional call: none leaves the catalog as it is. */
  function Step(c: Catalog, q: Option<AddRequest>): Catalog {
    if q.Some? then Apply(c, q.value) else c
  }

  /** An optional call as a run of zero or one calls. */
  function AsSeq(q: Option<AddRequest>): seq<AddRequest> {
    if q.Some? then [q.value] else []
  }

  /** A run of calls extended by an optional one. */
  lemma ApplyAllStep(c: Catalog, qs: seq<AddRequest>, q: Option<AddRequest>)
    ensures ApplyAll(c, qs + AsSeq(q)) == Step(ApplyAll(c, qs), q)
  {
    if q.Some? {
      assert (qs + [q.value])[..|qs|] == qs;
    } else {
      assert qs + [] == qs;
    }
  }

  /** Two runs of calls, one after the other, are one run. */
  lemma {:induction false} ApplyAllAppend(c: Catalog, a: seq<AddRequest>, b: seq<AddRequest>)
    ensures ApplyAll(c, a + b) == ApplyAll(ApplyAll(c, a), b)
    decreases |b|
  {
    if b != [] {
      var n := |b| - 1;
      var ab := a + b;
      ApplyAllAppend(c, a, b[..n]);
      assert ab[..|ab| - 1] == a + b[..n];
      assert ab[|ab| - 1] == b[n];
      assert ApplyAll(c, ab) == Apply(ApplyAll(c, a + b[..n]), b[n]);
    } else {
      assert a + b == a;
    }
  }

  /** One addPriceItemIfValid call keeps the catalog consistent. */
  lemma ApplyPreservesConsistency(c: Catalog, req: AddRequest)
    requires Consistent(c)
    ensures Consistent(Apply(c, req))
  {
    if NewItem(req).Some? {
      var item := NewItem(req).value;
      NewItemKey(req);
      PutPreservesConsistency(c, Key, Key(item), item);
    }
  }

  /** Any run of addPriceItemIfValid calls keeps the catalog consistent. */
  lemma {:induction false} ApplyAllPreservesConsistency(c: Catalog, reqs: seq<AddRequest>)
    requires Consistent(c)
    ensures Consistent(ApplyAll(c, reqs))
  {
    if reqs != [] {
      ApplyAllPreservesConsistency(c, reqs[..|reqs| - 1]);
      ApplyPreservesConsistency(ApplyAll(c, reqs[..|reqs| - 1]), reqs[|reqs| - 1]);
    }
  }

  lemma EmptyIsConsistent()
    ensures Consistent(Empty)
  {
  }

  /** The keys of a sequence of items, as a set. */
  function KeySet(s: seq<PriceItem>, kf: PriceItem -> string): (ks: set<string>)
    ensures forall i :: 0 <= i < |s| ==> kf(s[i]) in ks
    ensures forall k :: k in ks ==> exists i :: 0 <= i < |s| && kf(s[i]) == k
  {
    if s == [] then {} else KeySet(s[..|s| - 1], kf) + {kf(s[|s| - 1])}
  }

  /** Items with pairwise distinct keys have as many keys as items. */
  lemma {:induction false} DistinctKeyCount(s: seq<PriceItem>, kf: PriceItem -> string)
    requires forall i, j :: 0 <= i < j < |s| ==> kf(s[i]) != kf(s[j])
    ensures |KeySet(s, kf)| == |s|
  {
    if s != [] {
      var init := s[..|s| - 1];
      DistinctKeyCount(init, kf);
      forall i | 0 <= i < |init|
        ensures kf(init[i]) != kf(s[|s| - 1])
      {
        assert init[i] == s[i];
      }
    }
  }

  /** A consistent catalog holds as many map entries as list items. */
  lemma ConsistentSizes(c: Catalog)
    requires Consistent(c)
    ensures |c.byEm| == |c.allItems|
  {
    assert c.byEm.Keys == KeySet(c.allItems, Key);
    DistinctKeyCount(c.allItems, Key);
  }
}
