/**
  Resolution of a division number to its verse mapping, over the mapping document
  loaded from data/hizb.json (App.js, getVerseMappingForHizb).
 */
module HizbMapping {
  import opened Wrappers
  import opened JsText

  /**
    A division's verse mapping: the own properties of the `verse_mapping` object in
    `Object.keys` order, each a surah number key and its range string ("10-20").
    Keys of a parsed JSON object are distinct.
   */
  type VerseMapping = seq<(string, string)>

  /**
    One member of the document. `hizb` is `Number(x.hizb)` when that is an integer (None for
    NaN or a fraction, which equal no division number); `verseMapping` is the `verse_mapping`
    field when it is truthy. A member that is not an object has neither.
   */
  datatype Record = Record(hizb: Option<int>, verseMapping: Option<VerseMapping>)

  /**
    The loaded document: not loaded (or a falsy JSON value), a JSON scalar, an object keyed by
    strings, or an array.
   */
  datatype Document =
    | NoDocument
    | Scalar
    | ObjectDoc(members: map<string, Record>)
    | ArrayDoc(items: seq<Record>)

  /**
    `hizbData[String(n)]`: the member under key String(n) of an object, or the element at
    index n of an array (String(n) is an array index when n >= 0).
   */
  function KeyLookup(doc: Document, n: int): (r: Option<Record>)
    ensures doc.ObjectDoc? ==> (r.Some? <==> IntToString(n) in doc.members)
    ensures doc.ObjectDoc? && r.Some? ==> r.value == doc.members[IntToString(n)]
    ensures doc.ArrayDoc? ==> (r.Some? <==> 0 <= n < |doc.items|)
    ensures doc.ArrayDoc? && r.Some? ==> r.value == doc.items[n]
    ensures doc.NoDocument? || doc.Scalar? ==> r.None?
  {
    match doc
    case ObjectDoc(members) =>
      var key := IntToString(n);
      if key in members then Some(members[key]) else None
    case ArrayDoc(items) =>
      if 0 <= n < |items| then Some(items[n]) else None
    case _ => None
  }

  /** `obj && obj.verse_mapping`: the key lookup found a record carrying a verse mapping. */
  predicate KeyHit(doc: Document, n: int)
  {
    KeyLookup(doc, n).Some? && KeyLookup(doc, n).value.verseMapping.Some?
  }

  /** `items.find(x => Number(x.hizb) === n)`, as an index. */
  function FindByHizb(items: seq<Record>, n: int): (i: Option<nat>)
    ensures i.Some? ==> i.value < |items| && items[i.value].hizb == Some(n)
    ensures i.Some? ==> forall j :: 0 <= j < i.value ==> items[j].hizb != Some(n)
    ensures i.None? ==> forall j :: 0 <= j < |items| ==> items[j].hizb != Some(n)
  {
    if items == [] then None
    else if items[0].hizb == Some(n) then Some(0)
    else
      match FindByHizb(items[1..], n)
      case None => None
      case Some(k) => Some(k + 1)
  }

  /** `items.find(...) || items[n - 1]`: the matched record, else the one at position n - 1. */
  function ArrayRecord(items: seq<Record>, n: int): (r: Option<Record>)
    ensures forall i :: FirstTagged(items, n, i) ==> r == Some(items[i])
    ensures NoneTagged(items, n) ==> r == (if 1 <= n <= |items| then Some(items[n - 1]) else None)
  {
    match FindByHizb(items, n)
    case Some(i) => Some(items[i])
    case None => if 1 <= n <= |items| then Some(items[n - 1]) else None
  }

  /** The first record of `items` tagged with division `n`. */
  ghost predicate FirstTagged(items: seq<Record>, n: int, i: int)
  {
    && 0 <= i < |items| && items[i].hizb == Some(n)
    && forall j :: 0 <= j < i ==> items[j].hizb != Some(n)
  }

  ghost predicate NoneTagged(items: seq<Record>, n: int)
  {
    forall j :: 0 <= j < |items| ==> items[j].hizb != Some(n)
  }

  /**
    getVerseMappingForHizb(n) as written: the string-key lookup first, for arrays too, then for
    arrays only the search by `hizb` with the positional fallback.
   */
  function GetVerseMappingForHizb(doc: Document, n: int): (r: Option<VerseMapping>)
    ensures doc.NoDocument? || doc.Scalar? ==> r.None?
    ensures KeyHit(doc, n) ==> r == KeyLookup(doc, n).value.verseMapping
    ensures doc.ObjectDoc? && !KeyHit(doc, n) ==> r.None?
    ensures doc.ArrayDoc? && !KeyHit(doc, n) ==>
      forall i :: FirstTagged(doc.items, n, i) ==> r == doc.items[i].verseMapping
    ensures doc.ArrayDoc? && !KeyHit(doc, n) && NoneTagged(doc.items, n) ==>
      r == (if 1 <= n <= |doc.items| then doc.items[n - 1].verseMapping else None)
  {
    if doc.NoDocument? then None
    else if KeyHit(doc, n) then KeyLookup(doc, n).value.verseMapping
    else if doc.ArrayDoc? then
      match ArrayRecord(doc.items, n)
      case Some(rec) => rec.verseMapping
      case None => None
    else None
  }

  /**
    The lookup the document format describes: an object by key String(n), an array by the
    record tagged `hizb == n`, else by position n - 1. The key lookup is not applied to arrays.
   */
  function ResolveMapping(doc: Document, n: int): (r: Option<VerseMapping>)
    ensures doc.NoDocument? || doc.Scalar? ==> r.None?
    ensures doc.ObjectDoc? ==> r == (if KeyHit(doc, n) then KeyLookup(doc, n).value.verseMapping else None)
    ensures doc.ArrayDoc? ==>
      forall i :: FirstTagged(doc.items, n, i) ==> r == doc.items[i].verseMapping
    ensures doc.ArrayDoc? && NoneTagged(doc.items, n) ==>
      r == (if 1 <= n <= |doc.items| then doc.items[n - 1].verseMapping else None)
  {
    match doc
    case ObjectDoc(_) => if KeyHit(doc, n) then KeyLookup(doc, n).value.verseMapping else None
    case ArrayDoc(items) =>
      (match ArrayRecord(items, n)
       case Some(rec) => rec.verseMapping
       case None => None)
    case _ => None
  }

  /** Every record of an array sits at the position its division number gives it, or is untagged. */
  ghost predicate Positioned(items: seq<Record>)
  {
    forall i :: 0 <= i < |items| ==> items[i].hizb == None || items[i].hizb == Some(i + 1)
  }

  /** For an array whose records are positioned, division n resolves to the record at n - 1. */
  lemma ResolvePositioned(items: seq<Record>, n: int)
    requires Positioned(items) && 1 <= n <= |items|
    ensures ResolveMapping(ArrayDoc(items), n) == items[n - 1].verseMapping
  {
    match FindByHizb(items, n)
    case Some(i) =>
      assert items[i].hizb == Some(i + 1);
    case None =>
  }

  /** The two lookups agree on every document that is not an array. */
  lemma ResolveAgreesOffArrays(doc: Document, n: int)
    requires !doc.ArrayDoc?
    ensures ResolveMapping(doc, n) == GetVerseMappingForHizb(doc, n)
  {
  }

  /**
    As written, an array of division records that all carry verse mappings resolves division n to
    the record at position n, the one for division n + 1.
   */
  lemma {:induction false} AsWrittenShiftsArrays(items: seq<Record>, n: int)
    requires 0 <= n < |items| && items[n].verseMapping.Some?
    ensures GetVerseMappingForHizb(ArrayDoc(items), n) == items[n].verseMapping
  {
    assert KeyHit(ArrayDoc(items), n);
  }

  /**
    A two-record array document: division 1 resolves to division 2's mapping as written, and to
    its own with the corrected lookup.
   */
  lemma AsWrittenOffByOne()
    ensures
      var one := Record(Some(1), Some([("1", "1-7")]));
      var two := Record(Some(2), Some([("2", "1-5")]));
      && GetVerseMappingForHizb(ArrayDoc([one, two]), 1) == Some([("2", "1-5")])
      && ResolveMapping(ArrayDoc([one, two]), 1) == Some([("1", "1-7")])
  {
    var one := Record(Some(1), Some([("1", "1-7")]));
    var two := Record(Some(2), Some([("2", "1-5")]));
    assert KeyHit(ArrayDoc([one, two]), 1);
    assert FindByHizb([one, two], 1) == Some(0);
  }

  /**
    As written, a record found by its `hizb` tag but lacking a verse mapping gives no mapping,
    even when the record at position n - 1 has one.
   */
  lemma TaggedWithoutMappingGivesNone(items: seq<Record>, n: int, i: int)
    requires !KeyHit(ArrayDoc(items), n)
    requires FirstTagged(items, n, i) && items[i].verseMapping.None?
    ensures GetVerseMappingForHizb(ArrayDoc(items), n).None?
  {
  }
}
