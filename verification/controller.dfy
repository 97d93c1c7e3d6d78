/**
  openHizb: select a division, resolve its verse mapping, fetch its surahs in ascending order and
  produce what the reading pane shows (App.js:113-150, without the DOM).
 */
module Controller {
  import opened Wrappers
  import opened JsText
  import opened HizbMapping
  import opened Blocks
  import opened Fetcher
  import opened Progress

  /** The reading pane after openHizb: the division's blocks, the "incompatible mapping file"
      error, or the "could not fetch the text" error with its cause. */
  datatype Pane = Reading(division: int, blocks: seq<Block>) | NoMapping | FetchFailed(error: FetchError)

  /**
    openHizb(n), with the mapping resolved by getVerseMappingForHizb as written. The selection
    changes first, whatever happens next; a division without a mapping leaves the cache alone;
    otherwise the surahs are fetched in ascending order and the first failure replaces the whole
    pane with an error.
   */
  method OpenHizb(doc: Document, n: int, tracker: Tracker, cache: SurahCache, net: Network) returns (pane: Pane)
    requires tracker.Valid() && 1 <= n <= Total
    requires GetVerseMappingForHizb(doc, n).Some? ==> KeysParse(GetVerseMappingForHizb(doc, n).value)
    modifies tracker`selected, cache
    ensures tracker.Valid() && tracker.selected == Some(n) && tracker.done[..] == old(tracker.done[..])
    ensures GetVerseMappingForHizb(doc, n).None? ==>
      pane == NoMapping && cache.entries == old(cache.entries) && cache.requests == old(cache.requests)
    ensures GetVerseMappingForHizb(doc, n).Some? ==>
      var m := GetVerseMappingForHizb(doc, n).value;
      var o := Load(m, SurahNumbers(m), old(cache.entries), net);
      && pane == (if o.result.Ok? then Reading(n, o.result.value) else FetchFailed(o.result.error))
      && cache.entries == o.entries
      && cache.requests == old(cache.requests) + o.requests
  {
    tracker.Select(n);
    var mapping := GetVerseMappingForHizb(doc, n);
    if mapping.None? {
      return NoMapping;
    }
    pane := ShowDivision(mapping.value, n, cache, net);
  }

  /**
    openHizb(n) with the corrected lookup ResolveMapping in place of getVerseMappingForHizb; on
    every document that is not an array the two coincide (ResolveAgreesOffArrays).
   */
  method OpenHizbCorrected(doc: Document, n: int, tracker: Tracker, cache: SurahCache, net: Network) returns (pane: Pane)
    requires tracker.Valid() && 1 <= n <= Total
    requires ResolveMapping(doc, n).Some? ==> KeysParse(ResolveMapping(doc, n).value)
    modifies tracker`selected, cache
    ensures tracker.Valid() && tracker.selected == Some(n) && tracker.done[..] == old(tracker.done[..])
    ensures ResolveMapping(doc, n).None? ==>
      pane == NoMapping && cache.entries == old(cache.entries) && cache.requests == old(cache.requests)
    ensures ResolveMapping(doc, n).Some? ==>
      var m := ResolveMapping(doc, n).value;
      var o := Load(m, SurahNumbers(m), old(cache.entries), net);
      && pane == (if o.result.Ok? then Reading(n, o.result.value) else FetchFailed(o.result.error))
      && cache.entries == o.entries
      && cache.requests == old(cache.requests) + o.requests
  {
    tracker.Select(n);
    var mapping := ResolveMapping(doc, n);
    if mapping.None? {
      return NoMapping;
    }
    pane := ShowDivision(mapping.value, n, cache, net);
  }

  /**
    The `try` block of openHizb for a resolved mapping: sort the surah numbers, load their
    blocks, and show them, or show the first error.
   */
  method ShowDivision(m: VerseMapping, n: int, cache: SurahCache, net: Network) returns (pane: Pane)
    requires KeysParse(m)
    modifies cache
    ensures var o := Load(m, SurahNumbers(m), old(cache.entries), net);
      && pane == (if o.result.Ok? then Reading(n, o.result.value) else FetchFailed(o.result.error))
      && cache.entries == o.entries
      && cache.requests == old(cache.requests) + o.requests
  {
    var nums := SurahNumbers(m);
    var loaded := cache.LoadBlocks(m, nums, net);
    match loaded
    case Ok(blocks) => pane := Reading(n, blocks);
    case Err(e) => pane := FetchFailed(e);
  }

  /**
    The blocks of a division: one per key of its mapping, carrying the surah numbers in ascending
    order, each holding its surah's verses in the range and its name.
   */
  ghost predicate DivisionShown(m: VerseMapping, entries: map<int, Surah>, blocks: seq<Block>)
  {
    && KeysParse(m)
    && |blocks| == |m|
    && (forall i :: 0 <= i < |blocks| ==> blocks[i].surahNumber == SurahNumbers(m)[i])
    && (forall i, j :: 0 <= i < j < |blocks| ==> blocks[i].surahNumber <= blocks[j].surahNumber)
    && (forall i :: 0 <= i < |blocks| ==>
          && blocks[i].surahNumber in entries
          && var surah := entries[blocks[i].surahNumber];
             blocks[i].ayahs == FilterAyahs(surah.ayahs, ParseRange(RangeOf(m, blocks[i].surahNumber)))
             && blocks[i].surahName == SurahName(surah, blocks[i].surahNumber))
  }

  /**
    When a division opens without error it shows one block per key of its mapping, in ascending
    surah order, each with exactly the surah's verses inside that surah's range and its name.
   */
  lemma OpenedDivisionShown(m: VerseMapping, entries: map<int, Surah>, net: Network)
    requires KeysParse(m)
    ensures Load(m, SurahNumbers(m), entries, net).result.Ok? ==>
              DivisionShown(m, Load(m, SurahNumbers(m), entries, net).entries,
                            Load(m, SurahNumbers(m), entries, net).result.value)
  {
    var nums := SurahNumbers(m);
    var o := Load(m, nums, entries, net);
    LoadSucceeds(m, nums, entries, net);
    if o.result.Ok? {
      forall i | 0 <= i < |nums|
        ensures o.result.value[i] == BlockFor(m, nums[i], o.entries[nums[i]])
      {
        BlocksOfAt(m, nums, o.entries, i);
      }
    }
  }

  /**
    The shape A example: in an object document where "5" maps to {"2": "10-20"}, division 5 has
    the single surah 2 with verses 10 to 20.
   */
  lemma ObjectDocumentExample()
    ensures
      var m := [("2", "10-20")];
      var doc := ObjectDoc(map["5" := Record(None, Some(m))]);
      && ResolveMapping(doc, 5) == Some(m)
      && GetVerseMappingForHizb(doc, 5) == Some(m)
      && KeysParse(m) && SurahNumbers(m) == [2]
      && ParseRange(RangeOf(m, 2)) == Range(Some(10), Some(20))
  {
    var m := [("2", "10-20")];
    var doc := ObjectDoc(map["5" := Record(None, Some(m))]);
    assert IntToString(5) == "5";
    assert KeyHit(doc, 5);
    SingleKeyNumbers();
    assert IntToString(2) == "2";
    assert Get(m, "2") == Some("10-20");
    TenToTwenty();
  }

  /** The mapping {"2": "10-20"} names surah 2 alone. */
  lemma SingleKeyNumbers()
    ensures KeysParse([("2", "10-20")]) && SurahNumbers([("2", "10-20")]) == [2]
  {
    var m := [("2", "10-20")];
    assert IntToString(2) == "2";
    ParseIntOfIntToString(2);
    assert m[0].0 == IntToString(2) && m[1..] == [];
    assert KeyNumbers(m) == [2] + KeyNumbers([]);
    assert Sort([2]) == [2];
  }

  lemma TenToTwenty()
    ensures ParseRange("10-20") == Range(Some(10), Some(20))
  {
    var a, b := "10", "20";
    assert a + "-" + b == "10-20" by {
      assert |a + "-" + b| == 5;
      forall i | 0 <= i < 5
        ensures (a + "-" + b)[i] == "10-20"[i]
      {
      }
    }
    ParseRangeOfNumerals(a, b);
    assert DigitsValue(a) == 10 && DigitsValue(b) == 20 by {
      assert a[..1] == "1" && b[..1] == "2";
    }
  }

  /**
    The shape B example: in an array of 60 untagged records, division 30 is the record at
    position 29 with the corrected lookup; as written it is the record at position 30 whenever
    that record carries a mapping.
   */
  lemma ArrayDocumentExample(items: seq<Record>)
    requires |items| == Total
    requires forall i :: 0 <= i < |items| ==> items[i].hizb.None?
    ensures ResolveMapping(ArrayDoc(items), 30) == items[29].verseMapping
    ensures items[30].verseMapping.Some? ==> GetVerseMappingForHizb(ArrayDoc(items), 30) == items[30].verseMapping
  {
    ResolvePositioned(items, 30);
  }
}
