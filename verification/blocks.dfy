/**
  Turning a division's verse mapping and the fetched surahs into the blocks the reading pane
  shows (App.js, parseRange and the loop body of openHizb).
 */
module Blocks {
  import opened Wrappers
  import opened JsText
  import opened HizbMapping

  /** A verse as the text API returns it. */
  datatype Ayah = Ayah(numberInSurah: int, text: string)

  /** A surah as the text API returns it; an absent name is the empty string. */
  datatype Surah = Surah(name: string, englishName: string, ayahs: seq<Ayah>)

  /** One surah's part of a division, as pushed onto `blocks`. */
  datatype Block = Block(surahNumber: int, surahName: string, ayahs: seq<Ayah>)

  /** `{from, to}` of parseRange; NaN or `undefined` is None. */
  datatype Range = Range(from: Option<int>, to: Option<int>)

  /** parseRange: split on "-" and parseInt the first two pieces. */
  function ParseRange(rangeStr: string): (r: Range)
    ensures '-' !in rangeStr ==> r == Range(ParseInt(rangeStr), None)
  {
    var parts := Split(rangeStr, '-');
    assert '-' !in rangeStr ==> parts == [rangeStr] by {
      if '-' !in rangeStr {
        SplitWithoutSeparator(rangeStr, '-');
      }
    }
    Range(ParseInt(parts[0]), if |parts| > 1 then ParseInt(parts[1]) else None)
  }

  /** "A-B" with decimal numerals A and B parses to from = A, to = B. */
  lemma ParseRangeOfNumerals(a: string, b: string)
    requires a != [] && AllDigits(a) && b != [] && AllDigits(b)
    ensures ParseRange(a + "-" + b) == Range(Some(DigitsValue(a)), Some(DigitsValue(b)))
  {
    NumeralHasNoDash(a);
    NumeralHasNoDash(b);
    SplitAfterPiece(a, '-', b);
    SplitWithoutSeparator(b, '-');
    assert a + "-" + b == a + ['-'] + b;
    ParseIntOfDigits(a);
    ParseIntOfDigits(b);
  }

  lemma NumeralHasNoDash(s: string)
    requires AllDigits(s)
    ensures '-' !in s
  {
    forall i | 0 <= i < |s|
      ensures s[i] != '-'
    {
      assert IsDigit(s[i]);
    }
  }

  /** A range written with String(from) + "-" + String(to) parses back to from and to. */
  lemma ParseRangeRoundTrip(from: nat, to: nat)
    ensures ParseRange(NatToString(from) + "-" + NatToString(to)) == Range(Some(from), Some(to))
  {
    ParseRangeOfNumerals(NatToString(from), NatToString(to));
    NatToStringValue(from);
    NatToStringValue(to);
  }

  /** `a.numberInSurah >= from && a.numberInSurah <= to`; any comparison with NaN is false. */
  predicate InWindow(a: Ayah, r: Range)
  {
    r.from.Some? && r.to.Some? && r.from.value <= a.numberInSurah <= r.to.value
  }

  /** The surah's verses inside the range, in their order. */
  function FilterAyahs(ayahs: seq<Ayah>, r: Range): (kept: seq<Ayah>)
    ensures |kept| <= |ayahs|
    ensures forall a :: a in kept <==> a in ayahs && InWindow(a, r)
    ensures r.from.None? || r.to.None? ==> kept == []
  {
    if ayahs == [] then []
    else (if InWindow(ayahs[0], r) then [ayahs[0]] else []) + FilterAyahs(ayahs[1..], r)
  }

  /** Filtering distributes over concatenation, so the kept verses stay in their order. */
  lemma {:induction false} FilterAppend(xs: seq<Ayah>, ys: seq<Ayah>, r: Range)
    ensures FilterAyahs(xs + ys, r) == FilterAyahs(xs, r) + FilterAyahs(ys, r)
  {
    if xs != [] {
      assert (xs + ys)[1..] == xs[1..] + ys;
      FilterAppend(xs[1..], ys, r);
    } else {
      assert xs + ys == ys;
    }
  }

  /** `surah.name || surah.englishName || "#" + s`: never empty. */
  function SurahName(surah: Surah, s: int): (name: string)
    ensures name != []
    ensures name == surah.name || name == surah.englishName || name == "#" + IntToString(s)
    ensures surah.name != [] ==> name == surah.name
    ensures surah.name == [] && surah.englishName != [] ==> name == surah.englishName
  {
    if surah.name != [] then surah.name
    else if surah.englishName != [] then surah.englishName
    else "#" + IntToString(s)
  }

  /** `mapping[k]` for the first property named `k`. */
  function Get(m: VerseMapping, k: string): (r: Option<string>)
    ensures r.None? <==> forall i :: 0 <= i < |m| ==> m[i].0 != k
    ensures r.Some? ==> exists i :: 0 <= i < |m| && m[i] == (k, r.value) && forall j :: 0 <= j < i ==> m[j].0 != k
  {
    if m == [] then None else if m[0].0 == k then Some(m[0].1) else Get(m[1..], k)
  }

  /** `String(mapping[String(s)])`: the range string for surah s, "undefined" when absent. */
  function RangeOf(m: VerseMapping, s: int): (r: string)
    ensures (forall i :: 0 <= i < |m| ==> m[i].0 != IntToString(s)) ==> r == "undefined"
    ensures (exists i :: 0 <= i < |m| && m[i].0 == IntToString(s)) ==>
      exists i :: 0 <= i < |m| && m[i] == (IntToString(s), r) && forall j :: 0 <= j < i ==> m[j].0 != IntToString(s)
  {
    match Get(m, IntToString(s))
    case Some(v) => v
    case None => "undefined"
  }

  /** A missing range reads as "undefined", which has no bounds. */
  lemma UndefinedRangeIsEmpty(m: VerseMapping, s: int)
    requires Get(m, IntToString(s)).None?
    ensures ParseRange(RangeOf(m, s)) == Range(None, None)
  {
    var u := "undefined";
    assert RangeOf(m, s) == u;
    assert '-' !in u by {
      forall i | 0 <= i < |u|
        ensures u[i] != '-'
      {
      }
    }
    ParseIntOfNonNumeral(u);
  }

  /** The block openHizb builds for surah s from its fetched record. */
  function BlockFor(m: VerseMapping, s: int, surah: Surah): (b: Block)
    ensures b.surahNumber == s && b.surahName != []
    ensures b.surahName == SurahName(surah, s)
    ensures b.ayahs == FilterAyahs(surah.ayahs, ParseRange(RangeOf(m, s)))
  {
    Block(s, SurahName(surah, s), FilterAyahs(surah.ayahs, ParseRange(RangeOf(m, s))))
  }

  predicate Ascending(xs: seq<int>)
  {
    forall i, j :: 0 <= i < j < |xs| ==> xs[i] <= xs[j]
  }

  /** Each element is below every later one. */
  predicate Increasing(xs: seq<int>)
  {
    forall i, j :: 0 <= i < j < |xs| ==> xs[i] < xs[j]
  }

  function Insert(xs: seq<int>, x: int): (r: seq<int>)
    requires Ascending(xs)
    ensures Ascending(r) && multiset(r) == multiset(xs) + multiset{x}
    ensures |r| == |xs| + 1 && r[0] == if xs == [] || x <= xs[0] then x else xs[0]
  {
    if xs == [] || x <= xs[0] then [x] + xs
    else
      AscendingTail(xs);
      var rest := Insert(xs[1..], x);
      assert xs == [xs[0]] + xs[1..];
      AscendingCons(xs[0], rest);
      [xs[0]] + rest
  }

  /** The sorted order of `xs`; `sort((a, b) => a - b)` on integers. */
  function Sort(xs: seq<int>): (r: seq<int>)
    ensures Ascending(r) && multiset(r) == multiset(xs)
  {
    if xs == [] then []
    else
      assert xs == [xs[0]] + xs[1..];
      Insert(Sort(xs[1..]), xs[0])
  }

  /**
    An ascending sequence is determined by its elements, so every sort routine yields the same
    sequence as `Sort`, whatever algorithm the JavaScript engine uses.
   */
  lemma {:induction false} AscendingUnique(a: seq<int>, b: seq<int>)
    requires Ascending(a) && Ascending(b) && multiset(a) == multiset(b)
    ensures a == b
    decreases |a|
  {
    if a == [] {
      assert |multiset(b)| == 0;
    } else {
      SameHead(a, b);
      AscendingTail(a);
      AscendingTail(b);
      AscendingUnique(a[1..], b[1..]);
      assert a == [a[0]] + a[1..] && b == [b[0]] + b[1..];
    }
  }

  /** Two ascending sequences with the same elements start with the same element, and what
      follows holds the same elements. */
  lemma SameHead(a: seq<int>, b: seq<int>)
    requires Ascending(a) && Ascending(b) && multiset(a) == multiset(b) && a != []
    ensures b != [] && a[0] == b[0] && multiset(a[1..]) == multiset(b[1..])
  {
    assert a[0] in multiset(a) by {
      assert a[0] in a;
    }
    assert b != [];
    assert b[0] in multiset(b) by {
      assert b[0] in b;
    }
    HeadIsLeast(a, b[0]);
    HeadIsLeast(b, a[0]);
    TailMultiset(a);
    TailMultiset(b);
  }

  /** A head no larger than the first element of an ascending sequence keeps it ascending. */
  lemma AscendingCons(h: int, xs: seq<int>)
    requires Ascending(xs) && (xs == [] || h <= xs[0])
    ensures Ascending([h] + xs)
  {
    var ys := [h] + xs;
    forall i, j | 0 <= i < j < |ys|
      ensures ys[i] <= ys[j]
    {
      assert ys[j] == xs[j - 1];
      if i > 0 {
        assert ys[i] == xs[i - 1];
      } else {
        assert xs[0] <= xs[j - 1];
      }
    }
  }

  lemma AscendingTail(a: seq<int>)
    requires Ascending(a) && a != []
    ensures Ascending(a[1..])
  {
    forall i, j | 0 <= i < j < |a| - 1
      ensures a[1..][i] <= a[1..][j]
    {
      assert a[1..][i] == a[i + 1] && a[1..][j] == a[j + 1];
    }
  }

  /** The head of an ascending sequence is below each of its elements. */
  lemma HeadIsLeast(a: seq<int>, y: int)
    requires Ascending(a) && a != [] && y in multiset(a)
    ensures a[0] <= y
  {
    var i :| 0 <= i < |a| && a[i] == y;
  }

  lemma TailMultiset(a: seq<int>)
    requires a != []
    ensures multiset(a[1..]) == multiset(a) - multiset{a[0]}
  {
    assert a == [a[0]] + a[1..];
    assert multiset(a) == multiset{a[0]} + multiset(a[1..]);
  }

  /** Every key of the mapping reads as a number. */
  predicate KeysParse(m: VerseMapping)
  {
    forall i :: 0 <= i < |m| ==> ParseInt(m[i].0).Some?
  }

  /** `Object.keys(mapping).map(k => parseInt(k, 10))`. */
  function KeyNumbers(m: VerseMapping): (nums: seq<int>)
    requires KeysParse(m)
    ensures |nums| == |m|
    ensures forall i :: 0 <= i < |m| ==> Some(nums[i]) == ParseInt(m[i].0)
  {
    if m == [] then [] else [ParseInt(m[0].0).value] + KeyNumbers(m[1..])
  }

  /** The surah numbers of a division, sorted ascending: one per key of its mapping. */
  function SurahNumbers(m: VerseMapping): (nums: seq<int>)
    requires KeysParse(m)
    ensures |nums| == |m| && Ascending(nums)
    ensures multiset(nums) == multiset(KeyNumbers(m))
  {
    Sort(KeyNumbers(m))
  }

  /** When no two keys name the same number, the surah numbers ascend strictly. */
  lemma StrictlyAscendingWhenDistinct(m: VerseMapping)
    requires KeysParse(m)
    requires forall i, j :: 0 <= i < j < |m| ==> ParseInt(m[i].0) != ParseInt(m[j].0)
    ensures Increasing(SurahNumbers(m))
  {
    var nums := SurahNumbers(m);
    var keys := KeyNumbers(m);
    forall i | 0 <= i < |nums| - 1
      ensures nums[i] < nums[i + 1]
    {
      if nums[i] == nums[i + 1] {
        AdjacentTwice(nums, i);
        CountTwice(keys, nums[i]);
        assert false;
      }
    }
    StrictNeighbours(nums);
  }

  /** An ascending sequence whose neighbours differ is increasing. */
  lemma StrictNeighbours(xs: seq<int>)
    requires Ascending(xs)
    requires forall i :: 0 <= i < |xs| - 1 ==> xs[i] < xs[i + 1]
    ensures Increasing(xs)
  {
    forall i, j | 0 <= i < j < |xs|
      ensures xs[i] < xs[j]
    {
      assert xs[i] < xs[i + 1] <= xs[j];
    }
  }

  /** Equal neighbours make a value occur at least twice. */
  lemma AdjacentTwice(nums: seq<int>, i: int)
    requires 0 <= i < |nums| - 1 && nums[i] == nums[i + 1]
    ensures multiset(nums)[nums[i]] >= 2
  {
    var x := nums[i];
    assert nums == nums[..i] + [x, x] + nums[i + 2..];
    assert multiset(nums) == multiset(nums[..i]) + multiset{x, x} + multiset(nums[i + 2..]);
  }

  /** A value occurring twice in `keys` sits at two distinct positions. */
  lemma CountTwice(keys: seq<int>, x: int)
    requires multiset(keys)[x] >= 2
    ensures exists i, j :: 0 <= i < j < |keys| && keys[i] == x && keys[j] == x
  {
    assert x in keys;
    var i :| 0 <= i < |keys| && keys[i] == x;
    assert keys == keys[..i] + [x] + keys[i + 1..];
    assert multiset(keys[..i] + keys[i + 1..])[x] >= 1;
    assert x in keys[..i] + keys[i + 1..];
    var k :| 0 <= k < |keys[..i] + keys[i + 1..]| && (keys[..i] + keys[i + 1..])[k] == x;
    if k < i {
      assert keys[k] == x;
    } else {
      assert keys[k + 1] == x;
    }
  }
}
