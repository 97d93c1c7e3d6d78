/**
  The surah cache in front of the text API and the sequential fetch of a division's surahs
  (App.js, fetchSurah and the loop of openHizb).
 */
module Fetcher {
  import opened Wrappers
  import opened HizbMapping
  import opened Blocks

  /** What the network gives for one request: a response with its `ok` flag and payload, or a
      transport failure with its message. */
  datatype Reply = Response(ok: bool, data: Surah) | TransportFailure(message: string)

  /** The replies the text API gives, by surah number, during one division open. */
  type Network = int -> Reply

  /** The errors fetchSurah throws: "API error for surah s", or the transport's own error. */
  datatype FetchError = ApiError(surah: int) | NetworkError(message: string)

  /** One request for surah s (App.js:57-61). */
  function Request(net: Network, s: int): (r: Result<Surah, FetchError>)
    ensures r.Err? <==> net(s).TransportFailure? || !net(s).ok
    ensures net(s).Response? && !net(s).ok ==> r == Err(ApiError(s))
    ensures net(s).Response? && net(s).ok ==> r == Ok(net(s).data)
    ensures net(s).TransportFailure? ==> r == Err(NetworkError(net(s).message))
  {
    match net(s)
    case TransportFailure(msg) => Err(NetworkError(msg))
    case Response(ok, data) => if ok then Ok(data) else Err(ApiError(s))
  }

  /** The outcome of one fetchSurah call: its result, the new cache, and whether it went to the network. */
  datatype Fetched = Fetched(result: Result<Surah, FetchError>, entries: map<int, Surah>, requested: bool)

  /** The cache gains entries and never changes one it has. */
  ghost predicate Extends(old_entries: map<int, Surah>, new_entries: map<int, Surah>)
  {
    forall s :: s in old_entries ==> s in new_entries && new_entries[s] == old_entries[s]
  }

  /** fetchSurah(s) against the cache `entries`. */
  function Fetch(entries: map<int, Surah>, net: Network, s: int): (f: Fetched)
    ensures s in entries ==> f == Fetched(Ok(entries[s]), entries, false)
    ensures s !in entries ==> f.requested && f.result == Request(net, s)
    ensures f.result.Ok? ==> s in f.entries && f.entries[s] == f.result.value
    ensures f.result.Err? ==> f.entries == entries
    ensures f.entries.Keys == entries.Keys + (if f.result.Ok? then {s} else {})
    ensures Extends(entries, f.entries)
  {
    if s in entries then Fetched(Ok(entries[s]), entries, false)
    else
      match Request(net, s)
      case Err(e) => Fetched(Err(e), entries, true)
      case Ok(surah) => Fetched(Ok(surah), entries[s := surah], true)
  }

  /** The surahs requested from the network by one fetch. */
  function Requested(f: Fetched, s: int): seq<int>
  {
    if f.requested then [s] else []
  }

  /** The outcome of fetching a division's surahs in order: the blocks or the first error, the
      new cache, and the surahs requested from the network, in order. */
  datatype Loaded = Loaded(result: Result<seq<Block>, FetchError>, entries: map<int, Surah>, requests: seq<int>)

  /**
    The loop of openHizb over the sorted surah numbers: fetch each surah, build its block, stop
    at the first failure.
   */
  function Load(m: VerseMapping, nums: seq<int>, entries: map<int, Surah>, net: Network): (o: Loaded)
    decreases |nums|
  {
    if nums == [] then Loaded(Ok([]), entries, [])
    else
      var f := Fetch(entries, net, nums[0]);
      match f.result
      case Err(e) => Loaded(Err(e), f.entries, Requested(f, nums[0]))
      case Ok(surah) =>
        var rest := Load(m, nums[1..], f.entries, net);
        Loaded(
          if rest.result.Ok? then Ok([BlockFor(m, nums[0], surah)] + rest.result.value) else rest.result,
          rest.entries,
          Requested(f, nums[0]) + rest.requests)
  }

  /** The blocks for surah numbers whose surahs are all cached, in the same order. */
  function BlocksOf(m: VerseMapping, nums: seq<int>, entries: map<int, Surah>): (bs: seq<Block>)
    requires forall i :: 0 <= i < |nums| ==> nums[i] in entries
    ensures |bs| == |nums|
    decreases |nums|
  {
    if nums == [] then []
    else
      assert forall i :: 0 <= i < |nums| - 1 ==> nums[1..][i] == nums[i + 1];
      [BlockFor(m, nums[0], entries[nums[0]])] + BlocksOf(m, nums[1..], entries)
  }

  /** Block i of BlocksOf is the block for the i-th surah number. */
  lemma {:induction false} BlocksOfAt(m: VerseMapping, nums: seq<int>, entries: map<int, Surah>, i: int)
    requires forall j :: 0 <= j < |nums| ==> nums[j] in entries
    requires 0 <= i < |nums|
    ensures BlocksOf(m, nums, entries)[i] == BlockFor(m, nums[i], entries[nums[i]])
    decreases i
  {
    var tail := nums[1..];
    assert forall j :: 0 <= j < |tail| ==> tail[j] == nums[j + 1];
    var head := BlockFor(m, nums[0], entries[nums[0]]);
    assert BlocksOf(m, nums, entries) == [head] + BlocksOf(m, tail, entries);
    if i > 0 {
      BlocksOfAt(m, tail, entries, i - 1);
    }
  }

  /** A loaded division holds one block per surah number, in order, built from the cached surah. */
  ghost predicate BlocksInOrder(m: VerseMapping, nums: seq<int>, o: Loaded)
  {
    && o.result.Ok?
    && (forall i :: 0 <= i < |nums| ==> nums[i] in o.entries)
    && o.result.value == BlocksOf(m, nums, o.entries)
  }

  /**
    The load stopped at nums[k]: it was not cached, its request failed with the load's error, and
    every surah before it is cached. That request was the last one, nothing after nums[k] was
    requested, and nothing after it was cached.
   */
  ghost predicate AbortedAt(nums: seq<int>, entries: map<int, Surah>, net: Network, o: Loaded, k: int)
  {
    && o.result.Err?
    && 0 <= k < |nums| && nums[k] !in entries && nums[k] !in o.entries
    && Request(net, nums[k]) == Err(o.result.error)
    && (forall i :: 0 <= i < k ==> nums[i] in o.entries)
    && o.requests != [] && o.requests[|o.requests| - 1] == nums[k]
    && (forall x :: x in o.requests ==> x in nums[..k + 1])
    && (forall x :: x in o.entries ==> x in entries || x in nums[..k])
  }

  /** Requests only for surahs of the division that were not cached, none twice. */
  ghost predicate FreshRequests(nums: seq<int>, entries: map<int, Surah>, requests: seq<int>)
  {
    && (forall i :: 0 <= i < |requests| ==> requests[i] !in entries && requests[i] in nums)
    && (forall i, j :: 0 <= i < j < |requests| ==> requests[i] != requests[j])
  }

  /**
    A load makes at most one request per surah number, yields one block per surah number when it
    succeeds, and fails only through a request.
   */
  lemma {:induction false} LoadSize(m: VerseMapping, nums: seq<int>, entries: map<int, Surah>, net: Network)
    ensures |Load(m, nums, entries, net).requests| <= |nums|
    ensures Load(m, nums, entries, net).result.Ok? ==> |Load(m, nums, entries, net).result.value| == |nums|
    ensures Load(m, nums, entries, net).result.Err? ==> Load(m, nums, entries, net).requests != []
    decreases |nums|
  {
    if nums != [] {
      var f := Fetch(entries, net, nums[0]);
      if f.result.Ok? {
        LoadSize(m, nums[1..], f.entries, net);
      }
    }
  }

  /** Loading keeps every cached surah. */
  lemma {:induction false} LoadExtends(m: VerseMapping, nums: seq<int>, entries: map<int, Surah>, net: Network)
    ensures Extends(entries, Load(m, nums, entries, net).entries)
    decreases |nums|
  {
    if nums != [] {
      var f := Fetch(entries, net, nums[0]);
      if f.result.Ok? {
        LoadExtends(m, nums[1..], f.entries, net);
      }
    }
  }

  /** A load caches a surah only when it requested that surah. */
  lemma {:induction false} LoadAddsOnlyRequested(m: VerseMapping, nums: seq<int>, entries: map<int, Surah>, net: Network)
    ensures forall s :: s in Load(m, nums, entries, net).entries && s !in entries ==>
      s in Load(m, nums, entries, net).requests
    decreases |nums|
  {
    if nums != [] {
      var f := Fetch(entries, net, nums[0]);
      if f.result.Ok? {
        LoadAddsOnlyRequested(m, nums[1..], f.entries, net);
      }
    }
  }

  /** Every surah a load adds to the cache is the data of the API's ok reply for it. */
  lemma {:induction false} LoadCachesReplies(m: VerseMapping, nums: seq<int>, entries: map<int, Surah>, net: Network)
    ensures forall s :: s in Load(m, nums, entries, net).entries && s !in entries ==>
      Request(net, s) == Ok(Load(m, nums, entries, net).entries[s])
    decreases |nums|
  {
    if nums != [] {
      var f := Fetch(entries, net, nums[0]);
      if f.result.Ok? {
        LoadCachesReplies(m, nums[1..], f.entries, net);
        LoadExtends(m, nums[1..], f.entries, net);
      }
    }
  }

  /**
    A division that loads gives one block per surah number, in the same order, each built from
    the surah now in the cache.
   */
  lemma {:induction false} LoadSucceeds(m: VerseMapping, nums: seq<int>, entries: map<int, Surah>, net: Network)
    ensures Load(m, nums, entries, net).result.Ok? ==> BlocksInOrder(m, nums, Load(m, nums, entries, net))
    decreases |nums|
  {
    if nums != [] && Load(m, nums, entries, net).result.Ok? {
      var f := Fetch(entries, net, nums[0]);
      var surah := f.result.value;
      var rest := Load(m, nums[1..], f.entries, net);
      var o := Load(m, nums, entries, net);
      assert o.result == Ok([BlockFor(m, nums[0], surah)] + rest.result.value) && o.entries == rest.entries;
      LoadSucceeds(m, nums[1..], f.entries, net);
      LoadExtends(m, nums[1..], f.entries, net);
      ConsBlock(m, nums, BlockFor(m, nums[0], surah), surah, rest, o);
    }
  }

  /** The head block in front of blocks in order gives blocks in order. */
  lemma ConsBlock(m: VerseMapping, nums: seq<int>, b: Block, surah: Surah, rest: Loaded, o: Loaded)
    requires nums != [] && BlocksInOrder(m, nums[1..], rest)
    requires o.result == Ok([b] + rest.result.value) && o.entries == rest.entries
    requires b == BlockFor(m, nums[0], surah) && nums[0] in rest.entries && rest.entries[nums[0]] == surah
    ensures BlocksInOrder(m, nums, o)
  {
    forall i | 0 <= i < |nums|
      ensures nums[i] in o.entries
    {
      if i > 0 {
        assert nums[1..][i - 1] == nums[i];
      }
    }
    assert BlocksOf(m, nums, o.entries) == [b] + BlocksOf(m, nums[1..], o.entries);
  }

  /**
    A division that fails stops at the first surah whose request fails: every surah before it is
    cached, it is not, and its request's error is the division's error. No blocks are produced.
   */
  lemma {:induction false} LoadAborts(m: VerseMapping, nums: seq<int>, entries: map<int, Surah>, net: Network)
    requires Load(m, nums, entries, net).result.Err?
    ensures exists k :: AbortedAt(nums, entries, net, Load(m, nums, entries, net), k)
    decreases |nums|
  {
    var o := Load(m, nums, entries, net);
    var f := Fetch(entries, net, nums[0]);
    if f.result.Err? {
      assert o.requests == [nums[0]] && nums[..1] == [nums[0]];
      assert AbortedAt(nums, entries, net, o, 0);
    } else {
      var rest := Load(m, nums[1..], f.entries, net);
      LoadAborts(m, nums[1..], f.entries, net);
      var k :| AbortedAt(nums[1..], f.entries, net, rest, k);
      LoadExtends(m, nums[1..], f.entries, net);
      assert o == Loaded(rest.result, rest.entries, Requested(f, nums[0]) + rest.requests);
      AbortedAfter(nums, entries, net, f, rest, o, k);
    }
  }

  /** A surah fetched without error in front of a load that stopped at nums[k + 1]. */
  lemma AbortedAfter(nums: seq<int>, entries: map<int, Surah>, net: Network, f: Fetched, rest: Loaded, o: Loaded, k: int)
    requires nums != [] && f == Fetch(entries, net, nums[0]) && f.result.Ok?
    requires AbortedAt(nums[1..], f.entries, net, rest, k) && Extends(f.entries, rest.entries)
    requires o == Loaded(rest.result, rest.entries, Requested(f, nums[0]) + rest.requests)
    ensures AbortedAt(nums, entries, net, o, k + 1)
  {
    assert nums[0] in o.entries;
    forall i | 0 <= i < k + 1
      ensures nums[i] in o.entries
    {
      if i > 0 {
        assert nums[i] == nums[1..][i - 1];
      }
    }
    assert nums[k + 1] == nums[1..][k];
    assert nums[1..][..k + 1] == nums[1..k + 2] && nums[1..][..k] == nums[1..k + 1];
    forall x | x in o.requests
      ensures x in nums[..k + 2]
    {
      if x !in rest.requests {
        assert x == nums[0];
      }
    }
    forall x | x in o.entries
      ensures x in entries || x in nums[..k + 1]
    {
      if x !in entries && x != nums[0] {
        assert x in f.entries || x in nums[1..k + 1];
      }
    }
  }

  /**
    One division open asks the network only for surahs that were not cached, and for none of
    them twice.
   */
  lemma {:induction false} LoadRequestsFresh(m: VerseMapping, nums: seq<int>, entries: map<int, Surah>, net: Network)
    ensures FreshRequests(nums, entries, Load(m, nums, entries, net).requests)
    decreases |nums|
  {
    if nums != [] {
      var f := Fetch(entries, net, nums[0]);
      var o := Load(m, nums, entries, net);
      var head := Requested(f, nums[0]);
      if f.result.Ok? {
        var rest := Load(m, nums[1..], f.entries, net);
        assert o.requests == head + rest.requests;
        LoadRequestsFresh(m, nums[1..], f.entries, net);
        FreshCons(nums, entries, f.entries, head, rest.requests);
      } else {
        assert o.requests == head;
      }
    }
  }

  /** A request for an uncached head in front of fresh requests for the tail stays fresh. */
  lemma FreshCons(nums: seq<int>, entries: map<int, Surah>, after: map<int, Surah>, head: seq<int>, rq: seq<int>)
    requires nums != [] && nums[0] in after && entries.Keys <= after.Keys
    requires head == [] || (head == [nums[0]] && nums[0] !in entries)
    requires FreshRequests(nums[1..], after, rq)
    ensures FreshRequests(nums, entries, head + rq)
  {
    var o := head + rq;
    forall i | 0 <= i < |rq|
      ensures rq[i] in nums && rq[i] !in entries && rq[i] != nums[0]
    {
      var t :| 0 <= t < |nums[1..]| && nums[1..][t] == rq[i];
      assert nums[t + 1] == rq[i];
    }
    forall i | 0 <= i < |o|
      ensures o[i] !in entries && o[i] in nums
    {
      if i >= |head| {
        assert o[i] == rq[i - |head|];
      }
    }
    forall i, j | 0 <= i < j < |o|
      ensures o[i] != o[j]
    {
      if i >= |head| {
        assert o[i] == rq[i - |head|];
      }
      assert o[j] == rq[j - |head|];
    }
  }

  /**
    The loop fetches the surahs in ascending order: over ascending surah numbers, the requests
    of one division open ascend strictly.
   */
  lemma {:induction false} LoadRequestsAscending(m: VerseMapping, nums: seq<int>, entries: map<int, Surah>, net: Network)
    requires Ascending(nums)
    ensures Increasing(Load(m, nums, entries, net).requests)
    decreases |nums|
  {
    if nums != [] {
      var f := Fetch(entries, net, nums[0]);
      var o := Load(m, nums, entries, net);
      var head := Requested(f, nums[0]);
      if f.result.Ok? {
        var rest := Load(m, nums[1..], f.entries, net);
        assert o.requests == head + rest.requests;
        AscendingTail(nums);
        LoadRequestsAscending(m, nums[1..], f.entries, net);
        LoadRequestsFresh(m, nums[1..], f.entries, net);
        assert nums[0] in f.entries;
        AllAbove(nums, f.entries, rest.requests);
        IncreasingCons(head, nums[0], rest.requests);
      } else {
        assert o.requests == head;
      }
    }
  }

  /** Requests for uncached surahs among an ascending tail lie above a cached head. */
  lemma AllAbove(nums: seq<int>, entries: map<int, Surah>, rq: seq<int>)
    requires nums != [] && Ascending(nums) && nums[0] in entries
    requires FreshRequests(nums[1..], entries, rq)
    ensures forall j :: 0 <= j < |rq| ==> rq[j] > nums[0]
  {
    forall j | 0 <= j < |rq|
      ensures rq[j] > nums[0]
    {
      var t :| 0 <= t < |nums[1..]| && nums[1..][t] == rq[j];
      assert nums[t + 1] == rq[j];
    }
  }

  /** At most one smaller element in front of an increasing sequence keeps it increasing. */
  lemma IncreasingCons(head: seq<int>, x: int, rq: seq<int>)
    requires head == [] || head == [x]
    requires Increasing(rq) && forall j :: 0 <= j < |rq| ==> rq[j] > x
    ensures Increasing(head + rq)
  {
    var o := head + rq;
    forall i, j | 0 <= i < j < |o|
      ensures o[i] < o[j]
    {
      if i >= |head| {
        assert o[i] == rq[i - |head|];
      } else {
        assert o[i] == x;
      }
      assert o[j] == rq[j - |head|];
    }
  }

  /**
    The session's surah cache (the `surahCache` Map) and, as ghost state, the surah numbers
    requested from the network so far.
   */
  class SurahCache {
    var entries: map<int, Surah>
    ghost var requests: seq<int>

    constructor ()
      ensures entries == map[] && requests == []
    {
      entries := map[];
      requests := [];
    }

    /** fetchSurah(s): a cached surah without a request; otherwise one request, cached on success. */
    method FetchSurah(s: int, net: Network) returns (r: Result<Surah, FetchError>)
      modifies this
      ensures var f := Fetch(old(entries), net, s);
        r == f.result && entries == f.entries && requests == old(requests) + Requested(f, s)
      ensures s in old(entries) ==> r == Ok(old(entries)[s]) && entries == old(entries) && requests == old(requests)
    {
      if s in entries {
        r := Ok(entries[s]);
        return;
      }
      requests := requests + [s];
      var reply := net(s);
      match reply
      case TransportFailure(msg) =>
        r := Err(NetworkError(msg));
      case Response(ok, data) =>
        if !ok {
          r := Err(ApiError(s));
        } else {
          entries := entries[s := data];
          r := Ok(data);
        }
    }

    /**
      The `for` loop of openHizb: fetch each surah in turn and push its block; the first failure
      ends the loop with the error and the blocks gathered so far are dropped.
     */
    method LoadBlocks(m: VerseMapping, nums: seq<int>, net: Network) returns (r: Result<seq<Block>, FetchError>)
      modifies this
      ensures r == Load(m, nums, old(entries), net).result
      ensures entries == Load(m, nums, old(entries), net).entries
      ensures requests == old(requests) + Load(m, nums, old(entries), net).requests
    {
      var blocks: seq<Block> := [];
      ghost var asked: seq<int> := [];
      var i := 0;
      assert nums[i..] == nums;
      ResumeNothing(Load(m, nums, entries, net));
      while i < |nums|
        invariant 0 <= i <= |nums|
        invariant requests == old(requests) + asked
        invariant Load(m, nums, old(entries), net) == Resume(blocks, asked, Load(m, nums[i..], entries, net))
      {
        ghost var f := Fetch(entries, net, nums[i]);
        ghost var before := entries;
        ghost var logged := requests;
        var s := nums[i];
        var fetched := FetchSurah(s, net);
        assert requests == logged + Requested(f, s);
        AppendAssoc(old(requests), asked, Requested(f, s));
        match fetched
        case Err(e) =>
          ResumeFailed(m, nums, i, before, net, blocks, asked);
          asked := asked + Requested(f, s);
          r := Err(e);
          return;
        case Ok(surah) =>
          ResumeFetched(m, nums, i, before, net, blocks, asked);
          blocks := blocks + [BlockFor(m, s, surah)];
          asked := asked + Requested(f, s);
          i := i + 1;
      }
      assert nums[i..] == [];
      assert blocks + [] == blocks && asked + [] == asked;
      r := Ok(blocks);
    }
  }

  /** The outcome of a whole load, given the blocks and requests already made before the rest `o`. */
  function Resume(blocks: seq<Block>, asked: seq<int>, o: Loaded): Loaded
  {
    Loaded(if o.result.Ok? then Ok(blocks + o.result.value) else o.result, o.entries, asked + o.requests)
  }

  lemma ResumeNothing(o: Loaded)
    ensures Resume([], [], o) == o
  {
    if o.result.Ok? {
      assert [] + o.result.value == o.result.value;
    }
    assert [] + o.requests == o.requests;
  }

  lemma AppendAssoc(a: seq<int>, b: seq<int>, c: seq<int>)
    ensures (a + b) + c == a + (b + c)
  {
  }

  /** A failed fetch of nums[i] ends the load with its error. */
  lemma ResumeFailed(m: VerseMapping, nums: seq<int>, i: int, entries: map<int, Surah>, net: Network,
                     blocks: seq<Block>, asked: seq<int>)
    requires 0 <= i < |nums| && Fetch(entries, net, nums[i]).result.Err?
    ensures Resume(blocks, asked, Load(m, nums[i..], entries, net))
         == Loaded(Err(Fetch(entries, net, nums[i]).result.error), entries,
                   asked + Requested(Fetch(entries, net, nums[i]), nums[i]))
  {
    assert nums[i..][0] == nums[i];
  }

  /** A successful fetch of nums[i] adds its block and goes on with the rest. */
  lemma ResumeFetched(m: VerseMapping, nums: seq<int>, i: int, entries: map<int, Surah>, net: Network,
                      blocks: seq<Block>, asked: seq<int>)
    requires 0 <= i < |nums| && Fetch(entries, net, nums[i]).result.Ok?
    ensures var f := Fetch(entries, net, nums[i]);
      Resume(blocks, asked, Load(m, nums[i..], entries, net))
      == Resume(blocks + [BlockFor(m, nums[i], f.result.value)], asked + Requested(f, nums[i]),
                Load(m, nums[i + 1..], f.entries, net))
  {
    var f := Fetch(entries, net, nums[i]);
    assert nums[i..][0] == nums[i] && nums[i..][1..] == nums[i + 1..];
    ResumeStep(blocks, asked, BlockFor(m, nums[i], f.result.value), Requested(f, nums[i]),
               Load(m, nums[i + 1..], f.entries, net));
  }

  lemma ResumeStep(blocks: seq<Block>, asked: seq<int>, b: Block, rq: seq<int>, o: Loaded)
    ensures Resume(blocks, asked, Loaded(if o.result.Ok? then Ok([b] + o.result.value) else o.result, o.entries, rq + o.requests))
         == Resume(blocks + [b], asked + rq, o)
  {
    if o.result.Ok? {
      assert blocks + ([b] + o.result.value) == (blocks + [b]) + o.result.value;
    }
    assert asked + (rq + o.requests) == (asked + rq) + o.requests;
  }
}
