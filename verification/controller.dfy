/**
  The `/comics` handler: validate the range, fetch every comic of the range in
  ascending order (aborting on the first failure), keep those published in an
  odd month, and sort them by a title key that skips leading non-letters.
  The outbound request, the body read and the JSON decoding are one abstract
  fetch function.
*/
module Controller {
  import opened Wrappers
  import opened GoStrings
  import opened Strconv
  import opened Helpers

  /** Comic book metadata as decoded from the external source. */
  datatype Comic = Comic(
    num: Int64,
    title: Bytes,
    safeTitle: Bytes,
    day: Bytes,
    month: Bytes,
    year: Bytes,
    transcript: Bytes,
    img: Bytes,
    alt: Bytes,
    news: Bytes,
    link: Bytes)

  /**
    Fetching and decoding one comic by number: the decoded record, or the text
    of the error raised while building the request, sending it, reading the
    body or decoding the JSON.
  */
  type Fetcher = int -> Result<Comic, Bytes>

  // ---------------------------------------------------------------------------
  // The odd-month filter
  // ---------------------------------------------------------------------------

  /** Go's `/` on a positive divisor: the quotient is truncated toward zero. */
  function GoQuo(a: int, b: int): int
    requires b > 0
  {
    if a >= 0 then a / b else -((-a) / b)
  }

  /** Go's `%` on a positive divisor: the remainder takes the sign of the dividend. */
  function GoRem(a: int, b: int): (r: int)
    requires b > 0
    ensures -b < r < b
    ensures a >= 0 ==> r >= 0
    ensures a < 0 ==> r <= 0
    ensures a == GoQuo(a, b) * b + r
  {
    TruncatedSplit(a, b);
    if a >= 0 then a % b else -((-a) % b)
  }

  /** Go's quotient and remainder recombine to the dividend. */
  lemma TruncatedSplit(a: int, b: int)
    requires b > 0
    ensures a >= 0 ==> 0 <= a % b < b
    ensures a < 0 ==> 0 <= (-a) % b < b
    ensures a == GoQuo(a, b) * b + (if a >= 0 then a % b else -((-a) % b))
  {
    if a >= 0 {
      EuclideanSplit(a, b);
    } else {
      EuclideanSplit(-a, b);
    }
  }

  /** Euclidean division of a non-negative dividend, the part Go's `/` and `%` share. */
  lemma EuclideanSplit(m: int, b: int)
    requires m >= 0 && b > 0
    ensures 0 <= m % b < b && m == (m / b) * b + m % b
    ensures -m == (-(m / b)) * b + -(m % b)
  {
  }

  /**
    `m, _ := strconv.Atoi(comic.Month)`: the error is ignored, so the month
    is the int Atoi returns alongside it.
  */
  function MonthNumber(c: Comic): Int64
  {
    ParseInt(c.month).value
  }

  /** The filter of the handler's loop: `m % 2 != 0`. */
  predicate IsOddMonth(c: Comic)
  {
    GoRem(MonthNumber(c), 2) != 0
  }

  /**
    A month that parses is kept exactly when it is odd (negative odd months
    included). A decimal month beyond the int64 range reads as the nearest
    bound, so a too-large one is kept (MaxInt64 is odd) and a too-small one
    is dropped (MinInt64 is even). A month that is not decimal is dropped
    unless its digits overflow first with no minus sign.
  */
  lemma OddMonthMeansParsedOdd(c: Comic)
    ensures Atoi(c.month).Some? ==> (IsOddMonth(c) <==> Atoi(c.month).value % 2 == 1)
    ensures IsDecimal(c.month) && DecimalValue(c.month) > MaxInt64 ==> IsOddMonth(c)
    ensures IsDecimal(c.month) && DecimalValue(c.month) < MinInt64 ==> !IsOddMonth(c)
    ensures !IsDecimal(c.month) ==> (IsOddMonth(c) <==> MonthNumber(c) == MaxInt64)
  {
    ParseIntOnError(c.month);
  }

  /** The positions of `cs` whose comic has an odd month, in increasing order. */
  function OddMonthPositions(cs: seq<Comic>): (ps: seq<int>)
    ensures forall k :: 0 <= k < |ps| ==> 0 <= ps[k] < |cs| && IsOddMonth(cs[ps[k]])
    ensures forall k, l :: 0 <= k < l < |ps| ==> ps[k] < ps[l]
    ensures forall i :: 0 <= i < |cs| && IsOddMonth(cs[i]) ==> i in ps
    decreases |cs|
  {
    if |cs| == 0 then []
    else
      var n := |cs| - 1;
      var prefix := OddMonthPositions(cs[..n]);
      PositionsExtend(cs, prefix);
      prefix + (if IsOddMonth(cs[n]) then [n] else [])
  }

  /** The odd-month positions of all but the last comic, extended by the last one's position if it is kept. */
  lemma PositionsExtend(cs: seq<Comic>, prefix: seq<int>)
    requires |cs| > 0
    requires forall k :: 0 <= k < |prefix| ==> 0 <= prefix[k] < |cs| - 1 && IsOddMonth(cs[..|cs| - 1][prefix[k]])
    requires forall k, l :: 0 <= k < l < |prefix| ==> prefix[k] < prefix[l]
    requires forall i :: 0 <= i < |cs| - 1 && IsOddMonth(cs[..|cs| - 1][i]) ==> i in prefix
    ensures var ps := prefix + (if IsOddMonth(cs[|cs| - 1]) then [|cs| - 1] else []);
      && (forall k :: 0 <= k < |ps| ==> 0 <= ps[k] < |cs| && IsOddMonth(cs[ps[k]]))
      && (forall k, l :: 0 <= k < l < |ps| ==> ps[k] < ps[l])
      && (forall i :: 0 <= i < |cs| && IsOddMonth(cs[i]) ==> i in ps)
  {
    var n := |cs| - 1;
    PositionsExtendSound(cs, prefix);
    PositionsExtendComplete(cs, prefix);
  }

  lemma PositionsExtendSound(cs: seq<Comic>, prefix: seq<int>)
    requires |cs| > 0
    requires forall k :: 0 <= k < |prefix| ==> 0 <= prefix[k] < |cs| - 1 && IsOddMonth(cs[..|cs| - 1][prefix[k]])
    ensures var ps := prefix + (if IsOddMonth(cs[|cs| - 1]) then [|cs| - 1] else []);
      forall k :: 0 <= k < |ps| ==> 0 <= ps[k] < |cs| && IsOddMonth(cs[ps[k]])
  {
    var n := |cs| - 1;
    var ps := prefix + (if IsOddMonth(cs[n]) then [n] else []);
    forall k | 0 <= k < |ps| ensures 0 <= ps[k] < |cs| && IsOddMonth(cs[ps[k]]) {
      if k < |prefix| {
        assert ps[k] == prefix[k];
        assert cs[..n][prefix[k]] == cs[prefix[k]];
      }
    }
  }

  lemma PositionsExtendComplete(cs: seq<Comic>, prefix: seq<int>)
    requires |cs| > 0
    requires forall i :: 0 <= i < |cs| - 1 && IsOddMonth(cs[..|cs| - 1][i]) ==> i in prefix
    ensures var ps := prefix + (if IsOddMonth(cs[|cs| - 1]) then [|cs| - 1] else []);
      forall i :: 0 <= i < |cs| && IsOddMonth(cs[i]) ==> i in ps
  {
    var n := |cs| - 1;
    var ps := prefix + (if IsOddMonth(cs[n]) then [n] else []);
    forall i | 0 <= i < |cs| && IsOddMonth(cs[i]) ensures i in ps {
      if i < n {
        assert cs[..n][i] == cs[i];
        assert i in prefix;
      }
    }
  }

  /**
    The comics the loop keeps, in fetch order: the comics at exactly the
    odd-month positions, so the result is a subsequence of `cs` that drops
    precisely the even-month comics.
  */
  function KeepOddMonths(cs: seq<Comic>): (kept: seq<Comic>)
    ensures |kept| == |OddMonthPositions(cs)|
    ensures forall k :: 0 <= k < |kept| ==> kept[k] == cs[OddMonthPositions(cs)[k]]
    decreases |cs|
  {
    if |cs| == 0 then []
    else
      var n := |cs| - 1;
      KeepOddMonths(cs[..n]) + (if IsOddMonth(cs[n]) then [cs[n]] else [])
  }

  // ---------------------------------------------------------------------------
  // Fetching a range
  // ---------------------------------------------------------------------------

  /** The identifiers `lo`, `lo + 1`, ..., `hi`; empty when `lo > hi`. */
  function Range(lo: int, hi: int): (r: seq<int>)
    ensures |r| == if hi < lo then 0 else hi - lo + 1
    ensures forall k :: 0 <= k < |r| ==> r[k] == lo + k
    decreases hi - lo
  {
    if hi < lo then [] else Range(lo, hi - 1) + [hi]
  }

  /** Every identifier of `ids` fetches successfully. */
  predicate AllFetched(fetch: Fetcher, ids: seq<int>)
  {
    forall k :: 0 <= k < |ids| ==> fetch(ids[k]).Ok?
  }

  /** The records of `ids`, all of which fetch successfully, in order. */
  function Fetched(fetch: Fetcher, ids: seq<int>): seq<Comic>
    requires AllFetched(fetch, ids)
  {
    seq(|ids|, k requires 0 <= k < |ids| => fetch(ids[k]).value)
  }

  /** Position `k` is the first of `ids` whose fetch fails. */
  predicate FirstFailure(fetch: Fetcher, ids: seq<int>, k: int)
  {
    0 <= k < |ids| && fetch(ids[k]).Err? && forall j :: 0 <= j < k ==> fetch(ids[j]).Ok?
  }

  /** The filter step: a comic with an odd month joins the kept ones. */
  function Keep(kept: seq<Comic>, c: Comic): seq<Comic>
  {
    if IsOddMonth(c) then kept + [c] else kept
  }

  /**
    The loop of the handler over `ids`: abort with the first failure's error,
    otherwise the odd-month records in fetch order.
  */
  function FetchFiltered(fetch: Fetcher, ids: seq<int>): Result<seq<Comic>, Bytes>
    decreases |ids|
  {
    if |ids| == 0 then Ok([])
    else
      var n := |ids| - 1;
      match FetchFiltered(fetch, ids[..n])
      case Err(e) => Err(e)
      case Ok(kept) =>
        match fetch(ids[n])
        case Err(e) => Err(e)
        case Ok(c) => Ok(Keep(kept, c))
  }

  /** The identifiers the loop over `ids` requests, in order. */
  function Attempted(fetch: Fetcher, ids: seq<int>): seq<int>
    decreases |ids|
  {
    if |ids| == 0 then []
    else
      var n := |ids| - 1;
      if FetchFiltered(fetch, ids[..n]).Err? then Attempted(fetch, ids[..n])
      else Attempted(fetch, ids[..n]) + [ids[n]]
  }

  /**
    When every fetch succeeds, every identifier is requested and the result
    is the odd-month records in fetch order.
  */
  lemma AllFetchedKeepsOddMonths(fetch: Fetcher, ids: seq<int>)
    requires AllFetched(fetch, ids)
    ensures FetchFiltered(fetch, ids) == Ok(KeepOddMonths(Fetched(fetch, ids)))
    ensures Attempted(fetch, ids) == ids
  {
    AllFetchedFilters(fetch, ids);
    AllFetchedAttempted(fetch, ids);
  }

  lemma {:induction false} AllFetchedFilters(fetch: Fetcher, ids: seq<int>)
    requires AllFetched(fetch, ids)
    ensures FetchFiltered(fetch, ids) == Ok(KeepOddMonths(Fetched(fetch, ids)))
    decreases |ids|
  {
    if |ids| > 0 {
      var n := |ids| - 1;
      FetchedPrefix(fetch, ids);
      AllFetchedFilters(fetch, ids[..n]);
      KeepOddMonthsStep(Fetched(fetch, ids[..n]), Fetched(fetch, ids), fetch(ids[n]).value);
    }
  }

  lemma {:induction false} AllFetchedAttempted(fetch: Fetcher, ids: seq<int>)
    requires AllFetched(fetch, ids)
    ensures Attempted(fetch, ids) == ids
    decreases |ids|
  {
    if |ids| > 0 {
      var n := |ids| - 1;
      FetchedPrefix(fetch, ids);
      AllFetchedFilters(fetch, ids[..n]);
      AllFetchedAttempted(fetch, ids[..n]);
      assert ids[..n] + [ids[n]] == ids;
    }
  }

  /** A list of odd-month comics passes the filter unchanged. */
  lemma {:induction false} KeepOddMonthsKeepsAllOdd(cs: seq<Comic>)
    requires forall i :: 0 <= i < |cs| ==> IsOddMonth(cs[i])
    ensures KeepOddMonths(cs) == cs
    decreases |cs|
  {
    if |cs| > 0 {
      var n := |cs| - 1;
      var prefix := cs[..n];
      assert prefix + [cs[n]] == cs;
      forall i | 0 <= i < n ensures IsOddMonth(prefix[i]) {
        assert prefix[i] == cs[i];
      }
      KeepOddMonthsKeepsAllOdd(prefix);
      KeepOddMonthsStep(prefix, cs, cs[n]);
    }
  }

  /** The filter on a list extended by one comic: the filter on the list, then the comic if kept. */
  lemma KeepOddMonthsStep(pre: seq<Comic>, all: seq<Comic>, c: Comic)
    requires |all| > 0 && all[..|all| - 1] == pre && all[|all| - 1] == c
    ensures KeepOddMonths(all) == if IsOddMonth(c) then KeepOddMonths(pre) + [c] else KeepOddMonths(pre)
  {
  }

  /** The records of a prefix of the identifiers are the prefix of the records. */
  lemma FetchedPrefix(fetch: Fetcher, ids: seq<int>)
    requires AllFetched(fetch, ids) && |ids| > 0
    ensures AllFetched(fetch, ids[..|ids| - 1])
    ensures Fetched(fetch, ids)[..|ids| - 1] == Fetched(fetch, ids[..|ids| - 1])
    ensures Fetched(fetch, ids)[|ids| - 1] == fetch(ids[|ids| - 1]).value
  {
    var n := |ids| - 1;
    var prefix := ids[..n];
    assert AllFetched(fetch, prefix) by {
      forall j | 0 <= j < n ensures fetch(prefix[j]).Ok? {
        assert prefix[j] == ids[j];
      }
    }
    var all := Fetched(fetch, ids);
    var pre := Fetched(fetch, prefix);
    forall j | 0 <= j < n ensures all[j] == pre[j] {
      assert prefix[j] == ids[j];
    }
  }

  /**
    When the fetch at position `k` is the first to fail, the loop answers
    with that fetch's error, and the identifiers requested are those up to
    and including position `k`: nothing after it is requested.
  */
  lemma FirstFailureAborts(fetch: Fetcher, ids: seq<int>, k: int)
    requires FirstFailure(fetch, ids, k)
    ensures FetchFiltered(fetch, ids) == Err(fetch(ids[k]).error)
    ensures Attempted(fetch, ids) == ids[..k + 1]
  {
    FirstFailureFilters(fetch, ids, k);
    FirstFailureAttempted(fetch, ids, k);
  }

  lemma {:induction false} FirstFailureFilters(fetch: Fetcher, ids: seq<int>, k: int)
    requires FirstFailure(fetch, ids, k)
    ensures FetchFiltered(fetch, ids) == Err(fetch(ids[k]).error)
    decreases |ids|
  {
    var n := |ids| - 1;
    if k == n {
      FetchedBeforeFailure(fetch, ids, k);
      AllFetchedFilters(fetch, ids[..n]);
    } else {
      FailureInPrefix(fetch, ids, k);
      FirstFailureFilters(fetch, ids[..n], k);
    }
  }

  lemma {:induction false} FirstFailureAttempted(fetch: Fetcher, ids: seq<int>, k: int)
    requires FirstFailure(fetch, ids, k)
    ensures Attempted(fetch, ids) == ids[..k + 1]
    decreases |ids|
  {
    var n := |ids| - 1;
    LastCut(ids, k);
    if k == n {
      FetchedBeforeFailure(fetch, ids, k);
      AllFetchedFilters(fetch, ids[..n]);
      AllFetchedAttempted(fetch, ids[..n]);
    } else {
      FailureInPrefix(fetch, ids, k);
      FirstFailureFilters(fetch, ids[..n], k);
      FirstFailureAttempted(fetch, ids[..n], k);
    }
  }

  /** Dropping the last element of a sequence, and the prefixes that survive it. */
  lemma LastCut(ids: seq<int>, k: int)
    requires 0 <= k < |ids|
    ensures ids[..|ids| - 1] + [ids[|ids| - 1]] == ids && ids[..|ids|] == ids
    ensures k < |ids| - 1 ==> ids[..|ids| - 1][..k + 1] == ids[..k + 1]
  {
  }

  /** Every identifier before the first failure fetches successfully. */
  lemma FetchedBeforeFailure(fetch: Fetcher, ids: seq<int>, k: int)
    requires FirstFailure(fetch, ids, k)
    ensures AllFetched(fetch, ids[..k])
  {
    var prefix := ids[..k];
    forall j | 0 <= j < k ensures fetch(prefix[j]).Ok? {
      assert prefix[j] == ids[j];
    }
  }

  /** A first failure before the last identifier is also the first failure of the prefix without it. */
  lemma FailureInPrefix(fetch: Fetcher, ids: seq<int>, k: int)
    requires FirstFailure(fetch, ids, k) && k < |ids| - 1
    ensures FirstFailure(fetch, ids[..|ids| - 1], k) && ids[..|ids| - 1][k] == ids[k]
  {
    var prefix := ids[..|ids| - 1];
    forall j | 0 <= j < k ensures fetch(prefix[j]).Ok? {
      assert prefix[j] == ids[j];
    }
  }

  /** When some fetch fails, there is a first one. */
  lemma {:induction false} FirstFailureExists(fetch: Fetcher, ids: seq<int>) returns (k: int)
    requires !AllFetched(fetch, ids)
    ensures FirstFailure(fetch, ids, k)
    decreases |ids|
  {
    if fetch(ids[0]).Err? {
      k := 0;
    } else {
      var k' := FirstFailureExists(fetch, ids[1..]);
      k := k' + 1;
    }
  }

  /** A failure in a prefix of the identifiers decides the whole loop. */
  lemma {:induction false} FailureIsFinal(fetch: Fetcher, ids: seq<int>, rest: seq<int>)
    requires FetchFiltered(fetch, ids).Err?
    ensures FetchFiltered(fetch, ids + rest) == FetchFiltered(fetch, ids)
    ensures Attempted(fetch, ids + rest) == Attempted(fetch, ids)
    decreases |rest|
  {
    if |rest| > 0 {
      var n := |rest| - 1;
      FailureIsFinal(fetch, ids, rest[..n]);
      assert (ids + rest)[..|ids + rest| - 1] == ids + rest[..n];
    } else {
      assert ids + rest == ids;
    }
  }

  // ---------------------------------------------------------------------------
  // The loop counter: Go's `int` wraps around
  // ---------------------------------------------------------------------------

  /** The number of int64 values: one full turn of a wrapping counter. */
  const Turn: int := 0x1_0000_0000_0000_0000

  /** The int64 that `x` wraps to when it has gone past MaxInt64 at most one turn. */
  function Wrap(x: int): Int64
    requires MinInt64 <= x <= MaxInt64 + Turn
  {
    if x <= MaxInt64 then x else x - Turn
  }

  /**
    The identifiers the loop `for i := start; i <= end; i++` requests in one
    turn of its counter. Below MaxInt64 that is start..end. When `end` is
    MaxInt64 the condition `i <= end` never fails: after MaxInt64 the counter
    wraps to MinInt64 and climbs back to `start`, and from there the same
    identifiers come round again.
  */
  function Visits(start: Int64, end: Int64): (ids: seq<int>)
    ensures |ids| == if end == MaxInt64 then Turn else |Range(start, end)|
    ensures forall k :: 0 <= k < |ids| ==> ids[k] == Wrap(start + k)
  {
    if end == MaxInt64 then
      var up, down := Range(start, MaxInt64), Range(MinInt64, start - 1);
      assert forall k :: |up| <= k < |up| + |down| ==> (up + down)[k] == down[k - |up|];
      up + down
    else Range(start, end)
  }

  /** With `end` at MaxInt64, one turn requests every int64 exactly once. */
  lemma EveryInt64Visited(start: Int64, x: Int64)
    ensures x in Visits(start, MaxInt64)
  {
    var ids := Visits(start, MaxInt64);
    var k := if x >= start then x - start else x - start + Turn;
    assert ids[k] == x;
  }

  /**
    How the loop ends: the first failure's error or the kept comics, or None
    when it never ends, which is when `end` is MaxInt64 and every fetch of a
    turn succeeds, so that every later turn repeats it.
  */
  function LoopOutcome(fetch: Fetcher, start: Int64, end: Int64): Option<Result<seq<Comic>, Bytes>>
  {
    var r := FetchFiltered(fetch, Visits(start, end));
    if r.Ok? && end == MaxInt64 then None else Some(r)
  }

  /** Go's `i++` on an int64 counter steps one place further along a turn. */
  lemma CounterStep(start: Int64, count: nat)
    requires count < Turn
    ensures (if Wrap(start + count) == MaxInt64 then MinInt64 else Wrap(start + count) + 1) == Wrap(start + count + 1)
  {
  }

  /**
    The loop's guard, `i <= end` with the counter at Wrap(start + count),
    holds exactly while identifiers of the turn remain.
  */
  lemma CounterGuard(ids: seq<int>, start: Int64, end: Int64, count: nat)
    requires IsTurn(ids, start, end) && count <= |ids|
    ensures (Wrap(start + count) <= end && count < Turn) <==> count < |ids|
  {
  }

  /**
    At position `count` of the turn the counter holds the identifier
    requested there, and its wrapping increment passes the guard exactly
    while identifiers remain.
  */
  lemma TurnAt(ids: seq<int>, start: Int64, end: Int64, count: nat)
    requires IsTurn(ids, start, end) && count < |ids|
    ensures ids[count] == Wrap(start + count)
    ensures (if ids[count] == MaxInt64 then MinInt64 else ids[count] + 1) == Wrap(start + count + 1)
    ensures (Wrap(start + count + 1) <= end && count + 1 < Turn) <==> count + 1 < |ids|
  {
    CounterStep(start, count);
    CounterGuard(ids, start, end, count + 1);
  }

  /** One more successful request of the loop, as FetchFiltered and Attempted see it. */
  lemma LoopStep(fetch: Fetcher, ids: seq<int>, count: nat)
    requires count < |ids| && FetchFiltered(fetch, ids[..count]).Ok? && fetch(ids[count]).Ok?
    ensures FetchFiltered(fetch, ids[..count + 1]) ==
      var kept, c := FetchFiltered(fetch, ids[..count]).value, fetch(ids[count]).value;
      Ok(Keep(kept, c))
    ensures Attempted(fetch, ids[..count + 1]) == Attempted(fetch, ids[..count]) + [ids[count]]
  {
    SplitAfter(ids, count);
  }

  /** A failing request ends the loop: its error is the outcome and nothing after it is requested. */
  lemma LoopFailure(fetch: Fetcher, ids: seq<int>, count: nat)
    requires count < |ids| && FetchFiltered(fetch, ids[..count]).Ok? && fetch(ids[count]).Err?
    ensures FetchFiltered(fetch, ids) == Err(fetch(ids[count]).error)
    ensures Attempted(fetch, ids) == Attempted(fetch, ids[..count]) + [ids[count]]
  {
    SplitAfter(ids, count);
    FailureSplits(fetch, ids[..count + 1], ids[count + 1..]);
  }

  /** Cutting a sequence just after position `count`. */
  lemma SplitAfter(ids: seq<int>, count: nat)
    requires count < |ids|
    ensures ids[..count + 1] + ids[count + 1..] == ids
    ensures ids[..count + 1][..count] == ids[..count] && ids[..count + 1][count] == ids[count]
  {
  }

  /** A failure at the end of `upTo` decides the loop over `upTo + rest`. */
  lemma FailureSplits(fetch: Fetcher, upTo: seq<int>, rest: seq<int>)
    requires |upTo| > 0 && FetchFiltered(fetch, upTo[..|upTo| - 1]).Ok? && fetch(upTo[|upTo| - 1]).Err?
    ensures FetchFiltered(fetch, upTo + rest) == Err(fetch(upTo[|upTo| - 1]).error)
    ensures Attempted(fetch, upTo + rest) == Attempted(fetch, upTo[..|upTo| - 1]) + [upTo[|upTo| - 1]]
  {
    FailingStep(fetch, upTo);
    FailureIsFinal(fetch, upTo, rest);
  }

  /** The request that fails is the last one attempted, and its error is the loop's. */
  lemma FailingStep(fetch: Fetcher, ids: seq<int>)
    requires |ids| > 0 && FetchFiltered(fetch, ids[..|ids| - 1]).Ok? && fetch(ids[|ids| - 1]).Err?
    ensures FetchFiltered(fetch, ids) == Err(fetch(ids[|ids| - 1]).error)
    ensures Attempted(fetch, ids) == Attempted(fetch, ids[..|ids| - 1]) + [ids[|ids| - 1]]
  {
  }

  /** `ids` is one turn of the counter from `start` towards `end`, as Visits lists it. */
  ghost predicate IsTurn(ids: seq<int>, start: Int64, end: Int64)
  {
    && |ids| == (if end == MaxInt64 then Turn else if end < start then 0 else end - start + 1)
    && forall k :: 0 <= k < |ids| ==> ids[k] == Wrap(start + k)
  }

  /**
    The handler's loop as written, with Go's wrapping `i++`: each comic is
    requested before it is filtered and the first failure returns at once.
    The loop stops itself after one full turn of the counter, where Go's
    loop would start the same turn again, and reports that it never ends.
    `requested` lists the identifiers requested before the loop returns, or
    during that first turn.
  */
  method FetchOddMonthComics(fetch: Fetcher, start: Int64, end: Int64)
    returns (outcome: Option<Result<seq<Comic>, Bytes>>, requested: seq<int>)
    ensures outcome == LoopOutcome(fetch, start, end)
    ensures requested == Attempted(fetch, Visits(start, end))
  {
    outcome, requested := FetchTurn(fetch, start, end, Visits(start, end));
  }

  /** The loop of FetchOddMonthComics, over any sequence that is its turn. */
  method FetchTurn(fetch: Fetcher, start: Int64, end: Int64, ghost ids: seq<int>)
    returns (outcome: Option<Result<seq<Comic>, Bytes>>, requested: seq<int>)
    requires IsTurn(ids, start, end)
    ensures var r := FetchFiltered(fetch, ids); outcome == if r.Ok? && end == MaxInt64 then None else Some(r)
    ensures requested == Attempted(fetch, ids)
  {
    var comics: seq<Comic> := [];
    requested := [];
    var i: Int64 := start;
    var count: nat := 0;
    CounterGuard(ids, start, end, 0);
    while i <= end && count < Turn
      invariant count <= |ids| && i == Wrap(start + count)
      invariant (i <= end && count < Turn) <==> count < |ids|
      invariant FetchFiltered(fetch, ids[..count]) == Ok(comics)
      invariant requested == Attempted(fetch, ids[..count])
      decreases Turn - count
    {
      TurnAt(ids, start, end, count);
      requested := requested + [i];
      var res := fetch(i);
      if res.Err? {
        LoopFailure(fetch, ids, count);
        return Some(Err(res.error)), requested;
      }
      LoopStep(fetch, ids, count);
      comics := Keep(comics, res.value);
      i := if i == MaxInt64 then MinInt64 else i + 1;
      count := count + 1;
    }
    assert ids[..|ids|] == ids;
    outcome := if end == MaxInt64 then None else Some(Ok(comics));
  }

  // ---------------------------------------------------------------------------
  // Sorting by the derived title key
  // ---------------------------------------------------------------------------

  /**
    The comparator's key: the title itself when it starts with a letter,
    otherwise findFirstAlphabeticalCharacter of it. Always a non-empty suffix
    of the title.
  */
  function SortKey(title: Bytes): (key: Bytes)
    requires |title| > 0
    ensures IsSuffix(key, title) && |key| > 0
  {
    if IsAlphabetical(title[0]) then title else FindFirstAlphabeticalCharacter(title)
  }

  /**
    The key keeps the title exactly when the title starts with a letter or has
    no letter after its first byte; otherwise it starts at the first letter
    from index 1 on.
  */
  lemma SortKeyCharacterisation(title: Bytes)
    requires |title| > 0
    ensures SortKey(title) == title <==> IsAlphabetical(title[0]) || NoLetterAfterFirst(title)
    ensures SortKey(title) != title ==>
      FirstLetterAfterFirst(title, |title| - |SortKey(title)|) && IsAlphabetical(SortKey(title)[0])
  {
    var key := SortKey(title);
    if !IsAlphabetical(title[0]) && !NoLetterAfterFirst(title) {
      assert |key| < |title|;
      assert key[0] == title[|title| - |key|];
    }
  }

  /** The key examples: a leading letter is kept, one leading symbol is skipped, digits only stay. */
  lemma SortKeyExamples()
    ensures SortKey("Geico") == "Geico"
    ensures SortKey("A Story") == "A Story"
    ensures SortKey("#Hashtag") == "Hashtag"
    ensures SortKey("1984") == "1984"
  {
    SortKeyCharacterisation("#Hashtag");
    assert FirstLetterAfterFirst("#Hashtag", 1);
    SortKeyCharacterisation("1984");
  }

  predicate TitlesNonEmpty(cs: seq<Comic>)
  {
    forall i :: 0 <= i < |cs| ==> |cs[i].title| > 0
  }

  /** The comparator of sort.Slice: `title1 < title2` on the derived keys. */
  predicate KeyLess(a: Comic, b: Comic)
    requires |a.title| > 0 && |b.title| > 0
  {
    Less(SortKey(a.title), SortKey(b.title))
  }

  /** Keys never decrease along `cs`: no later comic is KeyLess than an earlier one. */
  predicate SortedByKey(cs: seq<Comic>)
  {
    forall i, j :: 0 <= i < j < |cs| ==>
      |cs[i].title| > 0 && |cs[j].title| > 0 && LexLe(SortKey(cs[i].title), SortKey(cs[j].title))
  }

  /** Inserting `c` into a key-sorted list keeps it sorted and adds exactly `c`. */
  function Insert(c: Comic, cs: seq<Comic>): (r: seq<Comic>)
    requires |c.title| > 0 && TitlesNonEmpty(cs) && SortedByKey(cs)
    ensures multiset(r) == multiset(cs) + multiset{c}
    ensures TitlesNonEmpty(r) && SortedByKey(r)
    decreases |cs|
  {
    if |cs| == 0 then [c]
    else if LexLe(SortKey(c.title), SortKey(cs[0].title)) then
      InsertFront(c, cs);
      [c] + cs
    else
      LexLeTotal(SortKey(c.title), SortKey(cs[0].title));
      SortedTail(cs);
      var tail := Insert(c, cs[1..]);
      InsertBehind(c, cs, tail);
      [cs[0]] + tail
  }

  /** Dropping the first comic of a key-sorted list leaves it key-sorted. */
  lemma SortedTail(cs: seq<Comic>)
    requires TitlesNonEmpty(cs) && SortedByKey(cs) && |cs| > 0
    ensures TitlesNonEmpty(cs[1..]) && SortedByKey(cs[1..])
  {
    var t := cs[1..];
    forall i | 0 <= i < |t| ensures t[i] == cs[i + 1] { }
  }

  lemma InsertFront(c: Comic, cs: seq<Comic>)
    requires |c.title| > 0 && TitlesNonEmpty(cs) && SortedByKey(cs) && |cs| > 0
    requires LexLe(SortKey(c.title), SortKey(cs[0].title))
    ensures TitlesNonEmpty([c] + cs) && SortedByKey([c] + cs)
  {
    var key := SortKey(c.title);
    forall j | 0 <= j < |cs| ensures LexLe(key, SortKey(cs[j].title)) {
      if j > 0 {
        LexLeTransitive(key, SortKey(cs[0].title), SortKey(cs[j].title));
      }
    }
    ConsSorted(c, cs);
  }

  lemma InsertBehind(c: Comic, cs: seq<Comic>, tail: seq<Comic>)
    requires |c.title| > 0 && TitlesNonEmpty(cs) && SortedByKey(cs) && |cs| > 0
    requires LexLe(SortKey(cs[0].title), SortKey(c.title))
    requires multiset(tail) == multiset(cs[1..]) + multiset{c}
    requires TitlesNonEmpty(tail) && SortedByKey(tail)
    ensures TitlesNonEmpty([cs[0]] + tail) && SortedByKey([cs[0]] + tail)
    ensures multiset([cs[0]] + tail) == multiset(cs) + multiset{c}
  {
    HeadKept(c, cs, tail);
    var first := SortKey(cs[0].title);
    forall j | 0 <= j < |tail| ensures LexLe(first, SortKey(tail[j].title)) {
      FirstKeyBelow(c, cs, tail, j);
    }
    ConsSorted(cs[0], tail);
  }

  lemma ConsTitles(h: Comic, t: seq<Comic>)
    requires |h.title| > 0 && TitlesNonEmpty(t)
    ensures TitlesNonEmpty([h] + t)
  {
    var r := [h] + t;
    forall i | 0 <= i < |r| ensures |r[i].title| > 0 {
      if i > 0 {
        assert r[i] == t[i - 1];
      }
    }
  }

  /** Putting the head back in front of the merged tail adds exactly `c` to the list. */
  lemma HeadKept(c: Comic, cs: seq<Comic>, tail: seq<Comic>)
    requires |cs| > 0 && multiset(tail) == multiset(cs[1..]) + multiset{c}
    ensures multiset([cs[0]] + tail) == multiset(cs) + multiset{c}
  {
    assert cs == [cs[0]] + cs[1..];
  }

  /** A comic whose key is below every key of a key-sorted list can go in front of it. */
  lemma ConsSorted(h: Comic, t: seq<Comic>)
    requires |h.title| > 0 && TitlesNonEmpty(t) && SortedByKey(t)
    requires forall j :: 0 <= j < |t| ==> LexLe(SortKey(h.title), SortKey(t[j].title))
    ensures TitlesNonEmpty([h] + t) && SortedByKey([h] + t)
  {
    var r := [h] + t;
    ConsTitles(h, t);
    forall i, j | 0 <= i < j < |r|
      ensures |r[i].title| > 0 && |r[j].title| > 0 && LexLe(SortKey(r[i].title), SortKey(r[j].title))
    {
      ConsPair(h, t, i, j);
    }
  }

  lemma ConsPair(h: Comic, t: seq<Comic>, i: int, j: int)
    requires |h.title| > 0 && TitlesNonEmpty(t) && SortedByKey(t)
    requires forall j :: 0 <= j < |t| ==> LexLe(SortKey(h.title), SortKey(t[j].title))
    requires 0 <= i < j <= |t|
    ensures |([h] + t)[i].title| > 0 && |([h] + t)[j].title| > 0
    ensures LexLe(SortKey(([h] + t)[i].title), SortKey(([h] + t)[j].title))
  {
    ConsIndex(h, t, i);
    ConsIndex(h, t, j);
    if i > 0 {
      SortedPair(t, i - 1, j - 1);
    } else {
      assert LexLe(SortKey(h.title), SortKey(t[j - 1].title));
    }
  }

  lemma ConsIndex(h: Comic, t: seq<Comic>, i: int)
    requires 0 <= i <= |t|
    ensures ([h] + t)[i] == if i == 0 then h else t[i - 1]
  {
  }

  /** Two comics of a key-sorted list, in order. */
  lemma SortedPair(t: seq<Comic>, i: int, j: int)
    requires SortedByKey(t) && 0 <= i < j < |t|
    ensures |t[i].title| > 0 && |t[j].title| > 0 && LexLe(SortKey(t[i].title), SortKey(t[j].title))
  {
  }

  /** Every comic of the merged tail has a key no smaller than the head's. */
  lemma FirstKeyBelow(c: Comic, cs: seq<Comic>, tail: seq<Comic>, j: int)
    requires |c.title| > 0 && TitlesNonEmpty(cs) && SortedByKey(cs) && |cs| > 0
    requires LexLe(SortKey(cs[0].title), SortKey(c.title))
    requires multiset(tail) == multiset(cs[1..]) + multiset{c}
    requires TitlesNonEmpty(tail) && 0 <= j < |tail|
    ensures LexLe(SortKey(cs[0].title), SortKey(tail[j].title))
  {
    var x := tail[j];
    assert x in multiset(tail);
    if x != c {
      assert x in multiset(cs[1..]);
      var m :| 0 <= m < |cs[1..]| && cs[1..][m] == x;
      assert cs[m + 1] == x;
    }
  }

  /**
    The sort of the handler: a permutation of its input with non-decreasing
    keys. Lists of fewer than two comics are returned as they are, because the
    comparator is never called on them.
  */
  function SortComics(cs: seq<Comic>): (r: seq<Comic>)
    requires |cs| <= 1 || TitlesNonEmpty(cs)
    ensures multiset(r) == multiset(cs)
    ensures SortedByKey(r)
    decreases |cs|
  {
    if |cs| <= 1 then cs
    else
      assert cs == [cs[0]] + cs[1..];
      Insert(cs[0], SortComics(cs[1..]))
  }

  /** Sorted by key means no adjacent (or any later) pair is out of order for the comparator. */
  lemma SortedMeansNoInversion(cs: seq<Comic>, i: int, j: int)
    requires SortedByKey(cs) && 0 <= i < j < |cs|
    ensures !KeyLess(cs[j], cs[i])
  {
    assert |cs[i].title| > 0 && |cs[j].title| > 0;
    var a := SortKey(cs[i].title);
    var b := SortKey(cs[j].title);
    if LexLe(b, a) {
      LexLeAntisymmetric(a, b);
    }
  }

  // ---------------------------------------------------------------------------
  // The handler
  // ---------------------------------------------------------------------------

  /**
    A response body. The handler starts from a nil slice of comics, so when
    none is kept the JSON it writes is `{"comics":null}` (NullComicsBody)
    rather than an empty list.
  */
  datatype Body = ErrorBody(error: Bytes) | ComicsBody(comics: seq<Comic>) | NullComicsBody | NoBody

  datatype Response = Response(status: int, body: Body)

  /** What a request gets: a response, or none when the handler's loop never ends. */
  datatype Answer = Answered(resp: Response) | NoAnswer

  /** The comics a body lists: none for `null` and for bodies without a list. */
  function Listed(b: Body): seq<Comic>
  {
    if b.ComicsBody? then b.comics else []
  }

  /**
    The comparator reads `title[0]`, which panics on an empty title. A sort of
    two or more comics compares every one of them, so it panics exactly when
    there are at least two comics and one has an empty title.
  */
  predicate ComparatorPanics(kept: seq<Comic>)
  {
    |kept| >= 2 && !TitlesNonEmpty(kept)
  }

  /**
    GetComics: 400 with the parameter message, 500 with the fetch error, 500
    without a body when the comparator panics (the recovery middleware's
    answer), no answer when the loop never ends, otherwise 200 with the
    sorted odd-month comics, or `null` when there are none.
  */
  function GetComics(q: Query, fetch: Fetcher): (a: Answer)
    ensures a.Answered? && a.resp.status == 400 <==> GetStartEnd(q).Err?
    ensures a.Answered? && a.resp.status == 400 ==> a.resp.body == ErrorBody(Message(GetStartEnd(q).error))
    ensures a.NoAnswer? ==> GetStartEnd(q).Ok? && GetStartEnd(q).value.1 == MaxInt64
    ensures a.Answered? ==> a.resp.status in {200, 400, 500}
    ensures a.Answered? && a.resp.status == 200 ==>
      (a.resp.body.ComicsBody? && |a.resp.body.comics| > 0 && SortedByKey(a.resp.body.comics))
      || a.resp.body.NullComicsBody?
  {
    match GetStartEnd(q)
    case Err(e) => Answered(Response(400, ErrorBody(Message(e))))
    case Ok((start, end)) =>
      match LoopOutcome(fetch, start, end)
      case None => NoAnswer
      case Some(Err(e)) => Answered(Response(500, ErrorBody(e)))
      case Some(Ok(kept)) =>
        if ComparatorPanics(kept) then Answered(Response(500, NoBody))
        else if |kept| == 0 then Answered(Response(200, NullComicsBody))
        else Answered(Response(200, ComicsBody(SortComics(kept))))
  }

  /**
    The identifiers GetComics requests from the external source, in order;
    when the loop never ends, those of its first turn.
  */
  function Requests(q: Query, fetch: Fetcher): seq<int>
  {
    match GetStartEnd(q)
    case Err(_) => []
    case Ok((start, end)) => Attempted(fetch, Visits(start, end))
  }

  /** A parameter error is answered before anything is fetched. */
  lemma ParamErrorFetchesNothing(q: Query, fetch: Fetcher)
    requires GetStartEnd(q).Err?
    ensures Requests(q, fetch) == []
    ensures GetComics(q, fetch) == Answered(Response(400, ErrorBody(Message(GetStartEnd(q).error))))
  {
  }

  /**
    With valid parameters, the identifiers start..end are requested in
    ascending order, stopping at the first failure; that failure's error is
    the 500 answer and no comic list is sent.
  */
  lemma UpstreamFailureAborts(q: Query, fetch: Fetcher, start: Int64, end: Int64, id: Int64)
    requires GetStartEnd(q) == Ok((start, end))
    requires start <= id <= end && fetch(id).Err?
    requires forall i :: start <= i < id ==> fetch(i).Ok?
    ensures Requests(q, fetch) == Range(start, id)
    ensures GetComics(q, fetch) == Answered(Response(500, ErrorBody(fetch(id).error)))
  {
    RangeFirstFailure(fetch, start, end, id);
    FirstFailureAborts(fetch, Visits(start, end), id - start);
  }

  /** The first failing identifier of a range is its first failure, and the range up to it is what precedes it. */
  lemma RangeFirstFailure(fetch: Fetcher, start: Int64, end: Int64, id: Int64)
    requires start <= id <= end && fetch(id).Err?
    requires forall i :: start <= i < id ==> fetch(i).Ok?
    ensures FirstFailure(fetch, Visits(start, end), id - start)
    ensures Visits(start, end)[id - start] == id
    ensures Visits(start, end)[..id - start + 1] == Range(start, id)
  {
    var ids := Visits(start, end);
    var k := id - start;
    forall j | 0 <= j < k ensures fetch(ids[j]).Ok? {
      assert ids[j] == start + j;
    }
    var requested := Range(start, id);
    assert ids[..k + 1] == requested by {
      forall j | 0 <= j <= k ensures ids[j] == requested[j] { }
    }
  }

  /**
    With `end` at MaxInt64 the counter wraps: a failure at an identifier
    below `start` is met after start..MaxInt64 and MinInt64 up to it have
    been requested, and its error is the 500 answer.
  */
  lemma WrappedFailureAborts(q: Query, fetch: Fetcher, start: Int64, id: Int64)
    requires GetStartEnd(q) == Ok((start, MaxInt64))
    requires id < start && fetch(id).Err?
    requires forall i :: start <= i <= MaxInt64 ==> fetch(i).Ok?
    requires forall i :: MinInt64 <= i < id ==> fetch(i).Ok?
    ensures Requests(q, fetch) == Range(start, MaxInt64) + Range(MinInt64, id)
    ensures GetComics(q, fetch) == Answered(Response(500, ErrorBody(fetch(id).error)))
  {
    var ids := Visits(start, MaxInt64);
    var k := id - start + Turn;
    assert ids[k] == id;
    forall j | 0 <= j < k ensures fetch(ids[j]).Ok? {
      assert ids[j] == Wrap(start + j);
    }
    FirstFailureAborts(fetch, ids, k);
    var requested := Range(start, MaxInt64) + Range(MinInt64, id);
    assert ids[..k + 1] == requested by {
      forall j | 0 <= j <= k ensures ids[j] == requested[j] {
        assert ids[j] == Wrap(start + j);
      }
    }
  }

  /**
    No answer is ever sent exactly when the parameters are valid, `end` is
    MaxInt64, and every int64 identifier is fetched without error: then the
    loop requests every identifier and starts over, forever.
  */
  lemma NeverAnswers(q: Query, fetch: Fetcher)
    ensures GetComics(q, fetch).NoAnswer? <==>
      GetStartEnd(q).Ok? && GetStartEnd(q).value.1 == MaxInt64
      && forall x: Int64 :: fetch(x).Ok?
  {
    if GetStartEnd(q).Ok? && GetStartEnd(q).value.1 == MaxInt64 {
      var start := GetStartEnd(q).value.0;
      if forall x: Int64 :: fetch(x).Ok? {
        EndlessTurn(fetch, start);
      } else {
        var x: Int64 :| !fetch(x).Ok?;
        FailureEndsTurn(fetch, start, x);
      }
    }
  }

  /** With every fetch succeeding, a turn starting anywhere keeps going. */
  lemma EndlessTurn(fetch: Fetcher, start: Int64)
    requires forall x: Int64 :: fetch(x).Ok?
    ensures LoopOutcome(fetch, start, MaxInt64).None?
  {
    var ids := Visits(start, MaxInt64);
    assert AllFetched(fetch, ids) by {
      forall j | 0 <= j < |ids| ensures fetch(ids[j]).Ok? {
        assert ids[j] == Wrap(start + j);
      }
    }
    AllFetchedKeepsOddMonths(fetch, ids);
  }

  /** A failure anywhere in the int64 range ends the loop in its first turn. */
  lemma FailureEndsTurn(fetch: Fetcher, start: Int64, x: Int64)
    requires fetch(x).Err?
    ensures LoopOutcome(fetch, start, MaxInt64).Some?
  {
    var ids := Visits(start, MaxInt64);
    EveryInt64Visited(start, x);
    var k := FirstFailureExists(fetch, ids);
    FirstFailureAborts(fetch, ids, k);
  }

  /**
    With valid parameters, `end` below MaxInt64 and every fetch succeeding,
    the whole range is requested and, unless the comparator panics, the
    answer is 200 listing a key-sorted permutation of the odd-month comics
    in the range, with `null` exactly when there are none.
  */
  lemma SuccessIsSortedPermutation(q: Query, fetch: Fetcher, start: Int64, end: Int64)
    requires GetStartEnd(q) == Ok((start, end)) && end < MaxInt64
    requires AllFetched(fetch, Range(start, end))
    requires !ComparatorPanics(KeepOddMonths(Fetched(fetch, Range(start, end))))
    ensures Requests(q, fetch) == Range(start, end)
    ensures GetComics(q, fetch).Answered? && GetComics(q, fetch).resp.status == 200
    ensures multiset(Listed(GetComics(q, fetch).resp.body))
      == multiset(KeepOddMonths(Fetched(fetch, Range(start, end))))
    ensures SortedByKey(Listed(GetComics(q, fetch).resp.body))
    ensures GetComics(q, fetch).resp.body.NullComicsBody?
      <==> |KeepOddMonths(Fetched(fetch, Range(start, end)))| == 0
  {
    AllFetchedKeepsOddMonths(fetch, Range(start, end));
  }

  /** A range with start > end requests nothing and answers 200 with `{"comics":null}`. */
  lemma ReversedRangeIsEmpty(q: Query, fetch: Fetcher)
    requires GetStartEnd(q).Ok? && GetStartEnd(q).value.0 > GetStartEnd(q).value.1
    ensures Requests(q, fetch) == []
    ensures GetComics(q, fetch) == Answered(Response(200, NullComicsBody))
  {
  }

  // ---------------------------------------------------------------------------
  // The handler's test fixture
  // ---------------------------------------------------------------------------

  const Light := Comic(40, "Light", "Light", "1", "1", "2006",
    "[[A crowd of figures stand around in the dark. One figure is illuminated by a beam of light.]]\nIn a dark and confusing world, you burn brightly. I never feel lost.\n{{Alt-text: Like a beacon.}}",
    "https://imgs.xkcd.com/comics/light.jpg", "Like a beacon", "", "")

  const OldDrawing := Comic(41, "Old Drawing", "Old Drawing", "1", "1", "2006",
    "[[A tree holding a chainsaw over a recently cut-down tree.]]\nI found this in one of my high-school notebooks. I think I drew it just to take revenge on people snooping through my stuff.\nCut-down tree: WELL, YOU STUMPED ME...\n{{I don't want to talk about it}}",
    "https://imgs.xkcd.com/comics/unspeakable_pun.jpg", "I don't want to talk about it", "", "")

  const Geico := Comic(42, "Geico", "Geico", "1", "1", "2006",
    "I just saved a bunch of money on my car insurance by threatening my agent with a golf club.\n{{title text: David did this}}",
    "https://imgs.xkcd.com/comics/geico.jpg", "David did this", "", "")

  /** The external source as the handler's test sees it: comics 40, 41 and 42. */
  function FixtureFetch(i: int): Result<Comic, Bytes>
  {
    if i == 40 then Ok(Light)
    else if i == 41 then Ok(OldDrawing)
    else if i == 42 then Ok(Geico)
    else Err("invalid character '<' looking for beginning of value")
  }

  /**
    `?start=40&end=42` against the fixture: all three comics are from January,
    so all are kept, and they come back ordered Geico, Light, Old Drawing.
  */
  lemma GetComicsFixture()
    ensures GetComics(map["start" := ["40"], "end" := ["42"]], FixtureFetch)
      == Answered(Response(200, ComicsBody([Geico, Light, OldDrawing])))
    ensures Requests(map["start" := ["40"], "end" := ["42"]], FixtureFetch) == [40, 41, 42]
  {
    FixtureComics();
    GetStartEndExamples();
    JanuaryTrioAnswers(map["start" := ["40"], "end" := ["42"]], FixtureFetch, Light, OldDrawing, Geico);
  }

  /** The fixture's comics as the handler's test defines them. */
  lemma FixtureComics()
    ensures FixtureFetch(40) == Ok(Light) && FixtureFetch(41) == Ok(OldDrawing) && FixtureFetch(42) == Ok(Geico)
    ensures Light.title == "Light" && OldDrawing.title == "Old Drawing" && Geico.title == "Geico"
    ensures Light.month == "1" && OldDrawing.month == "1" && Geico.month == "1"
  {
  }

  /**
    Any query asking for 40..42, against any source serving three January
    comics titled Light, Old Drawing and Geico as 40, 41 and 42, gets the
    fixture's answer.
  */
  lemma JanuaryTrioAnswers(q: Query, fetch: Fetcher, light: Comic, oldDrawing: Comic, geico: Comic)
    requires GetStartEnd(q) == Ok((40, 42))
    requires fetch(40) == Ok(light) && fetch(41) == Ok(oldDrawing) && fetch(42) == Ok(geico)
    requires light.title == "Light" && oldDrawing.title == "Old Drawing" && geico.title == "Geico"
    requires light.month == "1" && oldDrawing.month == "1" && geico.month == "1"
    ensures GetComics(q, fetch) == Answered(Response(200, ComicsBody([geico, light, oldDrawing])))
    ensures Requests(q, fetch) == [40, 41, 42]
  {
    JanuaryTrioFetched(fetch, light, oldDrawing, geico);
    TitlesPresent(light, oldDrawing, geico);
    JanuaryTrioSorts(light, oldDrawing, geico);
  }

  lemma TitlesPresent(light: Comic, oldDrawing: Comic, geico: Comic)
    requires light.title == "Light" && oldDrawing.title == "Old Drawing" && geico.title == "Geico"
    ensures TitlesNonEmpty([light, oldDrawing, geico]) && !ComparatorPanics([light, oldDrawing, geico])
  {
    assert |light.title| == 5 && |oldDrawing.title| == 11 && |geico.title| == 5;
  }

  lemma JanuaryTrioFetched(fetch: Fetcher, light: Comic, oldDrawing: Comic, geico: Comic)
    requires fetch(40) == Ok(light) && fetch(41) == Ok(oldDrawing) && fetch(42) == Ok(geico)
    requires light.month == "1" && oldDrawing.month == "1" && geico.month == "1"
    ensures FetchFiltered(fetch, Range(40, 42)) == Ok([light, oldDrawing, geico])
    ensures Attempted(fetch, Range(40, 42)) == [40, 41, 42]
  {
    JanuaryIsOdd(light, oldDrawing, geico);
    var ids := Range(40, 42);
    assert ids == [40, 41, 42];
    var cs := [light, oldDrawing, geico];
    assert AllFetched(fetch, ids);
    assert Fetched(fetch, ids) == cs;
    AllFetchedKeepsOddMonths(fetch, ids);
    KeepOddMonthsKeepsAllOdd(cs);
  }

  lemma JanuaryIsOdd(light: Comic, oldDrawing: Comic, geico: Comic)
    requires light.month == "1" && oldDrawing.month == "1" && geico.month == "1"
    ensures var cs := [light, oldDrawing, geico]; forall i :: 0 <= i < |cs| ==> IsOddMonth(cs[i])
  {
    assert "1"[..0] == "";
    AtoiOfDigits("1", "1", 1);
    OddMonthMeansParsedOdd(light);
  }

  lemma JanuaryTrioSorts(light: Comic, oldDrawing: Comic, geico: Comic)
    requires light.title == "Light" && oldDrawing.title == "Old Drawing" && geico.title == "Geico"
    ensures SortComics([light, oldDrawing, geico]) == [geico, light, oldDrawing]
  {
    FixtureTitleOrder();
    assert SortComics([geico]) == [geico];
    assert Insert(oldDrawing, [geico]) == [geico, oldDrawing];
    assert Insert(light, [geico, oldDrawing]) == [geico, light, oldDrawing];
    var cs := [light, oldDrawing, geico];
    assert cs[1..] == [oldDrawing, geico] && cs[1..][1..] == [geico];
  }

  /** The fixture's titles are their own keys, in the order Geico, Light, Old Drawing. */
  lemma FixtureTitleOrder()
    ensures SortKey("Geico") == "Geico" && SortKey("Light") == "Light" && SortKey("Old Drawing") == "Old Drawing"
    ensures LexLe("Geico", "Light") && LexLe("Light", "Old Drawing")
    ensures !LexLe("Light", "Geico") && !LexLe("Old Drawing", "Geico") && !LexLe("Old Drawing", "Light")
  {
  }
}
