/** The per-client request limiter (`NoyraHTTPServer.allow_request`, src/noyra/service.py).

    Buckets are pruned and whole buckets dropped as time passes.  The reference is the simple form:
    keep every acceptance for ever and count those of the last minute.

    A request reads the clock before it takes the lock, so readings may be processed out of order.  `lag` is
    the most by which one has been behind a reading processed before it; it is 0 when they come in order. */
module RateLimiter {

  type Key = nat

  const WINDOW := 60
  const MAX_BUCKETS := 10000

  // ---------------------------------------------------------------- the simple form

  /** Accepted times after `cutoff`, counted. */
  function Recent(times: seq<int>, cutoff: int): nat {
    if times == [] then 0
    else (if times[|times| - 1] > cutoff then 1 else 0) + Recent(times[..|times| - 1], cutoff)
  }

  /** In order, up to `lag`. */
  predicate NearlySorted(times: seq<int>, lag: nat) {
    forall i, j | 0 <= i < j < |times| :: times[i] - lag <= times[j]
  }

  predicate NoneAfter(times: seq<int>, now: int) {
    forall i | 0 <= i < |times| :: times[i] <= now
  }

  /** Every acceptance found fewer than `limit` before it in the window of this width that ends at it. */
  ghost predicate Throttled(times: seq<int>, limit: nat, width: int) {
    forall i | 0 <= i < |times| :: FoundRoom(times, i, limit, width)
  }

  predicate FoundRoom(times: seq<int>, i: nat, limit: nat, width: int)
    requires i < |times|
  {
    Recent(times[..i], times[i] - width) < limit
  }

  lemma FoundRoomBefore(times: seq<int>, now: int, i: nat, limit: nat, width: int)
    requires i < |times|
    ensures FoundRoom(times + [now], i, limit, width) == FoundRoom(times, i, limit, width)
  {
    assert (times + [now])[..i] == times[..i];
  }

  /** A later cutoff never counts more. */
  lemma {:induction false} RecentShrinks(times: seq<int>, cutoff: int, later: int)
    requires cutoff <= later
    ensures Recent(times, later) <= Recent(times, cutoff) <= |times|
  {
    if times != [] {
      RecentShrinks(times[..|times| - 1], cutoff, later);
    }
  }

  lemma {:induction false} RecentOfOld(times: seq<int>, cutoff: int)
    requires NoneAfter(times, cutoff)
    ensures Recent(times, cutoff) == 0
  {
    if times != [] {
      RecentOfOld(times[..|times| - 1], cutoff);
    }
  }

  lemma {:induction false} RecentOfNew(times: seq<int>, cutoff: int)
    requires forall i | 0 <= i < |times| :: times[i] > cutoff
    ensures Recent(times, cutoff) == |times|
  {
    if times != [] {
      RecentOfNew(times[..|times| - 1], cutoff);
    }
  }

  lemma {:induction false} RecentOfBoth(first: seq<int>, second: seq<int>, cutoff: int)
    ensures Recent(first + second, cutoff) == Recent(first, cutoff) + Recent(second, cutoff)
  {
    if second == [] {
      assert first + second == first;
    } else {
      RecentOfBoth(first, second[..|second| - 1], cutoff);
      assert (first + second)[..|first + second| - 1] == first + second[..|second| - 1];
    }
  }

  /** Accepted times in the half-open window `(from, from + width]`. */
  function InWindow(times: seq<int>, from: int, width: int): nat {
    if times == [] then 0
    else (if from < times[|times| - 1] <= from + width then 1 else 0) + InWindow(times[..|times| - 1], from, width)
  }

  lemma {:induction false} WindowIsRecent(times: seq<int>, from: int, width: int, cutoff: int)
    requires cutoff <= from
    ensures InWindow(times, from, width) <= Recent(times, cutoff)
  {
    if times != [] {
      WindowIsRecent(times[..|times| - 1], from, width, cutoff);
    }
  }

  /** What throttling is for: no window of this width, wherever it starts, holds more than `limit`
      acceptances of one bucket. */
  lemma {:induction false} NoWindowOverflows(times: seq<int>, limit: nat, width: int, from: int)
    requires Throttled(times, limit, width)
    ensures InWindow(times, from, width) <= limit
  {
    if times != [] {
      var before, last := times[..|times| - 1], times[|times| - 1];
      assert times == before + [last];
      forall i | 0 <= i < |before| ensures FoundRoom(before, i, limit, width) {
        FoundRoomBefore(before, last, i, limit, width);
      }
      NoWindowOverflows(before, limit, width, from);
      if from < last <= from + width {
        assert FoundRoom(times, |times| - 1, limit, width);
        WindowIsRecent(before, from, width, last - width);
      }
    }
  }

  /** The acceptances after a time, and those in a window, as positions in the history. */
  ghost function After(times: seq<int>, cutoff: int): set<nat> {
    set i: nat | i < |times| && times[i] > cutoff
  }

  ghost function Between(times: seq<int>, from: int, to: int): set<nat> {
    set i: nat | i < |times| && from < times[i] <= to
  }

  lemma {:induction false} RecentIsCount(times: seq<int>, cutoff: int)
    ensures Recent(times, cutoff) == |After(times, cutoff)|
  {
    if times == [] {
      assert After(times, cutoff) == {};
    } else {
      var n := |times| - 1;
      RecentIsCount(times[..n], cutoff);
      var before, all := After(times[..n], cutoff), After(times, cutoff);
      assert n !in before;
      assert all == if times[n] > cutoff then before + {n} else before;
    }
  }

  lemma {:induction false} InWindowIsCount(times: seq<int>, from: int, width: int)
    ensures InWindow(times, from, width) == |Between(times, from, from + width)|
  {
    if times == [] {
      assert Between(times, from, from + width) == {};
    } else {
      var n := |times| - 1;
      InWindowIsCount(times[..n], from, width);
      var before, all := Between(times[..n], from, from + width), Between(times, from, from + width);
      assert n !in before;
      assert all == if from < times[n] <= from + width then before + {n} else before;
    }
  }

  // ---------------------------------------------------------------- the deque form

  /** `kept` is what is left of `all` after some entries at or before `bound` were dropped. */
  ghost predicate Pruned(all: seq<int>, kept: seq<int>, bound: int) {
    && |kept| <= |all|
    && kept == all[|all| - |kept|..]
    && NoneAfter(all[..|all| - |kept|], bound)
  }

  lemma PrunedLater(all: seq<int>, kept: seq<int>, bound: int, later: int)
    requires Pruned(all, kept, bound) && bound <= later
    ensures Pruned(all, kept, later)
  {
  }

  /** Dropping the first entry, if it is not after the bound, is pruning. */
  lemma PopKeepsPruned(all: seq<int>, kept: seq<int>, bound: int)
    requires Pruned(all, kept, bound) && kept != [] && kept[0] <= bound
    ensures Pruned(all, kept[1..], bound)
  {
    var dropped := |all| - |kept|;
    assert kept[0] == all[dropped];
    var longer := all[..dropped + 1];
    forall i | 0 <= i < |longer| ensures longer[i] <= bound {
      if i < dropped {
        assert longer[i] == all[..dropped][i];
      }
    }
    assert kept[1..] == all[dropped + 1..];
  }

  /** A bucket whose last entry is outside the window may be forgotten altogether, up to the lag. */
  lemma DeadBucket(all: seq<int>, kept: seq<int>, cutoff: int, lag: nat, bound: int)
    requires Pruned(all, kept, bound) && NearlySorted(all, lag) && cutoff + lag <= bound
    requires kept == [] || kept[|kept| - 1] <= cutoff
    ensures Pruned(all, [], bound)
  {
    forall i | 0 <= i < |all| ensures all[i] <= bound {
      if i < |all| - |kept| {
        assert all[i] == all[..|all| - |kept|][i];
      } else {
        assert all[|all| - 1] == kept[|kept| - 1];
      }
    }
    assert all[|all|..] == [];
  }

  /** The buckets a purge keeps: those whose last entry is inside the window. */
  function Live(buckets: map<Key, seq<int>>, cutoff: int): map<Key, seq<int>> {
    map key | key in buckets && buckets[key] != [] && buckets[key][|buckets[key]| - 1] > cutoff :: buckets[key]
  }

  /** The popleft loop. */
  method PopExpired(bucket: seq<int>, cutoff: int, ghost all: seq<int>, ghost bound: int) returns (kept: seq<int>)
    requires Pruned(all, bucket, bound) && cutoff <= bound
    ensures Pruned(all, kept, bound)
    ensures kept == [] || kept[0] > cutoff
  {
    kept := bucket;
    while kept != [] && kept[0] <= cutoff
      invariant Pruned(all, kept, bound)
      decreases |kept|
    {
      PopKeepsPruned(all, kept, bound);
      kept := kept[1..];
    }
  }

  /** Once expired entries are popped, the length of the bucket lies between two counts over the full
      history: those after the bound are all in it, and all in it are inside the window up to the lag.
      Without a lag the two counts are the same. */
  lemma LengthIsBetween(all: seq<int>, kept: seq<int>, cutoff: int, lag: nat, bound: int)
    requires Pruned(all, kept, bound) && NearlySorted(all, lag)
    requires kept == [] || kept[0] > cutoff
    ensures Recent(all, bound) <= |kept| <= Recent(all, cutoff - lag)
  {
    var dropped, wide := all[..|all| - |kept|], cutoff - lag;
    assert all == dropped + kept;
    assert Recent(all, bound) <= |kept| by {
      RecentOfBoth(dropped, kept, bound);
      RecentOfOld(dropped, bound);
      RecentShrinks(kept, bound, bound);
    }
    assert |kept| <= Recent(all, wide) by {
      RecentOfBoth(dropped, kept, wide);
      forall i | 0 <= i < |kept| ensures kept[i] > wide {
        assert kept[i] == all[|dropped| + i] && kept[0] == all[|dropped|];
      }
      RecentOfNew(kept, wide);
    }
  }

  lemma SmallerMinus(small: set<Key>, big: set<Key>, x: Key)
    requires small <= big
    ensures |small - {x}| <= |big - {x}| && |small| <= |big|
  {
    SubsetSize(small, big);
    SubsetSize(small - {x}, big - {x});
  }

  lemma {:induction false} SubsetSize(small: set<Key>, big: set<Key>)
    requires small <= big
    ensures |small| <= |big|
  {
    if small != {} {
      var x :| x in small;
      SubsetSize(small - {x}, big - {x});
      assert |small - {x}| == |small| - 1 && |big - {x}| == |big| - 1;
    }
  }

  // ---------------------------------------------------------------- readings out of order

  /** The latest reading processed so far, and the lag. */
  datatype Clock = Clock(latest: int, lag: nat)

  function Read(clock: Clock, now: int): Clock {
    var behind := if clock.latest > now then clock.latest - now else 0;
    Clock(if clock.latest > now then clock.latest else now, if behind > clock.lag then behind else clock.lag)
  }

  /** Entries at or before this are outside the window that ends at `now`. */
  function Cutoff(now: int): int {
    now - WINDOW
  }

  /** Nothing after this has been dropped. */
  function Bound(clock: Clock): int {
    Cutoff(clock.latest) + clock.lag
  }

  /** Entries at or before this are outside the window even if it is widened by the lag. */
  function Widened(clock: Clock, now: int): int {
    Cutoff(now) - clock.lag
  }

  /** The width of the windows that are sure to be within the limit. */
  function Width(clock: Clock): int {
    WINDOW - 2 * clock.lag
  }

  /** A reading is at most the lag behind the latest one. */
  lemma ReadIsLater(clock: Clock, now: int)
    ensures var after := Read(clock, now);
            && after.latest - after.lag <= now <= after.latest
            && clock.latest <= after.latest && clock.lag <= after.lag
            && Bound(clock) <= Bound(after) && Cutoff(now) + after.lag <= Bound(after) <= now - Width(after)
            && (clock.latest <= now && clock.lag == 0 ==> after == Clock(now, 0))
  {
  }

  /** How the history of a bucket decides: an accepted request found fewer than `limit` after the start of the
      latest window and the lag, a refused one at least `limit` in its own minute and the lag; without a lag it
      is accepted exactly if there were fewer than `limit` in the last minute. */
  ghost predicate Decided(all: seq<int>, limit: nat, clock: Clock, now: int, allowed: bool) {
    && (allowed ==> |After(all, clock.latest - 60 + clock.lag)| < limit)
    && (!allowed ==> |After(all, now - 60 - clock.lag)| >= limit)
    && (clock.lag == 0 ==> (allowed <==> |After(all, now - 60)| < limit))
  }

  lemma CountsDecide(all: seq<int>, limit: nat, clock: Clock, now: int, allowed: bool)
    requires clock.latest - clock.lag <= now <= clock.latest
    requires allowed ==> Recent(all, Bound(clock)) < limit
    requires !allowed ==> Recent(all, Widened(clock, now)) >= limit
    ensures Decided(all, limit, clock, now, allowed)
  {
    RecentIsCount(all, Bound(clock));
    RecentIsCount(all, Widened(clock, now));
  }

  // ---------------------------------------------------------------- all buckets together

  type Times = map<Key, seq<int>>

  /** Reading a `defaultdict`. */
  function Get(times: Times, key: Key): seq<int> {
    if key in times then times[key] else []
  }

  /** The buckets are prunings of the history, whichever buckets are missing. */
  ghost predicate Faithful(accepted: Times, buckets: Times, bound: int) {
    forall key: Key {:trigger Pruned(Get(accepted, key), Get(buckets, key), bound)} ::
      Pruned(Get(accepted, key), Get(buckets, key), bound)
  }

  /** The history of a bucket: nearly sorted, not in the future, and throttled. */
  ghost predicate InOrder(times: seq<int>, limit: nat, clock: Clock) {
    NearlySorted(times, clock.lag) && NoneAfter(times, clock.latest) && Throttled(times, limit, Width(clock))
  }

  ghost predicate Orderly(accepted: Times, limit: nat, clock: Clock) {
    forall key: Key {:trigger InOrder(Get(accepted, key), limit, clock)} :: InOrder(Get(accepted, key), limit, clock)
  }

  lemma FaithfulLater(accepted: Times, buckets: Times, bound: int, later: int)
    requires Faithful(accepted, buckets, bound) && bound <= later
    ensures Faithful(accepted, buckets, later)
  {
    forall key: Key ensures Pruned(Get(accepted, key), Get(buckets, key), later) {
      assert Pruned(Get(accepted, key), Get(buckets, key), bound);
      PrunedLater(Get(accepted, key), Get(buckets, key), bound, later);
    }
  }

  lemma InOrderLater(times: seq<int>, limit: nat, clock: Clock, later: Clock)
    requires InOrder(times, limit, clock) && clock.latest <= later.latest && clock.lag <= later.lag
    ensures InOrder(times, limit, later)
  {
    forall i | 0 <= i < |times| ensures FoundRoom(times, i, limit, Width(later)) {
      assert FoundRoom(times, i, limit, Width(clock));
      RecentShrinks(times[..i], times[i] - Width(clock), times[i] - Width(later));
    }
  }

  lemma OrderlyLater(accepted: Times, limit: nat, clock: Clock, later: Clock)
    requires Orderly(accepted, limit, clock) && clock.latest <= later.latest && clock.lag <= later.lag
    ensures Orderly(accepted, limit, later)
  {
    forall key: Key ensures InOrder(Get(accepted, key), limit, later) {
      assert InOrder(Get(accepted, key), limit, clock);
      InOrderLater(Get(accepted, key), limit, clock, later);
    }
  }

  lemma NotLive(buckets: Times, key: Key, cutoff: int)
    requires key !in Live(buckets, cutoff)
    ensures Get(buckets, key) == [] || Get(buckets, key)[|Get(buckets, key)| - 1] <= cutoff
  {
  }

  /** The purge drops nothing after the bound. */
  lemma PurgeIsFaithful(accepted: Times, buckets: Times, cutoff: int, limit: nat, clock: Clock)
    requires Faithful(accepted, buckets, Bound(clock)) && Orderly(accepted, limit, clock)
    requires cutoff + clock.lag <= Bound(clock)
    ensures Faithful(accepted, Live(buckets, cutoff), Bound(clock))
  {
    forall key: Key ensures Pruned(Get(accepted, key), Get(Live(buckets, cutoff), key), Bound(clock)) {
      assert Pruned(Get(accepted, key), Get(buckets, key), Bound(clock));
      if key !in Live(buckets, cutoff) {
        NotLive(buckets, key, cutoff);
        assert InOrder(Get(accepted, key), limit, clock);
        DeadBucket(Get(accepted, key), Get(buckets, key), cutoff, clock.lag, Bound(clock));
      }
    }
  }

  lemma UpdateIsFaithful(accepted: Times, buckets: Times, bound: int, key: Key, kept: seq<int>)
    requires Faithful(accepted, buckets, bound) && Pruned(Get(accepted, key), kept, bound)
    ensures Faithful(accepted, buckets[key := kept], bound)
  {
    var after := buckets[key := kept];
    forall other: Key ensures Pruned(Get(accepted, other), Get(after, other), bound) {
      assert Pruned(Get(accepted, other), Get(buckets, other), bound);
      assert other != key ==> Get(after, other) == Get(buckets, other);
    }
  }

  lemma AcceptIsFaithful(accepted: Times, buckets: Times, bound: int, key: Key, now: int)
    requires Faithful(accepted, buckets, bound)
    ensures Faithful(accepted[key := Get(accepted, key) + [now]], buckets[key := Get(buckets, key) + [now]], bound)
  {
    var all, kept := Get(accepted, key), Get(buckets, key);
    var accepted', buckets' := accepted[key := all + [now]], buckets[key := kept + [now]];
    forall other: Key ensures Pruned(Get(accepted', other), Get(buckets', other), bound) {
      assert Pruned(Get(accepted, other), Get(buckets, other), bound);
      if other == key {
        assert (all + [now])[..|all| - |kept|] == all[..|all| - |kept|];
        assert (all + [now])[|all| - |kept|..] == all[|all| - |kept|..] + [now];
      }
    }
  }

  lemma AcceptIsInOrder(all: seq<int>, limit: nat, clock: Clock, now: int)
    requires InOrder(all, limit, clock) && clock.latest - clock.lag <= now <= clock.latest
    requires Recent(all, Bound(clock)) < limit
    ensures InOrder(all + [now], limit, clock)
  {
    var longer := all + [now];
    forall i | 0 <= i < |longer| ensures FoundRoom(longer, i, limit, Width(clock)) {
      if i < |all| {
        FoundRoomBefore(all, now, i, limit, Width(clock));
      } else {
        assert longer[..i] == all;
        RecentShrinks(all, Bound(clock), now - Width(clock));
      }
    }
  }

  lemma AcceptIsOrderly(accepted: Times, limit: nat, clock: Clock, key: Key, now: int)
    requires Orderly(accepted, limit, clock) && clock.latest - clock.lag <= now <= clock.latest
    requires Recent(Get(accepted, key), Bound(clock)) < limit
    ensures Orderly(accepted[key := Get(accepted, key) + [now]], limit, clock)
  {
    var after := accepted[key := Get(accepted, key) + [now]];
    forall other: Key ensures InOrder(Get(after, other), limit, clock) {
      assert InOrder(Get(accepted, other), limit, clock);
      if other == key {
        AcceptIsInOrder(Get(accepted, key), limit, clock, now);
      }
    }
  }

  /** The end of a call: the length of the popped bucket decides between the two counts, and either outcome
      leaves history and buckets in agreement. */
  lemma Settled(accepted: Times, buckets: Times, limit: nat, key: Key, kept: seq<int>, now: int, clock: Clock)
    requires Faithful(accepted, buckets, Bound(clock)) && Orderly(accepted, limit, clock)
    requires clock.latest - clock.lag <= now <= clock.latest
    requires Pruned(Get(accepted, key), kept, Bound(clock)) && (kept == [] || kept[0] > Cutoff(now))
    ensures Recent(Get(accepted, key), Bound(clock)) <= |kept| <= Recent(Get(accepted, key), Widened(clock, now))
    ensures Faithful(accepted, buckets[key := kept], Bound(clock))
    ensures |kept| < limit ==>
              && Faithful(accepted[key := Get(accepted, key) + [now]], buckets[key := kept + [now]], Bound(clock))
              && Orderly(accepted[key := Get(accepted, key) + [now]], limit, clock)
  {
    assert InOrder(Get(accepted, key), limit, clock);
    LengthIsBetween(Get(accepted, key), kept, Cutoff(now), clock.lag, Bound(clock));
    UpdateIsFaithful(accepted, buckets, Bound(clock), key, kept);
    if |kept| < limit {
      AcceptIsFaithful(accepted, buckets[key := kept], Bound(clock), key, now);
      assert buckets[key := kept][key := kept + [now]] == buckets[key := kept + [now]];
      AcceptIsOrderly(accepted, limit, clock, key, now);
    }
  }

  /** What throttling is for, while readings come in order: in no minute does a bucket accept more than
      `limit` requests. */
  lemma NoMinuteOverflows(accepted: Times, limit: nat, clock: Clock, key: Key, from: int)
    requires Orderly(accepted, limit, clock) && clock.lag == 0
    ensures |Between(Get(accepted, key), from, from + 60)| <= limit
  {
    assert InOrder(Get(accepted, key), limit, clock);
    NoWindowOverflows(Get(accepted, key), limit, 60, from);
    InWindowIsCount(Get(accepted, key), from, 60);
  }

  /** The clients whose last acceptance lies in the minute before `now`. */
  ghost function Active(accepted: Times, now: int): set<Key> {
    set key | key in accepted && accepted[key] != [] && accepted[key][|accepted[key]| - 1] > now - 60
  }

  /** A bucket the purge keeps belongs to such a client. */
  lemma LiveAreActive(accepted: Times, buckets: Times, now: int, bound: int, key: Key)
    requires Faithful(accepted, buckets, bound) && key !in buckets
    ensures Live(buckets, Cutoff(now)).Keys <= Active(accepted, now) - {key}
    ensures |Live(buckets, Cutoff(now))| <= |Active(accepted, now) - {key}|
  {
    var live := Live(buckets, Cutoff(now));
    forall k | k in live ensures k in Active(accepted, now) {
      assert Pruned(Get(accepted, k), Get(buckets, k), bound);
    }
    SubsetSize(live.Keys, Active(accepted, now) - {key});
  }

  /** The table is within its limit, the overflow bucket apart. */
  ghost predicate Bounded(keys: set<Key>, overflow: Key) {
    |keys - {overflow}| <= MAX_BUCKETS
  }

  lemma MinusOne(keys: set<Key>, x: Key)
    ensures |keys| <= |keys - {x}| + 1
  {
    if x in keys {
      assert |keys - {x}| == |keys| - 1;
    } else {
      assert keys - {x} == keys;
    }
  }

  lemma RoomFor(keys: set<Key>, bucket: Key, overflow: Key)
    requires |keys - {overflow}| <= MAX_BUCKETS
    requires bucket in keys || bucket == overflow || |keys| < MAX_BUCKETS
    ensures |(keys + {bucket}) - {overflow}| <= MAX_BUCKETS
  {
    var after := (keys + {bucket}) - {overflow};
    if bucket in keys || bucket == overflow {
      assert after == keys - {overflow};
    } else {
      SubsetSize(keys - {overflow}, keys);
      assert after == (keys - {overflow}) + {bucket};
    }
  }

  class Limiter {
    const limit: nat
    const overflow: Key
    var requestTimes: Times
    /** The full history: every acceptance ever, by bucket, and the readings so far. */
    ghost var accepted: Times
    ghost var clock: Clock

    /** Beyond the limit there is at most one bucket, the overflow bucket. */
    ghost predicate Valid()
      reads this
    {
      && Faithful(accepted, requestTimes, Bound(clock))
      && Orderly(accepted, limit, clock)
      && Bounded(requestTimes.Keys, overflow)
    }

    constructor (limit: nat, overflow: Key, now: int)
      ensures Valid() && this.limit == limit && this.overflow == overflow
      ensures requestTimes == map[] && accepted == map[] && clock == Clock(now, 0)
    {
      this.limit, this.overflow := limit, overflow;
      this.requestTimes, this.accepted, this.clock := map[], map[], Clock(now, 0);
    }

    /** `allow_request` for any reading of the clock.  An accepted request found fewer than `limit` in the
        history of its bucket after the bound, a refused one at least `limit` in its window widened by the
        lag; while readings come in order, it is accepted exactly when the complete history of its bucket
        has fewer than `limit` acceptances in the last minute. */
    method AllowRequest(key: Key, now: int) returns (allowed: bool, bucket: Key)
      requires Valid()
      modifies this
      ensures Valid() && clock == Read(old(clock), now)
      ensures clock.latest - clock.lag <= now <= clock.latest
      ensures old(clock).lag == 0 && old(clock).latest <= now ==> clock.lag == 0
      ensures key in old(requestTimes) || |old(requestTimes)| < 10_000 ==> bucket == key
      ensures bucket != key ==> bucket == overflow && |Active(old(accepted), now) - {key}| >= 10_000
      ensures Decided(Get(old(accepted), bucket), limit, clock, now, allowed)
      ensures accepted == if allowed then old(accepted)[bucket := Get(old(accepted), bucket) + [now]] else old(accepted)
      ensures |requestTimes| <= 10_001
    {
      Process(now);
      bucket := ChooseBucket(key, now);
      allowed := Admit(bucket, now);
    }

    /** A new reading, later or earlier than the ones before it. */
    ghost method Process(now: int)
      requires Valid()
      modifies this`clock
      ensures Valid() && clock == Read(old(clock), now)
      ensures clock.latest - clock.lag <= now <= clock.latest
      ensures old(clock).lag == 0 && old(clock).latest <= now ==> clock.lag == 0
    {
      var reading := Read(clock, now);
      ReadIsLater(clock, now);
      FaithfulLater(accepted, requestTimes, Bound(clock), Bound(reading));
      OrderlyLater(accepted, limit, clock, reading);
      clock := reading;
    }

    /** Pop what has expired, then accept if the rest leaves room. */
    method Admit(bucket: Key, now: int) returns (allowed: bool)
      requires Faithful(accepted, requestTimes, Bound(clock)) && Orderly(accepted, limit, clock)
      requires clock.latest - clock.lag <= now <= clock.latest
      requires Bounded(requestTimes.Keys + {bucket}, overflow)
      modifies this`requestTimes, this`accepted
      ensures Faithful(accepted, requestTimes, Bound(clock)) && Orderly(accepted, limit, clock)
      ensures Bounded(requestTimes.Keys, overflow) && |requestTimes| <= MAX_BUCKETS + 1
      ensures Decided(Get(old(accepted), bucket), limit, clock, now, allowed)
      ensures accepted == if allowed then old(accepted)[bucket := Get(old(accepted), bucket) + [now]] else old(accepted)
    {
      ghost var keys := requestTimes.Keys + {bucket};
      MinusOne(keys, overflow);
      assert Pruned(Get(accepted, bucket), Get(requestTimes, bucket), Bound(clock));
      var kept := PopExpired(Get(requestTimes, bucket), Cutoff(now), Get(accepted, bucket), Bound(clock));
      Settled(accepted, requestTimes, limit, bucket, kept, now, clock);
      allowed := |kept| < limit;
      CountsDecide(Get(accepted, bucket), limit, clock, now, allowed);
      if allowed {
        accepted := accepted[bucket := Get(accepted, bucket) + [now]];
        kept := kept + [now];
      }
      requestTimes := requestTimes[bucket := kept];
      assert requestTimes.Keys == keys;
    }

    /** The bucket of a new client once the table is full: purge first, overflow only if that was no help. */
    method ChooseBucket(key: Key, now: int) returns (bucket: Key)
      requires Faithful(accepted, requestTimes, Bound(clock)) && Orderly(accepted, limit, clock)
      requires clock.latest - clock.lag <= now <= clock.latest
      requires Bounded(requestTimes.Keys, overflow)
      modifies this`requestTimes
      ensures Faithful(accepted, requestTimes, Bound(clock))
      ensures key in old(requestTimes) || |old(requestTimes)| < 10_000 ==> bucket == key
      ensures bucket != key ==> bucket == overflow && |Active(accepted, now) - {key}| >= 10_000
      ensures Bounded(requestTimes.Keys + {bucket}, overflow)
    {
      bucket := key;
      if key !in requestTimes && |requestTimes| >= MAX_BUCKETS {
        PurgeIsFaithful(accepted, requestTimes, Cutoff(now), limit, clock);
        LiveAreActive(accepted, requestTimes, now, Bound(clock), key);
        SmallerMinus(Live(requestTimes, Cutoff(now)).Keys, requestTimes.Keys, overflow);
        requestTimes := Live(requestTimes, Cutoff(now));
        if |requestTimes| >= MAX_BUCKETS {
          bucket := overflow;
        }
      }
      RoomFor(requestTimes.Keys, bucket, overflow);
    }
  }
}
