/**
 The multi-level cache of the virtual file system (filesystem/VirtualFileSystem.cpp): lookup with
 promotion, insertion, and the eviction pass, specified by the map of values last put.
 */
module LevelCache {
  import opened MapSums
  import opened Prelude

  type Key = string
  type Data = seq<Byte>

  datatype Entry = Entry(data: Data, timestamp: int, dirty: bool)

  datatype Level = Level(size: nat, hitRatio: real, data: map<Key, Entry>, hits: nat, misses: nat)

  function FreshLevel(size: nat): Level {
    Level(size, 0.0, map[], 0, 0)
  }

  // ----- lookup and insertion

  /** The first level, from `from` on, that holds the key. */
  function FindLevel(levels: seq<Level>, key: Key, from: nat): (r: Option<nat>)
    ensures r.Some? ==> from <= r.value < |levels| && key in levels[r.value].data
    ensures r.Some? ==> forall i | from <= i < r.value :: key !in levels[i].data
    ensures r.None? ==> forall i | from <= i < |levels| :: key !in levels[i].data
    decreases |levels| - from
  {
    if from >= |levels| then None
    else if key in levels[from].data then Some(from)
    else FindLevel(levels, key, from + 1)
  }

  function WithMiss(level: Level): Level {
    level.(misses := level.misses + 1)
  }

  /** The levels scanned before the hit, or all of them, have counted a miss. */
  function Missed(levels: seq<Level>, n: nat): (r: seq<Level>)
    requires n <= |levels|
    ensures |r| == |levels|
  {
    seq(|levels|, i requires 0 <= i < |levels| => if i < n then WithMiss(levels[i]) else levels[i])
  }

  function Without(level: Level, key: Key): Level {
    level.(data := level.data - {key})
  }

  function With(level: Level, key: Key, e: Entry): Level {
    level.(data := level.data[key := e])
  }

  /** Promotion: the entry moves to an earlier level with its data unchanged, or stays. */
  function Promote(levels: seq<Level>, key: Key, from: nat, to: nat): (r: seq<Level>)
    requires from < |levels| && key in levels[from].data
    ensures |r| == |levels|
  {
    if to >= from then levels
    else levels[from := Without(levels[from], key)][to := With(levels[to], key, levels[from].data[key])]
  }

  /** A lookup; `to` is the level that promotion picks. */
  function Get(levels: seq<Level>, key: Key, now: int, to: nat): (seq<Level>, Option<Data>) {
    match FindLevel(levels, key, 0)
    case None => (Missed(levels, |levels|), None)
    case Some(i) =>
      var e := levels[i].data[key];
      var hit := levels[i].(data := levels[i].data[key := e.(timestamp := now)], hits := levels[i].hits + 1);
      var scanned := Missed(levels, i)[i := hit];
      (Promote(scanned, key, i, to), Some(e.data))
  }

  function Put(levels: seq<Level>, key: Key, e: Entry): (r: seq<Level>)
    requires levels != []
  {
    var i := match FindLevel(levels, key, 0) case None => 0 case Some(i) => i;
    levels[i := With(levels[i], key, e)]
  }

  // ----- the cache against a plain map

  /** Each key lives in at most one level. */
  ghost predicate Exclusive(levels: seq<Level>) {
    forall i, j, k | 0 <= i < |levels| && 0 <= j < |levels| && k in levels[i].data && k in levels[j].data :: i == j
  }

  /** Every entry holds the value last put for its key. */
  ghost predicate Agrees(levels: seq<Level>, last: map<Key, Data>) {
    forall i, k | 0 <= i < |levels| && k in levels[i].data :: k in last && levels[i].data[k].data == last[k]
  }

  ghost predicate Sound(levels: seq<Level>, last: map<Key, Data>) {
    Exclusive(levels) && Agrees(levels, last)
  }

  lemma PutKeepsSound(levels: seq<Level>, last: map<Key, Data>, key: Key, e: Entry)
    requires levels != [] && Sound(levels, last)
    ensures Sound(Put(levels, key, e), last[key := e.data])
  {
  }

  lemma PromoteKeepsSound(levels: seq<Level>, last: map<Key, Data>, key: Key, from: nat, to: nat)
    requires Sound(levels, last) && from < |levels| && key in levels[from].data
    ensures Sound(Promote(levels, key, from, to), last)
  {
  }

  /** A lookup keeps the cache sound, and a hit returns the value last put for the key. */
  lemma GetKeepsSound(levels: seq<Level>, last: map<Key, Data>, key: Key, now: int, to: nat)
    requires Sound(levels, last)
    ensures var (r, got) := Get(levels, key, now, to);
            && Sound(r, last)
            && (got.Some? ==> key in last && got.value == last[key])
            && (got.Some? <==> exists i :: 0 <= i < |levels| && key in levels[i].data)
  {
    match FindLevel(levels, key, 0)
    case None =>
    case Some(i) =>
      var e := levels[i].data[key];
      var hit := levels[i].(data := levels[i].data[key := e.(timestamp := now)], hits := levels[i].hits + 1);
      var scanned := Missed(levels, i)[i := hit];
      assert Sound(scanned, last);
      PromoteKeepsSound(scanned, last, key, i, to);
  }

  // ----- what one call does to the entries and counters

  /** Level i holds the key with exactly this entry. */
  predicate HoldsAt(levels: seq<Level>, i: nat, key: Key, e: Entry) {
    i < |levels| && key in levels[i].data && levels[i].data[key] == e
  }

  predicate Holds(levels: seq<Level>, key: Key) {
    exists i :: 0 <= i < |levels| && key in levels[i].data
  }

  /** Level i has the same entries for all keys but this one. */
  predicate SameForOthers(before: Level, after: Level, key: Key) {
    before.data - {key} == after.data - {key}
  }

  /**
   After a put, the key is in the first level that held it, or else in level 0, with exactly this
   entry; no other key's entry, no size and no counter changes.
   */
  lemma PutStores(levels: seq<Level>, key: Key, e: Entry, i: nat)
    requires levels != [] && i < |levels|
    requires Holds(levels, key) ==> key in levels[i].data && forall j | 0 <= j < i :: key !in levels[j].data
    requires !Holds(levels, key) ==> i == 0
    ensures var r := Put(levels, key, e);
            && |r| == |levels| && HoldsAt(r, i, key, e)
            && (forall j | 0 <= j < |levels| && j != i :: r[j] == levels[j])
            && SameForOthers(levels[i], r[i], key) && r[i] == levels[i].(data := r[i].data)
  {
  }

  /** Promotion takes the entry with it, unchanged, to the level it was sent to, if that is an earlier one. */
  lemma PromoteMoves(levels: seq<Level>, key: Key, from: nat, to: nat)
    requires from < |levels| && key in levels[from].data
    ensures var r := Promote(levels, key, from, to);
            && HoldsAt(r, if to < from then to else from, key, levels[from].data[key])
            && (to < from ==> key !in r[from].data)
            && (forall j | 0 <= j < |levels| ::
                  && SameForOthers(levels[j], r[j], key) && r[j] == levels[j].(data := r[j].data)
                  && (j != from && j != to ==> r[j] == levels[j]))
  {
  }

  /** A hit leaves the entry found with its time set to now; the entries of all other keys stay as they were. */
  lemma GetRefreshes(levels: seq<Level>, key: Key, now: int, to: nat, i: nat)
    requires i < |levels| && key in levels[i].data && forall j | 0 <= j < i :: key !in levels[j].data
    ensures var r := Get(levels, key, now, to).0;
            && |r| == |levels|
            && HoldsAt(r, if to < i then to else i, key, levels[i].data[key].(timestamp := now))
            && (forall j | 0 <= j < |levels| :: SameForOthers(levels[j], r[j], key) && r[j].size == levels[j].size)
  {
  }

  /** Each level is asked until one hits: that one counts a hit, those before it, or all, count a miss. */
  lemma GetCounts(levels: seq<Level>, key: Key, now: int, to: nat, j: nat)
    requires j < |levels|
    ensures var r := Get(levels, key, now, to).0;
            var asked := forall h | 0 <= h < j :: key !in levels[h].data;
            && |r| == |levels|
            && r[j].hits == levels[j].hits + (if asked && key in levels[j].data then 1 else 0)
            && r[j].misses == levels[j].misses + (if asked && key !in levels[j].data then 1 else 0)
            && r[j].hitRatio == levels[j].hitRatio
  {
  }

  // ----- access counts

  /** The number of the first n levels that hold the key: what the analysis counts as accesses. */
  function AccessCount(levels: seq<Level>, key: Key, n: nat): (c: nat)
    requires n <= |levels|
    ensures c <= n
  {
    if n == 0 then 0 else AccessCount(levels, key, n - 1) + if key in levels[n - 1].data then 1 else 0
  }

  /** The time of the last access as the analysis sees it: in the last of the first n levels that hold the key. */
  function LastAccess(levels: seq<Level>, key: Key, n: nat): int
    requires n <= |levels|
  {
    if n == 0 then 0
    else if key in levels[n - 1].data then levels[n - 1].data[key].timestamp
    else LastAccess(levels, key, n - 1)
  }

  lemma {:induction false} LastAccessExactly(levels: seq<Level>, key: Key, i: nat, n: nat)
    requires i < n <= |levels| && key in levels[i].data && forall j | i < j < n :: key !in levels[j].data
    ensures LastAccess(levels, key, n) == levels[i].data[key].timestamp
  {
    if n == i + 1 {
    } else {
      LastAccessExactly(levels, key, i, n - 1);
    }
  }

  datatype AccessPattern = AccessPattern(lastAccess: int, accessCount: nat)

  function PatternOf(levels: seq<Level>, key: Key, n: nat): AccessPattern
    requires n <= |levels|
  {
    AccessPattern(LastAccess(levels, key, n), AccessCount(levels, key, n))
  }

  /** The patterns of exactly the keys that the first n levels hold. */
  ghost predicate Analysed(patterns: map<Key, AccessPattern>, levels: seq<Level>, n: nat)
    requires n <= |levels|
  {
    forall k :: (k in patterns <==> AccessCount(levels, k, n) > 0) &&
                (k in patterns ==> patterns[k] == PatternOf(levels, k, n))
  }

  lemma {:induction false} ExclusiveAccessCount(levels: seq<Level>, key: Key, i: nat, n: nat)
    requires Exclusive(levels) && i < |levels| && key in levels[i].data && n <= |levels|
    ensures AccessCount(levels, key, n) == if i < n then 1 else 0
  {
    if n == 0 {
    } else {
      ExclusiveAccessCount(levels, key, i, n - 1);
    }
  }

  lemma {:induction false} AbsentAccessCount(levels: seq<Level>, key: Key, n: nat)
    requires n <= |levels| && forall i | 0 <= i < n :: key !in levels[i].data
    ensures AccessCount(levels, key, n) == 0
  {
    if n == 0 {
    } else {
      AbsentAccessCount(levels, key, n - 1);
    }
  }

  /**
   In a sound cache every access count is 1, so no entry ever passes the promotion test of more
   than 100. Even without exclusivity it would take more than 100 levels.
   */
  lemma PromotionTestNeverPasses(levels: seq<Level>, key: Key)
    requires |levels| <= 100 || Exclusive(levels)
    ensures AccessCount(levels, key, |levels|) <= 100
    ensures Exclusive(levels) && (exists i :: 0 <= i < |levels| && key in levels[i].data) ==>
              AccessCount(levels, key, |levels|) == 1
  {
    if i: nat :| i < |levels| && key in levels[i].data && Exclusive(levels) {
      ExclusiveAccessCount(levels, key, i, |levels|);
    } else if Exclusive(levels) {
      AbsentAccessCount(levels, key, |levels|);
    }
  }

  // ----- eviction

  function Sizes(d: map<Key, Entry>): map<Key, nat> {
    map k | k in d :: |d[k].data|
  }

  ghost function Used(d: map<Key, Entry>): nat {
    Sum(Sizes(d))
  }

  /** Above 90 percent, in exact arithmetic. */
  predicate TooFull(used: nat, size: nat) {
    10 * used > 9 * size
  }

  /** Below 70 percent. */
  predicate Relieved(used: nat, size: nat) {
    10 * used < 7 * size
  }

  /** The same thresholds as shares of the level's size. */
  lemma ThresholdsExactly(used: nat, size: nat)
    ensures TooFull(used, size) <==> used as real > 0.9 * size as real
    ensures Relieved(used, size) <==> (used as real) < 0.7 * size as real
  {
  }

  ghost predicate SubMap(d: map<Key, Entry>, whole: map<Key, Entry>) {
    forall k | k in d :: k in whole && d[k] == whole[k]
  }

  /** No evicted entry is newer than a survivor. */
  ghost predicate OldestFirst(before: map<Key, Entry>, after: map<Key, Entry>) {
    forall e, s | e in before && e !in after && s in after && s in before :: before[e].timestamp <= before[s].timestamp
  }

  /** The newest evicted entry: without its eviction the level would not have been relieved. */
  ghost predicate LastEvicted(before: map<Key, Entry>, after: map<Key, Entry>, size: nat, k: Key) {
    && k in before && k !in after
    && (forall e | e in before && e !in after :: before[e].timestamp <= before[k].timestamp)
    && !Relieved(Used(after) + |before[k].data|, size)
  }

  /** The eviction of one level: least recently used first, enough, and no more than needed. */
  ghost predicate Evicts(before: map<Key, Entry>, after: map<Key, Entry>, size: nat) {
    && SubMap(after, before)
    && (!TooFull(Used(before), size) ==> after == before)
    && (TooFull(Used(before), size) ==>
          && (Relieved(Used(after), size) || after == map[])
          && OldestFirst(before, after)
          && exists k :: LastEvicted(before, after, size, k))
  }

  /** The hit ratio is recomputed from the counters, which start again. */
  function Rated(level: Level): Level {
    var n := level.hits + level.misses;
    level.(hitRatio := if n > 0 then level.hits as real / n as real else level.hitRatio, hits := 0, misses := 0)
  }

  /** `optimizeCache`: each level evicted on its own, nothing moved, counters folded into the ratio. */
  ghost predicate Optimizes(before: seq<Level>, after: seq<Level>) {
    && |after| == |before|
    && forall i | 0 <= i < |before| ::
         && Evicts(before[i].data, after[i].data, before[i].size)
         && after[i] == Rated(before[i]).(data := after[i].data)
  }

  lemma OptimizeKeepsSound(before: seq<Level>, after: seq<Level>, last: map<Key, Data>)
    requires Sound(before, last) && Optimizes(before, after)
    ensures Sound(after, last)
  {
  }

  // ----- whole runs

  datatype Event = Stored(key: Key, entry: Entry)
                 | Looked(key: Key, now: int, to: nat, got: Option<Data>)
                 | Optimized
                 | Expanded(level: nat, size: nat)
                 | Added(size: nat)

  /** The levels together with the value last put and the time last put or hit, for each key. */
  datatype Cache = Cache(levels: seq<Level>, last: map<Key, Data>, touched: map<Key, int>)

  ghost predicate Next(c: Cache, ev: Event, d: Cache) {
    match ev
    case Stored(key, e) =>
      && c.levels != []
      && d == Cache(Put(c.levels, key, e), c.last[key := e.data], c.touched[key := e.timestamp])
    case Looked(key, now, to, got) =>
      && (d.levels, got) == Get(c.levels, key, now, to) && d.last == c.last
      && d.touched == if got.Some? then c.touched[key := now] else c.touched
    case Optimized => Optimizes(c.levels, d.levels) && d.last == c.last && d.touched == c.touched
    case Expanded(i, size) =>
      i < |c.levels| && d == c.(levels := c.levels[i := c.levels[i].(size := c.levels[i].size + size)])
    case Added(size) => d == c.(levels := c.levels + [FreshLevel(size)])
  }

  lemma NextKeepsSound(c: Cache, ev: Event, d: Cache)
    requires Sound(c.levels, c.last) && Next(c, ev, d)
    ensures Sound(d.levels, d.last)
    ensures ev.Looked? && ev.got.Some? ==> ev.key in c.last && ev.got.value == c.last[ev.key]
  {
    match ev
    case Stored(key, e) => PutKeepsSound(c.levels, c.last, key, e);
    case Looked(key, now, to, got) => GetKeepsSound(c.levels, c.last, key, now, to);
    case Optimized => OptimizeKeepsSound(c.levels, d.levels, c.last);
    case Expanded(i, size) =>
    case Added(size) =>
  }

  ghost predicate IsRun(states: seq<Cache>, events: seq<Event>) {
    |states| == |events| + 1 && forall i | 0 <= i < |events| :: Next(states[i], events[i], states[i + 1])
  }

  /** Through any interleaving, every hit returns the value last put, and no key is in two levels. */
  lemma {:induction false} EveryHitReturnsLastPut(states: seq<Cache>, events: seq<Event>, k: nat)
    requires IsRun(states, events) && Sound(states[0].levels, states[0].last) && k < |states|
    ensures Sound(states[k].levels, states[k].last)
    ensures k < |events| && events[k].Looked? && events[k].got.Some? ==>
              events[k].key in states[k].last && events[k].got.value == states[k].last[events[k].key]
  {
    if k == 0 {
    } else {
      EveryHitReturnsLastPut(states, events, k - 1);
      assert Next(states[k - 1], events[k - 1], states[k]);
      NextKeepsSound(states[k - 1], events[k - 1], states[k]);
    }
    if k < |events| {
      assert Next(states[k], events[k], states[k + 1]);
      NextKeepsSound(states[k], events[k], states[k + 1]);
    }
  }

  // ----- what was put is found

  lemma HeldAt(levels: seq<Level>, key: Key) returns (i: nat)
    requires Holds(levels, key)
    ensures i < |levels| && key in levels[i].data && forall j | 0 <= j < i :: key !in levels[j].data
  {
    i := FindLevel(levels, key, 0).value;
  }

  lemma PutHolds(levels: seq<Level>, key: Key, e: Entry)
    requires levels != []
    ensures Holds(Put(levels, key, e), key)
    ensures forall k | Holds(levels, k) :: Holds(Put(levels, key, e), k)
  {
    var i: nat := 0;
    if Holds(levels, key) { i := HeldAt(levels, key); }
    PutStores(levels, key, e, i);
    var r := Put(levels, key, e);
    assert key in r[i].data;
    forall k | Holds(levels, k) ensures Holds(r, k) {
      var j :| 0 <= j < |levels| && k in levels[j].data;
      assert k != key ==> k in (levels[j].data - {key}) && k in r[j].data;
    }
  }

  lemma GetHolds(levels: seq<Level>, key: Key, now: int, to: nat, k: Key)
    requires Holds(levels, k)
    ensures Holds(Get(levels, key, now, to).0, k)
  {
    var r := Get(levels, key, now, to).0;
    var j :| 0 <= j < |levels| && k in levels[j].data;
    if Holds(levels, key) {
      var i := HeldAt(levels, key);
      GetRefreshes(levels, key, now, to, i);
      assert k != key ==> k in (levels[j].data - {key}) && k in r[j].data;
    } else {
      assert k in r[j].data;
    }
  }

  lemma SameKeysHold(before: seq<Level>, after: seq<Level>, k: Key)
    requires Holds(before, k) && |before| <= |after|
    requires forall j | 0 <= j < |before| :: before[j].data == after[j].data
    ensures Holds(after, k)
  {
    var j :| 0 <= j < |before| && k in before[j].data;
    assert k in after[j].data;
  }

  /** Only an eviction ever takes a key out of the cache. */
  lemma NextHolds(c: Cache, ev: Event, d: Cache, k: Key)
    requires Next(c, ev, d) && !ev.Optimized?
    ensures Holds(c.levels, k) || (ev.Stored? && ev.key == k) ==> Holds(d.levels, k)
  {
    match ev
    case Stored(key, e) => PutHolds(c.levels, key, e);
    case Looked(key, now, to, got) => if Holds(c.levels, k) { GetHolds(c.levels, key, now, to, k); }
    case Expanded(_, _) => if Holds(c.levels, k) { SameKeysHold(c.levels, d.levels, k); }
    case Added(_) => if Holds(c.levels, k) { SameKeysHold(c.levels, d.levels, k); }
  }

  lemma {:induction false} StoredStays(states: seq<Cache>, events: seq<Event>, j: nat, k: nat)
    requires IsRun(states, events) && j < k <= |events| && events[j].Stored?
    requires forall i | j < i < k :: !events[i].Optimized?
    ensures Holds(states[k].levels, events[j].key)
  {
    if k == j + 1 {
    } else {
      StoredStays(states, events, j, k - 1);
    }
    assert Next(states[k - 1], events[k - 1], states[k]);
    NextHolds(states[k - 1], events[k - 1], states[k], events[j].key);
  }

  /**
   A lookup of a key that was put is a hit, through any lookups, promotions and other puts; only
   an eviction pass in between can make it a miss.
   */
  lemma StoredIsFound(states: seq<Cache>, events: seq<Event>, j: nat, k: nat)
    requires IsRun(states, events) && j < k < |events|
    requires events[j].Stored? && events[k].Looked? && events[k].key == events[j].key
    requires forall i | j < i < k :: !events[i].Optimized?
    ensures events[k].got.Some?
  {
    StoredStays(states, events, j, k);
    assert Next(states[k], events[k], states[k + 1]);
    var i := HeldAt(states[k].levels, events[k].key);
  }

  // ----- recency

  /** Every entry carries the time its key was last put or hit. */
  ghost predicate Timely(c: Cache) {
    forall i, k | 0 <= i < |c.levels| && k in c.levels[i].data ::
      k in c.touched && c.levels[i].data[k].timestamp == c.touched[k]
  }

  lemma SameEntry(before: Level, after: Level, key: Key, k: Key)
    requires SameForOthers(before, after, key) && k != key
    ensures k in after.data <==> k in before.data
    ensures k in after.data ==> after.data[k] == before.data[k]
  {
    assert k in after.data <==> k in after.data - {key};
    assert k in before.data <==> k in before.data - {key};
    assert k in after.data ==> after.data[k] == (after.data - {key})[k];
    assert k in before.data ==> before.data[k] == (before.data - {key})[k];
  }

  lemma PutKeepsTimely(c: Cache, key: Key, e: Entry, d: Cache)
    requires Exclusive(c.levels) && Timely(c) && c.levels != []
    requires d == Cache(Put(c.levels, key, e), c.last[key := e.data], c.touched[key := e.timestamp])
    ensures Timely(d)
  {
    var i: nat := 0;
    if Holds(c.levels, key) { i := HeldAt(c.levels, key); }
    PutStores(c.levels, key, e, i);
    forall j, k | 0 <= j < |d.levels| && k in d.levels[j].data
      ensures k in d.touched && d.levels[j].data[k].timestamp == d.touched[k]
    {
      if k != key && j == i { SameEntry(c.levels[j], d.levels[j], key, k); }
    }
  }

  lemma HitKeepsTimely(c: Cache, key: Key, now: int, to: nat, i: nat, d: Cache)
    requires Exclusive(c.levels) && Timely(c)
    requires i < |c.levels| && key in c.levels[i].data && forall j | 0 <= j < i :: key !in c.levels[j].data
    requires d.levels == Get(c.levels, key, now, to).0 && Exclusive(d.levels)
    requires d.touched == c.touched[key := now]
    ensures Timely(d)
  {
    GetRefreshes(c.levels, key, now, to, i);
    forall j, k | 0 <= j < |d.levels| && k in d.levels[j].data
      ensures k in d.touched && d.levels[j].data[k].timestamp == d.touched[k]
    {
      if k != key { SameEntry(c.levels[j], d.levels[j], key, k); }
    }
  }

  lemma NextKeepsTimely(c: Cache, ev: Event, d: Cache)
    requires Sound(c.levels, c.last) && Timely(c) && Next(c, ev, d)
    ensures Timely(d)
  {
    NextKeepsSound(c, ev, d);
    match ev
    case Stored(key, e) => PutKeepsTimely(c, key, e, d);
    case Looked(key, now, to, got) =>
      if got.Some? {
        var i := HeldAt(c.levels, key);
        HitKeepsTimely(c, key, now, to, i, d);
      }
    case Optimized =>
    case Expanded(i, size) =>
    case Added(size) =>
  }

  /** No key taken out of a level was last used later than one kept there. */
  ghost predicate OldestUsedOut(c: Cache, d: Cache)
    requires |c.levels| == |d.levels|
  {
    forall i, out, kept | 0 <= i < |c.levels| && kept in d.levels[i].data &&
        out in c.levels[i].data && out !in d.levels[i].data ::
      out in c.touched && kept in c.touched && c.touched[out] <= c.touched[kept]
  }

  lemma EvictsOldestUsed(c: Cache, d: Cache)
    requires Timely(c) && Optimizes(c.levels, d.levels)
    ensures OldestUsedOut(c, d)
  {
    forall i, out, kept | 0 <= i < |c.levels| && kept in d.levels[i].data &&
        out in c.levels[i].data && out !in d.levels[i].data
      ensures out in c.touched && kept in c.touched && c.touched[out] <= c.touched[kept]
    {
      assert Evicts(c.levels[i].data, d.levels[i].data, c.levels[i].size);
      assert kept in c.levels[i].data;
    }
  }

  lemma {:induction false} RunKeepsTimely(states: seq<Cache>, events: seq<Event>, k: nat)
    requires IsRun(states, events) && Sound(states[0].levels, states[0].last) && Timely(states[0]) && k < |states|
    ensures Timely(states[k])
  {
    if k == 0 {
    } else {
      RunKeepsTimely(states, events, k - 1);
      EveryHitReturnsLastPut(states, events, k - 1);
      assert Next(states[k - 1], events[k - 1], states[k]);
      NextKeepsTimely(states[k - 1], events[k - 1], states[k]);
    }
  }

  /**
   In every run each entry carries the time its key was last put or hit, so what an eviction pass
   takes out of a level is what was used least recently there.
   */
  lemma EvictionIsLeastRecentlyUsed(states: seq<Cache>, events: seq<Event>, k: nat)
    requires IsRun(states, events) && Sound(states[0].levels, states[0].last) && Timely(states[0])
    requires k < |events| && events[k].Optimized?
    ensures Timely(states[k]) && |states[k + 1].levels| == |states[k].levels|
    ensures OldestUsedOut(states[k], states[k + 1])
  {
    RunKeepsTimely(states, events, k);
    assert Next(states[k], events[k], states[k + 1]);
    EvictsOldestUsed(states[k], states[k + 1]);
  }

  // ----- hit ratios

  /** The event is a lookup that no level before level j answers. */
  predicate Asks(levels: seq<Level>, ev: Event, j: nat) {
    ev.Looked? && j < |levels| && forall h | 0 <= h < j :: ev.key !in levels[h].data
  }

  /** How many of the events from number `from` up to k asked level j and found, or did not find, the key there. */
  function Answers(states: seq<Cache>, events: seq<Event>, j: nat, from: nat, k: nat, found: bool): nat
    requires from <= k <= |events| < |states|
    decreases k
  {
    if k == from then 0
    else
      var ls := states[k - 1].levels;
      var counts := Asks(ls, events[k - 1], j) && (events[k - 1].key in ls[j].data <==> found);
      Answers(states, events, j, from, k - 1, found) + if counts then 1 else 0
  }

  lemma NextCounts(c: Cache, ev: Event, d: Cache, j: nat)
    requires Next(c, ev, d) && !ev.Optimized? && j < |c.levels|
    ensures |d.levels| >= |c.levels| && d.levels[j].hitRatio == c.levels[j].hitRatio
    ensures var asked := Asks(c.levels, ev, j);
            && d.levels[j].hits == c.levels[j].hits + (if asked && ev.key in c.levels[j].data then 1 else 0)
            && d.levels[j].misses == c.levels[j].misses + (if asked && ev.key !in c.levels[j].data then 1 else 0)
  {
    match ev
    case Stored(key, e) =>
    case Looked(key, now, to, got) => GetCounts(c.levels, key, now, to, j);
    case Expanded(_, _) =>
    case Added(_) =>
  }

  lemma {:induction false} CountersTally(states: seq<Cache>, events: seq<Event>, j: nat, from: nat, k: nat)
    requires IsRun(states, events) && from <= k <= |events| && j < |states[from].levels|
    requires forall i | from <= i < k :: !events[i].Optimized?
    requires states[from].levels[j].hits == states[from].levels[j].misses == 0
    ensures j < |states[k].levels| && states[k].levels[j].hitRatio == states[from].levels[j].hitRatio
    ensures states[k].levels[j].hits == Answers(states, events, j, from, k, true)
    ensures states[k].levels[j].misses == Answers(states, events, j, from, k, false)
    decreases k
  {
    if k == from {
    } else {
      CountersTally(states, events, j, from, k - 1);
      assert Next(states[k - 1], events[k - 1], states[k]);
      NextCounts(states[k - 1], events[k - 1], states[k], j);
    }
  }

  /**
   The hit ratio that an eviction pass leaves a level with is the share of the lookups that asked
   the level since the counters were last zero and found their key there; with no such lookup it stays.
   */
  lemma HitRatioIsExact(states: seq<Cache>, events: seq<Event>, j: nat, from: nat, k: nat)
    requires IsRun(states, events) && from <= k < |events| && j < |states[from].levels|
    requires events[k].Optimized? && forall i | from <= i < k :: !events[i].Optimized?
    requires states[from].levels[j].hits == states[from].levels[j].misses == 0
    ensures j < |states[k + 1].levels|
    ensures var found := Answers(states, events, j, from, k, true);
            var missed := Answers(states, events, j, from, k, false);
            var after := states[k + 1].levels[j];
            && after.hits == after.misses == 0
            && after.hitRatio == if found + missed > 0 then found as real / (found + missed) as real
                                 else states[from].levels[j].hitRatio
  {
    CountersTally(states, events, j, from, k);
    assert Next(states[k], events[k], states[k + 1]);
  }

  // ----- the eviction loop

  ghost predicate ByAge(order: seq<Key>, d: map<Key, Entry>) {
    && (forall i | 0 <= i < |order| :: order[i] in d)
    && (forall i, j | 0 <= i < j < |order| :: order[i] != order[j] && d[order[i]].timestamp <= d[order[j]].timestamp)
  }

  /** One step of sorting the entries by access time. */
  function InsertByAge(order: seq<Key>, d: map<Key, Entry>, k: Key): (r: seq<Key>)
    requires ByAge(order, d) && k in d && k !in order
    ensures ByAge(r, d)
    ensures forall x :: x in r <==> x in order || x == k
  {
    if order == [] then [k]
    else if d[k].timestamp < d[order[0]].timestamp then [k] + order
    else
      assert order == [order[0]] + order[1..];
      var r := InsertByAge(order[1..], d, k);
      assert forall i | 0 <= i < |r| :: r[i] in r;
      [order[0]] + r
  }

  method SortByAge(d: map<Key, Entry>) returns (order: seq<Key>)
    ensures ByAge(order, d) && forall k :: k in d <==> k in order
  {
    order := [];
    var todo := d.Keys;
    while todo != {}
      invariant todo <= d.Keys && ByAge(order, d)
      invariant forall k :: k in order <==> k in d && k !in todo
      decreases todo
    {
      var k :| k in todo;
      order := InsertByAge(order, d, k);
      todo := todo - {k};
    }
  }

  /** The level after the n oldest entries are gone. */
  ghost predicate EvictedSoFar(before: map<Key, Entry>, d: map<Key, Entry>, order: seq<Key>, n: nat, size: nat) {
    && SubMap(d, before)
    && n <= |order|
    && (n == 0 ==> d == before)
    && (forall j | 0 <= j < |order| :: order[j] in d <==> j >= n)
    && (n > 0 ==> order[n - 1] in before && !Relieved(Used(d) + |before[order[n - 1]].data|, size))
  }

  lemma UsedRemove(d: map<Key, Entry>, k: Key)
    requires k in d
    ensures Used(d) == |d[k].data| + Used(d - {k})
  {
    SumRemove(Sizes(d), k);
    assert Sizes(d - {k}) == Sizes(d) - {k};
  }

  lemma EvictionDone(before: map<Key, Entry>, d: map<Key, Entry>, order: seq<Key>, n: nat, size: nat)
    requires ByAge(order, before) && forall k :: k in before <==> k in order
    requires TooFull(Used(before), size) && EvictedSoFar(before, d, order, n, size) && n > 0
    requires n == |order| || Relieved(Used(d), size)
    ensures Evicts(before, d, size)
  {
    forall k | k in before ensures exists j :: 0 <= j < |order| && order[j] == k {
      assert k in order;
    }
    assert n == |order| ==> d == map[];
    assert LastEvicted(before, d, size, order[n - 1]);
  }

  lemma EmptyUsesNothing(d: map<Key, Entry>, order: seq<Key>)
    requires forall k :: k in d <==> k in order
    ensures order == [] ==> Used(d) == 0
  {
  }

  /** Removes the oldest entries until usage is below 70 percent. `used` was measured before. */
  method EvictOldest(before: map<Key, Entry>, used: nat, size: nat) returns (d: map<Key, Entry>)
    requires used == Used(before) && TooFull(used, size)
    ensures Evicts(before, d, size)
  {
    d := before;
    var entries := SortByAge(before);
    var removedSize := 0;
    var n := 0;
    while n < |entries|
      invariant EvictedSoFar(before, d, entries, n, size)
      invariant removedSize + Used(d) == used
    {
      if Relieved(used - removedSize, size) { break; }
      UsedRemove(d, entries[n]);
      removedSize := removedSize + |d[entries[n]].data|;
      d := d - {entries[n]};
      n := n + 1;
    }
    EmptyUsesNothing(before, entries);
    EvictionDone(before, d, entries, n, size);
  }

  // ----- the cache itself

  class MultiLevelCache {
    var levels: seq<Level>
    ghost var last: map<Key, Data>

    ghost predicate Valid()
      reads this
    {
      levels != [] && Sound(levels, last)
    }

    constructor ()
      ensures Valid() && last == map[]
      ensures levels == [FreshLevel(1024 * 1024), FreshLevel(8 * 1024 * 1024), FreshLevel(32 * 1024 * 1024)]
      ensures forall i | 0 <= i < 3 :: levels[i].data == map[] && levels[i].hits == levels[i].misses == 0
    {
      levels := [FreshLevel(1024 * 1024), FreshLevel(8 * 1024 * 1024), FreshLevel(32 * 1024 * 1024)];
      last := map[];
    }

    method AddLevel(size: nat)
      requires Valid()
      modifies this`levels
      ensures Valid() && levels == old(levels) + [FreshLevel(size)]
    {
      levels := levels + [FreshLevel(size)];
    }

    method ExpandLevel(level: nat, size: nat)
      requires Valid() && level < |levels|
      modifies this`levels
      ensures Valid() && levels == old(levels)[level := old(levels)[level].(size := old(levels)[level].size + size)]
    {
      levels := levels[level := levels[level].(size := levels[level].size + size)];
    }

    /** `promoteTo` is the level that promotion picks; `data` is the caller's buffer. */
    method Lookup(key: Key, data: Data, now: int, promoteTo: nat) returns (hit: bool, result: Data)
      requires Valid()
      modifies this`levels
      ensures Valid()
      ensures (levels, if hit then Some(result) else None) == Get(old(levels), key, now, promoteTo)
      ensures if hit then key in last && result == last[key] else result == data
    {
      ghost var before := levels;
      GetKeepsSound(before, last, key, now, promoteTo);
      for i := 0 to |levels|
        invariant levels == Missed(before, i)
        invariant FindLevel(before, key, 0) == FindLevel(before, key, i)
      {
        if key in levels[i].data {
          var e := levels[i].data[key];
          levels := levels[i := levels[i].(data := levels[i].data[key := e.(timestamp := now)])];
          levels := levels[i := levels[i].(hits := levels[i].hits + 1)];
          ghost var refreshed := before[i].(data := before[i].data[key := e.(timestamp := now)]);
          ghost var counted := refreshed.(hits := before[i].hits + 1);
          assert levels == Missed(before, i)[i := counted];
          levels := Promote(levels, key, i, promoteTo);
          assert (levels, Some(e.data)) == Get(before, key, now, promoteTo);
          return true, e.data;
        }
        levels := levels[i := WithMiss(levels[i])];
        assert levels == Missed(before, i + 1);
      }
      return false, data;
    }

    method Store(key: Key, data: Data, dirty: bool, now: int)
      requires Valid()
      modifies this`levels, this`last
      ensures Valid()
      ensures levels == Put(old(levels), key, Entry(data, now, dirty)) && last == old(last)[key := data]
    {
      var e := Entry(data, now, dirty);
      PutKeepsSound(levels, last, key, e);
      last := last[key := data];
      for i := 0 to |levels|
        invariant levels == old(levels)
        invariant FindLevel(levels, key, 0) == FindLevel(levels, key, i)
      {
        if key in levels[i].data {
          levels := levels[i := With(levels[i], key, e)];
          return;
        }
      }
      levels := levels[0 := With(levels[0], key, e)];
    }

    method Measure(i: nat) returns (used: nat)
      requires i < |levels|
      ensures used == Used(levels[i].data)
    {
      used := 0;
      var rest := levels[i].data;
      while rest != map[]
        invariant SubMap(rest, levels[i].data)
        invariant used + Used(rest) == Used(levels[i].data)
        decreases |rest|
      {
        var k :| k in rest;
        UsedRemove(rest, k);
        used := used + |rest[k].data|;
        rest := rest - {k};
      }
    }

    method MeasureAll() returns (usedSizes: seq<nat>)
      ensures |usedSizes| == |levels| && forall j | 0 <= j < |levels| :: usedSizes[j] == Used(levels[j].data)
    {
      usedSizes := [];
      for i := 0 to |levels|
        invariant |usedSizes| == i && forall j | 0 <= j < i :: usedSizes[j] == Used(levels[j].data)
      {
        var used := Measure(i);
        usedSizes := usedSizes + [used];
      }
    }

    /** In how many levels each key was seen, and when it was last accessed. */
    method AnalysePatterns() returns (patterns: map<Key, AccessPattern>)
      ensures Analysed(patterns, levels, |levels|)
    {
      patterns := map[];
      for i := 0 to |levels|
        invariant Analysed(patterns, levels, i)
      {
        var p, d := patterns, levels[i].data;
        patterns := map k | k in p.Keys + d.Keys ::
          AccessPattern(if k in d then d[k].timestamp else p[k].lastAccess,
                        (if k in p then p[k].accessCount else 0) + if k in d then 1 else 0);
      }
    }

    /** The eviction of one level by its measured size, if it is too full. */
    method EvictLevel(i: nat, used: nat)
      requires i < |levels| && used == Used(levels[i].data)
      modifies this`levels
      ensures |levels| == |old(levels)|
      ensures Evicts(old(levels)[i].data, levels[i].data, old(levels)[i].size)
      ensures levels == old(levels)[i := old(levels)[i].(data := levels[i].data)]
    {
      if TooFull(used, levels[i].size) {
        var left := EvictOldest(levels[i].data, used, levels[i].size);
        levels := levels[i := levels[i].(data := left)];
      }
    }

    /**
     Moves entries with more than 100 accesses, the last one less than a minute ago, one level up if
     they fit there. With the patterns of a sound cache no entry ever qualifies.
     */
    method PromoteFrequent(i: nat, usedSizes: seq<nat>, patterns: map<Key, AccessPattern>, now: int,
                           ghost analysed: seq<Level>)
      requires 0 < i < |levels| && |usedSizes| == |levels|
      requires Exclusive(analysed) && Analysed(patterns, analysed, |analysed|)
      modifies this`levels
      ensures levels == old(levels)
    {
      var todo := levels[i].data.Keys;
      while todo != {}
        invariant levels == old(levels) && todo <= levels[i].data.Keys
        decreases todo
      {
        var k :| k in todo;
        todo := todo - {k};
        var pattern := if k in patterns then patterns[k] else AccessPattern(0, 0);
        if pattern.accessCount > 100 && now - pattern.lastAccess < 60 {
          var e := levels[i].data[k];
          if usedSizes[i - 1] + |e.data| <= levels[i - 1].size {
            levels := levels[i - 1 := With(levels[i - 1], k, e)];
            levels := levels[i := Without(levels[i], k)];
          }
        }
        PromotionTestNeverPasses(analysed, k);
      }
    }

    /** Evicts level by level, and promotes from each to the one before; sizes and patterns are taken before. */
    method EvictLevels(now: int)
      requires Valid()
      modifies this`levels
      ensures |levels| == |old(levels)|
      ensures forall i | 0 <= i < |levels| ::
                && Evicts(old(levels)[i].data, levels[i].data, old(levels)[i].size)
                && levels[i] == old(levels)[i].(data := levels[i].data)
    {
      ghost var before := levels;
      var usedSizes := MeasureAll();
      var patterns := AnalysePatterns();
      for i := 0 to |levels|
        invariant |levels| == |before| && levels[i..] == before[i..]
        invariant forall j | 0 <= j < i ::
                    && Evicts(before[j].data, levels[j].data, before[j].size)
                    && levels[j] == before[j].(data := levels[j].data)
      {
        assert levels[i] == levels[i..][0] == before[i];
        EvictLevel(i, usedSizes[i]);
        if i > 0 {
          PromoteFrequent(i, usedSizes, patterns, now, before);
        }
      }
    }

    /** Evicts and promotes level by level, then recomputes the hit ratios. */
    method OptimizeCache(now: int)
      requires Valid()
      modifies this`levels
      ensures Valid() && Optimizes(old(levels), levels)
    {
      ghost var before := levels;
      EvictLevels(now);
      ghost var evicted := levels;
      for i := 0 to |levels|
        invariant |levels| == |evicted| && levels[i..] == evicted[i..]
        invariant forall j | 0 <= j < i :: levels[j] == Rated(evicted[j])
      {
        assert levels[i] == levels[i..][0] == evicted[i];
        levels := levels[i := Rated(levels[i])];
      }
      assert forall i | 0 <= i < |before| :: levels[i] == Rated(before[i]).(data := levels[i].data);
      OptimizeKeepsSound(before, levels, last);
    }
  }
}
