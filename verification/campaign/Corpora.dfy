/** The seed corpus: per-pattern buckets with first-in-first-out eviction, and a flat view of the newest inputs. */
module Corpora {
  type Bytes = seq<bv8>

  /** An insertion-ordered dictionary, oldest entry first. */
  type Bucket = seq<(string, Bytes)>

  /** Where the key is, or the length of the bucket. */
  function KeyIndex(b: Bucket, key: string): (i: nat)
    ensures i <= |b|
    ensures i < |b| ==> b[i].0 == key
    ensures forall j | 0 <= j < i :: b[j].0 != key
  {
    if b == [] then 0
    else
      var i := KeyIndex(b[..|b| - 1], key);
      if i == |b| - 1 && b[i].0 != key then |b| else i
  }

  predicate HasKey(b: Bucket, key: string)
    ensures HasKey(b, key) <==> exists i :: 0 <= i < |b| && b[i].0 == key
  {
    KeyIndex(b, key) < |b|
  }

  ghost predicate UniqueKeys(b: Bucket) { forall i, j | 0 <= i < j < |b| :: b[i].0 != b[j].0 }

  /** `b[key] = data`: an existing key keeps its place. */
  function Put(b: Bucket, key: string, data: Bytes): (r: Bucket)
    ensures |r| == |b| + (if HasKey(b, key) then 0 else 1) && r != []
  {
    var i := KeyIndex(b, key);
    if i < |b| then b[i := (key, data)] else b + [(key, data)]
  }

  lemma {:induction false} PutKeepsKeysUnique(b: Bucket, key: string, data: Bytes)
    requires UniqueKeys(b)
    ensures UniqueKeys(Put(b, key, data))
  {
  }

  function Newest<T>(s: seq<T>, n: nat): seq<T> { if |s| <= n then s else s[|s| - n..] }

  // ---------------------------------------------------------------------------
  // One input
  // ---------------------------------------------------------------------------

  datatype Config = Config(maxSize: int, weights: nat)

  datatype Input = Input(key: string, data: Bytes, pattern: string, interesting: bool)

  datatype Corpus = Corpus(buckets: map<string, Bucket>, flat: Bucket, added: int, evictions: int)

  const EMPTY_CORPUS := Corpus(map[], [], 0, 0)

  function Max(a: int, b: int): int { if a >= b then a else b }

  /** The slots of a pattern: the capacity shared among the intended patterns or, without weights, those seen so far. */
  function Slots(cfg: Config, buckets: nat): (n: nat)
    ensures n >= 1
  {
    Max(1, cfg.maxSize / Max(1, if cfg.weights != 0 then cfg.weights else buckets))
  }

  function BucketOf(c: Corpus, pattern: string): Bucket { if pattern in c.buckets then c.buckets[pattern] else [] }

  function Evicted(b: Bucket, slots: nat): Bucket { if b != [] && |b| >= slots then b[1..] else b }

  function FlatStep(flat: Bucket, maxSize: int, key: string, data: Bytes): Bucket {
    var f := Put(flat, key, data);
    if |f| > maxSize then f[1..] else f
  }

  function Track(c: Corpus, cfg: Config, input: Input): Corpus {
    if !input.interesting then c
    else
      var bucket := BucketOf(c, input.pattern);
      var buckets := c.buckets[input.pattern := bucket];
      if HasKey(bucket, input.key) then c.(buckets := buckets)
      else
        var kept := Evicted(bucket, Slots(cfg, |buckets|));
        Corpus(
          buckets[input.pattern := Put(kept, input.key, input.data)],
          FlatStep(c.flat, cfg.maxSize, input.key, input.data),
          c.added + 1,
          if |kept| < |bucket| then c.evictions + 1 else c.evictions)
  }

  // ---------------------------------------------------------------------------
  // Bookkeeping, under any configuration
  // ---------------------------------------------------------------------------

  ghost function TotalSize(buckets: map<string, Bucket>): nat {
    if buckets == map[] then 0
    else
      var p :| p in buckets;
      |buckets[p]| + TotalSize(buckets - {p})
  }

  lemma {:induction false} TotalSizeWithout(buckets: map<string, Bucket>, p: string)
    requires p in buckets
    ensures TotalSize(buckets) == |buckets[p]| + TotalSize(buckets - {p})
    decreases |buckets|
  {
    var q :| q in buckets && TotalSize(buckets) == |buckets[q]| + TotalSize(buckets - {q});
    if p != q {
      TotalSizeWithout(buckets - {q}, p);
      TotalSizeWithout(buckets - {p}, q);
      assert buckets - {q} - {p} == buckets - {p} - {q};
    }
  }

  lemma {:induction false} TotalSizeUpdate(buckets: map<string, Bucket>, p: string, b: Bucket)
    ensures TotalSize(buckets[p := b]) == TotalSize(buckets) + |b| - if p in buckets then |buckets[p]| else 0
  {
    TotalSizeWithout(buckets[p := b], p);
    if p in buckets {
      TotalSizeWithout(buckets, p);
      assert buckets[p := b] - {p} == buckets - {p};
    } else {
      assert buckets[p := b] - {p} == buckets;
    }
  }

  /** The corpus holds, over all buckets, what was added and not evicted. */
  ghost predicate Balanced(c: Corpus) { TotalSize(c.buckets) == c.added - c.evictions }

  lemma {:induction false} TrackKeepsBalance(c: Corpus, cfg: Config, input: Input)
    requires Balanced(c)
    ensures Balanced(Track(c, cfg, input))
  {
    if input.interesting {
      var p, bucket := input.pattern, BucketOf(c, input.pattern);
      var buckets := c.buckets[p := bucket];
      TotalSizeUpdate(c.buckets, p, bucket);
      if !HasKey(bucket, input.key) {
        var kept := Evicted(bucket, Slots(cfg, |buckets|));
        EvictedLacksKey(bucket, Slots(cfg, |buckets|), input.key);
        TotalSizeUpdate(buckets, p, Put(kept, input.key, input.data));
      }
    }
  }

  lemma {:induction false} EvictedLacksKey(b: Bucket, slots: nat, key: string)
    requires !HasKey(b, key)
    ensures !HasKey(Evicted(b, slots), key)
  {
    hide HasKey;
    var e := Evicted(b, slots);
    forall i | 0 <= i < |e| ensures e[i].0 != key {
      assert e[i] == b[i + |b| - |e|];
    }
  }

  ghost predicate WellKeyed(c: Corpus) {
    UniqueKeys(c.flat) && forall p | p in c.buckets :: UniqueKeys(c.buckets[p])
  }

  lemma {:induction false} TrackKeepsKeysUnique(c: Corpus, cfg: Config, input: Input)
    requires WellKeyed(c)
    ensures WellKeyed(Track(c, cfg, input))
  {
    hide Slots;
    hide HasKey;
    PutKeepsKeysUnique(c.flat, input.key, input.data);
    var bucket := BucketOf(c, input.pattern);
    var kept := Evicted(bucket, Slots(cfg, |c.buckets[input.pattern := bucket]|));
    assert UniqueKeys(kept);
    PutKeepsKeysUnique(kept, input.key, input.data);
  }

  // ---------------------------------------------------------------------------
  // Whole runs
  // ---------------------------------------------------------------------------

  /** The corpus after a run in which each input came under the configuration beside it. */
  ghost function Run(steps: seq<(Config, Input)>): Corpus {
    if steps == [] then EMPTY_CORPUS
    else Track(Run(steps[..|steps| - 1]), steps[|steps| - 1].0, steps[|steps| - 1].1)
  }

  /** Whatever the configurations, no key is twice in a bucket, and the buckets hold what was added and not evicted. */
  lemma {:induction false} CorpusIsConsistent(steps: seq<(Config, Input)>)
    ensures Balanced(Run(steps)) && WellKeyed(Run(steps))
  {
    if steps != [] {
      var c, cfg, input := Run(steps[..|steps| - 1]), steps[|steps| - 1].0, steps[|steps| - 1].1;
      CorpusIsConsistent(steps[..|steps| - 1]);
      TrackKeepsBalance(c, cfg, input);
      TrackKeepsKeysUnique(c, cfg, input);
    }
  }

  /** The flat corpus never exceeds its maximum; a negative maximum leaves it empty. */
  lemma {:induction false} FlatNeverExceeds(steps: seq<(Config, Input)>, maxSize: int)
    requires forall i | 0 <= i < |steps| :: steps[i].0.maxSize == maxSize
    ensures |Run(steps).flat| <= Max(0, maxSize)
  {
    if steps != [] {
      FlatNeverExceeds(steps[..|steps| - 1], maxSize);
    }
  }

  /** A full flat corpus gives up its oldest entry for a new key; a known key only gets its new data. */
  lemma {:induction false} FlatIsFirstInFirstOut(flat: Bucket, maxSize: nat, key: string, data: Bytes)
    requires |flat| <= maxSize
    ensures !HasKey(flat, key) ==> FlatStep(flat, maxSize, key, data) == Newest(flat + [(key, data)], maxSize)
    ensures HasKey(flat, key) ==>
              exists i :: 0 <= i < |flat| && flat[i].0 == key && FlatStep(flat, maxSize, key, data) == flat[i := (key, data)]
  {
    assert HasKey(flat, key) ==> flat[KeyIndex(flat, key)].0 == key;
  }

  /** Pigeonholes: as many slots as the capacity gives each pattern, and at least one. */
  lemma {:induction false} SlotsShareCapacity(cfg: Config, buckets: nat)
    ensures var patterns, slots := if cfg.weights > 0 then cfg.weights else buckets, Slots(cfg, buckets);
            if patterns > 0 && cfg.maxSize >= patterns then slots * patterns <= cfg.maxSize < slots * patterns + patterns
            else if patterns == 0 && cfg.maxSize > 0 then slots == cfg.maxSize
            else slots == 1
  {
    var patterns := Max(1, if cfg.weights > 0 then cfg.weights else buckets);
    var q, r := cfg.maxSize / patterns, cfg.maxSize % patterns;
    assert cfg.maxSize == q * patterns + r;
    assert patterns == 1 ==> q == cfg.maxSize;
    if cfg.maxSize >= patterns && q < 1 {
      NotPositive(q, patterns);
    }
    if cfg.maxSize < patterns && q > 1 {
      AtLeastTwice(q, patterns);
    }
  }

  lemma {:induction false} NotPositive(q: int, n: nat)
    requires q <= 0
    ensures q * n <= 0
  {
  }

  lemma {:induction false} AtLeastTwice(q: int, n: nat)
    requires q >= 1
    ensures q * n >= n
  {
  }

  /** What an interesting input that its bucket does not hold does to the flat corpus, after any run under one maximum. */
  lemma {:induction false} FlatTakesInput(steps: seq<(Config, Input)>, cfg: Config, input: Input)
    requires forall i | 0 <= i < |steps| :: steps[i].0.maxSize == cfg.maxSize
    ensures var flat, after := Run(steps).flat, Run(steps + [(cfg, input)]).flat;
            var entry := (input.key, input.data);
            if !input.interesting || HasKey(BucketOf(Run(steps), input.pattern), input.key) then after == flat
            else if exists j :: 0 <= j < |flat| && flat[j].0 == input.key then
              forall j | 0 <= j < |flat| && flat[j].0 == input.key :: after == flat[j := entry]
            else if cfg.maxSize >= 1 then
              && after != [] && after[|after| - 1] == entry
              && after == (if |flat| < cfg.maxSize then flat else flat[1..]) + [entry]
            else after == []
  {
    hide Track;
    hide HasKey;
    FlatNeverExceeds(steps, cfg.maxSize);
    CorpusIsConsistent(steps);
    assert (steps + [(cfg, input)])[..|steps|] == steps;
    TrackTakesInput(Run(steps), cfg, input);
  }

  lemma {:induction false} TrackTakesInput(c: Corpus, cfg: Config, input: Input)
    requires UniqueKeys(c.flat) && |c.flat| <= Max(0, cfg.maxSize)
    ensures var flat, after, entry := c.flat, Track(c, cfg, input).flat, (input.key, input.data);
            if !input.interesting || HasKey(BucketOf(c, input.pattern), input.key) then after == flat
            else if exists j :: 0 <= j < |flat| && flat[j].0 == input.key then
              forall j | 0 <= j < |flat| && flat[j].0 == input.key :: after == flat[j := entry]
            else if cfg.maxSize >= 1 then
              && after != [] && after[|after| - 1] == entry
              && after == (if |flat| < cfg.maxSize then flat else flat[1..]) + [entry]
            else after == []
  {
    hide HasKey;
    hide Put;
    hide Slots;
    hide UniqueKeys;
    PutTakes(c.flat, input.key, input.data);
  }

  lemma {:induction false} PutTakes(b: Bucket, key: string, data: Bytes)
    requires UniqueKeys(b)
    ensures forall j | 0 <= j < |b| && b[j].0 == key :: Put(b, key, data) == b[j := (key, data)]
    ensures (forall j | 0 <= j < |b| :: b[j].0 != key) ==> Put(b, key, data) == b + [(key, data)]
  {
  }

  /** The interesting inputs of a run, of all patterns. */
  ghost function Interesting(steps: seq<(Config, Input)>): Bucket {
    if steps == [] then []
    else
      var input := steps[|steps| - 1].1;
      Interesting(steps[..|steps| - 1]) + if input.interesting then [(input.key, input.data)] else []
  }

  ghost predicate HoldsOnly(c: Corpus, inputs: Bucket) {
    && (forall e | e in c.flat :: e in inputs)
    && forall p, e | p in c.buckets && e in c.buckets[p] :: e in inputs
  }

  lemma {:induction false} TrackHoldsOnly(c: Corpus, cfg: Config, input: Input, inputs: Bucket)
    requires HoldsOnly(c, inputs)
    ensures HoldsOnly(Track(c, cfg, input), inputs + if input.interesting then [(input.key, input.data)] else [])
  {
    hide Slots;
    hide HasKey;
  }

  lemma {:induction false} RunHoldsOnly(steps: seq<(Config, Input)>)
    ensures HoldsOnly(Run(steps), Interesting(steps))
  {
    if steps != [] {
      RunHoldsOnly(steps[..|steps| - 1]);
      hide HoldsOnly;
      hide Track;
      TrackHoldsOnly(Run(steps[..|steps| - 1]), steps[|steps| - 1].0, steps[|steps| - 1].1,
                     Interesting(steps[..|steps| - 1]));
    }
  }

  lemma {:induction false} NewKey(b: Bucket, inputs: Bucket, e: (string, Bytes))
    requires (forall x | x in b :: x in inputs) && UniqueKeys(inputs + [e])
    ensures !HasKey(b, e.0)
  {
    hide HasKey;
    forall i | 0 <= i < |b| ensures b[i].0 != e.0 {
      assert b[i] in b;
      var j :| 0 <= j < |inputs| && inputs[j] == b[i];
      assert (inputs + [e])[j] == inputs[j] && (inputs + [e])[|inputs|] == e;
    }
  }

  /** While no key comes twice, the flat corpus is the newest inputs of all patterns, in the order they came. */
  lemma {:induction false} FlatHoldsNewest(steps: seq<(Config, Input)>, maxSize: int)
    requires (forall i | 0 <= i < |steps| :: steps[i].0.maxSize == maxSize) && UniqueKeys(Interesting(steps))
    ensures Run(steps).flat == Newest(Interesting(steps), Max(0, maxSize))
  {
    if steps != [] {
      var before, cfg, input := steps[..|steps| - 1], steps[|steps| - 1].0, steps[|steps| - 1].1;
      var c, inputs := Run(before), Interesting(before);
      if input.interesting {
        var e := (input.key, input.data);
        assert Interesting(steps) == inputs + [e];
        assert UniqueKeys(inputs) by {
          assert forall i | 0 <= i < |inputs| :: (inputs + [e])[i] == inputs[i];
        }
        FlatHoldsNewest(before, maxSize);
        RunHoldsOnly(before);
        NewKey(c.flat, inputs, e);
        NewKey(BucketOf(c, input.pattern), inputs, e);
        FlatNeverExceeds(before, maxSize);
        NewestSteps(inputs, e, maxSize);
      } else {
        assert Interesting(steps) == inputs + [] == inputs;
        FlatHoldsNewest(before, maxSize);
      }
    }
  }

  lemma {:induction false} NewestSteps(inputs: Bucket, e: (string, Bytes), maxSize: int)
    requires !HasKey(Newest(inputs, Max(0, maxSize)), e.0)
    ensures FlatStep(Newest(inputs, Max(0, maxSize)), maxSize, e.0, e.1) == Newest(inputs + [e], Max(0, maxSize))
  {
  }

  /** What a pattern's bucket lets in: interesting inputs whose key is not among the newest `slots` accepted ones. */
  ghost function Accepted(steps: seq<(Config, Input)>, slots: nat, pattern: string): Bucket {
    if steps == [] then []
    else
      var before, input := Accepted(steps[..|steps| - 1], slots, pattern), steps[|steps| - 1].1;
      if input.interesting && input.pattern == pattern && !HasKey(Newest(before, slots), input.key)
      then before + [(input.key, input.data)]
      else before
  }

  lemma {:induction false} NewestAfterOneMore(b: Bucket, slots: nat, e: (string, Bytes))
    requires slots >= 1
    ensures Newest(b + [e], slots) == Evicted(Newest(b, slots), slots) + [e]
  {
  }

  /**
   Under fixed weights and capacity, a pattern's bucket is exactly its newest accepted inputs, as many as it has
   slots, in the order they came. Inputs of other patterns make no difference to it.
   */
  lemma {:induction false} BucketHoldsNewest(steps: seq<(Config, Input)>, cfg: Config, pattern: string)
    requires cfg.weights > 0 && forall i | 0 <= i < |steps| :: steps[i].0 == cfg
    ensures var slots := Slots(cfg, 0);
            BucketOf(Run(steps), pattern) == Newest(Accepted(steps, slots, pattern), slots)
  {
    var slots := Slots(cfg, 0);
    if steps != [] {
      var before, input := steps[..|steps| - 1], steps[|steps| - 1].1;
      BucketHoldsNewest(before, cfg, pattern);
      var c, b := Run(before), BucketOf(Run(before), input.pattern);
      if input.interesting && input.pattern == pattern && !HasKey(b, input.key) {
        EvictedLacksKey(b, slots, input.key);
        NewestAfterOneMore(Accepted(before, slots, pattern), slots, (input.key, input.data));
      }
    }
  }

  /** So it is never larger than its slots. */
  lemma {:induction false} BucketFitsSlots(steps: seq<(Config, Input)>, cfg: Config, pattern: string)
    requires cfg.weights > 0 && forall i | 0 <= i < |steps| :: steps[i].0 == cfg
    ensures |BucketOf(Run(steps), pattern)| <= Slots(cfg, 0)
  {
    BucketHoldsNewest(steps, cfg, pattern);
  }
}
