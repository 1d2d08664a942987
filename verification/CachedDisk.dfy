/**
 An abstract disk with a write-back cache. Commands may fail, the drive may
 write cached sectors back at any time and in any order, and a crash keeps
 what is durable together with any part of what is still cached.
 */
module CachedDisk {
  import opened Words

  /** What the outside world decides about one command. */
  datatype Outcome = Outcome(ok: bool, evicted: set<int>, landed: set<int>)

  /** The state a crash would start from. */
  datatype Image<S> = Image(durable: map<int, S>, cache: map<int, S>)

  /** The part of `m` on the given sectors. */
  function Part<S>(m: map<int, S>, sectors: set<int>): map<int, S> {
    map s | s in m && s in sectors :: m[s]
  }

  function Without<S>(m: map<int, S>, sectors: set<int>): map<int, S> {
    map s | s in m && s !in sectors :: m[s]
  }

  function Evicted<S>(i: Image<S>, sectors: set<int>): Image<S> {
    Image(i.durable + Part(i.cache, sectors), Without(i.cache, sectors))
  }

  /** Sector contents `data` from `lba` on. */
  function Run<S>(lba: int, data: seq<S>): (r: map<int, S>)
    ensures r.Keys == Sectors(lba, |data|)
    ensures forall s :: s in r ==> r[s] == data[s - lba]
  {
    if data == [] then map[] else
      var last := |data| - 1;
      Run(lba, data[..last])[lba + last := data[last]]
  }

  function Sectors(lba: int, count: nat): (r: set<int>)
    ensures forall s :: s in r <==> lba <= s < lba + count
  {
    if count == 0 then {} else Sectors(lba, count - 1) + {lba + count - 1}
  }

  /** The contents of `count` sectors from `lba` on. */
  function Fetch<S>(m: map<int, S>, lba: int, count: nat): (data: seq<S>)
    requires Sectors(lba, count) <= m.Keys
    ensures |data| == count && forall k :: 0 <= k < count ==> data[k] == m[lba + k]
  {
    if count == 0 then [] else Fetch(m, lba, count - 1) + [m[lba + count - 1]]
  }

  function View<S>(i: Image<S>): map<int, S> {
    i.durable + i.cache
  }

  /** Only sectors of the disk can be cached. */
  predicate Sound<S>(i: Image<S>) {
    i.cache.Keys <= i.durable.Keys
  }

  /** A disk content that a crash in this state can leave. */
  ghost predicate CrashImage<S(!new)>(i: Image<S>, x: map<int, S>) {
    && x.Keys == i.durable.Keys
    && forall s :: s in x ==> x[s] == i.durable[s] || (s in i.cache && x[s] == i.cache[s])
  }

  /** On sector `s`, `after` is `before` with at most the cached value written back. */
  predicate Settles<S(==)>(before: Image<S>, after: Image<S>, s: int) {
    && (s in after.durable <==> s in before.durable)
    && (s in after.cache ==> s in before.cache && after.cache[s] == before.cache[s])
    && (s in before.durable ==>
          after.durable[s] == before.durable[s] || (s in before.cache && after.durable[s] == before.cache[s]))
    && (s in before.durable && s in before.cache && s !in after.cache ==> after.durable[s] == before.cache[s])
  }

  lemma SettlesTransitive<S>(a: Image<S>, b: Image<S>, c: Image<S>, s: int)
    requires Settles(a, b, s) && Settles(b, c, s)
    ensures Settles(a, c, s)
  {
  }

  /** A settled sector can only hold, after a crash, what it could hold before. */
  lemma SettledCrash<S(!new)>(before: Image<S>, after: Image<S>, x: map<int, S>, s: int)
    requires Settles(before, after, s) && CrashImage(after, x) && s in x
    ensures s in before.durable
    ensures x[s] == before.durable[s] || (s in before.cache && x[s] == before.cache[s])
  {
  }

  /** The state after a write of `data`: all of it, part of it or none of it is cached. */
  function AfterWrite<S>(i: Image<S>, outcome: Outcome, lba: int, data: seq<S>): Image<S> {
    var settled := Evicted(i, outcome.evicted);
    if !(Sectors(lba, |data|) <= i.durable.Keys) then settled
    else if outcome.ok then settled.(cache := settled.cache + Run(lba, data))
    else settled.(cache := settled.cache + Part(Run(lba, data), outcome.landed))
  }

  function AfterFlush<S>(i: Image<S>, outcome: Outcome): Image<S> {
    if outcome.ok then Image(View(i), map[]) else Evicted(i, outcome.evicted)
  }

  /** From command `from` on, everything the drive is asked to do works. */
  ghost predicate Working(outcomes: nat -> Outcome, from: nat) {
    forall t: nat :: from <= t ==> outcomes(t).ok
  }

  class Device<S(==)> {
    const outcomes: nat -> Outcome
    var tick: nat
    var durable: map<int, S>
    var cache: map<int, S>
    ghost var history: seq<Image<S>>

    constructor (durable: map<int, S>, outcomes: nat -> Outcome)
      ensures this.durable == durable && cache == map[] && this.outcomes == outcomes
      ensures tick == 0 && history == [Image(durable, map[])]
    {
      this.durable, cache, tick := durable, map[], 0;
      this.outcomes := outcomes;
      history := [Image(durable, map[])];
    }

    function Now(): Image<S>
      reads this
    {
      Image(durable, cache)
    }

    /** Reads `count` sectors; fails if the command fails or a sector is missing. */
    method Read(lba: int, count: nat) returns (r: Option<seq<S>>)
      modifies this`tick
      ensures tick == old(tick) + 1
      ensures r.Some? <==> outcomes(old(tick)).ok && Sectors(lba, count) <= View(Now()).Keys
      ensures r.Some? ==> r.value == Fetch(View(Now()), lba, count)
    {
      var outcome := outcomes(tick);
      tick := tick + 1;
      if outcome.ok && Sectors(lba, count) <= View(Now()).Keys {
        return Some(Fetch(View(Now()), lba, count));
      }
      return None;
    }

    /** Puts sectors into the cache; a failed write may leave some of them there. */
    method Write(lba: int, data: seq<S>) returns (ok: bool)
      modifies this
      ensures tick == old(tick) + 1
      ensures ok ==> Sectors(lba, |data|) <= durable.Keys
      ensures Now() == AfterWrite(old(Now()), outcomes(old(tick)), lba, data)
      ensures ok <==> outcomes(old(tick)).ok && Sectors(lba, |data|) <= old(durable).Keys
      ensures history == old(history) + [Now()]
    {
      var outcome := outcomes(tick);
      tick := tick + 1;
      ok := outcome.ok && Sectors(lba, |data|) <= durable.Keys;
      var after := AfterWrite(Now(), outcome, lba, data);
      durable, cache := after.durable, after.cache;
      history := history + [Now()];
    }

    /** Empties the cache; a failed flush writes back some part of it. */
    method Flush() returns (ok: bool)
      modifies this
      ensures tick == old(tick) + 1
      ensures ok == outcomes(old(tick)).ok
      ensures Now() == AfterFlush(old(Now()), outcomes(old(tick)))
      ensures history == old(history) + [Now()]
    {
      var outcome := outcomes(tick);
      tick := tick + 1;
      ok := outcome.ok;
      var after := AfterFlush(Now(), outcome);
      durable, cache := after.durable, after.cache;
      history := history + [Now()];
    }
  }
}
