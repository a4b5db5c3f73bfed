/** `MemoryRDFStore` (pyrdfstore/store.py) with the inherited
    `RDFStore.verify_max_age`: one aggregate graph, a partition per named graph,
    and an admin registry from named graph to the time of its last insert.

    The clock is an integer count of microseconds passed in as `now`; the source
    stores `datetime.utcnow().isoformat()` strings in the registry instead. */
module MemoryStore {
  import opened Outcome
  import opened Rdf

  /** Clock ticks in one minute: `total_seconds() <= age_minutes * 60` on a
      microsecond clock. */
  const MicrosPerMinute: int := 60 * 1000000

  datatype StoreError =
    /** Looking up a named graph the registry does not hold. */
    | KeyError(name: string)
    /** Subtracting a registry entry that is text from a `datetime`. */
    | TypeError

  /** `_all`, `_named_graphs` and `_admin_registry`. */
  datatype Store = Store(all: Graph, named: map<string, Graph>, registry: map<string, int>)

  /** What every reachable store satisfies: the registry tracks exactly the named
      partitions, and every partition's statements are also in the aggregate. */
  predicate Valid(st: Store) {
    && st.registry.Keys == st.named.Keys
    && forall n :: n in st.named ==> st.named[n] <= st.all
  }

  /** The partition of `n`, empty when there is none. */
  function Partition(st: Store, n: string): Graph {
    if n in st.named then st.named[n] else {}
  }

  /** `MemoryRDFStore()`: a valid store with an empty aggregate, no partitions
      and an empty registry. */
  function Init(): (st: Store)
    ensures Valid(st)
    ensures st.all == {} && st.named == map[]
    ensures forall n :: n !in st.registry
  {
    Store({}, map[], map[])
  }

  /** `insert(graph, named_graph)` at time `now`. The aggregate always gains the
      statements; with a name, that partition gains them too and its registry
      entry becomes `now`; no other partition or registry entry changes. */
  function Insert(st: Store, g: Graph, ng: Option<string>, now: int): (r: Store)
    ensures r.all == st.all + g
    ensures ng.None? ==> r.named == st.named && r.registry == st.registry
    ensures ng.Some? ==>
              && r.named.Keys == st.named.Keys + {ng.value}
              && r.registry.Keys == st.registry.Keys + {ng.value}
              && r.named[ng.value] == Partition(st, ng.value) + g
              && r.registry[ng.value] == now
    ensures forall n :: n in st.named && ng != Some(n) ==> n in r.named && r.named[n] == st.named[n]
    ensures forall n :: n in st.registry && ng != Some(n) ==> n in r.registry && r.registry[n] == st.registry[n]
  {
    match ng
    case None => st.(all := st.all + g)
    case Some(n) =>
      Store(st.all + g, st.named[n := Partition(st, n) + g], st.registry[n := now])
  }

  /** `drop_graph(named_graph)`: the partition and its registry entry go; the
      aggregate keeps every statement, including the dropped ones. */
  function Drop(st: Store, n: string): (r: Store)
    ensures r.all == st.all
    ensures n !in r.named && n !in r.registry
    ensures forall m :: m != n ==> (m in r.named <==> m in st.named) && (m in r.registry <==> m in st.registry)
    ensures forall m :: m in r.named ==> r.named[m] == st.named[m]
    ensures forall m :: m in r.registry ==> r.registry[m] == st.registry[m]
  {
    Store(st.all, st.named - {n}, st.registry - {n})
  }

  /** `lastmod_for_named_graph(named_graph)`: the registry entry, or the
      `KeyError` of the dictionary lookup. */
  function LastMod(st: Store, n: string): (r: Result<int, StoreError>)
    ensures r.Ok? <==> n in st.registry
    ensures r.Ok? ==> r.value == st.registry[n]
    ensures r.Err? ==> r.error == KeyError(n)
  {
    if n in st.registry then Ok(st.registry[n]) else Err(KeyError(n))
  }

  /** `verify_max_age(named_graph, age_minutes)` at time `now`: whether the last
      update is at most `minutes` old; the lookup error propagates. */
  function VerifyMaxAge(st: Store, n: string, minutes: int, now: int): (r: Result<bool, StoreError>)
    ensures r.Err? <==> n !in st.registry
    ensures r.Ok? ==> (r.value <==> now - st.registry[n] <= minutes * MicrosPerMinute)
  {
    var lastmod :- LastMod(st, n);
    Ok(now - lastmod <= minutes * MicrosPerMinute)
  }

  /** `verify_max_age` as the tests of unknown graphs expect it: `false`
      instead of an error for an untracked graph, the same answer otherwise. */
  function VerifyMaxAgeTolerant(st: Store, n: string, minutes: int, now: int): (r: bool)
    ensures n !in st.registry ==> !r
    ensures n in st.registry ==> VerifyMaxAge(st, n, minutes, now) == Ok(r)
  {
    match VerifyMaxAge(st, n, minutes, now)
    case Ok(young) => young
    case Err(_) => false
  }

  /** `verify_max_age` on `MemoryRDFStore` as written. Its registry holds the
      text of `datetime.utcnow().isoformat()`, not a `datetime`, so for a
      tracked graph the subtraction raises `TypeError`; an untracked graph
      raises `KeyError` first. No call ever answers. */
  function VerifyMaxAgeAsWritten(st: Store, n: string): (r: Result<bool, StoreError>)
    ensures r.Err?
    ensures r.error == KeyError(n) <==> n !in st.registry
    ensures r.error == TypeError <==> n in st.registry
  {
    var _ :- LastMod(st, n);
    Err(TypeError)
  }

  /** Right after an insert into a named graph, the source's age check raises
      where the model with a comparable clock answers `true`. */
  lemma {:induction false} FreshGraphAgeRaises(st: Store, g: Graph, n: string, now: int, minutes: int)
    requires minutes >= 0
    ensures VerifyMaxAgeAsWritten(Insert(st, g, Some(n), now), n) == Err(TypeError)
    ensures VerifyMaxAge(Insert(st, g, Some(n), now), n, minutes, now) == Ok(true)
  {
    InsertedIsFresh(st, g, n, now, minutes);
  }

  /** Both updates keep the store valid. */
  lemma {:induction false} InsertKeepsValid(st: Store, g: Graph, ng: Option<string>, now: int)
    requires Valid(st)
    ensures Valid(Insert(st, g, ng, now))
  {
    var r := Insert(st, g, ng, now);
    forall n | n in r.named ensures r.named[n] <= r.all {
      if ng == Some(n) {
        assert r.named[n] == Partition(st, n) + g;
      } else {
        assert r.named[n] == st.named[n];
      }
    }
  }

  lemma {:induction false} DropKeepsValid(st: Store, n: string)
    requires Valid(st)
    ensures Valid(Drop(st, n))
  {
  }

  /** Right after an insert into a named graph, that graph passes every
      non-negative age check. */
  lemma {:induction false} InsertedIsFresh(st: Store, g: Graph, n: string, now: int, minutes: int)
    requires minutes >= 0
    ensures VerifyMaxAge(Insert(st, g, Some(n), now), n, minutes, now) == Ok(true)
  {
    assert Insert(st, g, Some(n), now).registry[n] == now;
  }

  /** An insert into a named graph at `t` is `later - t` old at `later`. */
  lemma {:induction false} InsertedAge(st: Store, g: Graph, n: string, t: int, later: int, minutes: int)
    ensures VerifyMaxAge(Insert(st, g, Some(n), t), n, minutes, later) == Ok(later - t <= minutes * MicrosPerMinute)
  {
  }

  /** A larger allowance never turns a passing check into a failing one, nor
      does asking earlier. */
  lemma {:induction false} AgeMonotone(st: Store, n: string, m1: int, m2: int, now1: int, now2: int)
    requires m1 <= m2 && now2 <= now1
    requires VerifyMaxAge(st, n, m1, now1) == Ok(true)
    ensures VerifyMaxAge(st, n, m2, now2) == Ok(true)
  {
    assert m1 * MicrosPerMinute <= m2 * MicrosPerMinute;
  }

  /** Inserting into the default graph leaves every age check as it was. */
  lemma {:induction false} DefaultInsertKeepsAges(st: Store, g: Graph, n: string, minutes: int, t: int, now: int)
    ensures VerifyMaxAge(Insert(st, g, None, t), n, minutes, now) == VerifyMaxAge(st, n, minutes, now)
  {
  }

  /** After a drop the graph is untracked, so its age check raises rather than
      leaving the trace the tests of unknown drops expect. */
  lemma {:induction false} DropForgetsAge(st: Store, n: string, minutes: int, now: int)
    ensures VerifyMaxAge(Drop(st, n), n, minutes, now) == Err(KeyError(n))
  {
  }

  /** On a new store, the age check of any graph raises `KeyError`, where the
      tests of unknown graphs expect `false`. */
  lemma {:induction false} UnknownGraphAgeRaises(n: string, minutes: int, now: int)
    ensures VerifyMaxAge(Init(), n, minutes, now) == Err(KeyError(n))
    ensures !VerifyMaxAgeTolerant(Init(), n, minutes, now)
  {
  }

  /** Dropping a graph the store does not know changes nothing. */
  lemma {:induction false} DropUnknown(st: Store, n: string)
    requires Valid(st) && n !in st.named
    ensures Drop(st, n) == st
  {
    assert st.named - {n} == st.named;
    assert st.registry - {n} == st.registry;
  }

  lemma {:induction false} DropIdempotent(st: Store, n: string)
    ensures Drop(Drop(st, n), n) == Drop(st, n)
  {
    assert (st.named - {n}) - {n} == st.named - {n};
    assert (st.registry - {n}) - {n} == st.registry - {n};
  }

  /** Inserting into a fresh named graph and dropping it restores the partitions
      and the registry, but the aggregate keeps the inserted statements. */
  lemma {:induction false} DropUndoesInsertExceptAggregate(st: Store, g: Graph, n: string, now: int)
    requires n !in st.named && n !in st.registry
    ensures Drop(Insert(st, g, Some(n), now), n) == Store(st.all + g, st.named, st.registry)
  {
    var r := Drop(Insert(st, g, Some(n), now), n);
    assert r.named == st.named;
    assert r.registry == st.registry;
  }

  /** Dropping one named graph leaves every other partition and the aggregate
      as they were. */
  lemma {:induction false} DropSparesOthers(st: Store, n: string, m: string)
    requires m != n
    ensures Partition(Drop(st, n), m) == Partition(st, m)
    ensures Drop(st, n).all == st.all
  {
  }
}
