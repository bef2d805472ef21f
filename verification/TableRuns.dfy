/** The hash table over whole runs: any sequence of operations on it is the same sequence on a finite map. */
module TableRuns {
  import opened Basics
  import opened Table

  datatype Op<V> = SetOp(key: bytes, serial: nat, value: V) | DelOp(key: bytes) | ClearOp

  function Apply<V>(t: Table<V>, op: Op<V>): Table<V> {
    match op
    case SetOp(key, serial, value) => Set(t, key, serial, value)
    case DelOp(key) => Del(t, key)
    case ClearOp => Clear(t)
  }

  function Run<V>(ops: seq<Op<V>>): Table<V> {
    if ops == [] then New() else Apply(Run(ops[..|ops| - 1]), ops[|ops| - 1])
  }

  /** The same operation on a map; a key that is present keeps its serial. */
  ghost function ApplyToMap<V>(m: map<bytes, Pair<V>>, op: Op<V>): map<bytes, Pair<V>> {
    match op
    case SetOp(key, serial, value) => m[key := Pair(key, if key in m then m[key].serial else serial, value)]
    case DelOp(key) => m - {key}
    case ClearOp => map[]
  }

  ghost function RunOnMap<V>(ops: seq<Op<V>>): map<bytes, Pair<V>> {
    if ops == [] then map[] else ApplyToMap(RunOnMap(ops[..|ops| - 1]), ops[|ops| - 1])
  }

  /** What every operation keeps: a sound table, sized by its prime, with no more pairs than buckets. */
  ghost predicate Fit<V>(t: Table<V>) {
    Valid(t) && Sized(t) && t.order <= LAST_ORDER && |t.pairs| <= t.buckets
  }

  lemma NewIsFit<V>()
    ensures Fit(New<V>()) && Map(New<V>().pairs) == map[]
  {
  }

  lemma ApplyRefines<V>(t: Table<V>, op: Op<V>)
    requires Fit(t) && CanGrow(t)
    ensures Fit(Apply(t, op)) && Map(Apply(t, op).pairs) == ApplyToMap(Map(t.pairs), op)
    ensures |Apply(t, op).pairs| <= |t.pairs| + 1
  {
    hide NumBuckets, Map, Valid, Set, Del, Put, Grow, Regrow;
    match op {
      case SetOp(key, serial, value) =>
        SetKeepsLoad(t, key, serial, value);
        SetIsMapUpdate(t, key, serial, value);
      case DelOp(key) =>
        DelIsMapRemove(t, key);
        DelKeepsSize(t, key);
      case ClearOp =>
        ClearIsEmpty(t);
    }
  }

  lemma DelKeepsSize<V>(t: Table<V>, key: bytes)
    ensures Del(t, key).order == t.order && Del(t, key).buckets == t.buckets
  {
  }

  lemma ClearIsEmpty<V>(t: Table<V>)
    ensures Valid(Clear(t)) && Map(Clear(t).pairs) == map[]
  {
  }

  /** Runs short of the last prime never leave the map, nor load a bucket with more than one pair on average. */
  lemma {:induction false} RunRefinesMap<V>(ops: seq<Op<V>>, key: bytes)
    requires |ops| < NumBuckets(LAST_ORDER)
    ensures Fit(Run(ops)) && |Run(ops).pairs| <= |ops|
    ensures Map(Run(ops).pairs) == RunOnMap(ops)
    ensures Get(Run(ops), key) == if key in RunOnMap(ops) then Some(RunOnMap(ops)[key].value) else None
    decreases |ops|
  {
    hide NumBuckets, Map, Valid, Apply, ApplyToMap, Get;
    if ops == [] {
      NewIsFit<V>();
    } else {
      RunRefinesMap(ops[..|ops| - 1], key);
      ApplyRefines(Run(ops[..|ops| - 1]), ops[|ops| - 1]);
    }
    GetIsLookup(Run(ops), key);
  }
}
