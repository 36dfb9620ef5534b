/**
 * `memoize.rs`: a decorator that caches its child's output by position.
 * The cache is a `BTreeMap` keyed by the first D position components, kept
 * here as a sequence of entries in ascending key order (the map's iteration
 * order).  A lookup takes the first stored key, in that order, whose
 * Euclidean distance to the requested key is below the threshold; when
 * time invalidation is enabled a change of time clears the whole cache.
 */
module Memoize {
  import opened Wrappers
  import opened Reals
  import opened Vertices
  import opened VertexOps

  /** `[OrderedFloat<f64>; D]`. */
  type Key = seq<real>

  datatype Entry<T> = Entry(key: Key, value: T)

  // ---------------------------------------------------------------------
  // Key order: the lexicographic order of arrays of `OrderedFloat`

  predicate KeyLess(a: Key, b: Key)
  {
    if a == [] then b != []
    else if b == [] then false
    else a[0] < b[0] || (a[0] == b[0] && KeyLess(a[1..], b[1..]))
  }

  lemma {:induction false} KeyLessIrreflexive(a: Key)
    ensures !KeyLess(a, a)
  {
    if a != [] {
      KeyLessIrreflexive(a[1..]);
    }
  }

  lemma {:induction false} KeyLessTransitive(a: Key, b: Key, c: Key)
    requires KeyLess(a, b) && KeyLess(b, c)
    ensures KeyLess(a, c)
  {
    if a != [] && b != [] && c != [] && a[0] == b[0] == c[0] {
      KeyLessTransitive(a[1..], b[1..], c[1..]);
    }
  }

  lemma {:induction false} KeyLessTotal(a: Key, b: Key)
    ensures a == b || KeyLess(a, b) || KeyLess(b, a)
  {
    if a != [] && b != [] && a[0] == b[0] {
      KeyLessTotal(a[1..], b[1..]);
      if a[1..] == b[1..] {
        assert a == [a[0]] + a[1..] && b == [b[0]] + b[1..];
      }
    }
  }

  /** Strictly ascending keys: the shape of a `BTreeMap`'s entries. */
  ghost predicate Sorted<T>(es: seq<Entry<T>>)
  {
    forall i, j :: 0 <= i < j < |es| ==> KeyLess(es[i].key, es[j].key)
  }

  function KeySet<T>(es: seq<Entry<T>>): set<Key>
  {
    set i | 0 <= i < |es| :: es[i].key
  }

  /** The map a sequence of entries stands for. */
  function AsMap<T>(es: seq<Entry<T>>): map<Key, T>
  {
    if es == [] then map[] else AsMap(es[1..])[es[0].key := es[0].value]
  }

  // ---------------------------------------------------------------------
  // `BTreeMap::insert`

  /** The keys of a sequence with one entry in front. */
  lemma KeySetCons<T>(e: Entry<T>, es: seq<Entry<T>>)
    ensures KeySet([e] + es) == {e.key} + KeySet(es)
  {
    var r := [e] + es;
    assert r[0].key == e.key;
    forall x | x in KeySet(r) ensures x in {e.key} + KeySet(es) {
      var i :| 0 <= i < |r| && r[i].key == x;
      if i > 0 { assert es[i - 1].key == x; }
    }
    forall x | x in KeySet(es) ensures x in KeySet(r) {
      var i :| 0 <= i < |es| && es[i].key == x;
      assert r[i + 1].key == x;
    }
  }

  /** The keys of a non-empty sequence: its first key and the keys of the rest. */
  lemma KeySetSplit<T>(es: seq<Entry<T>>)
    requires es != []
    ensures KeySet(es) == {es[0].key} + KeySet(es[1..])
  {
    KeySetCons(es[0], es[1..]);
    assert es == [es[0]] + es[1..];
  }

  /** Insert or overwrite the entry for `k`, keeping ascending order. */
  function Insert<T>(es: seq<Entry<T>>, k: Key, v: T): (r: seq<Entry<T>>)
    ensures KeySet(r) == KeySet(es) + {k}
    ensures |es| <= |r| <= |es| + 1
  {
    if es == [] then
      assert KeySet([Entry(k, v)]) == {k} by { KeySetCons(Entry(k, v), []); }
      [Entry(k, v)]
    else if es[0].key == k then
      KeySetSplit(es);
      KeySetCons(Entry(k, v), es[1..]);
      [Entry(k, v)] + es[1..]
    else if KeyLess(k, es[0].key) then
      KeySetCons(Entry(k, v), es);
      [Entry(k, v)] + es
    else
      var rest := Insert(es[1..], k, v);
      KeySetSplit(es);
      KeySetCons(es[0], rest);
      [es[0]] + rest
  }

  /** After the insert the map sends `k` to `v` and every other key where it was. */
  lemma {:induction false} InsertMap<T>(es: seq<Entry<T>>, k: Key, v: T)
    ensures AsMap(Insert(es, k, v)) == AsMap(es)[k := v]
  {
    if es != [] && es[0].key != k && !KeyLess(k, es[0].key) {
      InsertMap(es[1..], k, v);
    }
  }

  /** The first entry's key lies below every later key of a sorted sequence. */
  lemma SortedHead<T>(es: seq<Entry<T>>)
    requires Sorted(es) && es != []
    ensures forall x :: x in KeySet(es[1..]) ==> KeyLess(es[0].key, x)
  {
    forall x | x in KeySet(es[1..]) ensures KeyLess(es[0].key, x) {
      var i :| 0 <= i < |es[1..]| && es[1..][i].key == x;
      assert es[i + 1].key == x;
    }
  }

  /** Dropping the first entry keeps a sequence sorted. */
  lemma SortedTail<T>(es: seq<Entry<T>>)
    requires Sorted(es) && es != []
    ensures Sorted(es[1..])
  {
    forall i, j | 0 <= i < j < |es[1..]| ensures KeyLess(es[1..][i].key, es[1..][j].key) {
      assert es[1..][i] == es[i + 1] && es[1..][j] == es[j + 1];
    }
  }

  /** An entry whose key lies below every key of a sorted sequence can be put in front of it. */
  lemma SortedCons<T>(e: Entry<T>, rest: seq<Entry<T>>)
    requires Sorted(rest)
    requires forall x :: x in KeySet(rest) ==> KeyLess(e.key, x)
    ensures Sorted([e] + rest)
  {
    var r := [e] + rest;
    forall i, j | 0 <= i < j < |r| ensures KeyLess(r[i].key, r[j].key) {
      assert r[j] == rest[j - 1];
      if i == 0 {
        assert rest[j - 1].key in KeySet(rest);
      } else {
        assert r[i] == rest[i - 1];
      }
    }
  }

  /** Insert keeps the entries in strictly ascending key order. */
  lemma {:induction false} InsertSorted<T>(es: seq<Entry<T>>, k: Key, v: T)
    requires Sorted(es)
    ensures Sorted(Insert(es, k, v))
  {
    if es == [] {
    } else if es[0].key == k {
      SortedTail(es);
      SortedHead(es);
      SortedCons(Entry(k, v), es[1..]);
    } else if KeyLess(k, es[0].key) {
      SortedHead(es);
      KeySetSplit(es);
      forall x | x in KeySet(es) ensures KeyLess(k, x) {
        if x != es[0].key { KeyLessTransitive(k, es[0].key, x); }
      }
      SortedCons(Entry(k, v), es);
    } else {
      KeyLessTotal(k, es[0].key);
      SortedTail(es);
      SortedHead(es);
      InsertSorted(es[1..], k, v);
      SortedCons(es[0], Insert(es[1..], k, v));
    }
  }

  /** In a sorted sequence a key occurs at most once. */
  lemma SortedKeysDistinct<T>(es: seq<Entry<T>>, i: nat, j: nat)
    requires Sorted(es) && i < |es| && j < |es| && i != j
    ensures es[i].key != es[j].key
  {
    if i < j {
      if es[i].key == es[j].key { KeyLessIrreflexive(es[i].key); }
    } else {
      if es[i].key == es[j].key { KeyLessIrreflexive(es[i].key); }
    }
  }

  /** On a sorted cache an insert adds an entry exactly when the key was not stored yet. */
  lemma {:induction false} InsertSize<T>(es: seq<Entry<T>>, k: Key, v: T)
    requires Sorted(es)
    ensures |Insert(es, k, v)| == if k in KeySet(es) then |es| else |es| + 1
  {
    if es == [] {
    } else if es[0].key == k {
    } else if KeyLess(k, es[0].key) {
      SortedHead(es);
      if k in KeySet(es[1..]) {
        KeyLessTransitive(k, es[0].key, k);
        KeyLessIrreflexive(k);
      }
      KeySetSplit(es);
    } else {
      InsertSize(es[1..], k, v);
      KeySetSplit(es);
    }
  }

  // ---------------------------------------------------------------------
  // `get`: the distance test and the first qualifying key

  /** `Σ (a_i - b_i)²` over the zipped components. */
  function SqDist(a: Key, b: Key): (d: real)
    ensures d >= 0.0
  {
    if a == [] || b == [] then 0.0
    else (a[0] - b[0]) * (a[0] - b[0]) + SqDist(a[1..], b[1..])
  }

  /** `threshold.unwrap_or(0.0)`. */
  function ThresholdOrZero(threshold: Option<real>): real
  {
    if threshold.Some? then threshold.value else 0.0
  }

  /**
   * `sqrt(Σ (a_i - b_i)²) < threshold.unwrap_or(0.0)`, written without the
   * square root (see `SqrtBelow`).
   */
  predicate Within(a: Key, b: Key, threshold: Option<real>)
  {
    var t := ThresholdOrZero(threshold);
    t > 0.0 && SqDist(a, b) < t * t
  }

  /** For the square root `r` of `d`, `r < t` exactly when `t > 0` and `d < t * t`. */
  lemma SqrtBelow(r: real, d: real, t: real)
    requires r >= 0.0 && r * r == d
    ensures r < t <==> t > 0.0 && d < t * t
  {
    if r < t {
      MulPos(t - r, t + r);
      assert (t - r) * (t + r) == t * t - r * r;
    } else if t > 0.0 {
      MulNonneg(r - t, r + t);
      assert (r - t) * (r + t) == r * r - t * t;
    }
  }

  /** `get`: the value at the first key, in ascending order, that lies within the threshold. */
  function FirstWithin<T>(es: seq<Entry<T>>, key: Key, threshold: Option<real>): Option<T>
  {
    if es == [] then None
    else if Within(es[0].key, key, threshold) then Some(es[0].value)
    else FirstWithin(es[1..], key, threshold)
  }

  /** The lookup misses exactly when no stored key is within the threshold. */
  lemma {:induction false} FirstWithinNone<T>(es: seq<Entry<T>>, key: Key, threshold: Option<real>)
    ensures FirstWithin(es, key, threshold).None? <==> forall i :: 0 <= i < |es| ==> !Within(es[i].key, key, threshold)
  {
    if es != [] {
      FirstWithinNone(es[1..], key, threshold);
      assert forall i :: 1 <= i < |es| ==> es[i] == es[1..][i - 1];
    }
  }

  /** A hit returns the value of the first stored key, in ascending order, that is within the threshold. */
  lemma {:induction false} FirstWithinSome<T>(es: seq<Entry<T>>, key: Key, threshold: Option<real>) returns (i: nat)
    requires FirstWithin(es, key, threshold).Some?
    ensures i < |es| && Within(es[i].key, key, threshold)
    ensures FirstWithin(es, key, threshold).value == es[i].value
    ensures forall j :: 0 <= j < i ==> !Within(es[j].key, key, threshold)
  {
    if Within(es[0].key, key, threshold) {
      i := 0;
    } else {
      var k := FirstWithinSome(es[1..], key, threshold);
      i := k + 1;
      assert forall j :: 1 <= j < i ==> es[j] == es[1..][j - 1];
    }
  }

  /** With no threshold (read as 0.0), or any threshold at or below 0, nothing is ever a hit. */
  lemma NoThresholdNoHit<T>(es: seq<Entry<T>>, key: Key, threshold: Option<real>)
    requires threshold.None? || threshold.value <= 0.0
    ensures FirstWithin(es, key, threshold) == None
  {
    FirstWithinNone(es, key, threshold);
  }

  /** With a positive threshold, a stored key equal to the requested one guarantees a hit (possibly at an earlier key). */
  lemma StoredKeyHits<T>(es: seq<Entry<T>>, key: Key, threshold: Option<real>)
    requires threshold.Some? && threshold.value > 0.0
    requires key in KeySet(es)
    ensures FirstWithin(es, key, threshold).Some?
  {
    var i :| 0 <= i < |es| && es[i].key == key;
    SqDistSelf(key);
    var t := threshold.value;
    MulPos(t, t);
    calc {
      SqDist(es[i].key, key);
    ==
      0.0;
    <
      t * t;
    }
    assert Within(es[i].key, key, threshold);
    FirstWithinNone(es, key, threshold);
  }

  lemma {:induction false} SqDistSelf(a: Key)
    ensures SqDist(a, a) == 0.0
  {
    if a != [] {
      SqDistSelf(a[1..]);
    }
  }

  // ---------------------------------------------------------------------
  // `get_or_shade` as a state transition

  /** The cache state: the entries and `cached_time`. */
  datatype Memo<T> = Memo(entries: seq<Entry<T>>, cachedTime: real)

  /** The outcome of one call: the value returned, the new state, and whether the child was evaluated. */
  datatype Outcome<T> = Outcome(value: T, state: Memo<T>, evaluated: bool)

  /** Whether a call at time `t` clears the cache first. */
  predicate Invalidates<T>(timeInvalidates: bool, m: Memo<T>, t: real)
  {
    timeInvalidates && m.cachedTime != t
  }

  /** `get_or_shade(frag, key)` on cache state `m`. */
  function Step<T>(shade: Frag -> T, threshold: Option<real>, timeInvalidates: bool,
                   m: Memo<T>, v: Frag, key: Key): Outcome<T>
  {
    if Invalidates(timeInvalidates, m, v.time) then
      Outcome(shade(v), Memo(Insert([], key, shade(v)), v.time), true)
    else
      match FirstWithin(m.entries, key, threshold)
      case Some(c) => Outcome(c, m, false)
      case None => Outcome(shade(v), Memo(Insert(m.entries, key, shade(v)), m.cachedTime), true)
  }

  /**
   * A fresh cache (empty, `cached_time` 0.0): the first call evaluates the
   * child and stores exactly its result; it invalidates only when time
   * invalidation is on and the time is not 0.0.
   */
  lemma FirstCall<T>(shade: Frag -> T, threshold: Option<real>, timeInvalidates: bool, v: Frag, key: Key)
    ensures Invalidates<T>(timeInvalidates, Memo([], 0.0), v.time) <==> timeInvalidates && v.time != 0.0
    ensures var o := Step(shade, threshold, timeInvalidates, Memo([], 0.0), v, key);
      o.evaluated && o.value == shade(v) && o.state.entries == [Entry(key, shade(v))] &&
      o.state.cachedTime == if timeInvalidates then v.time else 0.0
  {
  }

  /** A time change with invalidation enabled: the child is evaluated and the cache ends holding just that result, at the new time. */
  lemma StepInvalidating<T>(shade: Frag -> T, threshold: Option<real>, m: Memo<T>, v: Frag, key: Key)
    requires m.cachedTime != v.time
    ensures var o := Step(shade, threshold, true, m, v, key);
      o.evaluated && o.value == shade(v) && o.state == Memo([Entry(key, shade(v))], v.time)
  {
  }

  /** A hit returns a stored value at a key within the threshold, skips the child and leaves the cache as it was. */
  lemma StepHit<T>(shade: Frag -> T, threshold: Option<real>, timeInvalidates: bool, m: Memo<T>, v: Frag, key: Key)
    requires !Invalidates(timeInvalidates, m, v.time)
    requires FirstWithin(m.entries, key, threshold).Some?
    ensures var o := Step(shade, threshold, timeInvalidates, m, v, key);
      !o.evaluated && o.state == m &&
      exists i :: 0 <= i < |m.entries| && Within(m.entries[i].key, key, threshold) && o.value == m.entries[i].value
  {
    var i := FirstWithinSome(m.entries, key, threshold);
  }

  /** A miss evaluates the child, returns its value and stores it at the key, overwriting an equal key. */
  lemma StepMiss<T>(shade: Frag -> T, threshold: Option<real>, timeInvalidates: bool, m: Memo<T>, v: Frag, key: Key)
    requires !Invalidates(timeInvalidates, m, v.time)
    requires FirstWithin(m.entries, key, threshold).None?
    ensures var o := Step(shade, threshold, timeInvalidates, m, v, key);
      o.evaluated && o.value == shade(v) && o.state.cachedTime == m.cachedTime &&
      AsMap(o.state.entries) == AsMap(m.entries)[key := shade(v)]
  {
    InsertMap(m.entries, key, shade(v));
  }

  /** Every call keeps the entries sorted and adds at most one. */
  lemma StepKeepsSorted<T>(shade: Frag -> T, threshold: Option<real>, timeInvalidates: bool, m: Memo<T>, v: Frag, key: Key)
    requires Sorted(m.entries)
    ensures var o := Step(shade, threshold, timeInvalidates, m, v, key);
      Sorted(o.state.entries) && |o.state.entries| <= |m.entries| + 1
  {
    InsertSorted(m.entries, key, shade(v));
  }

  /** Without a positive threshold every call evaluates the child. */
  lemma NoThresholdAlwaysEvaluates<T>(shade: Frag -> T, threshold: Option<real>, timeInvalidates: bool, m: Memo<T>, v: Frag, key: Key)
    requires threshold.None? || threshold.value <= 0.0
    ensures Step(shade, threshold, timeInvalidates, m, v, key).evaluated
    ensures Step(shade, threshold, timeInvalidates, m, v, key).value == shade(v)
  {
    NoThresholdNoHit(m.entries, key, threshold);
  }

  /**
   * With a positive threshold and no time change, a second call at a key
   * already shaded is answered from the cache without evaluating the child.
   */
  lemma RepeatedKeyHits<T>(shade: Frag -> T, threshold: Option<real>, timeInvalidates: bool, m: Memo<T>, v: Frag, w: Frag, key: Key)
    requires threshold.Some? && threshold.value > 0.0 && w.time == v.time
    ensures var o := Step(shade, threshold, timeInvalidates, m, v, key);
      !Step(shade, threshold, timeInvalidates, o.state, w, key).evaluated
  {
    var o := Step(shade, threshold, timeInvalidates, m, v, key);
    assert o.state.cachedTime == v.time || !timeInvalidates || o.state == m;
    if o.evaluated {
      assert key in KeySet(o.state.entries);
      StoredKeyHits(o.state.entries, key, threshold);
    }
  }

  /** With invalidation enabled, a call at a different time than the previous call always evaluates the child. */
  lemma NewTimeEvaluates<T>(shade: Frag -> T, threshold: Option<real>, m: Memo<T>, v: Frag, w: Frag, key: Key, key2: Key)
    requires w.time != v.time
    ensures var o := Step(shade, threshold, true, m, v, key);
      Step(shade, threshold, true, o.state, w, key2).evaluated
  {
  }

  /** The key is the first D position components; time plays no part in it. */
  function KeyOf(v: Frag, dim: nat): (k: Key)
    requires dim <= |v.pos|
    ensures |k| == dim && forall i :: 0 <= i < dim ==> k[i] == v.pos[i]
  {
    v.pos[..dim]
  }

  /** Two vertices that differ only in time share their key. */
  lemma KeyIgnoresTime(v: Frag, dim: nat, t: real)
    requires dim <= |v.pos|
    ensures KeyOf(WithTime(v, t), dim) == KeyOf(v, dim)
  {
  }

  // ---------------------------------------------------------------------
  // The decorator object

  class Memoize<T> {
    const shade: Frag -> T
    const threshold: Option<real>
    const timeInvalidates: bool
    /** D: 1 for `FragOne`, 2 for `FragTwo` (the only `VertexDim` implementors). */
    const dim: nat
    var entries: seq<Entry<T>>
    var cachedTime: real
    /** The vertices the child has been evaluated at, in order. */
    ghost var calls: seq<Frag>

    ghost predicate Valid()
      reads this
    {
      Sorted(entries) && (dim == 1 || dim == 2)
    }

    function State(): Memo<T>
      reads this
    {
      Memo(entries, cachedTime)
    }

    /** `memoize(shader, distance_threshold, time_invalidates)`: an empty cache and `cached_time` the bits of 0.0. */
    constructor (shade: Frag -> T, threshold: Option<real>, timeInvalidates: bool, dim: nat)
      requires dim == 1 || dim == 2
      ensures Valid()
      ensures this.shade == shade && this.threshold == threshold
      ensures this.timeInvalidates == timeInvalidates && this.dim == dim
      ensures entries == [] && cachedTime == 0.0 && calls == []
    {
      this.shade := shade;
      this.threshold := threshold;
      this.timeInvalidates := timeInvalidates;
      this.dim := dim;
      entries := [];
      cachedTime := 0.0;
      calls := [];
    }

    /** `invalidate`: clear the cache. */
    method Invalidate()
      modifies this
      ensures entries == [] && cachedTime == old(cachedTime) && calls == old(calls)
    {
      entries := [];
    }

    /** `get`: scan the keys in ascending order for the first one within the threshold. */
    method Get(key: Key) returns (r: Option<T>)
      ensures r == FirstWithin(entries, key, threshold)
    {
      var i := 0;
      while i < |entries|
        invariant 0 <= i <= |entries|
        invariant FirstWithin(entries[i..], key, threshold) == FirstWithin(entries, key, threshold)
      {
        assert entries[i..][1..] == entries[i + 1..];
        if Within(entries[i].key, key, threshold) {
          return Some(entries[i].value);
        }
        i := i + 1;
      }
      r := None;
    }

    /** `get_or_shade(frag, key)`. */
    method GetOrShade(v: Frag, key: Key) returns (c: T)
      requires Valid()
      modifies this
      ensures Valid()
      ensures var o := Step(shade, threshold, timeInvalidates, old(State()), v, key);
        c == o.value && State() == o.state && calls == old(calls) + (if o.evaluated then [v] else [])
    {
      ghost var m := State();
      if timeInvalidates && cachedTime != v.time {
        Invalidate();
        cachedTime := v.time;
      } else {
        var hit := Get(key);
        if hit.Some? {
          return hit.value;
        }
      }
      c := shade(v);
      calls := calls + [v];
      InsertSorted(entries, key, c);
      entries := Insert(entries, key, c);
    }

    /** `Shader::shade`: copy the first D position components into a key array, then `get_or_shade`. */
    method Shade(v: Frag) returns (c: T)
      requires Valid() && |v.pos| == dim
      modifies this
      ensures Valid()
      ensures var o := Step(shade, threshold, timeInvalidates, old(State()), v, KeyOf(v, dim));
        c == o.value && State() == o.state && calls == old(calls) + (if o.evaluated then [v] else [])
    {
      var key := new real[dim](_ => 0.0);
      for i := 0 to dim
        modifies key
        invariant forall j :: 0 <= j < i ==> key[j] == v.pos[j]
      {
        key[i] := v.pos[i];
      }
      assert key[..] == KeyOf(v, dim);
      c := GetOrShade(v, key[..]);
    }
  }
}
