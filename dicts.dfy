/** A Python `dict` with string keys, as the association list of its
    entries. For a dict the code is given, the list's order stands for the
    order `for k in d` visits it. A dict the code builds is visited by
    Python 2 in the order of its hash table, which the list does not record:
    only its keys (`KeySet`) and lookups (`Get`) are meaningful, and a loop
    over it takes its visiting order as a parameter (module Baseline). */
module Dicts {
  import opened Wrappers

  type Dict<V> = seq<(string, V)>

  predicate DistinctKeys<V>(d: Dict<V>) {
    forall i, j :: 0 <= i < j < |d| ==> d[i].0 != d[j].0
  }

  function KeySet<V>(d: Dict<V>): set<string> {
    set i | 0 <= i < |d| :: d[i].0
  }

  lemma KeySetCons<V>(e: (string, V), rest: Dict<V>)
    ensures KeySet([e] + rest) == {e.0} + KeySet(rest)
  {
    var r := [e] + rest;
    forall x | x in KeySet(r)
      ensures x in {e.0} + KeySet(rest)
    {
      var i :| 0 <= i < |r| && r[i].0 == x;
      if i > 0 { assert rest[i - 1].0 == x; }
    }
    forall x | x in {e.0} + KeySet(rest)
      ensures x in KeySet(r)
    {
      if x == e.0 { assert r[0].0 == x; }
      else {
        var i :| 0 <= i < |rest| && rest[i].0 == x;
        assert r[i + 1].0 == x;
      }
    }
  }

  lemma KeySetSnoc<V>(init: Dict<V>, e: (string, V))
    ensures KeySet(init + [e]) == KeySet(init) + {e.0}
  {
    var r := init + [e];
    forall x | x in KeySet(r)
      ensures x in KeySet(init) + {e.0}
    {
      var i :| 0 <= i < |r| && r[i].0 == x;
      if i < |init| { assert init[i].0 == x; }
    }
    forall x | x in KeySet(init) + {e.0}
      ensures x in KeySet(r)
    {
      if x == e.0 { assert r[|init|].0 == x; }
      else {
        var i :| 0 <= i < |init| && init[i].0 == x;
        assert r[i].0 == x;
      }
    }
  }

  /** `d.get(k)`. */
  function Get<V>(d: Dict<V>, k: string): (r: Option<V>)
    ensures r.Some? <==> k in KeySet(d)
  {
    if |d| == 0 then None
    else if d[0].0 == k then Some(d[0].1)
    else
      KeySetCons(d[0], d[1..]);
      assert [d[0]] + d[1..] == d;
      Get(d[1..], k)
  }

  /** What assigning `v` to `k` in `d` must give. */
  ghost predicate PutSpec<V>(d: Dict<V>, k: string, v: V, r: Dict<V>) {
    && Get(r, k) == Some(v)
    && (forall k' :: k' != k ==> Get(r, k') == Get(d, k'))
    && KeySet(r) == KeySet(d) + {k}
    && (DistinctKeys(d) ==> DistinctKeys(r))
    && (k !in KeySet(d) ==> r == d + [(k, v)])
  }

  /** `d[k] = v`. In the list, an existing key keeps its position and a new
      one goes last. */
  function Put<V>(d: Dict<V>, k: string, v: V): (r: Dict<V>)
    ensures Get(r, k) == Some(v)
    ensures forall k' :: k' != k ==> Get(r, k') == Get(d, k')
  {
    if |d| == 0 then [(k, v)]
    else if d[0].0 == k then
      var r := [(k, v)] + d[1..];
      assert r[1..] == d[1..];
      r
    else
      var tail := Put(d[1..], k, v);
      var r := [d[0]] + tail;
      assert r[1..] == tail;
      r
  }

  /** The rest of what assigning promises: the keys gain `k` and distinct
      keys stay distinct; in the list, a new key is appended at the end. */
  lemma {:induction false} PutSpecHolds<V>(d: Dict<V>, k: string, v: V)
    ensures PutSpec(d, k, v, Put(d, k, v))
  {
    if |d| == 0 {
      PutEmpty(k, v);
    } else if d[0].0 == k {
      PutHere(d, k, v);
    } else {
      PutSpecHolds(d[1..], k, v);
      PutFurther(d, k, v, Put(d[1..], k, v));
    }
  }

  lemma PutEmpty<V>(k: string, v: V)
    ensures PutSpec([], k, v, [(k, v)])
  {
    KeySetCons((k, v), []);
  }

  lemma PutHere<V>(d: Dict<V>, k: string, v: V)
    requires |d| > 0 && d[0].0 == k
    ensures PutSpec(d, k, v, [(k, v)] + d[1..])
  {
    var r := [(k, v)] + d[1..];
    KeySetCons(d[0], d[1..]);
    assert [d[0]] + d[1..] == d;
    KeySetCons((k, v), d[1..]);
    assert r[1..] == d[1..];
    assert DistinctKeys(d) ==> DistinctKeys(r) by {
      assert forall i :: 0 <= i < |d| ==> r[i].0 == d[i].0;
    }
  }

  lemma PutFurther<V>(d: Dict<V>, k: string, v: V, tail: Dict<V>)
    requires |d| > 0 && d[0].0 != k
    requires PutSpec(d[1..], k, v, tail)
    ensures PutSpec(d, k, v, [d[0]] + tail)
  {
    var r := [d[0]] + tail;
    KeySetCons(d[0], d[1..]);
    assert [d[0]] + d[1..] == d;
    KeySetCons(d[0], tail);
    assert r[1..] == tail;
    assert DistinctKeys(d) ==> DistinctKeys(r) by {
      if DistinctKeys(d) {
        assert d[0].0 !in KeySet(d[1..]);
        assert DistinctKeys(d[1..]);
      }
    }
    if k !in KeySet(d) {
      assert k !in KeySet(d[1..]);
      assert r == d + [(k, v)];
    }
  }

  /** Assigning a key twice leaves the entry as if only the second
      assignment had happened. */
  lemma {:induction false} PutPut<V>(d: Dict<V>, k: string, x: V, y: V)
    ensures Put(Put(d, k, x), k, y) == Put(d, k, y)
  {
    if |d| > 0 && d[0].0 != k {
      PutPut(d[1..], k, x, y);
      var once := Put(d, k, x);
      assert once[0] == d[0] && once[1..] == Put(d[1..], k, x);
    }
  }

  /** The entries assigned one after the other, `for k, v in es: d[k] = v`. */
  function PutAll<V>(d: Dict<V>, es: seq<(string, V)>): Dict<V>
  {
    if |es| == 0 then d else Put(PutAll(d, es[..|es| - 1]), es[|es| - 1].0, es[|es| - 1].1)
  }

  lemma PutAllSnoc<V>(d: Dict<V>, es: seq<(string, V)>, e: (string, V))
    ensures PutAll(d, es + [e]) == Put(PutAll(d, es), e.0, e.1)
  {
    assert (es + [e])[..|es|] == es;
  }

  /** Assigning one more entry of a list of assignments. */
  lemma PutAllPrefix<V>(d: Dict<V>, es: seq<(string, V)>, i: nat)
    requires i < |es|
    ensures PutAll(d, es[..i + 1]) == Put(PutAll(d, es[..i]), es[i].0, es[i].1)
  {
    assert es[..i + 1][..i] == es[..i];
  }

  /** Distinctness depends on the keys alone. */
  lemma SameKeysDistinct<V, W>(a: Dict<V>, b: Dict<W>)
    requires |a| == |b| && forall i :: 0 <= i < |a| ==> a[i].0 == b[i].0
    requires DistinctKeys(a)
    ensures DistinctKeys(b)
  {
  }

  /** Assignments to distinct keys, on an empty dict, leave exactly those
      entries. */
  lemma NoOverwrite<V, W>(a: Dict<V>, es: Dict<W>)
    requires |a| == |es| && forall i :: 0 <= i < |a| ==> a[i].0 == es[i].0
    requires DistinctKeys(a)
    ensures PutAll([], es) == es
  {
    assert [] + es == es;
    SameKeysDistinct(a, es);
    PutAllFresh([], es);
  }

  /** In a dict with distinct keys, each entry is what its key yields. */
  lemma {:induction false} GetMember<V>(d: Dict<V>, k: string, v: V)
    requires DistinctKeys(d) && (k, v) in d
    ensures Get(d, k) == Some(v)
  {
    if d[0] != (k, v) {
      var p :| 0 <= p < |d| && d[p] == (k, v);
      assert p > 0 && d[0].0 != k;
      assert d[1..][p - 1] == (k, v);
      assert DistinctKeys(d[1..]) by {
        assert forall i :: 0 <= i < |d| - 1 ==> d[1..][i] == d[i + 1];
      }
      GetMember(d[1..], k, v);
    }
  }

  /** The keys of a longer prefix; with distinct keys, the new one is fresh. */
  lemma PrefixKeys<V>(d: Dict<V>, n: nat)
    requires n < |d|
    ensures KeySet(d[..n + 1]) == KeySet(d[..n]) + {d[n].0}
    ensures DistinctKeys(d) ==> d[n].0 !in KeySet(d[..n])
  {
    assert d[..n] + [d[n]] == d[..n + 1];
    KeySetSnoc(d[..n], d[n]);
    if DistinctKeys(d) {
      assert forall i :: 0 <= i < n ==> d[..n][i] == d[i];
    }
  }

  /** The value of the last entry of `es` with key `k`. */
  function LastWith<V>(es: seq<(string, V)>, k: string): Option<V>
  {
    if |es| == 0 then None
    else if es[|es| - 1].0 == k then Some(es[|es| - 1].1)
    else LastWith(es[..|es| - 1], k)
  }

  /** `LastWith` finds the entry with key `k` that no later entry
      overrides, and nothing exactly when no entry has key `k`. */
  lemma {:induction false} LastWithSpec<V>(es: seq<(string, V)>, k: string)
    ensures LastWith(es, k).None? <==> forall t :: 0 <= t < |es| ==> es[t].0 != k
    ensures forall t :: 0 <= t < |es| && es[t].0 == k && (forall u :: t < u < |es| ==> es[u].0 != k) ==>
      LastWith(es, k) == Some(es[t].1)
  {
    if |es| > 0 {
      var init := es[..|es| - 1];
      LastWithSpec(init, k);
      assert forall t :: 0 <= t < |init| ==> init[t] == es[t];
    }
  }

  /** After a run of assignments, a key holds the value last assigned to it,
      or its earlier value when none was. */
  lemma {:induction false} PutAllGet<V>(d: Dict<V>, es: seq<(string, V)>, k: string)
    ensures Get(PutAll(d, es), k) == if LastWith(es, k).Some? then LastWith(es, k) else Get(d, k)
  {
    if |es| > 0 {
      PutAllGet(d, es[..|es| - 1], k);
    }
  }

  /** Appending an entry only adds a key that was missing. */
  lemma {:induction false} GetSnoc<V>(init: Dict<V>, e: (string, V), k: string)
    ensures Get(init + [e], k) ==
      if Get(init, k).Some? then Get(init, k) else if e.0 == k then Some(e.1) else None
  {
    if |init| > 0 {
      var d := init + [e];
      assert d[0] == init[0] && d[1..] == init[1..] + [e];
      if init[0].0 != k {
        GetSnoc(init[1..], e, k);
      }
    }
  }

  /** In a dict whose keys are distinct, the last entry with a key is the
      only one. */
  lemma {:induction false} LastWithDistinct<V>(d: Dict<V>, k: string)
    requires DistinctKeys(d)
    ensures LastWith(d, k) == Get(d, k)
  {
    if |d| > 0 {
      var init, last := d[..|d| - 1], d[|d| - 1];
      assert DistinctKeys(init) by {
        assert forall i :: 0 <= i < |init| ==> init[i] == d[i];
      }
      LastWithDistinct(init, k);
      assert init + [last] == d;
      GetSnoc(init, last, k);
      if last.0 == k {
        assert k !in KeySet(init) by {
          forall i | 0 <= i < |init|
            ensures init[i].0 != k
          {
            assert init[i] == d[i];
          }
        }
      }
    }
  }

  lemma {:induction false} PutAllKeys<V>(d: Dict<V>, es: seq<(string, V)>)
    ensures KeySet(PutAll(d, es)) == KeySet(d) + KeySet(es)
  {
    if |es| > 0 {
      PutAllKeys(d, es[..|es| - 1]);
      PutKeysSnoc(PutAll(d, es[..|es| - 1]), d, es);
    }
  }

  lemma PutKeysSnoc<V>(p: Dict<V>, d: Dict<V>, es: seq<(string, V)>)
    requires |es| > 0
    requires KeySet(p) == KeySet(d) + KeySet(es[..|es| - 1])
    ensures KeySet(Put(p, es[|es| - 1].0, es[|es| - 1].1)) == KeySet(d) + KeySet(es)
  {
    var init, last := es[..|es| - 1], es[|es| - 1];
    PutSpecHolds(p, last.0, last.1);
    KeySetSnoc(init, last);
    assert init + [last] == es;
  }

  /** Assigning fresh, pairwise distinct keys only appends: no entry is overwritten. */
  lemma {:induction false} PutAllFresh<V>(d: Dict<V>, es: seq<(string, V)>)
    requires DistinctKeys(d + es)
    ensures PutAll(d, es) == d + es
  {
    if |es| > 0 {
      FreshLast(d, es);
      PutAllFresh(d, es[..|es| - 1]);
      PutSpecHolds(d + es[..|es| - 1], es[|es| - 1].0, es[|es| - 1].1);
    }
  }

  /** With distinct keys, the last entry's key is not among those before
      it. */
  lemma FreshLast<V>(d: Dict<V>, es: seq<(string, V)>)
    requires |es| > 0 && DistinctKeys(d + es)
    ensures DistinctKeys(d + es[..|es| - 1])
    ensures es[|es| - 1].0 !in KeySet(d + es[..|es| - 1])
    ensures d + es[..|es| - 1] + [es[|es| - 1]] == d + es
  {
    var init, last := es[..|es| - 1], es[|es| - 1];
    assert forall i :: 0 <= i < |d + init| ==> (d + init)[i] == (d + es)[i];
    assert last == (d + es)[|d + es| - 1];
    assert d + init + [last] == d + es;
  }

  lemma {:induction false} PutAllConcat<V>(d: Dict<V>, a: seq<(string, V)>, b: seq<(string, V)>)
    ensures PutAll(d, a + b) == PutAll(PutAll(d, a), b)
  {
    if |b| == 0 {
      assert a + b == a;
    } else {
      assert (a + b)[..|a + b| - 1] == a + b[..|b| - 1];
      PutAllConcat(d, a, b[..|b| - 1]);
    }
  }

  /** Assigning a list is assigning its head, then the rest. */
  lemma PutAllCons<V>(d: Dict<V>, e: (string, V), es: seq<(string, V)>)
    ensures PutAll(d, [e] + es) == PutAll(Put(d, e.0, e.1), es)
  {
    PutAllConcat(d, [e], es);
    assert [e][..0] == [];
  }

  lemma {:induction false} PutAllDistinct<V>(d: Dict<V>, es: seq<(string, V)>)
    requires DistinctKeys(d)
    ensures DistinctKeys(PutAll(d, es))
  {
    if |es| > 0 {
      PutAllDistinct(d, es[..|es| - 1]);
      PutSpecHolds(PutAll(d, es[..|es| - 1]), es[|es| - 1].0, es[|es| - 1].1);
    }
  }

  /** `d.setdefault(k, []).append(x)`. */
  function AppendTo<X>(d: Dict<seq<X>>, k: string, x: X): (r: Dict<seq<X>>)
    ensures Get(r, k) == Some(if Get(d, k).Some? then Get(d, k).value + [x] else [x])
    ensures forall k' :: k' != k ==> Get(r, k') == Get(d, k')
  {
    match Get(d, k)
    case Some(xs) => Put(d, k, xs + [x])
    case None => Put(d, k, [x])
  }

  /** `for x in xs: d.setdefault(key, []).append(x)`. */
  function AppendAll<X>(d: Dict<seq<X>>, key: string, xs: seq<X>): Dict<seq<X>>
  {
    if |xs| == 0 then d else AppendTo(AppendAll(d, key, xs[..|xs| - 1]), key, xs[|xs| - 1])
  }

  /** Reference definition of `AppendAll` at one key: the key's list is
      extended by exactly the run, and created only when the run is not
      empty; other keys keep their value. */
  function Appended<X>(d: Dict<seq<X>>, key: string, xs: seq<X>, k: string): Option<seq<X>>
  {
    if k != key || |xs| == 0 then Get(d, k)
    else Some((if Get(d, key).Some? then Get(d, key).value else []) + xs)
  }

  lemma {:induction false} AppendAllGet<X>(d: Dict<seq<X>>, key: string, xs: seq<X>, k: string)
    ensures Get(AppendAll(d, key, xs), k) == Appended(d, key, xs, k)
  {
    if |xs| > 0 {
      AppendAllGet(d, key, xs[..|xs| - 1], k);
      AppendToGet(AppendAll(d, key, xs[..|xs| - 1]), d, key, xs, k);
    }
  }

  lemma AppendToGet<X>(p: Dict<seq<X>>, d: Dict<seq<X>>, key: string, xs: seq<X>, k: string)
    requires |xs| > 0
    requires Get(p, k) == Appended(d, key, xs[..|xs| - 1], k)
    ensures Get(AppendTo(p, key, xs[|xs| - 1]), k) == Appended(d, key, xs, k)
  {
    var init, x := xs[..|xs| - 1], xs[|xs| - 1];
    assert init + [x] == xs;
    var base := if Get(d, key).Some? then Get(d, key).value else [];
    if k == key && |init| > 0 {
      assert Get(p, k).value + [x] == base + (init + [x]);
    } else if k == key {
      assert Get(p, k) == Get(d, key);
    }
  }

  /** Runs appended one after the other: run `i` goes under `keys[i]`. */
  function AppendRuns<X>(keys: seq<string>, runs: seq<seq<X>>, n: nat): Dict<seq<X>>
    requires n <= |keys| && n <= |runs|
  {
    if n == 0 then [] else AppendAll(AppendRuns(keys, runs, n - 1), keys[n - 1], runs[n - 1])
  }

  /** Reference definition of `AppendRuns` at one key: the runs filed under
      it, concatenated in order. */
  function Collected<X>(keys: seq<string>, runs: seq<seq<X>>, n: nat, key: string): seq<X>
    requires n <= |keys| && n <= |runs|
  {
    if n == 0 then [] else Collected(keys, runs, n - 1, key) + (if keys[n - 1] == key then runs[n - 1] else [])
  }

  /** A key is present exactly when something was filed under it, and then
      holds everything filed under it, in order. */
  lemma {:induction false} AppendRunsGet<X>(keys: seq<string>, runs: seq<seq<X>>, n: nat, key: string)
    requires n <= |keys| && n <= |runs|
    ensures Get(AppendRuns(keys, runs, n), key) ==
      if Collected(keys, runs, n, key) == [] then None else Some(Collected(keys, runs, n, key))
  {
    if n > 0 {
      AppendRunsGet(keys, runs, n - 1, key);
      CollectedStep(AppendRuns(keys, runs, n - 1), Collected(keys, runs, n - 1, key), keys[n - 1], runs[n - 1], key);
    }
  }

  lemma CollectedStep<X>(p: Dict<seq<X>>, g: seq<X>, k: string, xs: seq<X>, key: string)
    requires Get(p, key) == if g == [] then None else Some(g)
    ensures var g' := g + (if k == key then xs else []);
      Get(AppendAll(p, k, xs), key) == if g' == [] then None else Some(g')
  {
    AppendAllGet(p, k, xs, key);
    if k != key {
      assert g + [] == g;
    }
  }
}
