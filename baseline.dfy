/** The second contrast helper of utils.py, `add_baseline_regressor`: it
    makes room for a baseline regressor in every session vector and derives
    one baseline contrast per task or run. Contrast dictionaries are
    association lists (module Dicts); the second pass loops over a dict the
    first pass built, so the order it visits the entries in is a
    parameter. */
module Baseline {
  import opened Wrappers
  import opened PyStr
  import opened Dicts
  import opened Vectors
  import opened SpecUtils

  /** Contrasts with one entry per session, `None` where the contrast does
      not apply. */
  type SessionContrasts = Dict<seq<Option<seq<real>>>>

  /** The first-pass key: everything before `_vs_baseline` when the key
      mentions `vs_baseline`. */
  function StrippedKey(k: string): string
  {
    if Find(k, "vs_baseline").Some? then CutAt(k, "_vs_baseline") else k
  }

  /** The stripped key is the part of the key before its first
      `_vs_baseline`, and the whole key when it has none (whether or not it
      mentions `vs_baseline`); it never mentions `_vs_baseline`. */
  lemma StrippedKeyShape(k: string)
    ensures StartsWith(k, StrippedKey(k))
    ensures Contains(k, "_vs_baseline") ==> Find(k, "_vs_baseline") == Some(|StrippedKey(k)|)
    ensures !Contains(k, "_vs_baseline") ==> StrippedKey(k) == k
    ensures !Contains(StrippedKey(k), "_vs_baseline")
  {
    FindSpec(k, "vs_baseline");
    FindSpec(k, "_vs_baseline");
    MentionsUnderscored(k);
    if Find(k, "vs_baseline").Some? {
      CutAtSpec(k, "_vs_baseline");
    } else {
      assert k[..|k|] == k;
    }
  }

  /** Every mention of `_vs_baseline` is a mention of `vs_baseline`. */
  lemma MentionsUnderscored(k: string)
    ensures Contains(k, "_vs_baseline") ==> Contains(k, "vs_baseline")
  {
    if Contains(k, "_vs_baseline") {
      var j :| 0 <= j <= |k| && OccursAt(k, "_vs_baseline", j);
      assert k[j + 1..j + 1 + 11] == k[j..j + 12][1..];
      assert OccursAt(k, "vs_baseline", j + 1);
    }
  }

  /** A copy of the session vector with a trailing 0 for the new regressor;
      `None` stays `None`. */
  function WithTrailingZero(c: Option<seq<real>>): (r: Option<seq<real>>)
    ensures r.None? <==> c.None?
    ensures c.Some? ==> |r.value| == |c.value| + 1 && r.value[..|c.value|] == c.value && r.value[|c.value|] == 0.0
  {
    if c.None? then None else Some(c.value + [0.0])
  }

  function Padded(cs: seq<Option<seq<real>>>): (r: seq<Option<seq<real>>>)
    ensures |r| == |cs| && forall t :: 0 <= t < |cs| ==> r[t] == WithTrailingZero(cs[t])
  {
    seq(|cs|, t requires 0 <= t < |cs| => WithTrailingZero(cs[t]))
  }

  /** The stripped key of every contrast, in order. */
  function StrippedKeys(contrasts: SessionContrasts): (r: seq<string>)
    ensures |r| == |contrasts|
  {
    seq(|contrasts|, i requires 0 <= i < |contrasts| => StrippedKey(contrasts[i].0))
  }

  /** The padded sessions of every contrast, in order. */
  function PaddedRuns(contrasts: SessionContrasts): (r: seq<seq<Option<seq<real>>>>)
    ensures |r| == |contrasts|
  {
    seq(|contrasts|, i requires 0 <= i < |contrasts| => Padded(contrasts[i].1))
  }

  /** The first pass over the first `n` contrasts: the padded sessions of
      each are appended under its stripped key. */
  function FirstPass(contrasts: SessionContrasts, n: nat): SessionContrasts
    requires n <= |contrasts|
  {
    AppendRuns(StrippedKeys(contrasts), PaddedRuns(contrasts), n)
  }

  /** Reference definition of the first pass: under each stripped key, the
      padded sessions of every contrast that strips to it, in order. */
  function Gathered(contrasts: SessionContrasts, n: nat, key: string): seq<Option<seq<real>>>
    requires n <= |contrasts|
  {
    Collected(StrippedKeys(contrasts), PaddedRuns(contrasts), n, key)
  }

  /** The first pass holds a key exactly when some contrast with that stripped
      key has a session, and then holds the concatenation of their padded
      sessions. */
  lemma FirstPassGet(contrasts: SessionContrasts, n: nat, key: string)
    requires n <= |contrasts|
    ensures Get(FirstPass(contrasts, n), key) ==
      if Gathered(contrasts, n, key) == [] then None else Some(Gathered(contrasts, n, key))
  {
    AppendRunsGet(StrippedKeys(contrasts), PaddedRuns(contrasts), n, key);
  }

  /** The baseline key of a first-pass key: `task_id, run_id, _ =
      ('%s_' % k).split('_', 2)`, then `<task>_<run>_baseline` when the
      second field starts with `run` and `<task>_baseline` otherwise. The
      unpacking fails when `k` has no `_`. */
  function BaselineKey(k: string): Result<string>
  {
    var k' := k + "_";
    assert k'[|k|] == '_';
    var task := Before(k', '_');
    var rest := After(k', '_');
    if '_' !in rest then Err(ValueError)
    else
      var run := Before(rest, '_');
      Ok(if StartsWith(run, "run") then task + "_" + run + "_baseline" else task + "_baseline")
  }

  /** In terms of `k` itself: the unpacking fails exactly when `k` has no
      `_`; otherwise the task is the text before the first `_` and the run
      field the text between the first and the second (or the end). */
  lemma BaselineKeyShape(k: string)
    ensures BaselineKey(k).Err? <==> '_' !in k
    ensures '_' in k ==>
      var task := Before(k, '_');
      var run := Before(After(k, '_'), '_');
      BaselineKey(k) == Ok(if StartsWith(run, "run") then task + "_" + run + "_baseline" else task + "_baseline")
  {
    var k' := k + "_";
    assert k'[|k|] == '_';
    if '_' in k {
      var i := IndexOf(k, '_');
      assert k'[..i] == k[..i] && k'[i] == '_';
      BeforeAt(k', '_', i);
      BeforeAt(k, '_', i);
      var rest := After(k', '_');
      assert rest == After(k, '_') + "_" by {
        assert k' == k'[..i] + ['_'] + rest;
        assert k == k[..i] + ['_'] + After(k, '_');
        assert rest == k'[i + 1..];
        assert After(k, '_') == k[i + 1..];
      }
      BeforeOfExtended(After(k, '_'));
    } else {
      assert k'[..|k|] == k;
      BeforeAt(k', '_', |k|);
      assert After(k', '_') == [] by {
        assert k' == k + ['_'] + After(k', '_');
      }
    }
  }

  /** Appending `_` does not move the first `_` of a string that has one, and
      is where it falls in one that has none. */
  lemma BeforeOfExtended(s: string)
    ensures '_' in s + "_" && Before(s + "_", '_') == Before(s, '_')
  {
    var s' := s + "_";
    assert s'[|s|] == '_';
    if '_' in s {
      var i := IndexOf(s, '_');
      assert s'[..i] == s[..i] && s'[i] == '_';
      BeforeAt(s', '_', i);
    } else {
      assert s'[..|s|] == s;
      BeforeAt(s', '_', |s|);
    }
  }

  /** A key `<task>_<field>_<name>` whose task and field hold no `_` has the
      baseline `<task>_<field>_baseline` when the field starts with `run`
      and `<task>_baseline` otherwise. */
  lemma BaselineKeyOfFields(task: string, field: string, name: string)
    requires '_' !in task && '_' !in field
    ensures BaselineKey(task + "_" + field + "_" + name) ==
      Ok(if StartsWith(field, "run") then task + "_" + field + "_baseline" else task + "_baseline")
  {
    var tail := field + "_" + name;
    var k := task + "_" + field + "_" + name;
    assert k == task + ['_'] + tail;
    SeparatedUnique(task, tail, Before(k, '_'), After(k, '_'), '_');
    assert tail[..|field|] == field && tail[|field|] == '_';
    BeforeAt(tail, '_', |field|);
    BaselineKeyShape(k);
  }

  /** Each run contrast of `contrasts_spec` gets the baseline of its own run:
      `<task>_run<NNN>_<name>` maps to `<task>_run<NNN>_baseline`. */
  lemma BaselineOfRunKey(task: string, run: nat, name: string)
    requires '_' !in task
    ensures BaselineKey(RunKey(task, run, name)) == Ok(task + "_run" + ZeroPad3(run) + "_baseline")
  {
    var d := ZeroPad3(run);
    var field := "run" + d;
    ZeroPad3RoundTrip(run);
    assert '_' !in field by {
      assert forall j :: 0 <= j < |d| ==> field[3 + j] == d[j];
    }
    assert StartsWith(field, "run");
    assert RunKey(task, run, name) == task + "_" + field + "_" + name;
    BaselineKeyOfFields(task, field, name);
    RunFieldJoin(task, d);
  }

  lemma RunFieldJoin(task: string, d: string)
    ensures task + "_" + ("run" + d) + "_baseline" == task + "_run" + d + "_baseline"
  {
    assert "_" + ("run" + d) == "_run" + d;
  }

  /** The baseline vector of a session: a non-None vector with a nonzero
      entry becomes the indicator of its last regressor; None and all-zero
      vectors are kept as they are. */
  function OneHot(c: Option<seq<real>>): (r: Option<seq<real>>)
  {
    if c.Some? && HasNonZero(c.value) then
      Some(seq(|c.value|, j requires 0 <= j < |c.value| => if j == |c.value| - 1 then 1.0 else 0.0))
    else c
  }

  /** A vector that is not all zero is replaced by the indicator of its last
      entry, of the same length; any other value is kept. */
  lemma OneHotShape(c: Option<seq<real>>)
    ensures c.None? || AllZero(c.value) ==> OneHot(c) == c
    ensures c.Some? && !AllZero(c.value) ==>
      var r := OneHot(c);
      && r.Some? && |r.value| == |c.value| > 0
      && r.value[|c.value| - 1] == 1.0
      && forall j :: 0 <= j < |c.value| - 1 ==> r.value[j] == 0.0
  {
    if c.Some? {
      HasNonZeroIff(c.value);
    }
  }

  function OneHots(cs: seq<Option<seq<real>>>): (r: seq<Option<seq<real>>>)
    ensures |r| == |cs| && forall t :: 0 <= t < |cs| ==> r[t] == OneHot(cs[t])
  {
    seq(|cs|, t requires 0 <= t < |cs| => OneHot(cs[t]))
  }

  /** A session that used any regressor gets the baseline contrast that
      selects exactly the regressor the first pass added. */
  lemma BaselineSelectsAddedRegressor(c: seq<real>)
    requires !AllZero(c)
    ensures OneHot(WithTrailingZero(Some(c))).Some?
    ensures var h := OneHot(WithTrailingZero(Some(c))).value;
      |h| == |c| + 1 && h[|c|] == 1.0 && forall j :: 0 <= j < |c| ==> h[j] == 0.0
  {
    var p := c + [0.0];
    assert !AllZero(p) by {
      var j :| 0 <= j < |c| && c[j] != 0.0;
      assert p[j] == c[j];
    }
    HasNonZeroIff(p);
  }

  /** Making a baseline twice gives the same baseline. */
  lemma OneHotIdempotent(c: Option<seq<real>>)
    ensures OneHot(OneHot(c)) == OneHot(c)
  {
    if c.Some? && HasNonZero(c.value) {
      var h := OneHot(c).value;
      assert h[|h| - 1] == 1.0;
      HasNonZeroIff(h);
    }
  }

  /** The baseline entry a first-pass entry yields: its baseline key with
      the baselines of its sessions. */
  function BaselineEntry(e: (string, seq<Option<seq<real>>>)): Result<seq<(string, seq<Option<seq<real>>>)>>
  {
    match BaselineKey(e.0)
    case Err(err) => Err(err)
    case Ok(key) => Ok([(key, OneHots(e.1))])
  }

  function BaselineSteps(first: SessionContrasts): (r: seq<Result<seq<(string, seq<Option<seq<real>>>)>>>)
    ensures |r| == |first|
  {
    seq(|first|, i requires 0 <= i < |first| => BaselineEntry(first[i]))
  }

  /** The baseline assignments for the first `n` first-pass entries, in
      order; a key that cannot be unpacked stops everything. Assigning a
      key again resets its list, so the last entry that maps to a baseline
      key decides it. */
  function BaselineEntries(first: SessionContrasts, n: nat): Result<seq<(string, seq<Option<seq<real>>>)>>
    requires n <= |first|
  {
    ThenAll(BaselineSteps(first), n)
  }

  /** The baseline pass fails exactly when some first-pass key has no `_`. */
  lemma BaselineEntriesFail(first: SessionContrasts, n: nat)
    requires n <= |first|
    ensures BaselineEntries(first, n).Err? <==> exists t :: 0 <= t < n && '_' !in first[t].0
  {
    var steps := BaselineSteps(first);
    ThenAllFails(steps, n);
    forall t | 0 <= t < n
      ensures steps[t].Err? <==> '_' !in first[t].0
    {
      BaselineKeyShape(first[t].0);
    }
  }

  /** On success there is one baseline entry per first-pass entry, in the
      order visited: its baseline key with the baselines of its sessions. */
  lemma BaselineEntriesShape(first: SessionContrasts, n: nat)
    requires n <= |first| && BaselineEntries(first, n).Ok?
    ensures |BaselineEntries(first, n).value| == n
    ensures forall t :: 0 <= t < n ==>
      BaselineKey(first[t].0).Ok? && BaselineEntries(first, n).value[t] == (BaselineKey(first[t].0).value, OneHots(first[t].1))
  {
    var steps := BaselineSteps(first);
    assert forall i :: 0 <= i < n ==> steps[i] == BaselineEntry(first[i]);
    ThenAllSingles(steps, n);
  }

  /** An order in which a loop visits `n` entries: each index below `n`
      exactly once. Python 2 visits a dict in the order of its hash table,
      which depends on the keys' hashes and the dict's history. */
  predicate IsOrder(order: seq<nat>, n: nat)
  {
    && |order| == n
    && (forall t :: 0 <= t < n ==> order[t] < n)
    && (forall t, u :: 0 <= t < u < n ==> order[t] != order[u])
    && (forall m :: 0 <= m < n ==> m in order)
  }

  /** The first-pass entries in the order `for k in new_contrasts` visits
      them. */
  function Visited(first: SessionContrasts, order: seq<nat>): (v: SessionContrasts)
    requires IsOrder(order, |first|)
    ensures |v| == |first|
  {
    seq(|first|, t requires 0 <= t < |first| => first[order[t]])
  }

  /** What `add_baseline_regressor(contrasts)` returns when the second loop
      visits the first-pass entries in `order`: the first pass updated with
      the baseline contrasts. */
  function AddedBaseline(contrasts: SessionContrasts, order: seq<nat>): Result<SessionContrasts>
    requires IsOrder(order, |FirstPass(contrasts, |contrasts|)|)
  {
    var first := FirstPass(contrasts, |contrasts|);
    var visit := Visited(first, order);
    match BaselineEntries(visit, |visit|)
    case Err(e) => Err(e)
    case Ok(es) => Ok(PutAll(first, PutAll([], es)))
  }

  /** The result holds every first-pass key and every baseline key; a
      baseline key takes the baselines of the entry visited last among
      those that map to it, overriding a first-pass contrast of the same
      name. */
  lemma AddedBaselineGet(contrasts: SessionContrasts, order: seq<nat>, key: string)
    requires IsOrder(order, |FirstPass(contrasts, |contrasts|)|)
    requires AddedBaseline(contrasts, order).Ok?
    ensures var first := FirstPass(contrasts, |contrasts|);
      var visit := Visited(first, order);
      var es := BaselineEntries(visit, |visit|).value;
      var r := AddedBaseline(contrasts, order).value;
      && KeySet(r) == KeySet(first) + KeySet(es)
      && Get(r, key) == (if LastWith(es, key).Some? then LastWith(es, key) else Get(first, key))
  {
    var first := FirstPass(contrasts, |contrasts|);
    var visit := Visited(first, order);
    var es := BaselineEntries(visit, |visit|).value;
    var b := PutAll([], es);
    PutAllKeys([], es);
    PutAllKeys(first, b);
    PutAllGet(first, b, key);
    PutAllGet([], es, key);
    PutAllDistinct([], es);
    LastWithDistinct(b, key);
  }

  /** Whatever the dict order, the function fails exactly when some
      first-pass key has no `_`, and then with a ValueError. */
  lemma AddedBaselineFails(contrasts: SessionContrasts, order: seq<nat>)
    requires IsOrder(order, |FirstPass(contrasts, |contrasts|)|)
    ensures var first := FirstPass(contrasts, |contrasts|);
      AddedBaseline(contrasts, order).Err? <==> exists m :: 0 <= m < |first| && '_' !in first[m].0
    ensures AddedBaseline(contrasts, order).Err? ==> AddedBaseline(contrasts, order).error == ValueError
  {
    var first := FirstPass(contrasts, |contrasts|);
    var visit := Visited(first, order);
    VisitedFails(first, order);
    if BaselineEntries(visit, |visit|).Err? {
      BaselineErrorIsValueError(visit, |visit|);
    }
  }

  /** Visiting the entries in another order does not change whether the
      baseline pass fails. */
  lemma VisitedFails(first: SessionContrasts, order: seq<nat>)
    requires IsOrder(order, |first|)
    ensures BaselineEntries(Visited(first, order), |first|).Err? <==> exists m :: 0 <= m < |first| && '_' !in first[m].0
  {
    var visit := Visited(first, order);
    BaselineEntriesFail(visit, |visit|);
    if exists m :: 0 <= m < |first| && '_' !in first[m].0 {
      var m :| 0 <= m < |first| && '_' !in first[m].0;
      assert m in order;
      var t :| 0 <= t < |order| && order[t] == m;
      assert '_' !in visit[t].0;
    }
    if BaselineEntries(visit, |visit|).Err? {
      var t :| 0 <= t < |visit| && '_' !in visit[t].0;
      assert '_' !in first[order[t]].0;
    }
  }

  /** The only error of the baseline pass is the failed unpacking. */
  lemma {:induction false} BaselineErrorIsValueError(first: SessionContrasts, n: nat)
    requires n <= |first| && BaselineEntries(first, n).Err?
    ensures BaselineEntries(first, n).error == ValueError
  {
    var steps := BaselineSteps(first);
    assert steps[n - 1] == BaselineEntry(first[n - 1]);
    if BaselineEntries(first, n - 1).Err? {
      BaselineErrorIsValueError(first, n - 1);
    }
  }

  /** A baseline key takes the baselines of the first-pass entry the dict
      order visits last among those that map to it: two contrasts sharing a
      baseline key (`task001_faces` and `task001_houses`, say) leave the
      baselines of whichever comes later in that order. */
  lemma AddedBaselineLastVisited(contrasts: SessionContrasts, order: seq<nat>, key: string, m: nat)
    requires IsOrder(order, |FirstPass(contrasts, |contrasts|)|)
    requires AddedBaseline(contrasts, order).Ok?
    requires m < |FirstPass(contrasts, |contrasts|)|
    requires BaselineKey(FirstPass(contrasts, |contrasts|)[m].0) == Ok(key)
    ensures var first := FirstPass(contrasts, |contrasts|);
      exists t :: 0 <= t < |first|
        && BaselineKey(first[order[t]].0) == Ok(key)
        && (forall u :: t < u < |first| ==> BaselineKey(first[order[u]].0) != Ok(key))
        && Get(AddedBaseline(contrasts, order).value, key) == Some(OneHots(first[order[t]].1))
  {
    var first := FirstPass(contrasts, |contrasts|);
    AddedBaselineGet(contrasts, order, key);
    var t := VisitedLast(first, order, key, m);
  }

  /** The last visited entry with baseline key `key` is the one whose
      baselines the baseline pass leaves under `key`. */
  lemma VisitedLast(first: SessionContrasts, order: seq<nat>, key: string, m: nat) returns (t: nat)
    requires IsOrder(order, |first|)
    requires BaselineEntries(Visited(first, order), |first|).Ok?
    requires m < |first| && BaselineKey(first[m].0) == Ok(key)
    ensures t < |first| && BaselineKey(first[order[t]].0) == Ok(key)
    ensures forall u :: t < u < |first| ==> BaselineKey(first[order[u]].0) != Ok(key)
    ensures LastWith(BaselineEntries(Visited(first, order), |first|).value, key) == Some(OneHots(first[order[t]].1))
  {
    var visit := Visited(first, order);
    var es := BaselineEntries(visit, |visit|).value;
    BaselineEntriesShape(visit, |visit|);
    LastWithSpec(es, key);
    assert m in order;
    var t0 :| 0 <= t0 < |order| && order[t0] == m;
    assert visit[t0] == first[m];
    t := LastAt(es, key, t0);
    forall u | t < u < |first|
      ensures BaselineKey(first[order[u]].0) != Ok(key)
    {
      assert visit[u] == first[order[u]];
    }
    assert visit[t] == first[order[t]];
  }

  /** The last position at or after `t0` whose entry has key `k`. */
  lemma {:induction false} LastAt<V>(es: seq<(string, V)>, k: string, t0: nat) returns (t: nat)
    requires t0 < |es| && es[t0].0 == k
    ensures t0 <= t < |es| && es[t].0 == k
    ensures forall u :: t < u < |es| ==> es[u].0 != k
    decreases |es| - t0
  {
    if exists u :: t0 < u < |es| && es[u].0 == k {
      var u :| t0 < u < |es| && es[u].0 == k;
      t := LastAt(es, k, u);
    } else {
      t := t0;
    }
  }

  /** A baseline key only one contrast maps to has that contrast's baselines,
      whatever the dict order. */
  lemma AddedBaselineUnique(contrasts: SessionContrasts, order: seq<nat>, key: string, m: nat)
    requires IsOrder(order, |FirstPass(contrasts, |contrasts|)|)
    requires AddedBaseline(contrasts, order).Ok?
    requires m < |FirstPass(contrasts, |contrasts|)|
    requires BaselineKey(FirstPass(contrasts, |contrasts|)[m].0) == Ok(key)
    requires forall m' :: 0 <= m' < |FirstPass(contrasts, |contrasts|)| && m' != m ==>
      BaselineKey(FirstPass(contrasts, |contrasts|)[m'].0) != Ok(key)
    ensures Get(AddedBaseline(contrasts, order).value, key) == Some(OneHots(FirstPass(contrasts, |contrasts|)[m].1))
  {
    AddedBaselineLastVisited(contrasts, order, key, m);
  }

  /** The first loop of `add_baseline_regressor`, for one contrast: a copy of
      every session vector with a trailing 0, appended under the stripped
      key. */
  method AppendPadded(d: SessionContrasts, key: string, cs: seq<Option<seq<real>>>) returns (r: SessionContrasts)
    ensures r == AppendAll(d, key, Padded(cs))
  {
    r := d;
    var j := 0;
    while j < |cs|
      invariant 0 <= j <= |cs|
      invariant r == AppendAll(d, key, Padded(cs)[..j])
    {
      var c := cs[j];
      if c.Some? {
        c := Some(c.value + [0.0]);
      }
      assert Padded(cs)[..j + 1][..j] == Padded(cs)[..j];
      r := AppendTo(r, key, c);
      j := j + 1;
    }
    assert Padded(cs)[..j] == Padded(cs);
  }

  /** The first loop of `add_baseline_regressor`. */
  method PadContrasts(contrasts: SessionContrasts) returns (first: SessionContrasts)
    ensures first == FirstPass(contrasts, |contrasts|)
  {
    first := [];
    var i := 0;
    while i < |contrasts|
      invariant 0 <= i <= |contrasts|
      invariant first == FirstPass(contrasts, i)
    {
      first := AppendPadded(first, StrippedKey(contrasts[i].0), contrasts[i].1);
      i := i + 1;
    }
  }

  /** The baseline of one session vector: a contributing vector is replaced
      by a fresh list of zeros whose last entry is set to 1. */
  method MakeBaseline(c: Option<seq<real>>) returns (r: Option<seq<real>>)
    ensures r == OneHot(c)
  {
    r := c;
    if c.Some? && HasNonZero(c.value) {
      var hot := new real[|c.value|](_ => 0.0);
      hot[|c.value| - 1] := 1.0;
      assert forall j :: 0 <= j < hot.Length ==> hot[j] == if j == |c.value| - 1 then 1.0 else 0.0;
      assert hot[..] == OneHot(c).value;
      r := Some(hot[..]);
    }
  }

  /** The second loop, for one first-pass entry: the key's baseline list is
      reset, then each session's baseline is appended to it. */
  method FillBaseline(b: SessionContrasts, key: string, cs: seq<Option<seq<real>>>) returns (r: SessionContrasts)
    ensures r == Put(b, key, OneHots(cs))
  {
    ghost var hots := OneHots(cs);
    var list := [];
    r := Put(b, key, list);
    var j := 0;
    while j < |cs|
      invariant 0 <= j <= |cs|
      invariant list == hots[..j]
      invariant r == Put(b, key, list)
    {
      var c := MakeBaseline(cs[j]);
      PutPut(b, key, list, list + [c]);
      PrefixSnoc(hots, j);
      list := list + [c];
      r := Put(r, key, list);
      j := j + 1;
    }
    assert list == hots;
  }

  /** A key that unpacks after a successful prefix extends it by its
      baseline entry. */
  lemma BaselineEntriesStep(first: SessionContrasts, i: nat, done: seq<(string, seq<Option<seq<real>>>)>)
    requires i < |first| && BaselineEntries(first, i) == Ok(done) && BaselineKey(first[i].0).Ok?
    ensures BaselineEntries(first, i + 1) == Ok(done + [(BaselineKey(first[i].0).value, OneHots(first[i].1))])
  {
    var steps := BaselineSteps(first);
    assert steps[i] == BaselineEntry(first[i]);
  }

  /** A key that cannot be unpacked after a successful prefix makes the
      whole pass fail with its error. */
  lemma BaselineEntriesRaise(first: SessionContrasts, i: nat)
    requires i < |first| && BaselineEntries(first, i).Ok? && BaselineKey(first[i].0).Err?
    ensures BaselineEntries(first, |first|) == Err(BaselineKey(first[i].0).error)
  {
    var steps := BaselineSteps(first);
    assert steps[i] == BaselineEntry(first[i]);
    ThenAllRaiseAt(steps, i);
  }

  /** The second loop of `add_baseline_regressor`, over the first-pass
      entries in the order it visits them: the baseline dict, or the error
      of the first key that cannot be unpacked. */
  method BaselineContrasts(first: SessionContrasts) returns (r: Result<SessionContrasts>)
    ensures BaselineEntries(first, |first|).Err? ==> r == Err(BaselineEntries(first, |first|).error)
    ensures BaselineEntries(first, |first|).Ok? ==> r == Ok(PutAll([], BaselineEntries(first, |first|).value))
  {
    var baseline: SessionContrasts := [];
    ghost var done := [];
    var i := 0;
    while i < |first|
      invariant 0 <= i <= |first|
      invariant BaselineEntries(first, i) == Ok(done)
      invariant baseline == PutAll([], done)
    {
      var k, cs := first[i].0, first[i].1;
      var key := BaselineKey(k);
      if key.Err? {
        BaselineEntriesRaise(first, i);
        return Err(key.error);
      }
      ghost var e := (key.value, OneHots(cs));
      PutAllSnoc([], done, e);
      baseline := FillBaseline(baseline, key.value, cs);
      BaselineEntriesStep(first, i, done);
      done := done + [e];
      i := i + 1;
    }
    return Ok(baseline);
  }

  /** `add_baseline_regressor(contrasts)`: the first pass, the baseline pass
      in the dict order `order`, then `new_contrasts.update(baseline_contrasts)`.
      The input is only read. */
  method AddBaselineRegressor(contrasts: SessionContrasts, order: seq<nat>) returns (r: Result<SessionContrasts>)
    requires IsOrder(order, |FirstPass(contrasts, |contrasts|)|)
    ensures r == AddedBaseline(contrasts, order)
  {
    var newContrasts := PadContrasts(contrasts);
    var baseline := BaselineContrasts(Visited(newContrasts, order));
    if baseline.Err? {
      return Err(baseline.error);
    }
    return Ok(PutAll(newContrasts, baseline.value));
  }
}
