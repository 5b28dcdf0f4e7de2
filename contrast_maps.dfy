/** The two contrast helpers nested in the driver of intra_analysis.py:
    `sanitize_contrast`, which makes room for a derivative regressor after
    every regressor, and `one_map_per_run`, which splits a multi-session
    contrast into one contrast per contributing run. */
module ContrastMaps {
  import opened Wrappers
  import opened PyStr
  import opened Dicts
  import opened Vectors
  import opened SpecUtils

  /** A session vector as the contrast loaders hand it over. The two forms
      differ in `session_con == 0`: on a list it is the scalar False, on an
      array it compares entry by entry. */
  datatype PyVec = PyList(items: seq<real>) | NdArray(items: seq<real>)

  /** Contrast id to one vector (or None) per session, in the order the
      loop visits the ids. */
  type Contrasts = Dict<seq<Option<PyVec>>>

  // ---------------------------------------------------------------------
  // sanitize_contrast

  /** `np.insert(v, np.arange(v.size) + 1, 0)`: a 0 after every entry. */
  function Interleave(xs: seq<real>): seq<real>
  {
    if |xs| == 0 then [] else [xs[0], 0.0] + Interleave(xs[1..])
  }

  /** The entries at even positions. */
  function Evens(ys: seq<real>): seq<real>
  {
    if |ys| < 2 then ys[..|ys|] else [ys[0]] + Evens(ys[2..])
  }

  /** Every coefficient keeps its regressor at position `2 j`, and each
      derivative slot `2 j + 1` gets a 0. */
  lemma {:induction false} InterleaveShape(xs: seq<real>)
    ensures |Interleave(xs)| == 2 * |xs|
    ensures forall j :: 0 <= j < |xs| ==> Interleave(xs)[2 * j] == xs[j] && Interleave(xs)[2 * j + 1] == 0.0
  {
    if |xs| > 0 {
      var tail := Interleave(xs[1..]);
      InterleaveShape(xs[1..]);
      forall j | 1 <= j < |xs|
        ensures Interleave(xs)[2 * j] == xs[j] && Interleave(xs)[2 * j + 1] == 0.0
      {
        assert Interleave(xs)[2 * j] == tail[2 * (j - 1)];
        assert Interleave(xs)[2 * j + 1] == tail[2 * (j - 1) + 1];
      }
    }
  }

  /** Dropping the derivative slots gives the original coefficients back. */
  lemma {:induction false} EvensInterleave(xs: seq<real>)
    ensures Evens(Interleave(xs)) == xs
  {
    if |xs| > 0 {
      var ys := Interleave(xs);
      assert ys[2..] == Interleave(xs[1..]);
      EvensInterleave(xs[1..]);
      assert [xs[0]] + xs[1..] == xs;
    }
  }

  /** One session after `sanitize_contrast`: None stays None, any vector
      becomes a plain list (`.tolist()`) with the zeros interleaved. */
  function SanitizedSession(c: Option<PyVec>): Option<PyVec>
  {
    match c
    case None => None
    case Some(v) => Some(PyList(Interleave(v.items)))
  }

  function SanitizedSessions(cs: seq<Option<PyVec>>): (r: seq<Option<PyVec>>)
    ensures |r| == |cs| && forall i :: 0 <= i < |cs| ==> r[i] == SanitizedSession(cs[i])
  {
    seq(|cs|, i requires 0 <= i < |cs| => SanitizedSession(cs[i]))
  }

  /** The assignments of `sanitize_contrast`, one per contrast id, in order. */
  function SanitizedEntries(contrasts: Contrasts): (r: Contrasts)
    ensures |r| == |contrasts|
    ensures forall i :: 0 <= i < |contrasts| ==> r[i].0 == contrasts[i].0 && |r[i].1| == |contrasts[i].1|
  {
    seq(|contrasts|, i requires 0 <= i < |contrasts| => (contrasts[i].0, SanitizedSessions(contrasts[i].1)))
  }

  /** A sanitized session is None exactly when the session was; otherwise
      it is a list twice as long whose even positions are the original
      coefficients. */
  lemma SanitizedSessionShape(c: Option<PyVec>)
    ensures SanitizedSession(c).None? <==> c.None?
    ensures c.Some? ==>
      var v := SanitizedSession(c).value;
      v.PyList? && |v.items| == 2 * |c.value.items| && Evens(v.items) == c.value.items
  {
    if c.Some? {
      InterleaveShape(c.value.items);
      EvensInterleave(c.value.items);
    }
  }

  /** The contrast ids are distinct, so no assignment of
      `sanitize_contrast` overwrites another: the result is the entries
      themselves, in the order of the input. */
  lemma SanitizedKeys(contrasts: Contrasts)
    requires DistinctKeys(contrasts)
    ensures PutAll([], SanitizedEntries(contrasts)) == SanitizedEntries(contrasts)
  {
    var es := SanitizedEntries(contrasts);
    NoOverwrite(contrasts, es);
  }

  /** The sessions of one contrast, sanitized one after the other. */
  method SanitizeSessions(cs: seq<Option<PyVec>>) returns (contrast: seq<Option<PyVec>>)
    ensures contrast == SanitizedSessions(cs)
  {
    ghost var sanitized := SanitizedSessions(cs);
    contrast := [];
    var s := 0;
    while s < |cs|
      invariant 0 <= s <= |cs|
      invariant contrast == sanitized[..s]
    {
      var sessionCon := cs[s];
      if sessionCon.Some? {
        sessionCon := Some(PyList(Interleave(sessionCon.value.items)));
      }
      PrefixSnoc(sanitized, s);
      contrast := contrast + [sessionCon];
      s := s + 1;
    }
    assert contrast == sanitized;
  }

  /** `sanitize_contrast(contrasts, per_run=False)`: every contrast id is
      assigned its sanitized session list. */
  method SanitizeAll(contrasts: Contrasts) returns (r: Contrasts)
    ensures r == PutAll([], SanitizedEntries(contrasts))
  {
    r := [];
    var i := 0;
    while i < |contrasts|
      invariant 0 <= i <= |contrasts|
      invariant r == PutAll([], SanitizedEntries(contrasts)[..i])
    {
      var contrast := SanitizeSessions(contrasts[i].1);
      PutAllPrefix([], SanitizedEntries(contrasts), i);
      assert SanitizedEntries(contrasts)[i] == (contrasts[i].0, contrast);
      r := Put(r, contrasts[i].0, contrast);
      i := i + 1;
    }
    assert SanitizedEntries(contrasts)[..i] == SanitizedEntries(contrasts);
  }

  // ---------------------------------------------------------------------
  // one_map_per_run

  /** `session_con is not None and not np.all(np.array(session_con == 0))`:
      a list always contributes, an array only when some entry is nonzero
      (an empty array counts as all zero). */
  predicate Contributes(c: Option<PyVec>)
  {
    match c
    case None => false
    case Some(PyList(_)) => true
    case Some(NdArray(v)) => HasNonZero(v)
  }

  lemma ContributesIff(c: Option<PyVec>)
    ensures Contributes(c) <==> c.Some? && (c.value.PyList? || !AllZero(c.value.items))
  {
    if c.Some? {
      HasNonZeroIff(c.value.items);
    }
  }

  /** A sanitized session is a list, so it contributes whenever it is not
      None, whatever its coefficients. */
  lemma SanitizedContributes(c: Option<PyVec>)
    ensures Contributes(SanitizedSession(c)) <==> c.Some?
  {
  }

  /** The number of contributing sessions among the first `j`. */
  function RunsBefore(cs: seq<Option<PyVec>>, j: nat): (r: nat)
    requires j <= |cs|
    ensures r <= j
  {
    if j == 0 then 0 else RunsBefore(cs, j - 1) + (if Contributes(cs[j - 1]) then 1 else 0)
  }

  /** Run numbers only grow, and strictly past a contributing session. */
  lemma {:induction false} RunsBeforeMonotone(cs: seq<Option<PyVec>>, j: nat, k: nat)
    requires j <= k <= |cs|
    ensures RunsBefore(cs, j) <= RunsBefore(cs, k)
    ensures j < k && Contributes(cs[j]) ==> RunsBefore(cs, j) < RunsBefore(cs, k)
    decreases k - j
  {
    if j < k {
      RunsBeforeMonotone(cs, j + 1, k);
    }
  }

  /** `[None] * n` with `session_con` written into slot `i`. */
  function Slot(n: nat, i: nat, c: Option<PyVec>): seq<Option<PyVec>>
  {
    seq(n, j requires 0 <= j < n => if j == i then c else None)
  }

  /** The per-run assignments the loop makes for sessions `i..` once the
      next run number is `run`, run `r` being stored under `keyOf(r)`: each
      contributing session takes that number, and the next one the one
      after. */
  function RunsFrom(keyOf: nat -> string, cs: seq<Option<PyVec>>, i: nat, run: nat): Contrasts
    requires i <= |cs|
    decreases |cs| - i
  {
    if i == |cs| then []
    else if Contributes(cs[i]) then
      [(keyOf(run), Slot(|cs|, i, cs[i]))] + RunsFrom(keyOf, cs, i + 1, run + 1)
    else RunsFrom(keyOf, cs, i + 1, run)
  }

  /** `'%s_run%03i_%s' % (task_id, run_id, con_name)` as a function of the
      run number. */
  function RunKeys(task: string, name: string): nat -> string
  {
    (run: nat) => RunKey(task, run, name)
  }

  /** All per-run assignments of contrast `<task>_<name>`, runs numbered
      from 1. */
  function RunEntries(task: string, name: string, cs: seq<Option<PyVec>>): Contrasts
  {
    RunsFrom(RunKeys(task, name), cs, 0, 1)
  }

  /** One entry per contributing session from `i` on. */
  lemma {:induction false} RunsFromCount(keyOf: nat -> string, cs: seq<Option<PyVec>>, i: nat, run: nat)
    requires i <= |cs|
    ensures |RunsFrom(keyOf, cs, i, run)| == RunsBefore(cs, |cs|) - RunsBefore(cs, i)
    decreases |cs| - i
  {
    if i < |cs| {
      var run' := if Contributes(cs[i]) then run + 1 else run;
      RunsFromCount(keyOf, cs, i + 1, run');
      assert RunsBefore(cs, i + 1) == RunsBefore(cs, i) + (if Contributes(cs[i]) then 1 else 0);
    }
  }

  /** From `i` on, the `t`-th entry is stored under run number `run + t`. */
  lemma {:induction false} RunsFromKeys(keyOf: nat -> string, cs: seq<Option<PyVec>>, i: nat, run: nat)
    requires i <= |cs|
    ensures forall t :: 0 <= t < |RunsFrom(keyOf, cs, i, run)| ==>
      RunsFrom(keyOf, cs, i, run)[t].0 == keyOf(run + t)
    decreases |cs| - i
  {
    if i < |cs| {
      if Contributes(cs[i]) {
        RunsFromKeys(keyOf, cs, i + 1, run + 1);
        KeysShifted(keyOf, (keyOf(run), Slot(|cs|, i, cs[i])), RunsFrom(keyOf, cs, i + 1, run + 1), run);
      } else {
        RunsFromKeys(keyOf, cs, i + 1, run);
      }
    }
  }

  /** Putting the entry of run `run` in front of entries numbered from
      `run + 1` gives entries numbered from `run`. */
  lemma KeysShifted(keyOf: nat -> string, head: (string, seq<Option<PyVec>>), rest: Contrasts, run: nat)
    requires head.0 == keyOf(run)
    requires forall t :: 0 <= t < |rest| ==> rest[t].0 == keyOf(run + 1 + t)
    ensures forall t :: 0 <= t < |[head] + rest| ==> ([head] + rest)[t].0 == keyOf(run + t)
  {
    var all := [head] + rest;
    forall t | 1 <= t < |all|
      ensures all[t].0 == keyOf(run + t)
    {
      assert all[t] == rest[t - 1];
      assert run + 1 + (t - 1) == run + t;
    }
  }

  /** A contributing session `j` from `i` on sits at position `RunsBefore(cs,
      j) - RunsBefore(cs, i)`, under the run number that far past `run`, with
      itself as the only non-None slot. */
  lemma {:induction false} RunsFromAt(keyOf: nat -> string, cs: seq<Option<PyVec>>, i: nat, run: nat, j: nat)
    requires i <= j < |cs| && Contributes(cs[j])
    ensures RunsBefore(cs, i) <= RunsBefore(cs, j)
    ensures RunsBefore(cs, j) - RunsBefore(cs, i) < |RunsFrom(keyOf, cs, i, run)|
    ensures RunsFrom(keyOf, cs, i, run)[RunsBefore(cs, j) - RunsBefore(cs, i)]
      == (keyOf(run + (RunsBefore(cs, j) - RunsBefore(cs, i))), Slot(|cs|, j, cs[j]))
    decreases j - i
  {
    if i < j {
      var run' := if Contributes(cs[i]) then run + 1 else run;
      RunsFromAt(keyOf, cs, i + 1, run', j);
      var x := RunsBefore(cs, j) - RunsBefore(cs, i + 1);
      if Contributes(cs[i]) {
        assert RunsBefore(cs, j) - RunsBefore(cs, i) == x + 1;
        assert run' + x == run + (x + 1);
      }
    }
  }

  /** One entry per contributing session: the `t`-th has run number
      `t + 1`. */
  lemma RunEntriesKeys(task: string, name: string, cs: seq<Option<PyVec>>)
    ensures |RunEntries(task, name, cs)| == RunsBefore(cs, |cs|)
    ensures forall t :: 0 <= t < |RunEntries(task, name, cs)| ==>
      RunEntries(task, name, cs)[t].0 == RunKey(task, t + 1, name)
  {
    var keyOf := RunKeys(task, name);
    RunsFromCount(keyOf, cs, 0, 1);
    RunsFromKeys(keyOf, cs, 0, 1);
    forall t | 0 <= t < |RunEntries(task, name, cs)|
      ensures RunEntries(task, name, cs)[t].0 == RunKey(task, t + 1, name)
    {
      assert keyOf(1 + t) == RunKey(task, t + 1, name);
    }
  }

  /** A contributing session `j` is stored under the key of run
      `RunsBefore(cs, j) + 1`, with itself as the only non-None slot. */
  lemma RunEntriesAt(task: string, name: string, cs: seq<Option<PyVec>>, j: nat)
    requires j < |cs| && Contributes(cs[j])
    ensures RunsBefore(cs, j) < |RunEntries(task, name, cs)|
    ensures RunEntries(task, name, cs)[RunsBefore(cs, j)] == (RunKey(task, RunsBefore(cs, j) + 1, name), Slot(|cs|, j, cs[j]))
  {
    var keyOf := RunKeys(task, name);
    RunsFromAt(keyOf, cs, 0, 1, j);
    assert 1 + (RunsBefore(cs, j) - RunsBefore(cs, 0)) == RunsBefore(cs, j) + 1;
    assert keyOf(RunsBefore(cs, j) + 1) == RunKey(task, RunsBefore(cs, j) + 1, name);
  }

  /** The step for one contrast id: `contrast_id.split('_', 1)` must yield
      two parts, otherwise the unpacking raises before any session is seen. */
  function PerRunStep(e: (string, seq<Option<PyVec>>)): Result<Contrasts>
  {
    if '_' !in e.0 then Err(ValueError)
    else Ok(RunEntries(Before(e.0, '_'), After(e.0, '_'), e.1))
  }

  function PerRunSteps(contrasts: Contrasts): (r: seq<Result<Contrasts>>)
    ensures |r| == |contrasts|
  {
    seq(|contrasts|, i requires 0 <= i < |contrasts| => PerRunStep(contrasts[i]))
  }

  /** The per-run assignments for the first `n` contrast ids, in order. */
  function PerRunEntries(contrasts: Contrasts, n: nat): Result<Contrasts>
    requires n <= |contrasts|
  {
    ThenAll(PerRunSteps(contrasts), n)
  }

  /** What `one_map_per_run(contrasts)` returns. */
  function PerRun(contrasts: Contrasts): Result<Contrasts>
  {
    match PerRunEntries(contrasts, |contrasts|)
    case Err(e) => Err(e)
    case Ok(es) => Ok(PutAll([], es))
  }

  /** `one_map_per_run` raises exactly when some contrast id has no `_`,
      whether or not that contrast has a contributing session. */
  lemma PerRunFails(contrasts: Contrasts)
    ensures PerRun(contrasts).Err? <==> exists t :: 0 <= t < |contrasts| && '_' !in contrasts[t].0
  {
    var steps := PerRunSteps(contrasts);
    ThenAllFails(steps, |contrasts|);
    assert forall t :: 0 <= t < |contrasts| ==> (steps[t].Err? <==> '_' !in contrasts[t].0);
  }

  /** The contrast id a per-run key was made from: the text before its
      first `_` joined by `_` to the text after its second. */
  function SourceId(key: string): string
  {
    if '_' in key && '_' in After(key, '_') then Before(key, '_') + "_" + After(After(key, '_'), '_') else key
  }

  /** A run key leads back to `<task>_<name>`. */
  lemma RunKeySource(task: string, run: nat, name: string)
    requires '_' !in task
    ensures SourceId(RunKey(task, run, name)) == task + "_" + name
  {
    var d := ZeroPad3(run);
    var field := "run" + d;
    ZeroPad3RoundTrip(run);
    assert '_' !in field by {
      assert forall j :: 0 <= j < |d| ==> field[3 + j] == d[j];
    }
    var tail := field + ['_'] + name;
    var key := RunKey(task, run, name);
    RunKeySplit(task, run, name);
    RunKeyTail(run, name);
    assert key == task + ['_'] + tail;
    assert key[|task|] == '_';
    SeparatedUnique(task, tail, Before(key, '_'), After(key, '_'), '_');
    assert tail[|field|] == '_';
    SeparatedUnique(field, name, Before(tail, '_'), After(tail, '_'), '_');
  }

  /** The per-run keys of contrast `<task>_<name>` all lead back to it. */
  lemma RunEntriesSource(task: string, name: string, cs: seq<Option<PyVec>>)
    requires '_' !in task
    ensures forall t :: 0 <= t < |RunEntries(task, name, cs)| ==>
      SourceId(RunEntries(task, name, cs)[t].0) == task + "_" + name
  {
    RunEntriesKeys(task, name, cs);
    RunKeysSource(task, name, RunEntries(task, name, cs));
  }

  /** Entries stored under run keys `1, 2, ..` of `<task>_<name>` lead back
      to it. */
  lemma RunKeysSource(task: string, name: string, es: Contrasts)
    requires '_' !in task
    requires forall t :: 0 <= t < |es| ==> es[t].0 == RunKey(task, t + 1, name)
    ensures forall t :: 0 <= t < |es| ==> SourceId(es[t].0) == task + "_" + name
  {
    forall t | 0 <= t < |es|
      ensures SourceId(es[t].0) == task + "_" + name
    {
      RunKeySource(task, t + 1, name);
    }
  }

  /** The per-run keys of one contrast are distinct: their run numbers are. */
  lemma RunEntriesDistinct(task: string, name: string, cs: seq<Option<PyVec>>)
    requires '_' !in task
    ensures DistinctKeys(RunEntries(task, name, cs))
  {
    RunEntriesKeys(task, name, cs);
    RunKeysDistinct(task, name, RunEntries(task, name, cs));
  }

  /** Entries stored under run keys `1, 2, ..` of `<task>_<name>` have
      distinct keys. */
  lemma RunKeysDistinct(task: string, name: string, es: Contrasts)
    requires '_' !in task
    requires forall t :: 0 <= t < |es| ==> es[t].0 == RunKey(task, t + 1, name)
    ensures DistinctKeys(es)
  {
    forall t1, t2 | 0 <= t1 < t2 < |es|
      ensures es[t1].0 != es[t2].0
    {
      if es[t1].0 == es[t2].0 {
        RunKeyInjective(task, t1 + 1, name, task, t2 + 1, name);
      }
    }
  }

  /** Keys from different contrast ids never meet. */
  lemma DistinctJoin(a: Contrasts, b: Contrasts, cid: string)
    requires DistinctKeys(a) && DistinctKeys(b)
    requires forall t :: 0 <= t < |a| ==> SourceId(a[t].0) != cid
    requires forall t :: 0 <= t < |b| ==> SourceId(b[t].0) == cid
    ensures DistinctKeys(a + b)
  {
    var ab := a + b;
    forall t1, t2 | 0 <= t1 < t2 < |ab|
      ensures ab[t1].0 != ab[t2].0
    {
      if t2 < |a| {
        assert ab[t1] == a[t1] && ab[t2] == a[t2];
      } else if t1 >= |a| {
        assert ab[t1] == b[t1 - |a|] && ab[t2] == b[t2 - |a|];
      } else {
        assert ab[t1] == a[t1] && ab[t2] == b[t2 - |a|];
      }
    }
  }

  /** `id` is among the first `n` contrast ids. */
  predicate SeenId(contrasts: Contrasts, n: nat, id: string)
    requires n <= |contrasts|
  {
    n > 0 && (contrasts[n - 1].0 == id || SeenId(contrasts, n - 1, id))
  }

  /** With distinct contrast ids, the id at `n` is not among those before it. */
  lemma {:induction false} SeenIdFresh(contrasts: Contrasts, n: nat, m: nat)
    requires m <= n < |contrasts| && DistinctKeys(contrasts)
    ensures !SeenId(contrasts, m, contrasts[n].0)
  {
    if m > 0 {
      SeenIdFresh(contrasts, n, m - 1);
    }
  }

  /** The keys of `es` are distinct and each leads back to one of the first
      `n` contrast ids. */
  predicate Traced(contrasts: Contrasts, n: nat, es: Contrasts)
    requires n <= |contrasts|
  {
    DistinctKeys(es) && forall t :: 0 <= t < |es| ==> SeenId(contrasts, n, SourceId(es[t].0))
  }

  /** `Traced` as a property of a prefix length and the entries so far. */
  ghost function TracedAt(contrasts: Contrasts): (nat, Contrasts) -> bool
  {
    (i: nat, es: Contrasts) => i <= |contrasts| && Traced(contrasts, i, es)
  }

  /** With distinct contrast ids, the per-run keys are distinct too, each
      leading back to one of the ids seen. */
  lemma PerRunDistinct(contrasts: Contrasts, n: nat)
    requires n <= |contrasts| && DistinctKeys(contrasts)
    requires PerRunEntries(contrasts, n).Ok?
    ensures Traced(contrasts, n, PerRunEntries(contrasts, n).value)
  {
    PerRunStepsTraced(contrasts);
    ThenAllKeeps(PerRunSteps(contrasts), TracedAt(contrasts), n);
  }

  /** Every successful step of `one_map_per_run` keeps the entries traced. */
  lemma PerRunStepsTraced(contrasts: Contrasts)
    requires DistinctKeys(contrasts)
    ensures forall i: nat :: i < |PerRunSteps(contrasts)| ==> StepKeeps(PerRunSteps(contrasts), TracedAt(contrasts), i)
  {
    var steps, P := PerRunSteps(contrasts), TracedAt(contrasts);
    forall i: nat | i < |steps|
      ensures StepKeeps(steps, P, i)
    {
      if steps[i].Ok? {
        forall a | P(i, a)
          ensures P(i + 1, a + steps[i].value)
        {
          PerRunStepTraced(contrasts, i, a);
        }
      }
    }
  }

  /** One successful step keeps the entries traced. */
  lemma PerRunStepTraced(contrasts: Contrasts, i: nat, a: Contrasts)
    requires DistinctKeys(contrasts) && i < |PerRunSteps(contrasts)|
    requires TracedAt(contrasts)(i, a) && PerRunSteps(contrasts)[i].Ok?
    ensures TracedAt(contrasts)(i + 1, a + PerRunSteps(contrasts)[i].value)
  {
    var steps := PerRunSteps(contrasts);
    assert steps[i] == PerRunStep(contrasts[i]);
    IdAppended(contrasts, i, a, a + steps[i].value);
  }

  /** Appending the entries of contrast id `i` to entries traced to the ids
      before it gives entries traced to the ids up to `i`. */
  lemma IdAppended(contrasts: Contrasts, i: nat, a: Contrasts, ab: Contrasts)
    requires i < |contrasts| && DistinctKeys(contrasts) && '_' in contrasts[i].0
    requires Traced(contrasts, i, a)
    requires ab == a + RunEntries(Before(contrasts[i].0, '_'), After(contrasts[i].0, '_'), contrasts[i].1)
    ensures Traced(contrasts, i + 1, ab)
  {
    IdEntries(contrasts[i].0, contrasts[i].1);
    SeenJoin(contrasts, i, a, RunEntries(Before(contrasts[i].0, '_'), After(contrasts[i].0, '_'), contrasts[i].1));
  }

  /** The per-run entries of one contrast id have distinct keys, each
      leading back to that id. */
  lemma IdEntries(cid: string, cs: seq<Option<PyVec>>)
    requires '_' in cid
    ensures var b := RunEntries(Before(cid, '_'), After(cid, '_'), cs);
      DistinctKeys(b) && forall t :: 0 <= t < |b| ==> SourceId(b[t].0) == cid
  {
    RunEntriesSource(Before(cid, '_'), After(cid, '_'), cs);
    RunEntriesDistinct(Before(cid, '_'), After(cid, '_'), cs);
    assert Before(cid, '_') + "_" + After(cid, '_') == cid;
  }

  /** A contrast id with a `_` after a successful prefix extends it by its
      per-run entries. */
  lemma PerRunEntriesStep(contrasts: Contrasts, i: nat, done: Contrasts)
    requires i < |contrasts| && PerRunEntries(contrasts, i) == Ok(done) && '_' in contrasts[i].0
    ensures PerRunEntries(contrasts, i + 1) ==
      Ok(done + RunEntries(Before(contrasts[i].0, '_'), After(contrasts[i].0, '_'), contrasts[i].1))
  {
    var steps := PerRunSteps(contrasts);
    assert steps[i] == PerRunStep(contrasts[i]);
  }

  /** A contrast id without `_` makes the whole helper raise. */
  lemma PerRunEntriesRaise(contrasts: Contrasts, i: nat)
    requires i < |contrasts| && PerRunEntries(contrasts, i).Ok? && '_' !in contrasts[i].0
    ensures PerRun(contrasts) == Err(ValueError)
  {
    var steps := PerRunSteps(contrasts);
    assert steps[i] == PerRunStep(contrasts[i]);
    ThenAllRaiseAt(steps, i);
  }

  lemma SeenJoin(contrasts: Contrasts, i: nat, a: Contrasts, b: Contrasts)
    requires i < |contrasts| && DistinctKeys(contrasts)
    requires DistinctKeys(a) && DistinctKeys(b)
    requires forall t :: 0 <= t < |a| ==> SeenId(contrasts, i, SourceId(a[t].0))
    requires forall t :: 0 <= t < |b| ==> SourceId(b[t].0) == contrasts[i].0
    ensures DistinctKeys(a + b)
    ensures forall t :: 0 <= t < |a + b| ==> SeenId(contrasts, i + 1, SourceId((a + b)[t].0))
  {
    SeenIdFresh(contrasts, i, i);
    DistinctJoin(a, b, contrasts[i].0);
    forall t | 0 <= t < |a + b|
      ensures SeenId(contrasts, i + 1, SourceId((a + b)[t].0))
    {
      if t < |a| {
        assert (a + b)[t] == a[t];
      } else {
        assert (a + b)[t] == b[t - |a|];
      }
    }
  }

  /** With distinct contrast ids, each contributing session `j` of contrast
      `<task>_<name>` ends up under `<task>_run<NNN>_<name>`, NNN being its
      run number, with itself as the only non-None slot. */
  lemma PerRunGet(contrasts: Contrasts, i: nat, j: nat)
    requires DistinctKeys(contrasts) && PerRun(contrasts).Ok?
    requires i < |contrasts| && j < |contrasts[i].1| && Contributes(contrasts[i].1[j])
    ensures '_' in contrasts[i].0
    ensures var cid, cs := contrasts[i].0, contrasts[i].1;
      Get(PerRun(contrasts).value, RunKey(Before(cid, '_'), RunsBefore(cs, j) + 1, After(cid, '_')))
        == Some(Slot(|cs|, j, cs[j]))
  {
    var cid, cs := contrasts[i].0, contrasts[i].1;
    var steps := PerRunSteps(contrasts);
    var es := PerRunEntries(contrasts, |contrasts|).value;
    PerRunFails(contrasts);
    var key := RunKey(Before(cid, '_'), RunsBefore(cs, j) + 1, After(cid, '_'));
    ThenAllHas(steps, |contrasts|, i, (key, Slot(|cs|, j, cs[j])));
    assert steps[i] == PerRunStep(contrasts[i]);
    RunEntriesAt(Before(cid, '_'), After(cid, '_'), cs, j);
    PerRunDistinct(contrasts, |contrasts|);
    GetMember(es, key, Slot(|cs|, j, cs[j]));
    PutAllGet([], es, key);
    LastWithDistinct(es, key);
  }

  /** Assigning what is left from session `i` on is handling session `i`,
      then assigning what is left after it. */
  lemma RunsFromStep(r: Contrasts, keyOf: nat -> string, cs: seq<Option<PyVec>>, i: nat, run: nat)
    requires i < |cs|
    ensures PutAll(r, RunsFrom(keyOf, cs, i, run)) ==
      if Contributes(cs[i]) then PutAll(Put(r, keyOf(run), Slot(|cs|, i, cs[i])), RunsFrom(keyOf, cs, i + 1, run + 1))
      else PutAll(r, RunsFrom(keyOf, cs, i + 1, run))
  {
    if Contributes(cs[i]) {
      PutAllCons(r, (keyOf(run), Slot(|cs|, i, cs[i])), RunsFrom(keyOf, cs, i + 1, run + 1));
    }
  }

  /** The inner loop for one contrast `<task>_<name>`, assigning into `d`:
      what is left to assign after session `i` is `RunsFrom(.., i, runId)`. */
  method SplitRuns(d: Contrasts, task: string, name: string, cs: seq<Option<PyVec>>) returns (r: Contrasts)
    ensures r == PutAll(d, RunEntries(task, name, cs))
  {
    r := d;
    ghost var keyOf := RunKeys(task, name);
    ghost var goal := PutAll(d, RunEntries(task, name, cs));
    var runId := 1;
    var i := 0;
    while i < |cs|
      invariant 0 <= i <= |cs|
      invariant PutAll(r, RunsFrom(keyOf, cs, i, runId)) == goal
    {
      RunsFromStep(r, keyOf, cs, i, runId);
      var sessionCon := cs[i];
      if Contributes(sessionCon) {
        var newConId := RunKey(task, runId, name);
        assert newConId == keyOf(runId);
        var slots := Slot(|cs|, i, sessionCon);
        r := Put(r, newConId, slots);
        runId := runId + 1;
      }
      i := i + 1;
    }
  }

  /** `one_map_per_run(contrasts)`. */
  method OneMapPerRun(contrasts: Contrasts) returns (r: Result<Contrasts>)
    ensures r == PerRun(contrasts)
  {
    var angry: Contrasts := [];
    ghost var done: Contrasts := [];
    var i := 0;
    while i < |contrasts|
      invariant 0 <= i <= |contrasts|
      invariant PerRunEntries(contrasts, i) == Ok(done)
      invariant angry == PutAll([], done)
    {
      var contrastId, cs := contrasts[i].0, contrasts[i].1;
      if '_' !in contrastId {
        PerRunEntriesRaise(contrasts, i);
        return Err(ValueError);
      }
      var taskId, conName := Before(contrastId, '_'), After(contrastId, '_');
      ghost var more := RunEntries(taskId, conName, cs);
      angry := SplitRuns(angry, taskId, conName, cs);
      PutAllConcat([], done, more);
      PerRunEntriesStep(contrasts, i, done);
      done := done + more;
      i := i + 1;
    }
    return Ok(angry);
  }

  /** `sanitize_contrast(contrasts, per_run)`. The `insert_derivative`
      argument is never read, so it is not a parameter here. */
  method SanitizeContrast(contrasts: Contrasts, perRun: bool) returns (r: Result<Contrasts>)
    ensures !perRun ==> r == Ok(PutAll([], SanitizedEntries(contrasts)))
    ensures perRun ==> r == PerRun(PutAll([], SanitizedEntries(contrasts)))
  {
    var angry := SanitizeAll(contrasts);
    if perRun {
      r := OneMapPerRun(angry);
    } else {
      r := Ok(angry);
    }
  }
}
