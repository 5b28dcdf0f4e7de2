/** The first contrast helper of utils.py, `contrasts_spec`, which splits
    every contrast into one contrast per session. Contrast dictionaries are
    association lists (module Dicts); the input's list order is the order
    the loop visits it in. */
module SpecUtils {
  import opened Wrappers
  import opened PyStr
  import opened Dicts
  import opened Vectors

  /** `'%s_run%03i_%s' % (task, run, name)`. */
  function RunKey(task: string, run: nat, name: string): string {
    task + "_run" + ZeroPad3(run) + "_" + name
  }

  /** Text before a separator that does not occur in it is determined by the
      whole string. */
  lemma SeparatedUnique(a1: string, b1: string, a2: string, b2: string, c: char)
    requires c !in a1 && c !in a2
    requires a1 + [c] + b1 == a2 + [c] + b2
    ensures a1 == a2 && b1 == b2
  {
    var s := a1 + [c] + b1;
    assert s[..|a1|] == a1 && s[|a1|] == c;
    assert s[..|a2|] == a2 && s[|a2|] == c;
    BeforeAt(s, c, |a1|);
    BeforeAt(s, c, |a2|);
    assert b1 == s[|a1| + 1..] && b2 == s[|a2| + 1..];
  }

  lemma RunKeySplit(task: string, run: nat, name: string)
    ensures RunKey(task, run, name) == task + ['_'] + ("run" + ZeroPad3(run) + ['_'] + name)
  {
  }

  lemma RunKeyTail(run: nat, name: string)
    ensures "run" + ZeroPad3(run) + ['_'] + name == "run" + (ZeroPad3(run) + ['_'] + name)
  {
  }

  /** Run keys never collide: a task without `_`, the run number and the
      contrast name can all be read back from the key. */
  lemma RunKeyInjective(t1: string, r1: nat, n1: string, t2: string, r2: nat, n2: string)
    requires '_' !in t1 && '_' !in t2
    requires RunKey(t1, r1, n1) == RunKey(t2, r2, n2)
    ensures t1 == t2 && r1 == r2 && n1 == n2
  {
    var d1, d2 := ZeroPad3(r1), ZeroPad3(r2);
    RunKeySplit(t1, r1, n1);
    RunKeySplit(t2, r2, n2);
    SeparatedUnique(t1, "run" + d1 + ['_'] + n1, t2, "run" + d2 + ['_'] + n2, '_');
    RunKeyTail(r1, n1);
    RunKeyTail(r2, n2);
    var rest1, rest2 := d1 + ['_'] + n1, d2 + ['_'] + n2;
    assert rest1 == ("run" + rest1)[3..] && rest2 == ("run" + rest2)[3..];
    ZeroPad3RoundTrip(r1);
    ZeroPad3RoundTrip(r2);
    assert '_' !in d1 && '_' !in d2;
    SeparatedUnique(d1, n1, d2, n2, '_');
  }

  // ---------------------------------------------------------------------
  // contrasts_spec

  /** NumPy accepts an index into an axis of length `n` from `-n` to `n - 1`. */
  predicate InRange(j: int, n: nat) {
    -(n as int) <= j < n
  }

  /** The position a NumPy index denotes; a negative index counts from the end. */
  function Wrap(j: int, n: nat): int {
    if j < 0 then j + n else j
  }

  /** Position `p` is named by one of the session's indices. */
  predicate Selected(spec: seq<int>, n: nat, p: int) {
    exists t :: 0 <= t < |spec| && InRange(spec[t], n) && Wrap(spec[t], n) == p
  }

  /** `con` restricted to a session: `selection[session_spec] = False;
      con[selection] = 0`. An index out of range raises an IndexError. */
  function Restricted(con: seq<real>, spec: seq<int>): Result<seq<real>>
  {
    if exists t :: 0 <= t < |spec| && !InRange(spec[t], |con|) then Err(IndexError)
    else Ok(seq(|con|, p requires 0 <= p < |con| => if Selected(spec, |con|, p) then con[p] else 0.0))
  }

  /** The restriction has the contrast's length, keeps the entries at the
      session's indices and zeroes all others; it fails exactly when an index
      is out of range. */
  lemma RestrictedShape(con: seq<real>, spec: seq<int>)
    ensures Restricted(con, spec).Err? <==> exists t :: 0 <= t < |spec| && !InRange(spec[t], |con|)
    ensures Restricted(con, spec).Ok? ==>
      var v := Restricted(con, spec).value;
      && |v| == |con|
      && (forall p :: 0 <= p < |con| && Selected(spec, |con|, p) ==> v[p] == con[p])
      && (forall p :: 0 <= p < |con| && !Selected(spec, |con|, p) ==> v[p] == 0.0)
  {
  }

  /** Restricting to the same session a second time changes nothing. */
  lemma RestrictedIdempotent(con: seq<real>, spec: seq<int>)
    requires Restricted(con, spec).Ok?
    ensures Restricted(Restricted(con, spec).value, spec) == Restricted(con, spec)
  {
    var v := Restricted(con, spec).value;
    assert |v| == |con|;
    assert forall t :: 0 <= t < |spec| ==> InRange(spec[t], |v|);
    var w := seq(|v|, p requires 0 <= p < |v| => if Selected(spec, |v|, p) then v[p] else 0.0);
    assert w == v;
  }

  /** The in-place version: a boolean `selection` array cleared at the
      session's indices, then a copy of the contrast zeroed where the
      selection is still set. */
  method RestrictToSession(con: seq<real>, spec: seq<int>) returns (r: Result<seq<real>>)
    ensures r == Restricted(con, spec)
  {
    var n := |con|;
    var selection := new bool[n](_ => true);
    var t := 0;
    while t < |spec|
      invariant 0 <= t <= |spec|
      invariant forall u :: 0 <= u < t ==> InRange(spec[u], n)
      invariant forall p :: 0 <= p < n ==> (selection[p] <==> !Selected(spec[..t], n, p))
    {
      if !InRange(spec[t], n) {
        return Err(IndexError);
      }
      selection[Wrap(spec[t], n)] := false;
      forall p | 0 <= p < n
        ensures Selected(spec[..t + 1], n, p) <==> Selected(spec[..t], n, p) || Wrap(spec[t], n) == p
      {
        assert spec[..t + 1] == spec[..t] + [spec[t]];
        if Selected(spec[..t + 1], n, p) && Wrap(spec[t], n) != p {
          var u :| 0 <= u < t + 1 && InRange(spec[..t + 1][u], n) && Wrap(spec[..t + 1][u], n) == p;
          assert u < t && spec[..t][u] == spec[u];
        }
        if Selected(spec[..t], n, p) {
          var u :| 0 <= u < t && InRange(spec[..t][u], n) && Wrap(spec[..t][u], n) == p;
          assert spec[..t + 1][u] == spec[u];
        }
        if Wrap(spec[t], n) == p {
          assert spec[..t + 1][t] == spec[t];
        }
      }
      t := t + 1;
    }
    assert spec[..t] == spec;
    var out := new real[n](p requires 0 <= p < n => con[p]);
    var p := 0;
    while p < n
      modifies out
      invariant 0 <= p <= n
      invariant forall q :: 0 <= q < n ==> out[q] == if q < p && selection[q] then 0.0 else con[q]
    {
      if selection[p] {
        out[p] := 0.0;
      }
      p := p + 1;
    }
    forall q | 0 <= q < n
      ensures out[q] == if Selected(spec, n, q) then con[q] else 0.0
    {
    }
    assert out[..] == seq(n, p requires 0 <= p < n => if Selected(spec, n, p) then con[p] else 0.0);
    return Ok(out[..]);
  }

  /** The key of session `i` of contrast `k`: keys not starting with `task`
      are first prefixed with `task001_`, then split at the first `_` into
      task and name; a key with no `_` cannot be unpacked. */
  function SpecKey(k: string, i: nat): Result<string>
  {
    var newK := if StartsWith(k, "task") then k else "task001_" + k;
    if '_' !in newK then Err(ValueError)
    else Ok(RunKey(Before(newK, '_'), i + 1, After(newK, '_')))
  }

  /** Only a `task...` key without any `_` fails, and a successful key reads
      `<task>_run<i + 1>_<name>` with the task free of `_`. */
  lemma SpecKeyShape(k: string, i: nat)
    ensures SpecKey(k, i).Err? <==> StartsWith(k, "task") && '_' !in k
    ensures SpecKey(k, i).Ok? ==>
      var newK := if StartsWith(k, "task") then k else "task001_" + k;
      && newK == Before(newK, '_') + "_" + After(newK, '_')
      && '_' !in Before(newK, '_')
      && SpecKey(k, i).value == RunKey(Before(newK, '_'), i + 1, After(newK, '_'))
  {
    if !StartsWith(k, "task") {
      var newK := "task001_" + k;
      assert newK[7] == '_';
    }
  }

  /** A key without the `task` prefix lands on the same output key as the
      same key written with `task001_`: the later of the two overwrites the
      earlier one. */
  lemma SpecKeyPrefixCollision(k: string, i: nat)
    requires !StartsWith(k, "task")
    ensures SpecKey(k, i) == SpecKey("task001_" + k, i)
  {
    var newK := "task001_" + k;
    assert newK[..4] == "task";
  }

  /** The assignment `contrasts_spec` makes for session `i` of contrast `k`. */
  function SessionEntry(k: string, con: seq<real>, spec: seq<int>, i: nat): Result<(string, seq<real>)>
  {
    match Restricted(con, spec)
    case Err(e) => Err(e)
    case Ok(v) =>
      match SpecKey(k, i)
      case Err(e) => Err(e)
      case Ok(key) => Ok((key, v))
  }

  /** The assignment for each session of contrast `k`. */
  function SessionSteps(k: string, con: seq<real>, sessions: seq<seq<int>>): (r: seq<Result<(string, seq<real>)>>)
    ensures |r| == |sessions|
  {
    seq(|sessions|, i requires 0 <= i < |sessions| => SessionEntry(k, con, sessions[i], i))
  }

  /** The entries `contrasts_spec` assigns for the first `m` sessions of one
      contrast, in order; the first error stops everything. */
  function SessionEntries(k: string, con: seq<real>, sessions: seq<seq<int>>, m: nat)
    : Result<seq<(string, seq<real>)>>
    requires m <= |sessions|
  {
    Collect(SessionSteps(k, con, sessions), m)
  }

  /** The entries of each contrast, one step per contrast. */
  function ContrastSteps(contrasts: Dict<seq<real>>, sessions: seq<seq<int>>): (r: seq<Result<seq<(string, seq<real>)>>>)
    ensures |r| == |contrasts|
  {
    seq(|contrasts|, c requires 0 <= c < |contrasts| => SessionEntries(contrasts[c].0, contrasts[c].1, sessions, |sessions|))
  }

  /** The entries stored for the first `c` contrasts. */
  function SpecEntries(contrasts: Dict<seq<real>>, sessions: seq<seq<int>>, c: nat)
    : Result<seq<(string, seq<real>)>>
    requires c <= |contrasts|
  {
    ThenAll(ContrastSteps(contrasts, sessions), c)
  }

  /** What `contrasts_spec(contrasts, sessions_spec)` returns. */
  function ContrastsSpecResult(contrasts: Dict<seq<real>>, sessions: seq<seq<int>>): Result<Dict<seq<real>>>
  {
    match SpecEntries(contrasts, sessions, |contrasts|)
    case Err(e) => Err(e)
    case Ok(es) => Ok(PutAll([], es))
  }

  /** Session `i` of a contrast yields the entry `(SpecKey(k, i), restriction
      of the contrast to session i)`, one per session in order. */
  lemma SessionEntriesShape(k: string, con: seq<real>, sessions: seq<seq<int>>, m: nat)
    requires m <= |sessions|
    requires SessionEntries(k, con, sessions, m).Ok?
    ensures |SessionEntries(k, con, sessions, m).value| == m
    ensures forall i :: 0 <= i < m ==>
      SessionEntry(k, con, sessions[i], i) == Ok(SessionEntries(k, con, sessions, m).value[i])
  {
    var steps := SessionSteps(k, con, sessions);
    CollectShape(steps, m);
    assert forall i :: 0 <= i < m ==> steps[i] == SessionEntry(k, con, sessions[i], i);
  }

  /** Once a session fails, the whole contrast fails with the same error. */
  lemma SessionEntriesRaises(k: string, con: seq<real>, sessions: seq<seq<int>>, m: nat, n: nat)
    requires m <= n <= |sessions|
    requires SessionEntries(k, con, sessions, m).Err?
    ensures SessionEntries(k, con, sessions, n) == SessionEntries(k, con, sessions, m)
  {
    CollectRaises(SessionSteps(k, con, sessions), m, n);
  }

  /** Every contrast contributes one entry per session: `|contrasts| *
      |sessions|` assignments, contrast by contrast. */
  lemma SpecEntriesCount(contrasts: Dict<seq<real>>, sessions: seq<seq<int>>, c: nat)
    requires c <= |contrasts|
    requires SpecEntries(contrasts, sessions, c).Ok?
    ensures |SpecEntries(contrasts, sessions, c).value| == c * |sessions|
  {
    var steps := ContrastSteps(contrasts, sessions);
    forall i | 0 <= i < c && steps[i].Ok?
      ensures |steps[i].value| == |sessions|
    {
      SessionEntriesShape(contrasts[i].0, contrasts[i].1, sessions, |sessions|);
    }
    ThenAllLength(steps, c, |sessions|);
  }

  /** Each output key holds the vector of the last assignment to it, and the
      keys are exactly the keys stored. */
  lemma ContrastsSpecGet(contrasts: Dict<seq<real>>, sessions: seq<seq<int>>, key: string)
    requires ContrastsSpecResult(contrasts, sessions).Ok?
    ensures var es := SpecEntries(contrasts, sessions, |contrasts|).value;
      var d := ContrastsSpecResult(contrasts, sessions).value;
      Get(d, key) == LastWith(es, key) && KeySet(d) == KeySet(es)
  {
    var es := SpecEntries(contrasts, sessions, |contrasts|).value;
    PutAllGet([], es, key);
    PutAllKeys([], es);
  }

  /** A session that yields an entry after a successful prefix extends it. */
  lemma SessionEntriesStep(k: string, con: seq<real>, sessions: seq<seq<int>>, i: nat, cur: seq<(string, seq<real>)>)
    requires i < |sessions| && SessionEntries(k, con, sessions, i) == Ok(cur)
    requires SessionEntry(k, con, sessions[i], i).Ok?
    ensures SessionEntries(k, con, sessions, i + 1) == Ok(cur + [SessionEntry(k, con, sessions[i], i).value])
  {
    var steps := SessionSteps(k, con, sessions);
    assert steps[i] == SessionEntry(k, con, sessions[i], i);
  }

  /** A session that fails after a successful prefix makes the whole
      contrast fail with its error. */
  lemma SessionEntriesRaise(k: string, con: seq<real>, sessions: seq<seq<int>>, i: nat)
    requires i < |sessions| && SessionEntries(k, con, sessions, i).Ok?
    requires SessionEntry(k, con, sessions[i], i).Err?
    ensures SessionEntries(k, con, sessions, |sessions|) == Err(SessionEntry(k, con, sessions[i], i).error)
  {
    var steps := SessionSteps(k, con, sessions);
    assert steps[i] == SessionEntry(k, con, sessions[i], i);
    CollectRaiseAt(steps, i);
  }

  /** The inner loop of `contrasts_spec` for contrast `k`: one restricted copy
      per session, stored under its run key. */
  method AssignSessions(d: Dict<seq<real>>, k: string, contrast: seq<real>, sessions: seq<seq<int>>)
    returns (r: Result<Dict<seq<real>>>)
    ensures SessionEntries(k, contrast, sessions, |sessions|).Err? ==>
      r == Err(SessionEntries(k, contrast, sessions, |sessions|).error)
    ensures SessionEntries(k, contrast, sessions, |sessions|).Ok? ==>
      r == Ok(PutAll(d, SessionEntries(k, contrast, sessions, |sessions|).value))
  {
    var newContrasts := d;
    ghost var cur: seq<(string, seq<real>)> := [];
    var i := 0;
    while i < |sessions|
      invariant 0 <= i <= |sessions|
      invariant SessionEntries(k, contrast, sessions, i) == Ok(cur)
      invariant newContrasts == PutAll(d, cur)
    {
      var con := RestrictToSession(contrast, sessions[i]);
      var newK := SpecKey(k, i);
      if con.Err? || newK.Err? {
        SessionEntriesRaise(k, contrast, sessions, i);
        return Err(if con.Err? then con.error else newK.error);
      }
      SessionEntriesStep(k, contrast, sessions, i, cur);
      newContrasts := Put(newContrasts, newK.value, con.value);
      PutAllSnoc(d, cur, (newK.value, con.value));
      cur := cur + [(newK.value, con.value)];
      i := i + 1;
    }
    return Ok(newContrasts);
  }

  /** A contrast whose sessions all yield entries extends a successful
      prefix by them. */
  lemma SpecEntriesStep(contrasts: Dict<seq<real>>, sessions: seq<seq<int>>, c: nat, done: seq<(string, seq<real>)>)
    requires c < |contrasts| && SpecEntries(contrasts, sessions, c) == Ok(done)
    requires SessionEntries(contrasts[c].0, contrasts[c].1, sessions, |sessions|).Ok?
    ensures SpecEntries(contrasts, sessions, c + 1) ==
      Ok(done + SessionEntries(contrasts[c].0, contrasts[c].1, sessions, |sessions|).value)
  {
    var steps := ContrastSteps(contrasts, sessions);
    assert steps[c] == SessionEntries(contrasts[c].0, contrasts[c].1, sessions, |sessions|);
  }

  /** A contrast that fails after a successful prefix makes the whole call
      fail with its error. */
  lemma SpecEntriesRaise(contrasts: Dict<seq<real>>, sessions: seq<seq<int>>, c: nat)
    requires c < |contrasts| && SpecEntries(contrasts, sessions, c).Ok?
    requires SessionEntries(contrasts[c].0, contrasts[c].1, sessions, |sessions|).Err?
    ensures SpecEntries(contrasts, sessions, |contrasts|) ==
      Err(SessionEntries(contrasts[c].0, contrasts[c].1, sessions, |sessions|).error)
  {
    var steps := ContrastSteps(contrasts, sessions);
    assert steps[c] == SessionEntries(contrasts[c].0, contrasts[c].1, sessions, |sessions|);
    ThenAllRaiseAt(steps, c);
  }

  /** `contrasts_spec(contrasts, sessions_spec)`: for every contrast and every
      session, restrict a fresh copy of the vector and store it under the run
      key. The input is only read. */
  method ContrastsSpec(contrasts: Dict<seq<real>>, sessions: seq<seq<int>>) returns (r: Result<Dict<seq<real>>>)
    ensures r == ContrastsSpecResult(contrasts, sessions)
  {
    var newContrasts: Dict<seq<real>> := [];
    ghost var done: seq<(string, seq<real>)> := [];
    var c := 0;
    while c < |contrasts|
      invariant 0 <= c <= |contrasts|
      invariant SpecEntries(contrasts, sessions, c) == Ok(done)
      invariant newContrasts == PutAll([], done)
    {
      var k, contrast := contrasts[c].0, contrasts[c].1;
      var stored := AssignSessions(newContrasts, k, contrast, sessions);
      if stored.Err? {
        SpecEntriesRaise(contrasts, sessions, c);
        return Err(stored.error);
      }
      ghost var more := SessionEntries(k, contrast, sessions, |sessions|).value;
      SpecEntriesStep(contrasts, sessions, c, done);
      PutAllConcat([], done, more);
      newContrasts := stored.value;
      done := done + more;
      c := c + 1;
    }
    return Ok(newContrasts);
  }
}
