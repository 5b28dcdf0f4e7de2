/** Option and Result, the two shapes every operation of the model returns
    when the Python code can yield None or raise. */
module Wrappers {

  datatype Option<+T> = None | Some(value: T)

  /** The Python exceptions the modelled code can raise. */
  datatype PyError =
    | IndexError   // an index or a boolean mask that does not fit the array
    | ValueError   // a tuple unpacking of the wrong arity, an impossible assignment
    | AttributeError  // an attribute read before anything set it

  datatype Result<+T> = Ok(value: T) | Err(error: PyError)

  /** Two steps that each yield a list, run in order: the first error stops
      everything, otherwise the lists are concatenated. */
  function Then<T>(first: Result<seq<T>>, next: Result<seq<T>>): Result<seq<T>> {
    match first
    case Err(e) => Err(e)
    case Ok(xs) =>
      match next
      case Err(e) => Err(e)
      case Ok(ys) => Ok(xs + ys)
  }

  /** The first `n` of a list of steps run in order with Then. */
  function ThenAll<T>(steps: seq<Result<seq<T>>>, n: nat): Result<seq<T>>
    requires n <= |steps|
  {
    if n == 0 then Ok([]) else Then(ThenAll(steps, n - 1), steps[n - 1])
  }

  /** When every step yields one element, a successful run yields the
      element of each step, in order. */
  lemma {:induction false} ThenAllSingles<T>(steps: seq<Result<seq<T>>>, n: nat)
    requires n <= |steps| && ThenAll(steps, n).Ok?
    requires forall i :: 0 <= i < n && steps[i].Ok? ==> |steps[i].value| == 1
    ensures |ThenAll(steps, n).value| == n
    ensures forall i :: 0 <= i < n ==> steps[i].Ok? && ThenAll(steps, n).value[i] == steps[i].value[0]
  {
    if n > 0 {
      ThenAllSingles(steps, n - 1);
    }
  }

  /** Once a step fails, every later prefix fails with the same error. */
  lemma {:induction false} ThenAllRaises<T>(steps: seq<Result<seq<T>>>, m: nat, n: nat)
    requires m <= n <= |steps|
    requires ThenAll(steps, m).Err?
    ensures ThenAll(steps, n) == ThenAll(steps, m)
    decreases n - m
  {
    if m < n {
      ThenAllRaises(steps, m + 1, n);
    }
  }

  /** Step `i`, when it succeeds, takes every result `a` with `P(i, a)` to
      one with `P(i + 1, ..)`. */
  ghost predicate StepKeeps<T(!new)>(steps: seq<Result<seq<T>>>, P: (nat, seq<T>) -> bool, i: nat)
    requires i < |steps|
  {
    steps[i].Ok? ==> forall a :: P(i, a) ==> P(i + 1, a + steps[i].value)
  }

  /** A property of the results so far that holds at the start and that
      every successful step keeps holds of every successful prefix. */
  lemma {:induction false} ThenAllKeeps<T(!new)>(steps: seq<Result<seq<T>>>, P: (nat, seq<T>) -> bool, n: nat)
    requires n <= |steps| && P(0, [])
    requires forall i: nat :: i < |steps| ==> StepKeeps(steps, P, i)
    ensures ThenAll(steps, n).Ok? ==> P(n, ThenAll(steps, n).value)
  {
    if n > 0 && ThenAll(steps, n).Ok? {
      ThenAllKeeps(steps, P, n - 1);
      ThenAllKeepsStep(steps, P, n, ThenAll(steps, n - 1).value);
    }
  }

  /** The inductive step of `ThenAllKeeps`. */
  lemma ThenAllKeepsStep<T(!new)>(steps: seq<Result<seq<T>>>, P: (nat, seq<T>) -> bool, n: nat, a: seq<T>)
    requires 0 < n <= |steps| && ThenAll(steps, n).Ok? && ThenAll(steps, n - 1) == Ok(a) && P(n - 1, a)
    requires StepKeeps(steps, P, n - 1)
    ensures P(n, ThenAll(steps, n).value)
  {
    assert steps[n - 1].Ok? && ThenAll(steps, n).value == a + steps[n - 1].value;
    assert P(n - 1 + 1, a + steps[n - 1].value);
  }

  /** A step that fails after a successful prefix decides the whole run. */
  lemma ThenAllRaiseAt<T>(steps: seq<Result<seq<T>>>, i: nat)
    requires i < |steps| && ThenAll(steps, i).Ok? && steps[i].Err?
    ensures ThenAll(steps, |steps|) == Err(steps[i].error)
  {
    ThenAllRaises(steps, i + 1, |steps|);
  }

  /** When every step yields `len` items, `n` successful steps yield `n * len`. */
  lemma {:induction false} ThenAllLength<T>(steps: seq<Result<seq<T>>>, n: nat, len: nat)
    requires n <= |steps|
    requires forall i :: 0 <= i < n && steps[i].Ok? ==> |steps[i].value| == len
    requires ThenAll(steps, n).Ok?
    ensures |ThenAll(steps, n).value| == n * len
  {
    if n > 0 {
      ThenAllLength(steps, n - 1, len);
      assert (n - 1) * len + len == n * len;
    }
  }

  /** The steps fail exactly when one of them does. */
  lemma {:induction false} ThenAllFails<T>(steps: seq<Result<seq<T>>>, n: nat)
    requires n <= |steps|
    ensures ThenAll(steps, n).Err? <==> exists t :: 0 <= t < n && steps[t].Err?
  {
    if n > 0 {
      ThenAllFails(steps, n - 1);
    }
  }

  /** What a step yields is part of what the whole run yields. */
  lemma {:induction false} ThenAllHas<T>(steps: seq<Result<seq<T>>>, n: nat, i: nat, x: T)
    requires i < n <= |steps|
    requires ThenAll(steps, n).Ok?
    ensures steps[i].Ok?
    ensures x in steps[i].value ==> x in ThenAll(steps, n).value
  {
    assert ThenAll(steps, n - 1).Ok? && steps[n - 1].Ok?;
    if i < n - 1 {
      ThenAllHas(steps, n - 1, i, x);
    }
  }

  /** One more successful step appends what it yields. */
  lemma ThenAllStep<T>(steps: seq<Result<seq<T>>>, i: nat, done: seq<T>, more: seq<T>)
    requires i < |steps| && ThenAll(steps, i) == Ok(done) && steps[i] == Ok(more)
    ensures ThenAll(steps, i + 1) == Ok(done + more)
  {
  }

  /** The first `n` of a list of steps that each yield one item, run in
      order: the first error stops everything. */
  function Collect<T>(steps: seq<Result<T>>, n: nat): Result<seq<T>>
    requires n <= |steps|
  {
    if n == 0 then Ok([])
    else
      match Collect(steps, n - 1)
      case Err(e) => Err(e)
      case Ok(xs) =>
        match steps[n - 1]
        case Err(e) => Err(e)
        case Ok(x) => Ok(xs + [x])
  }

  /** A successful run yields one item per step, each the value of its step. */
  lemma {:induction false} CollectShape<T>(steps: seq<Result<T>>, n: nat)
    requires n <= |steps| && Collect(steps, n).Ok?
    ensures |Collect(steps, n).value| == n
    ensures forall i :: 0 <= i < n ==> steps[i] == Ok(Collect(steps, n).value[i])
  {
    if n > 0 {
      CollectShape(steps, n - 1);
      var xs := Collect(steps, n - 1).value;
      assert Collect(steps, n).value == xs + [steps[n - 1].value];
    }
  }

  /** Once a step fails, every later prefix fails with the same error. */
  lemma {:induction false} CollectRaises<T>(steps: seq<Result<T>>, m: nat, n: nat)
    requires m <= n <= |steps| && Collect(steps, m).Err?
    ensures Collect(steps, n) == Collect(steps, m)
    decreases n - m
  {
    if m < n {
      CollectRaises(steps, m + 1, n);
    }
  }

  /** A step that fails after a successful prefix decides the whole run. */
  lemma CollectRaiseAt<T>(steps: seq<Result<T>>, i: nat)
    requires i < |steps| && Collect(steps, i).Ok? && steps[i].Err?
    ensures Collect(steps, |steps|) == Err(steps[i].error)
  {
    CollectRaises(steps, i + 1, |steps|);
  }

  lemma PrefixSnoc<T>(s: seq<T>, j: nat)
    requires j < |s|
    ensures s[..j + 1] == s[..j] + [s[j]]
  {
  }
}
