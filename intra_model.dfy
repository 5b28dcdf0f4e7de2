/** `IntraLinearModel` of intra_analysis.py: which sessions are fitted, which
    sessions a contrast draws on and in what order their contributions are
    summed, and which statistic maps are written where. The GLM fit and the
    contrast statistics are the external library's; a contrast object is
    modelled by the terms that were added up to make it. */
module IntraModel {
  import opened Wrappers
  import opened PyStr
  import opened GlmDesign
  import opened Vectors

  /** `glm.contrast(weights)` for one session, or the sum `lhs + rhs` of two
      contrast objects. */
  datatype ContrastTerm =
    | SessionContrast(glm: Glm, weights: seq<real>)
    | Sum(lhs: ContrastTerm, rhs: ContrastTerm)

  /** The per-session contributions of a contrast object, left to right. The
      library's `+` is associative, so this is all its value depends on. */
  function Summands(t: ContrastTerm): (s: seq<ContrastTerm>)
    ensures |s| >= 1
  {
    match t
    case SessionContrast(_, _) => [t]
    case Sum(l, r) => Summands(l) + Summands(r)
  }

  /** The pairs `(design_matrix, session_data)` that `fit` passes to `_fit_glm`:
      `zip` stops at the shorter list and a session with either part `None`
      is dropped. */
  function FittedSessions(designs: seq<Option<DesignMatrix>>, data: seq<Option<SessionData>>)
    : seq<(DesignMatrix, SessionData)>
  {
    if |designs| == 0 || |data| == 0 then []
    else
      (if designs[0].Some? && data[0].Some? then [(designs[0].value, data[0].value)] else [])
        + FittedSessions(designs[1..], data[1..])
  }

  predicate Present(designs: seq<Option<DesignMatrix>>, data: seq<Option<SessionData>>, i: int) {
    0 <= i < |designs| && i < |data| && designs[i].Some? && data[i].Some?
  }

  predicate Increasing(s: seq<nat>) {
    forall t, u :: 0 <= t < u < |s| ==> s[t] < s[u]
  }

  /** `idx` lists, in increasing order, exactly the positions where both the
      design and the data are present, and `kept` holds those sessions. */
  ghost predicate ListsPresent(designs: seq<Option<DesignMatrix>>, data: seq<Option<SessionData>>,
                         kept: seq<(DesignMatrix, SessionData)>, idx: seq<nat>)
  {
    && |idx| == |kept|
    && (forall t :: 0 <= t < |idx| ==>
          (Present(designs, data, idx[t]) && kept[t] == (designs[idx[t]].value, data[idx[t]].value)))
    && Increasing(idx)
    && (forall i :: Present(designs, data, i) ==> i in idx)
  }

  /** `fit` keeps exactly the sessions whose design and data are both present,
      in their original order: `idx` lists their positions. */
  lemma {:induction false} FittedSessionsKeepPresent(designs: seq<Option<DesignMatrix>>, data: seq<Option<SessionData>>)
    returns (idx: seq<nat>)
    ensures ListsPresent(designs, data, FittedSessions(designs, data), idx)
  {
    if |designs| == 0 || |data| == 0 {
      idx := [];
    } else {
      var rest := FittedSessionsKeepPresent(designs[1..], data[1..]);
      idx := ListsPresentCons(designs, data, rest);
    }
  }

  lemma ListsPresentCons(designs: seq<Option<DesignMatrix>>, data: seq<Option<SessionData>>, rest: seq<nat>)
    returns (idx: seq<nat>)
    requires |designs| > 0 && |data| > 0
    requires ListsPresent(designs[1..], data[1..], FittedSessions(designs[1..], data[1..]), rest)
    ensures ListsPresent(designs, data, FittedSessions(designs, data), idx)
  {
    var kept' := FittedSessions(designs[1..], data[1..]);
    var shifted := ShiftedPositions(designs, data, kept', rest);
    if designs[0].Some? && data[0].Some? {
      assert FittedSessions(designs, data) == [(designs[0].value, data[0].value)] + kept';
      idx := [0] + shifted;
      PresentFirst(designs, data, kept', shifted);
    } else {
      assert FittedSessions(designs, data) == kept';
      idx := shifted;
      AbsentFirst(designs, data, kept', shifted);
    }
  }

  /** The positions of the tail's sessions, behind a present first session. */
  lemma PresentFirst(designs: seq<Option<DesignMatrix>>, data: seq<Option<SessionData>>,
                     kept': seq<(DesignMatrix, SessionData)>, shifted: seq<nat>)
    requires Present(designs, data, 0)
    requires |shifted| == |kept'|
    requires forall t :: 0 <= t < |shifted| ==>
      (0 < shifted[t] && Present(designs, data, shifted[t])
       && kept'[t] == (designs[shifted[t]].value, data[shifted[t]].value))
    requires Increasing(shifted)
    requires forall i :: Present(designs, data, i) && i > 0 ==> i in shifted
    ensures ListsPresent(designs, data, [(designs[0].value, data[0].value)] + kept', [0] + shifted)
  {
    var kept := [(designs[0].value, data[0].value)] + kept';
    var idx := [0] + shifted;
    forall t | 0 <= t < |idx|
      ensures Present(designs, data, idx[t]) && kept[t] == (designs[idx[t]].value, data[idx[t]].value)
    {
      if t > 0 {
        assert idx[t] == shifted[t - 1] && kept[t] == kept'[t - 1];
      }
    }
    IncreasingCons(shifted);
    forall i | Present(designs, data, i)
      ensures i in idx
    {
      if i > 0 { assert i in shifted; }
    }
  }

  /** The positions of the tail's sessions, behind an absent first session. */
  lemma AbsentFirst(designs: seq<Option<DesignMatrix>>, data: seq<Option<SessionData>>,
                    kept': seq<(DesignMatrix, SessionData)>, shifted: seq<nat>)
    requires !Present(designs, data, 0)
    requires |shifted| == |kept'|
    requires forall t :: 0 <= t < |shifted| ==>
      (0 < shifted[t] && Present(designs, data, shifted[t])
       && kept'[t] == (designs[shifted[t]].value, data[shifted[t]].value))
    requires Increasing(shifted)
    requires forall i :: Present(designs, data, i) && i > 0 ==> i in shifted
    ensures ListsPresent(designs, data, kept', shifted)
  {
    forall i | Present(designs, data, i)
      ensures i in shifted
    {
      assert i > 0;
    }
  }

  lemma IncreasingCons(s: seq<nat>)
    requires Increasing(s)
    requires forall t :: 0 <= t < |s| ==> 0 < s[t]
    ensures Increasing([0] + s)
  {
    var s0 := [0] + s;
    forall t, u | 0 <= t < u < |s0|
      ensures s0[t] < s0[u]
    {
      assert s0[u] == s[u - 1];
      if t > 0 { assert s0[t] == s[t - 1]; }
    }
  }

  /** The positions of the tail's sessions, renumbered for the whole list. */
  lemma ShiftedPositions(designs: seq<Option<DesignMatrix>>, data: seq<Option<SessionData>>,
                         kept': seq<(DesignMatrix, SessionData)>, rest: seq<nat>)
    returns (shifted: seq<nat>)
    requires |designs| > 0 && |data| > 0
    requires ListsPresent(designs[1..], data[1..], kept', rest)
    ensures && |shifted| == |kept'|
      && (forall t :: 0 <= t < |shifted| ==>
            (0 < shifted[t] && Present(designs, data, shifted[t])
             && kept'[t] == (designs[shifted[t]].value, data[shifted[t]].value)))
      && Increasing(shifted)
      && (forall i :: Present(designs, data, i) && i > 0 ==> i in shifted)
  {
    var d', y' := designs[1..], data[1..];
    shifted := seq(|rest|, t requires 0 <= t < |rest| => rest[t] + 1);
    forall t | 0 <= t < |rest|
      ensures Present(designs, data, shifted[t])
      ensures kept'[t] == (designs[shifted[t]].value, data[shifted[t]].value)
    {
      assert Present(d', y', rest[t]);
      assert d'[rest[t]] == designs[shifted[t]] && y'[rest[t]] == data[shifted[t]];
    }
    forall i | Present(designs, data, i) && i > 0
      ensures i in shifted
    {
      assert Present(d', y', i - 1);
      var t :| 0 <= t < |rest| && rest[t] == i - 1;
      assert shifted[t] == i;
    }
    forall t, u | 0 <= t < u < |shifted|
      ensures shifted[t] < shifted[u]
    {
      assert rest[t] < rest[u];
    }
  }

  /** The regressor counts `_contrast` pads contrasts to: `glm.X.shape[1]`, the
      number of columns of the REDUCED design, or 0 for a missing model. */
  function RegressorCounts(glms: seq<Option<Glm>>): (n: seq<nat>)
    ensures |n| == |glms|
    ensures forall i :: 0 <= i < |glms| ==> n[i] == if glms[i].Some? then glms[i].value.design.nCols else 0
  {
    seq(|glms|, i requires 0 <= i < |glms| => if glms[i].Some? then glms[i].value.design.nCols else 0)
  }

  /** What `_contrast` does with one session. */
  datatype Verdict =
    | Skip                      // vector null, model missing, or an inactive regressor used
    | Use(weights: seq<real>)   // adds `glm.contrast(con_val[design_mask])`
    | Raise(error: PyError)     // `con_val[~design_mask]` with a mask of another length

  /** Some regressor the mask drops has a nonzero weight: `np.any(con_val[~design_mask])`
      for a vector and a mask of the same length. */
  predicate UsesInactive(conVal: seq<real>, mask: seq<bool>)
    requires |conVal| == |mask|
  {
    |mask| > 0 && ((!mask[0] && conVal[0] != 0.0) || UsesInactive(conVal[1..], mask[1..]))
  }

  lemma {:induction false} UsesInactiveIff(conVal: seq<real>, mask: seq<bool>)
    requires |conVal| == |mask|
    ensures UsesInactive(conVal, mask) <==> exists j :: 0 <= j < |mask| && !mask[j] && conVal[j] != 0.0
  {
    if |mask| > 0 {
      UsesInactiveIff(conVal[1..], mask[1..]);
      if UsesInactive(conVal[1..], mask[1..]) {
        var j :| 0 <= j < |mask| - 1 && !mask[1..][j] && conVal[1..][j] != 0.0;
        assert !mask[j + 1] && conVal[j + 1] != 0.0;
      }
      if exists j :: 0 <= j < |mask| && !mask[j] && conVal[j] != 0.0 {
        var j :| 0 <= j < |mask| && !mask[j] && conVal[j] != 0.0;
        if j > 0 {
          assert !mask[1..][j - 1] && conVal[1..][j - 1] != 0.0;
        }
      }
    }
  }

  /** The test at intra_analysis.py:71-72, evaluated left to right as Python's
      `or` does. The boolean index raises an IndexError when the vector and the
      mask differ in length. */
  function SessionVerdict(conVal: seq<real>, glm: Option<Glm>, mask: seq<bool>): (v: Verdict)
    ensures v.Use? ==> glm.Some?
  {
    if !HasNonZero(conVal) || glm.None? then Skip
    else if |conVal| != |mask| then Raise(IndexError)
    else if UsesInactive(conVal, mask) then Skip
    else Use(Compress(conVal, mask))
  }

  /** A session contributes exactly when its vector is not all zero, its model
      exists, and it puts no weight on an inactive regressor; it contributes the
      weights of the active regressors. */
  lemma SessionVerdictUse(conVal: seq<real>, glm: Option<Glm>, mask: seq<bool>)
    ensures SessionVerdict(conVal, glm, mask).Use? <==>
      !AllZero(conVal) && glm.Some? && |conVal| == |mask|
      && forall j :: 0 <= j < |mask| && !mask[j] ==> conVal[j] == 0.0
    ensures SessionVerdict(conVal, glm, mask).Use? ==>
      SessionVerdict(conVal, glm, mask).weights == Compress(conVal, mask)
  {
    HasNonZeroIff(conVal);
    if |conVal| == |mask| {
      UsesInactiveIff(conVal, mask);
    }
  }

  lemma {:induction false} CountTrueAll(mask: seq<bool>)
    ensures CountTrue(mask) == |mask| <==> forall j :: 0 <= j < |mask| ==> mask[j]
  {
    if |mask| > 0 {
      var init := mask[..|mask| - 1];
      CountTrueAll(init);
      assert forall j :: 0 <= j < |init| ==> init[j] == mask[j];
    }
  }

  /** As written, `con_val` has `glm.X.shape[1]` entries, one per ACTIVE column,
      while `design_mask` has one per original column. For a session fitted by
      `_fit_glm` and a vector of the padded length that is not all zero,
      `_contrast` therefore raises an IndexError exactly when the design had an
      all-zero column. */
  lemma DroppedColumnRaises(x: DesignMatrix, y: SessionData, conVal: seq<real>)
    requires |conVal| == FitGlm(x, y).0.design.nCols && !AllZero(conVal)
    ensures var (glm, mask) := FitGlm(x, y);
      (SessionVerdict(conVal, Some(glm), mask) == Raise(IndexError)) <==> (exists j :: 0 <= j < |mask| && !mask[j])
  {
    var (glm, mask) := FitGlm(x, y);
    CountTrueAll(mask);
    HasNonZeroIff(conVal);
  }

  function Min3(a: nat, b: nat, c: nat): nat {
    if a <= b && a <= c then a else if b <= c then b else c
  }

  /** The value of `contrast` after the first `n` sessions of the loop at
      intra_analysis.py:68-81: `None` until a session is used, then that
      session's contrast, then `contrast + ...` for each later one. */
  function Combined(glms: seq<Option<Glm>>, masks: seq<seq<bool>>, conVals: seq<seq<real>>, n: nat)
    : Result<Option<ContrastTerm>>
    requires n <= |glms| && n <= |masks| && n <= |conVals|
  {
    if n == 0 then Ok(None)
    else
      match Combined(glms, masks, conVals, n - 1)
      case Err(e) => Err(e)
      case Ok(acc) =>
        match SessionVerdict(conVals[n - 1], glms[n - 1], masks[n - 1])
        case Skip => Ok(acc)
        case Raise(e) => Err(e)
        case Use(w) =>
          var c := SessionContrast(glms[n - 1].value, w);
          Ok(if acc.None? then Some(c) else Some(Sum(acc.value, c)))
  }

  /** The contributions of the used sessions among the first `n`, in session order. */
  function Contributions(glms: seq<Option<Glm>>, masks: seq<seq<bool>>, conVals: seq<seq<real>>, n: nat)
    : seq<ContrastTerm>
    requires n <= |glms| && n <= |masks| && n <= |conVals|
  {
    if n == 0 then []
    else
      Contributions(glms, masks, conVals, n - 1)
        + match SessionVerdict(conVals[n - 1], glms[n - 1], masks[n - 1])
          case Use(w) => [SessionContrast(glms[n - 1].value, w)]
          case _ => []
  }

  /** The loop fails with the error of the first session that raises; otherwise
      the contrast is absent exactly when no session was used, and is the sum
      of the used sessions' contributions in session order. */
  lemma {:induction false} CombinedIsOrderedSum(glms: seq<Option<Glm>>, masks: seq<seq<bool>>, conVals: seq<seq<real>>, n: nat)
    requires n <= |glms| && n <= |masks| && n <= |conVals|
    ensures Combined(glms, masks, conVals, n).Err? <==>
      exists i :: 0 <= i < n && SessionVerdict(conVals[i], glms[i], masks[i]).Raise?
    ensures Combined(glms, masks, conVals, n).Err? ==>
      exists i :: 0 <= i < n && SessionVerdict(conVals[i], glms[i], masks[i]) == Raise(Combined(glms, masks, conVals, n).error)
        && forall i' :: 0 <= i' < i ==> !SessionVerdict(conVals[i'], glms[i'], masks[i']).Raise?
    ensures Combined(glms, masks, conVals, n).Ok? ==>
      var acc := Combined(glms, masks, conVals, n).value;
      (acc.None? <==> Contributions(glms, masks, conVals, n) == [])
      && (acc.Some? ==> Summands(acc.value) == Contributions(glms, masks, conVals, n))
  {
    if n > 0 {
      CombinedIsOrderedSum(glms, masks, conVals, n - 1);
    }
  }

  /** The four statistics `_contrast` can write, in the order it tries them. */
  datatype Estimate = ZScore | Stat | Effect | Variance

  /** The contrast-object attribute each statistic is read from. */
  function AttributeName(e: Estimate): string {
    match e
    case ZScore => "z_score_"
    case Stat => "stat_"
    case Effect => "effect"
    case Variance => "variance"
  }

  /** `'%s_maps' % estimate.rsplit('_')[0]`: with no limit `rsplit` cuts at
      every `_`, so its first piece is everything before the first `_`
      (`SplitHead`). */
  function MapsDirName(e: Estimate): string {
    Before(AttributeName(e), '_') + "_maps"
  }

  /** `output_dir/<kind>_maps/<contrast_id>.nii.gz`, joined as `os.path.join` does. */
  function MapPath(outputDir: string, e: Estimate, contrastId: string): string {
    PosixJoin([PosixJoin([outputDir, MapsDirName(e)]), contrastId + ".nii.gz"])
  }

  /** The output switches `output_z`, `output_stat`, `output_effects`, `output_variance`. */
  datatype OutputFlags = OutputFlags(z: bool, stat: bool, effects: bool, variance: bool)

  function Enabled(flags: OutputFlags, e: Estimate): bool {
    match e
    case ZScore => flags.z
    case Stat => flags.stat
    case Effect => flags.effects
    case Variance => flags.variance
  }

  /** The per-voxel statistics the external library computes for a contrast
      object, one flat vector per statistic. */
  datatype Estimates = Estimates(zScore: seq<real>, stat: seq<real>, effect: seq<real>, variance: seq<real>)

  function ValuesOf(est: Estimates, e: Estimate): seq<real> {
    match e
    case ZScore => est.zScore
    case Stat => est.stat
    case Effect => est.effect
    case Variance => est.variance
  }

  const AllEstimates: seq<Estimate> := [ZScore, Stat, Effect, Variance]

  /** The enabled statistics among the first `n`, in the fixed order. */
  function EnabledEstimates(flags: OutputFlags, n: nat): (es: seq<Estimate>)
    requires n <= 4
  {
    if n == 0 then []
    else EnabledEstimates(flags, n - 1) + (if Enabled(flags, AllEstimates[n - 1]) then [AllEstimates[n - 1]] else [])
  }

  /** The paths and unmasked volumes of the output loop after its first `n`
      statistics. */
  function MapsFor(outputDir: string, flags: OutputFlags, contrastId: string, maskArray: seq<bool>,
                   est: Estimates, n: nat): Result<(seq<string>, seq<seq<real>>)>
    requires n <= 4
  {
    if n == 0 then Ok(([], []))
    else MapsStep(MapsFor(outputDir, flags, contrastId, maskArray, est, n - 1),
                  outputDir, flags, contrastId, maskArray, est, AllEstimates[n - 1])
  }

  /** One turn of the output loop: a disabled statistic is skipped, an
      enabled one adds its path and its unmasked volume. */
  function MapsStep(prev: Result<(seq<string>, seq<seq<real>>)>, outputDir: string, flags: OutputFlags,
                    contrastId: string, maskArray: seq<bool>, est: Estimates, e: Estimate)
    : Result<(seq<string>, seq<seq<real>>)>
  {
    match prev
    case Err(x) => Err(x)
    case Ok(done) =>
      if !Enabled(flags, e) then Ok(done)
      else
        match Unmasked(maskArray, ValuesOf(est, e))
        case Err(x) => Err(x)
        case Ok(volume) => Ok((done.0 + [MapPath(outputDir, e, contrastId)], done.1 + [volume]))
  }

  /** `r` holds, for the statistics `es` in order, their paths and unmasked
      volumes, or an error exactly when one of them cannot be unmasked. */
  ghost predicate MapsMatch(outputDir: string, contrastId: string, maskArray: seq<bool>, est: Estimates,
                            es: seq<Estimate>, r: Result<(seq<string>, seq<seq<real>>)>)
  {
    && (r.Err? <==> exists t :: 0 <= t < |es| && Unmasked(maskArray, ValuesOf(est, es[t])).Err?)
    && (r.Ok? ==>
          && |r.value.0| == |es| && |r.value.1| == |es|
          && forall t :: 0 <= t < |es| ==>
               r.value.0[t] == MapPath(outputDir, es[t], contrastId)
               && Unmasked(maskArray, ValuesOf(est, es[t])) == Ok(r.value.1[t]))
  }

  lemma MapsStepMatch(prev: Result<(seq<string>, seq<seq<real>>)>, outputDir: string, flags: OutputFlags,
                      contrastId: string, maskArray: seq<bool>, est: Estimates, es: seq<Estimate>, e: Estimate)
    requires MapsMatch(outputDir, contrastId, maskArray, est, es, prev)
    ensures MapsMatch(outputDir, contrastId, maskArray, est, es + (if Enabled(flags, e) then [e] else []),
                      MapsStep(prev, outputDir, flags, contrastId, maskArray, est, e))
  {
    if !Enabled(flags, e) {
      assert es + [] == es;
    } else if prev.Err? {
      MapsMatchSnocRaised(outputDir, contrastId, maskArray, est, es, e, prev.error);
    } else {
      match Unmasked(maskArray, ValuesOf(est, e))
      case Err(x) =>
        MapsMatchSnocFails(outputDir, contrastId, maskArray, est, es, e, x);
      case Ok(volume) =>
        MapsMatchSnocOk(outputDir, contrastId, maskArray, est, es, e, prev.value.0, prev.value.1, volume);
    }
  }

  lemma MapsMatchSnocRaised(outputDir: string, contrastId: string, maskArray: seq<bool>, est: Estimates,
                            es: seq<Estimate>, e: Estimate, x: PyError)
    requires MapsMatch(outputDir, contrastId, maskArray, est, es, Err(x))
    ensures MapsMatch(outputDir, contrastId, maskArray, est, es + [e], Err(x))
  {
    var t :| 0 <= t < |es| && Unmasked(maskArray, ValuesOf(est, es[t])).Err?;
    assert (es + [e])[t] == es[t];
  }

  lemma MapsMatchSnocFails(outputDir: string, contrastId: string, maskArray: seq<bool>, est: Estimates,
                           es: seq<Estimate>, e: Estimate, x: PyError)
    requires Unmasked(maskArray, ValuesOf(est, e)).Err?
    ensures MapsMatch(outputDir, contrastId, maskArray, est, es + [e], Err(x))
  {
    assert (es + [e])[|es|] == e;
  }

  lemma MapsMatchSnocOk(outputDir: string, contrastId: string, maskArray: seq<bool>, est: Estimates,
                        es: seq<Estimate>, e: Estimate, paths: seq<string>, volumes: seq<seq<real>>, volume: seq<real>)
    requires MapsMatch(outputDir, contrastId, maskArray, est, es, Ok((paths, volumes)))
    requires Unmasked(maskArray, ValuesOf(est, e)) == Ok(volume)
    ensures MapsMatch(outputDir, contrastId, maskArray, est, es + [e],
                      Ok((paths + [MapPath(outputDir, e, contrastId)], volumes + [volume])))
  {
    var es1 := es + [e];
    var paths1, volumes1 := paths + [MapPath(outputDir, e, contrastId)], volumes + [volume];
    forall t | 0 <= t < |es1|
      ensures paths1[t] == MapPath(outputDir, es1[t], contrastId)
      ensures Unmasked(maskArray, ValuesOf(est, es1[t])) == Ok(volumes1[t])
    {
      if t < |es| {
        assert es1[t] == es[t] && paths1[t] == paths[t] && volumes1[t] == volumes[t];
      }
    }
  }

  /** One map per enabled statistic, in the order z, stat, effect, variance: the
      k-th path is that statistic's `<kind>_maps/<contrast_id>.nii.gz` and the
      k-th volume is its values scattered into the brain mask. */
  lemma {:induction false} MapsForEnabled(outputDir: string, flags: OutputFlags, contrastId: string,
                                          maskArray: seq<bool>, est: Estimates, n: nat)
    requires n <= 4
    ensures MapsFor(outputDir, flags, contrastId, maskArray, est, n).Err? <==>
      exists t :: 0 <= t < |EnabledEstimates(flags, n)| && Unmasked(maskArray, ValuesOf(est, EnabledEstimates(flags, n)[t])).Err?
    ensures MapsFor(outputDir, flags, contrastId, maskArray, est, n).Ok? ==>
      var (paths, volumes) := MapsFor(outputDir, flags, contrastId, maskArray, est, n).value;
      var es := EnabledEstimates(flags, n);
      |paths| == |es| && |volumes| == |es|
      && forall t :: 0 <= t < |es| ==>
        paths[t] == MapPath(outputDir, es[t], contrastId)
        && Unmasked(maskArray, ValuesOf(est, es[t])) == Ok(volumes[t])
  {
    if n > 0 {
      MapsForEnabled(outputDir, flags, contrastId, maskArray, est, n - 1);
      MapsStepMatch(MapsFor(outputDir, flags, contrastId, maskArray, est, n - 1), outputDir, flags,
                    contrastId, maskArray, est, EnabledEstimates(flags, n - 1), AllEstimates[n - 1]);
    }
    assert MapsMatch(outputDir, contrastId, maskArray, est, EnabledEstimates(flags, n),
                     MapsFor(outputDir, flags, contrastId, maskArray, est, n));
  }

  lemma ZScoreDir()
    ensures MapsDirName(ZScore) == "z_maps"
  {
    var name := AttributeName(ZScore);
    assert Before(name, '_') == "z" by {
      assert name[..1] == "z" && name[1] == '_';
      BeforeAt(name, '_', 1);
    }
  }

  lemma StatDir()
    ensures MapsDirName(Stat) == "stat_maps"
  {
    var name := AttributeName(Stat);
    assert Before(name, '_') == "stat" by {
      assert name[..4] == "stat" && name[4] == '_';
      BeforeAt(name, '_', 4);
    }
  }

  lemma EffectDir()
    ensures MapsDirName(Effect) == "effect_maps"
  {
    var name := AttributeName(Effect);
    assert Before(name, '_') == name by {
      assert '_' !in name;
    }
  }

  lemma VarianceDir()
    ensures MapsDirName(Variance) == "variance_maps"
  {
    var name := AttributeName(Variance);
    assert Before(name, '_') == name by {
      assert '_' !in name;
    }
  }

  lemma MapsDirNameShape(e: Estimate)
    ensures var d := MapsDirName(e); |d| > 1 && d[0] != '/' && d[|d| - 1] == 's'
  {
    match e
    case ZScore => ZScoreDir();
    case Stat => StatDir();
    case Effect => EffectDir();
    case Variance => VarianceDir();
  }

  /** For an ordinary output directory and contrast id, the map path is the
      plain `output_dir/<kind>_maps/<contrast_id>.nii.gz`. */
  lemma MapPathPlain(outputDir: string, e: Estimate, contrastId: string)
    requires outputDir != "" && !EndsWith(outputDir, "/")
    requires !StartsWith(contrastId, "/")
    ensures MapPath(outputDir, e, contrastId) == outputDir + "/" + MapsDirName(e) + "/" + contrastId + ".nii.gz"
  {
    var dir := MapsDirName(e);
    var file := contrastId + ".nii.gz";
    var joined := outputDir + "/" + dir;
    MapsDirJoin(outputDir, e);
    MapFileJoin(joined, contrastId);
    assert joined + "/" + file == outputDir + "/" + dir + "/" + contrastId + ".nii.gz";
  }

  lemma MapsDirJoin(outputDir: string, e: Estimate)
    requires outputDir != "" && !EndsWith(outputDir, "/")
    ensures var joined := outputDir + "/" + MapsDirName(e);
      PosixJoin([outputDir, MapsDirName(e)]) == joined && joined != "" && !EndsWith(joined, "/")
  {
    MapsDirNameShape(e);
    PosixJoinPair(outputDir, MapsDirName(e));
    JoinTwoPlain(outputDir, MapsDirName(e));
  }

  lemma MapFileJoin(dir: string, contrastId: string)
    requires dir != "" && !EndsWith(dir, "/")
    requires !StartsWith(contrastId, "/")
    ensures PosixJoin([dir, contrastId + ".nii.gz"]) == dir + "/" + (contrastId + ".nii.gz")
  {
    var file := contrastId + ".nii.gz";
    if |contrastId| == 0 { assert file[..1] == "."; }
    else { assert file[..1] == contrastId[..1]; }
    PosixJoinPair(dir, file);
  }

  lemma PosixJoinPair(a: string, b: string)
    ensures PosixJoin([a, b]) == JoinTwo(a, b)
  {
    assert [a, b][..1] == [a];
  }

  /** What `_contrast` returns: `dict()` when no session contributes, or the
      paths of the maps written, together with the maps themselves and whether
      `z_score()` was computed. */
  datatype ContrastOutputs =
    | NoContrast
    | Written(paths: seq<string>, volumes: seq<seq<real>>, zScored: bool)

  /** The outcome of `_contrast(contrast_id, contrast_values)` for a model in the
      given state; `stats` stands for the external statistics of a contrast. */
  function ContrastResult(glms: seq<Option<Glm>>, masks: seq<seq<bool>>, outputDir: string,
                          flags: OutputFlags, contrastId: string, spec: ContrastSpec,
                          maskArray: seq<bool>, stats: ContrastTerm -> Estimates)
    : Result<ContrastOutputs>
  {
    match CheckedContrast(spec, RegressorCounts(glms))
    case Err(e) => Err(e)
    case Ok(conVals) =>
      var n := Min3(|glms|, |masks|, |conVals|);
      match Combined(glms, masks, conVals, n)
      case Err(e) => Err(e)
      case Ok(None) => Ok(NoContrast)
      case Ok(Some(c)) =>
        match MapsFor(outputDir, flags, contrastId, maskArray, stats(c), 4)
        case Err(e) => Err(e)
        case Ok((paths, volumes)) => Ok(Written(paths, volumes, flags.z || flags.stat))
  }

  /** When no session contributes, `_contrast` returns `dict()` and writes
      nothing; when one does, z-scores are computed exactly when the z or the
      stat map is requested. */
  lemma ContrastResultCases(glms: seq<Option<Glm>>, masks: seq<seq<bool>>, outputDir: string,
                            flags: OutputFlags, contrastId: string, spec: ContrastSpec,
                            maskArray: seq<bool>, stats: ContrastTerm -> Estimates)
    requires CheckedContrast(spec, RegressorCounts(glms)).Ok?
    ensures var conVals := CheckedContrast(spec, RegressorCounts(glms)).value;
      var n := Min3(|glms|, |masks|, |conVals|);
      var r := ContrastResult(glms, masks, outputDir, flags, contrastId, spec, maskArray, stats);
      && (r == Ok(NoContrast) <==> Combined(glms, masks, conVals, n).Ok? && Contributions(glms, masks, conVals, n) == [])
      && (r.Ok? && r.value.Written? ==>
            (r.value.zScored == (flags.z || flags.stat) && |r.value.paths| == |EnabledEstimates(flags, 4)|))
  {
    var conVals := CheckedContrast(spec, RegressorCounts(glms)).value;
    var n := Min3(|glms|, |masks|, |conVals|);
    CombinedIsOrderedSum(glms, masks, conVals, n);
    var comb := Combined(glms, masks, conVals, n);
    if comb.Ok? && comb.value.Some? {
      MapsForEnabled(outputDir, flags, contrastId, maskArray, stats(comb.value.value), 4);
    }
  }

  class IntraLinearModel {
    var outputDir: string
    var outputZ: bool
    var outputStat: bool
    var outputEffects: bool
    var outputVariance: bool
    /** `glm_`: one fitted model per kept session. */
    var glms: seq<Option<Glm>>
    /** `design_mask_`: the active-regressor mask of each kept session. */
    var designMasks: seq<seq<bool>>
    /** Whether `fit` has run, i.e. whether `glm_` and `design_mask_` exist. */
    var fitted: bool

    function Flags(): OutputFlags
      reads this
    {
      OutputFlags(outputZ, outputStat, outputEffects, outputVariance)
    }

    /** `_contrast` on this model: an AttributeError before `fit`, the
        contrast of the fitted sessions after it. */
    function Outcome(contrastId: string, spec: ContrastSpec, maskArray: seq<bool>, stats: ContrastTerm -> Estimates)
      : Result<ContrastOutputs>
      reads this
    {
      if fitted then ContrastResult(glms, designMasks, outputDir, Flags(), contrastId, spec, maskArray, stats)
      else Err(AttributeError)
    }

    /** `IntraLinearModel(...)`: only z maps are written unless asked
        otherwise, and nothing is fitted yet. */
    constructor (outputDir: string, outputZ: bool := true, outputStat: bool := false,
                 outputEffects: bool := false, outputVariance: bool := false)
      ensures this.outputDir == outputDir && this.outputZ == outputZ && this.outputStat == outputStat
      ensures this.outputEffects == outputEffects && this.outputVariance == outputVariance
      ensures !fitted
    {
      this.outputDir := outputDir;
      this.outputZ := outputZ;
      this.outputStat := outputStat;
      this.outputEffects := outputEffects;
      this.outputVariance := outputVariance;
      glms := [];
      designMasks := [];
      fitted := false;
    }

    /** `fit(niimgs, design_matrices)`, with `data` the masker's output: one
        `_fit_glm` per kept session, models and masks in session order. */
    method Fit(designs: seq<Option<DesignMatrix>>, data: seq<Option<SessionData>>)
      modifies this
      ensures var kept := FittedSessions(designs, data);
        && |glms| == |kept| && |designMasks| == |kept|
        && forall t :: 0 <= t < |kept| ==>
          glms[t] == Some(FitGlm(kept[t].0, kept[t].1).0) && designMasks[t] == FitGlm(kept[t].0, kept[t].1).1
      ensures fitted && outputDir == old(outputDir) && Flags() == old(Flags())
    {
      fitted := true;
      var kept := FittedSessions(designs, data);
      glms := seq(|kept|, t requires 0 <= t < |kept| => Some(FitGlm(kept[t].0, kept[t].1).0));
      designMasks := seq(|kept|, t requires 0 <= t < |kept| => FitGlm(kept[t].0, kept[t].1).1);
    }

    /** The session loop of `_contrast`: each session's verdict, summed in
        session order, the first error raised. */
    method CombineSessions(conVals: seq<seq<real>>) returns (r: Result<Option<ContrastTerm>>)
      ensures r == Combined(glms, designMasks, conVals, Min3(|glms|, |designMasks|, |conVals|))
    {
      var n := Min3(|glms|, |designMasks|, |conVals|);
      var contrast: Option<ContrastTerm> := None;
      var i := 0;
      while i < n
        invariant 0 <= i <= n
        invariant Combined(glms, designMasks, conVals, i) == Ok(contrast)
      {
        match SessionVerdict(conVals[i], glms[i], designMasks[i]) {
          case Skip =>
          case Raise(e) =>
            CombinedRaises(glms, designMasks, conVals, i + 1, n);
            return Err(e);
          case Use(w) =>
            var c := SessionContrast(glms[i].value, w);
            contrast := if contrast.None? then Some(c) else Some(Sum(contrast.value, c));
        }
        i := i + 1;
      }
      return Ok(contrast);
    }

    /** The output loop of `_contrast`: one path and one unmasked volume per
        enabled statistic, the first unmasking error raised. */
    method WriteMaps(contrastId: string, maskArray: seq<bool>, est: Estimates)
      returns (r: Result<(seq<string>, seq<seq<real>>)>)
      ensures r == MapsFor(outputDir, Flags(), contrastId, maskArray, est, 4)
    {
      var paths: seq<string> := [];
      var volumes: seq<seq<real>> := [];
      var k := 0;
      while k < 4
        invariant 0 <= k <= 4
        invariant MapsFor(outputDir, Flags(), contrastId, maskArray, est, k) == Ok((paths, volumes))
      {
        var e := AllEstimates[k];
        if Enabled(Flags(), e) {
          var volume := Unmask(maskArray, ValuesOf(est, e));
          if volume.Err? {
            MapsForRaises(outputDir, Flags(), contrastId, maskArray, est, k + 1, 4);
            return Err(volume.error);
          }
          paths := paths + [MapPath(outputDir, e, contrastId)];
          volumes := volumes + [volume.value];
        }
        k := k + 1;
      }
      return Ok((paths, volumes));
    }

    /** `_contrast(contrast_id, contrast_values)`; `maskArray` is the masker's
        brain mask flattened in array order. Before `fit` the read of `glm_`
        raises. */
    method ContrastOne(contrastId: string, spec: ContrastSpec, maskArray: seq<bool>, stats: ContrastTerm -> Estimates)
      returns (r: Result<ContrastOutputs>)
      ensures !fitted ==> r == Err(AttributeError)
      ensures fitted ==> r == ContrastResult(glms, designMasks, outputDir, Flags(), contrastId, spec, maskArray, stats)
    {
      if !fitted {
        return Err(AttributeError);
      }
      var checked := CheckContrast(spec, RegressorCounts(glms));
      if checked.Err? {
        return Err(checked.error);
      }
      var combined := CombineSessions(checked.value);
      if combined.Err? {
        return Err(combined.error);
      }
      if combined.value.None? {
        return Ok(NoContrast);
      }
      var zScored := outputZ || outputStat;
      var maps := WriteMaps(contrastId, maskArray, stats(combined.value.value));
      if maps.Err? {
        return Err(maps.error);
      }
      return Ok(Written(maps.value.0, maps.value.1, zScored));
    }

    /** `contrast(contrasts)`: `_contrast` for every id in sorted order. The
        first failure propagates; otherwise every id maps to its outputs. */
    method Contrast(contrasts: map<string, ContrastSpec>, maskArray: seq<bool>, stats: ContrastTerm -> Estimates)
      returns (r: Result<map<string, ContrastOutputs>>)
      ensures r.Ok? <==> forall id :: id in contrasts ==>
        Outcome(id, contrasts[id], maskArray, stats).Ok?
      ensures r.Ok? ==> r.value.Keys == contrasts.Keys && forall id :: id in contrasts ==>
        Outcome(id, contrasts[id], maskArray, stats) == Ok(r.value[id])
      ensures r.Err? ==> exists id :: (id in contrasts
        && Outcome(id, contrasts[id], maskArray, stats) == Err(r.error)
        && forall id' :: id' in contrasts && LexLess(id', id) ==>
          Outcome(id', contrasts[id'], maskArray, stats).Ok?)
    {
      var outputs: map<string, ContrastOutputs> := map[];
      var remaining := contrasts.Keys;
      while remaining != {}
        invariant remaining <= contrasts.Keys
        invariant outputs.Keys == contrasts.Keys - remaining
        invariant forall id :: id in outputs ==>
          Outcome(id, contrasts[id], maskArray, stats) == Ok(outputs[id])
        invariant forall id, id' :: id in outputs && id' in remaining ==> LexLess(id, id')
        decreases |remaining|
      {
        LeastExists(remaining);
        var id :| id in remaining && forall x :: x in remaining && x != id ==> LexLess(id, x);
        var res := ContrastOne(id, contrasts[id], maskArray, stats);
        assert res == Outcome(id, contrasts[id], maskArray, stats);
        if res.Err? {
          LeastRemaining(contrasts.Keys, remaining, id);
          assert !Outcome(id, contrasts[id], maskArray, stats).Ok?;
          return Err(res.error);
        }
        LeastMoves(outputs.Keys, remaining, id);
        outputs := outputs[id := res.value];
        remaining := remaining - {id};
      }
      return Ok(outputs);
    }
  }

  /** The least remaining id comes after every id outside `remaining`. */
  lemma LeastRemaining(keys: set<string>, remaining: set<string>, id: string)
    requires id in remaining && remaining <= keys
    requires forall x :: x in remaining && x != id ==> LexLess(id, x)
    ensures forall id' :: id' in keys && LexLess(id', id) ==> id' in keys - remaining
  {
    forall id' | id' in keys && LexLess(id', id)
      ensures id' !in remaining
    {
      if id' in remaining {
        if id' == id { LexLessIrreflexive(id); }
        else { LexLessTransitive(id, id', id); LexLessIrreflexive(id); }
      }
    }
  }

  /** Moving the least remaining id to the done side keeps every done id
      before every remaining one. */
  lemma LeastMoves(done: set<string>, remaining: set<string>, id: string)
    requires id in remaining
    requires forall x :: x in remaining && x != id ==> LexLess(id, x)
    requires forall a, b :: a in done && b in remaining ==> LexLess(a, b)
    ensures forall a, b :: a in done + {id} && b in remaining - {id} ==> LexLess(a, b)
  {
  }

  /** Once a session raises, the loop over all sessions raises the same error. */
  lemma {:induction false} CombinedRaises(glms: seq<Option<Glm>>, masks: seq<seq<bool>>, conVals: seq<seq<real>>, i: nat, n: nat)
    requires i <= n <= |glms| && n <= |masks| && n <= |conVals|
    requires Combined(glms, masks, conVals, i).Err?
    ensures Combined(glms, masks, conVals, n) == Combined(glms, masks, conVals, i)
    decreases n - i
  {
    if i < n {
      CombinedRaises(glms, masks, conVals, i + 1, n);
    }
  }

  lemma {:induction false} MapsForRaises(outputDir: string, flags: OutputFlags, contrastId: string, maskArray: seq<bool>,
                                         est: Estimates, k: nat, n: nat)
    requires k <= n <= 4
    requires MapsFor(outputDir, flags, contrastId, maskArray, est, k).Err?
    ensures MapsFor(outputDir, flags, contrastId, maskArray, est, n) == MapsFor(outputDir, flags, contrastId, maskArray, est, k)
    decreases n - k
  {
    if k < n {
      MapsForRaises(outputDir, flags, contrastId, maskArray, est, k + 1, n);
    }
  }
}
