/** Design bookkeeping of intra_analysis.py around the external GLM library:
    the active-regressor mask and reduced design of `_fit_glm`, boolean-mask
    selection and its inverse (the unmasking of a flat statistic into a
    volume), and the per-session normalisation of `check_contrast`. */
module GlmDesign {
  import opened Wrappers

  datatype Matrix = Matrix(rows: seq<seq<real>>, nCols: nat)

  /** A design matrix: one row per time point, `nCols` regressor columns. */
  type DesignMatrix = m: Matrix | forall r :: 0 <= r < |m.rows| ==> |m.rows[r]| == m.nCols
    witness Matrix([], 0)

  /** One session's masked scan data (time points by voxels); it is only handed
      to the external fit. */
  type SessionData = seq<seq<real>>

  /** A fitted per-session model: the reduced design `X[:, design_mask]` that the
      external `GeneralLinearModel` was built on, and the data it was fitted to. */
  datatype Glm = Glm(design: DesignMatrix, data: SessionData)

  /** The number of `True` entries of a boolean mask. */
  function CountTrue(mask: seq<bool>): (n: nat)
    ensures n <= |mask|
  {
    if |mask| == 0 then 0
    else CountTrue(mask[..|mask| - 1]) + (if mask[|mask| - 1] then 1 else 0)
  }

  /** `row[mask]`: the entries at `True` positions, in order. */
  function Compress(row: seq<real>, mask: seq<bool>): (r: seq<real>)
    requires |row| == |mask|
    ensures |r| == CountTrue(mask)
  {
    if |row| == 0 then []
    else
      Compress(row[..|row| - 1], mask[..|mask| - 1])
        + (if mask[|mask| - 1] then [row[|row| - 1]] else [])
  }

  /** `out = zeros(len(mask)); out[mask] = values`: the k-th `True` position
      receives the k-th value, every other position is 0. */
  function Scattered(mask: seq<bool>, values: seq<real>): (r: seq<real>)
    requires |values| == CountTrue(mask)
    ensures |r| == |mask|
  {
    if |mask| == 0 then []
    else if mask[|mask| - 1] then Scattered(mask[..|mask| - 1], values[..|values| - 1]) + [values[|values| - 1]]
    else Scattered(mask[..|mask| - 1], values) + [0.0]
  }

  lemma {:induction false} CountTruePrefix(mask: seq<bool>, p: nat)
    requires p < |mask|
    ensures CountTrue(mask[..p + 1]) == CountTrue(mask[..p]) + (if mask[p] then 1 else 0)
  {
    assert mask[..p + 1][..p] == mask[..p];
  }

  /** Position by position: a masked position holds the value whose index is
      the number of masked positions before it; the others hold 0. */
  lemma {:induction false} ScatteredAt(mask: seq<bool>, values: seq<real>, p: nat)
    requires |values| == CountTrue(mask) && p < |mask|
    ensures mask[p] ==> CountTrue(mask[..p]) < |values|
    ensures Scattered(mask, values)[p] == if mask[p] then values[CountTrue(mask[..p])] else 0.0
  {
    var n := |mask|;
    var init := mask[..n - 1];
    CountTruePrefix(mask, p);
    assert mask[..n] == mask;
    if p < n - 1 {
      assert init[..p] == mask[..p];
      if mask[n - 1] {
        ScatteredAt(init, values[..|values| - 1], p);
        assert CountTrue(mask[..p + 1]) <= CountTrue(init) by { CountTrueMonotone(init, p + 1); assert init[..p + 1] == mask[..p + 1]; }
      } else {
        ScatteredAt(init, values, p);
      }
    } else if mask[p] {
      assert mask[..p] == init;
    }
  }

  lemma {:induction false} CountTrueMonotone(mask: seq<bool>, p: nat)
    requires p <= |mask|
    ensures CountTrue(mask[..p]) <= CountTrue(mask)
    decreases |mask| - p
  {
    if p < |mask| {
      CountTruePrefix(mask, p);
      CountTrueMonotone(mask, p + 1);
    } else {
      assert mask[..p] == mask;
    }
  }

  /** Selecting the masked positions of a scattered vector gives the values back. */
  lemma {:induction false} CompressScattered(mask: seq<bool>, values: seq<real>)
    requires |values| == CountTrue(mask)
    ensures Compress(Scattered(mask, values), mask) == values
  {
    var n := |mask|;
    if n > 0 {
      var init, b := mask[..n - 1], mask[n - 1];
      var v0 := if b then values[..|values| - 1] else values;
      CompressScattered(init, v0);
      CompressScatteredStep(mask, values);
    }
  }

  lemma CompressScatteredStep(mask: seq<bool>, values: seq<real>)
    requires |values| == CountTrue(mask) && |mask| > 0
    requires var b := mask[|mask| - 1];
      var v0 := if b then values[..|values| - 1] else values;
      Compress(Scattered(mask[..|mask| - 1], v0), mask[..|mask| - 1]) == v0
    ensures Compress(Scattered(mask, values), mask) == values
  {
    var init := mask[..|mask| - 1];
    assert mask == init + [mask[|mask| - 1]];
    if mask[|mask| - 1] {
      var v0 := values[..|values| - 1];
      CompressScatteredSnoc(init, true, v0, values[|values| - 1], Scattered(init, v0));
      assert v0 + [values[|values| - 1]] == values;
    } else {
      CompressScatteredSnoc(init, false, values, 0.0, Scattered(init, values));
    }
  }

  lemma CompressScatteredSnoc(init: seq<bool>, b: bool, v0: seq<real>, last: real, s0: seq<real>)
    requires |s0| == |init| && Compress(s0, init) == v0
    ensures Compress(s0 + [last], init + [b]) == v0 + (if b then [last] else [])
  {
    CompressSnoc(s0, init, last, b);
  }

  lemma CompressSnoc(row: seq<real>, mask: seq<bool>, x: real, b: bool)
    requires |row| == |mask|
    ensures Compress(row + [x], mask + [b]) == Compress(row, mask) + (if b then [x] else [])
  {
    assert (row + [x])[..|row|] == row;
    assert (mask + [b])[..|mask|] == mask;
  }

  /** A vector that is zero off the mask is recovered from its masked entries. */
  lemma {:induction false} ScatteredCompress(row: seq<real>, mask: seq<bool>)
    requires |row| == |mask|
    requires forall p :: 0 <= p < |mask| && !mask[p] ==> row[p] == 0.0
    ensures Scattered(mask, Compress(row, mask)) == row
  {
    var n := |row|;
    if n > 0 {
      var c := Compress(row, mask);
      var c0 := Compress(row[..n - 1], mask[..n - 1]);
      ScatteredCompress(row[..n - 1], mask[..n - 1]);
      if mask[n - 1] {
        assert c == c0 + [row[n - 1]];
        assert c[..|c| - 1] == c0;
      } else {
        assert c == c0;
      }
      assert row[..n - 1] + [row[n - 1]] == row;
    }
  }

  /** The active-regressor mask of `_fit_glm`, `~np.all(X == 0, axis=0)`. */
  function DesignMask(x: DesignMatrix): (mask: seq<bool>)
    ensures |mask| == x.nCols
    ensures forall j :: 0 <= j < x.nCols ==>
      (mask[j] <==> exists r :: 0 <= r < |x.rows| && x.rows[r][j] != 0.0)
  {
    seq(x.nCols, j requires 0 <= j < x.nCols => !ColumnIsZero(x.rows, x.nCols, j))
  }

  /** `np.all(X[:, j] == 0)`, scanning the rows. */
  function ColumnIsZero(rows: seq<seq<real>>, nCols: nat, j: nat): (z: bool)
    requires j < nCols && forall r :: 0 <= r < |rows| ==> |rows[r]| == nCols
    ensures z <==> forall r :: 0 <= r < |rows| ==> rows[r][j] == 0.0
  {
    if |rows| == 0 then true
    else rows[0][j] == 0.0 && ColumnIsZero(rows[1..], nCols, j)
  }

  /** `X[:, mask]`: every row restricted to the active columns. */
  function Reduced(x: DesignMatrix, mask: seq<bool>): (y: DesignMatrix)
    requires |mask| == x.nCols
    ensures |y.rows| == |x.rows| && y.nCols == CountTrue(mask)
  {
    Matrix(seq(|x.rows|, r requires 0 <= r < |x.rows| => Compress(x.rows[r], mask)), CountTrue(mask))
  }

  /** `_fit_glm(X, Y)`: the model on the reduced design, and the mask. The
      numerical fit itself belongs to the external library. */
  function FitGlm(x: DesignMatrix, y: SessionData): (Glm, seq<bool>)
  {
    var mask := DesignMask(x);
    (Glm(Reduced(x, mask), y), mask)
  }

  /** The position of the k-th `True` of a mask. */
  lemma {:induction false} NthTrue(mask: seq<bool>, k: nat) returns (p: nat)
    requires k < CountTrue(mask)
    ensures p < |mask| && mask[p] && CountTrue(mask[..p]) == k
  {
    var n := |mask|;
    var init := mask[..n - 1];
    assert mask[..n] == mask;
    if k < CountTrue(init) {
      p := NthTrue(init, k);
      assert init[..p] == mask[..p];
    } else {
      p := n - 1;
    }
  }

  /** The fitted design keeps exactly the active columns in their original
      order: every original row is recovered by scattering its reduced row back
      through the mask, and no column of the reduced design is all zero. */
  lemma FitGlmKeepsActiveColumns(x: DesignMatrix, y: SessionData)
    ensures var (glm, mask) := FitGlm(x, y);
      glm.design.nCols == CountTrue(mask) && |glm.design.rows| == |x.rows|
      && (forall r :: 0 <= r < |x.rows| ==> Scattered(mask, glm.design.rows[r]) == x.rows[r])
      && (forall k :: 0 <= k < glm.design.nCols ==> DesignMask(glm.design)[k])
  {
    var (glm, mask) := FitGlm(x, y);
    forall r | 0 <= r < |x.rows|
      ensures Scattered(mask, glm.design.rows[r]) == x.rows[r]
    {
      ScatteredCompress(x.rows[r], mask);
    }
    forall k | 0 <= k < glm.design.nCols
      ensures DesignMask(glm.design)[k]
    {
      ReducedColumnActive(x, k);
    }
  }

  /** Column k of the reduced design is the k-th active column, so some row is
      non-zero there. */
  lemma ReducedColumnActive(x: DesignMatrix, k: nat)
    requires k < CountTrue(DesignMask(x))
    ensures DesignMask(Reduced(x, DesignMask(x)))[k]
  {
    var mask := DesignMask(x);
    var reduced := Reduced(x, mask);
    var p := NthTrue(mask, k);
    var r :| 0 <= r < |x.rows| && x.rows[r][p] != 0.0;
    ScatteredCompress(x.rows[r], mask);
    ScatteredAt(mask, reduced.rows[r], p);
    assert reduced.rows[r][k] != 0.0;
  }


  /** A contrast as the user writes it: one flat coefficient list (applied to
      the first session), or one entry per session where `None` means the
      contrast does not apply to that session. */
  datatype ContrastSpec =
    | Flat(coefs: seq<real>)
    | PerSession(sessions: seq<Option<seq<real>>>)

  /** The per-session entries once a flat list is wrapped as a single session.
      `con_val[0]` raises an IndexError on an empty list. */
  function SessionSpecs(spec: ContrastSpec): (r: Result<seq<Option<seq<real>>>>)
    ensures r.Err? <==> (spec.Flat? && spec.coefs == []) || (spec.PerSession? && spec.sessions == [])
    ensures r.Err? ==> r.error == IndexError
    ensures r.Ok? && spec.Flat? ==> r.value == [Some(spec.coefs)]
    ensures r.Ok? && spec.PerSession? ==> r.value == spec.sessions
  {
    match spec
    case Flat(c) => if |c| == 0 then Err(IndexError) else Ok([Some(c)])
    case PerSession(s) => if |s| == 0 then Err(IndexError) else Ok(s)
  }

  /** Entry j of a session vector after zero-padding or truncation. */
  function PaddedAt(spec: Option<seq<real>>, j: int): real {
    if spec.Some? && 0 <= j < |spec.value| then spec.value[j] else 0.0
  }

  /** The value `check_contrast` computes: session i's entry zero-padded or
      truncated to `nRegressors[i]`, for as many sessions as both lists have. */
  function CheckedContrast(spec: ContrastSpec, nRegressors: seq<nat>): Result<seq<seq<real>>>
  {
    match SessionSpecs(spec)
    case Err(e) => Err(e)
    case Ok(specs) =>
      var n := if |nRegressors| < |specs| then |nRegressors| else |specs|;
      Ok(seq(n, i requires 0 <= i < n => seq(nRegressors[i], j => PaddedAt(specs[i], j))))
  }

  /** `check_contrast(con_val, n_regressors)`: one vector per session, as many as
      both lists allow, each zero-padded or truncated to that session's
      regressor count. */
  method CheckContrast(spec: ContrastSpec, nRegressors: seq<nat>) returns (r: Result<seq<seq<real>>>)
    ensures r.Err? <==> SessionSpecs(spec).Err?
    ensures r.Err? ==> r.error == IndexError
    ensures r.Ok? ==> var specs := SessionSpecs(spec).value;
      && |r.value| == (if |nRegressors| < |specs| then |nRegressors| else |specs|)
      && (forall i :: 0 <= i < |r.value| ==> |r.value[i]| == nRegressors[i])
      && (forall i, j :: 0 <= i < |r.value| && 0 <= j < |r.value[i]| ==> r.value[i][j] == PaddedAt(specs[i], j))
    ensures r == CheckedContrast(spec, nRegressors)
  {
    var checked := SessionSpecs(spec);
    if checked.Err? {
      return Err(checked.error);
    }
    var specs := checked.value;
    var n := if |nRegressors| < |specs| then |nRegressors| else |specs|;
    var values: seq<seq<real>> := [];
    var i := 0;
    while i < n
      invariant 0 <= i <= n && |values| == i
      invariant forall k :: 0 <= k < i ==> |values[k]| == nRegressors[k]
      invariant forall k, j :: 0 <= k < i && 0 <= j < |values[k]| ==> values[k][j] == PaddedAt(specs[k], j)
    {
      var sessionCon := new real[nRegressors[i]](_ => 0.0);
      if specs[i].Some? {
        var conSpec := specs[i].value;
        var m := if |conSpec| < sessionCon.Length then |conSpec| else sessionCon.Length;
        var j := 0;
        while j < m
          invariant 0 <= j <= m
          invariant forall t :: 0 <= t < sessionCon.Length ==> sessionCon[t] == if t < j then conSpec[t] else 0.0
        {
          sessionCon[j] := conSpec[j];
          j := j + 1;
        }
      }
      values := values + [sessionCon[..]];
      i := i + 1;
    }
    forall k | 0 <= k < n
      ensures values[k] == seq(nRegressors[k], j => PaddedAt(specs[k], j))
    {
      var expected := seq(nRegressors[k], j => PaddedAt(specs[k], j));
      assert forall j :: 0 <= j < nRegressors[k] ==> values[k][j] == expected[j];
    }
    assert values == seq(n, i requires 0 <= i < n => seq(nRegressors[i], j => PaddedAt(specs[i], j)));
    return Ok(values);
  }

  /** `result_map = zeros(mask.shape); result_map[mask] = values`, over the mask
      flattened in array order. NumPy accepts exactly one value per masked
      position, or a single value that it broadcasts, and raises otherwise. */
  function Unmasked(mask: seq<bool>, values: seq<real>): Result<seq<real>>
  {
    if |values| == CountTrue(mask) then Ok(Scattered(mask, values))
    else if |values| == 1 then Ok(Scattered(mask, seq(CountTrue(mask), _ => values[0])))
    else Err(ValueError)
  }

  /** The in-place fill of `result_map`: position by position, the k-th masked
      position receives the k-th value. */
  method Unmask(mask: seq<bool>, values: seq<real>) returns (r: Result<seq<real>>)
    ensures r == Unmasked(mask, values)
  {
    if |values| != CountTrue(mask) && |values| != 1 {
      return Err(ValueError);
    }
    var source := if |values| == CountTrue(mask) then values else seq(CountTrue(mask), _ => values[0]);
    var resultMap := new real[|mask|](_ => 0.0);
    var p, k := 0, 0;
    while p < |mask|
      invariant 0 <= p <= |mask| && k == CountTrue(mask[..p])
      invariant forall t :: p <= t < |mask| ==> resultMap[t] == 0.0
      invariant forall t :: 0 <= t < p ==> resultMap[t] == Scattered(mask, source)[t]
    {
      CountTruePrefix(mask, p);
      ScatteredAt(mask, source, p);
      if mask[p] {
        resultMap[p] := source[k];
        k := k + 1;
      }
      p := p + 1;
    }
    assert resultMap[..] == Scattered(mask, source);
    return Ok(resultMap[..]);
  }
}
