# Contrast and naming bookkeeping of an intra-subject fMRI analysis

This project is a Dafny model of the deterministic bookkeeping in a
first-level (intra-subject) fMRI analysis script. The statistics come from
external libraries. The model covers the list, dictionary and string logic
around them:

- `intra_analysis.py`:
  - `IntraLinearModel.fit` decides which sessions are fitted.
  - `_fit_glm` builds the active-regressor mask and the reduced design.
  - `check_contrast` normalises a per-session contrast specification.
  - `IntraLinearModel._contrast` chooses the sessions that contribute to a
    contrast and sums their contributions in session order. It also chooses
    which statistic maps to write and where, and scatters each flat statistic
    back into the brain mask.
  - `IntraLinearModel.contrast` runs `_contrast` for every contrast id in
    sorted order.
  - The driver's two helpers, `sanitize_contrast` and `one_map_per_run`,
    are modelled as top-level operations.
- `utils.py`: `safe_name`, `check_path`, `check_paths`, `contrasts_spec` and
  `add_baseline_regressor`.

Modules, one per concern:

| file | module | models |
|---|---|---|
| `wrappers.dfy` | `Wrappers` | `Option`, `Result` and the Python exceptions raised (`IndexError`, `ValueError`, `AttributeError`); running steps in order until the first error |
| `vectors.dfy` | `Vectors` | `np.all(v == 0)` on a coefficient vector |
| `pystr.dfy` | `PyStr` | the `str` and `os.path` operations used: `split`, `join`, `strip`, `find`, `'%03i'`, POSIX `os.path.join`, Python string ordering |
| `dicts.dfy` | `Dicts` | a Python `dict` with string keys as an association list: `d[k] = v`, `d.get`, `setdefault(k, []).append` |
| `naming.dfy` | `Naming` | `safe_name`, `check_path`, `check_paths` |
| `spec_utils.dfy` | `SpecUtils` | `contrasts_spec` and the `<task>_run<NNN>_<name>` key format |
| `baseline.dfy` | `Baseline` | `add_baseline_regressor` |
| `glm_design.dfy` | `GlmDesign` | the design mask and reduced design of `_fit_glm`, boolean-mask selection and unmasking, `check_contrast` |
| `contrast_maps.dfy` | `ContrastMaps` | `sanitize_contrast`, `one_map_per_run` |
| `intra_model.dfy` | `IntraModel` | class `IntraLinearModel`: `fit`, the session loop and output loop of `_contrast`, and `contrast` |

Modelling choices:

- **Contrast objects.** A GLM contrast object is a term: one
  `glm.contrast(weights)` per session, or the sum of two terms. The library's
  `+` is associative, so a contrast's value depends only on its summands
  taken left to right (`Summands`). The model proves properties about that
  sequence of summands.
- **Exceptions.** An exception the Python code raises becomes a `Result`
  error. Examples: a boolean index of the wrong length, a `split` that cannot
  be unpacked, an out-of-range session index in `contrasts_spec`.
- **Dictionaries.** The code is Python 2 (`except Exception, e:` at
  utils.py:19), where `for k in d` visits a dict in the order of its hash
  table, not in insertion order.
  - A dict the code is given is a list of entries whose order stands for
    the order it is visited in. So "a later key overwrites an earlier one"
    is stated in that order (`Dicts.PutAllGet`).
  - For a dict the code builds, the list's order is only a representation.
    Only its keys (`KeySet`) and lookups (`Get`) are stated.
  - The order matters in one loop over a built dict: the second loop of
    `add_baseline_regressor`. That loop takes its visiting order as a parameter
    `order`, which may be any permutation of the first-pass entries.
    `Baseline.AddedBaselineLastVisited` states what that order decides.
  - `one_map_per_run` also loops over a dict that `sanitize_contrast`
    built. There the model visits the list in its own order. This does not
    change the result: distinct ids never share a per-run key
    (`ContrastMaps.PerRunDistinct`), and whether the helper raises does not
    depend on the order (`ContrastMaps.PerRunFails`).
- **`check_contrast` input.** Its argument is either a flat coefficient list
  (`Flat`) or one entry per session (`PerSession`). This stands in for the
  run-time test on `con_val[0]` at intra_analysis.py:139.
- **List or array.** `one_map_per_run` can receive a session vector as a
  list or as a NumPy array (`PyVec`). The two behave differently there:
  `session_con == 0` is the scalar `False` on a list, so a list vector
  always contributes, even when all of its entries are zero. Only an array
  vector can be recognised as null. `sanitize_contrast` turns every vector
  into a list, so after it every non-None session contributes
  (`ContrastMaps.SanitizedContributes`).
- **Two different regressor counts in `_contrast`.**
  - `_contrast` pads each contrast vector to `glm.X.shape[1]`. That is the
    column count of the REDUCED design (active columns only).
  - `design_mask` has one entry per ORIGINAL column.
  - The boolean index `con_val[~design_mask]` therefore works only when no
    column was dropped. When some column was dropped, a vector that is not
    all zero raises an IndexError.
  - The model keeps this behaviour: `SessionVerdict` returns
    `Raise(IndexError)` when the lengths differ, and
    `IntraModel.DroppedColumnRaises` states exactly when that happens.

## Model

| member | source | states |
|---|---|---|
| `Naming.ReplaceUnsafe` | utils.py:88 | the first substitution keeps the length and maps each character of the class `[/ '"!*?;(){}.]` to `_`, leaving every other character as it is |
| `Naming.SafeNameRemovesUnsafe` | utils.py:87-89 | no character of the unsafe class survives `safe_name` |
| `Naming.CollapseNoRuns` | utils.py:89 | `re.sub('_+', '_', s)` leaves no two underscores side by side |
| `Naming.SafeNameStructure` | utils.py:87-89 | `safe_name` output has no run of underscores, keeps every character that is neither unsafe nor `_` in order, and applying it twice equals applying it once |
| `Naming.CheckPathBackslash` | utils.py:92-100 | a stripped path containing a backslash comes back without backslashes; when the kept components are ordinary, the result is exactly those components joined with `/`, so splitting it on `/` recovers them |
| `Naming.CheckPathVolume` | utils.py:101-104 | without a backslash, a path matching `.*,\d+` is cut just before its first comma; any other path is returned stripped and otherwise unchanged |
| `Naming.CheckPathBackslashKeepsVolume` | utils.py:96-100 | the backslash branch is taken first and its result ends with the last backslash component, so an SPM `,N` suffix there is kept |
| `Naming.CheckPaths` | utils.py:107-108 | one result per path, in order, each the `check_path` of its input |
| `PyStr.StripIsTrim` | utils.py:94 | `strip` keeps one contiguous slice of the input, drops only whitespace on either side, and leaves no whitespace at either end |
| `PyStr.JoinSplit` | utils.py:97 | joining the pieces of `split(sep)` with `sep` gives back the string |
| `PyStr.PosixJoinPlain` | utils.py:100 | for non-empty components without `/`, `os.path.join` is the plain join with `/`, contains `/` exactly when there are two or more components, and is non-empty without a trailing `/` |
| `PyStr.ZeroPad3RoundTrip` | utils.py:126 | `'%03i' % n` is exactly three digits below 1000 and `str(n)` from 1000 on, all digits, and reads back as `n` |
| `PyStr.FindSpec` | utils.py:134-135 | `find` returns the first occurrence of the pattern, or nothing exactly when the pattern does not occur |
| `PyStr.LeastExists` | intra_analysis.py:124 | every non-empty set of ids has a least element under Python's string order, which is where `sorted` starts |
| `Dicts.Get` | utils.py:127 | a key is found exactly when it was stored |
| `Dicts.PutSpecHolds` | utils.py:127 | `d[k] = v` makes `k` yield `v`, leaves every other key alone, adds `k` to the keys and keeps keys distinct (in the list, a new key goes last) |
| `Dicts.PutPut` | utils.py:151-157 | assigning a key twice has the effect of the second assignment alone |
| `Dicts.PutAllGet` | utils.py:127 | after a run of assignments each key holds the value assigned to it last, so a later key overwrites an earlier one on collision |
| `Dicts.LastWithSpec` | utils.py:151 | the value a run of assignments leaves under a key is that of the last assignment to it that no later one overrides, and there is none exactly when the key was never assigned |
| `Dicts.AppendTo` | utils.py:142 | `setdefault(k, []).append(x)` extends `k`'s list by `x`, creating it if needed, and changes no other key |
| `Dicts.AppendRunsGet` | utils.py:133-142 | after appending run after run, a key is present exactly when something was filed under it, and holds everything filed under it in order |
| `SpecUtils.RunKeyInjective` | utils.py:126 | two `<task>_run<NNN>_<name>` keys with `_`-free tasks are equal only when task, run and name are |
| `SpecUtils.RestrictedShape` | utils.py:116-119 | the per-session copy has the contrast's length, keeps the entries at the session's indices (negative ones counting from the end), is zero elsewhere, and fails with IndexError exactly when an index is out of range |
| `SpecUtils.RestrictedIdempotent` | utils.py:116-119 | restricting a restricted vector to the same session changes nothing |
| `SpecUtils.RestrictToSession` | utils.py:116-119 | the in-place `selection` / `con[selection] = 0` steps compute exactly the restriction |
| `SpecUtils.SpecKeyShape` | utils.py:121-126 | a key fails to unpack only when it starts with `task` and has no `_`; otherwise the output key is `<task>_run<i+1>_<name>`, split at the first `_` of the `task001_`-prefixed key |
| `SpecUtils.SpecKeyPrefixCollision` | utils.py:121-124 | a key without the `task` prefix lands on the same output key as the same key written with `task001_` |
| `SpecUtils.SessionEntriesShape` | utils.py:115-127 | each contrast yields one entry per session, in order, entry `i` being session `i`'s key and restricted vector |
| `SpecUtils.SpecEntriesCount` | utils.py:113-127 | a successful run makes `#contrasts * #sessions` assignments |
| `SpecUtils.ContrastsSpecGet` | utils.py:111-128 | the returned dict has exactly the keys assigned, each holding the vector assigned to it last |
| `SpecUtils.AssignSessions` | utils.py:115-127 | the inner loop stores, in order, every session's entry of one contrast, or fails with the first error |
| `SpecUtils.ContrastsSpec` | utils.py:111-128 | the whole function returns the entries of every contrast assigned in order into a fresh dict; the input is only read |
| `Baseline.StrippedKeyShape` | utils.py:134-137 | the stripped key is the part of the key before its first `_vs_baseline`, and the whole key when it has no `_vs_baseline` (whether or not it mentions `vs_baseline`); it never contains `_vs_baseline` |
| `Baseline.WithTrailingZero` | utils.py:138-141 | a vector gains exactly one trailing 0 and keeps its entries; None stays None |
| `Baseline.FirstPassGet` | utils.py:133-142 | after the first pass a stripped key holds the padded sessions of every contrast stripping to it, concatenated in order, and exists only if there is at least one |
| `Baseline.BaselineKeyShape` | utils.py:146-150 | unpacking fails exactly when the key has no `_`; otherwise the baseline key is `<task>_<run>_baseline` when the second field starts with `run`, else `<task>_baseline` |
| `Baseline.BaselineOfRunKey` | utils.py:146-150 | a `contrasts_spec` key `<task>_run<NNN>_<name>` gets the baseline key `<task>_run<NNN>_baseline` |
| `Baseline.OneHotShape` | utils.py:153-157 | a non-None vector with a nonzero entry becomes the indicator of its last position, same length; None and all-zero vectors are kept |
| `Baseline.BaselineSelectsAddedRegressor` | utils.py:138-157 | a used session's baseline selects exactly the regressor the first pass appended |
| `Baseline.OneHotIdempotent` | utils.py:153-157 | making a baseline of a baseline changes nothing |
| `Baseline.BaselineEntriesFail` | utils.py:145-146 | the baseline pass fails exactly when some first-pass key has no `_` |
| `Baseline.BaselineEntriesShape` | utils.py:145-157 | a successful baseline pass makes one assignment per first-pass entry, in visiting order: that entry's baseline key with the baselines of its sessions |
| `Baseline.AddedBaselineFails` | utils.py:145-146 | whatever the dict order, the function fails exactly when some first-pass key has no `_`, and then with ValueError |
| `Baseline.AddedBaselineGet` | utils.py:145-160 | the result holds every first-pass key and every baseline key; a baseline key holds the baselines of the entry visited last among those mapping to it, overriding a first-pass contrast of the same name |
| `Baseline.AddedBaselineLastVisited` | utils.py:145-157 | a baseline key holds the one-hot baselines of the first-pass entry that maps to it and that no later-visited entry with the same baseline key follows, so the dict order decides between colliding contrasts |
| `Baseline.AddedBaselineUnique` | utils.py:145-157 | a baseline key that only one first-pass entry maps to holds that entry's baselines, whatever the dict order |
| `Baseline.AppendPadded` | utils.py:138-142 | the inner first-pass loop appends the padded copies of one contrast's sessions under its stripped key |
| `Baseline.PadContrasts` | utils.py:132-142 | the first loop computes the first pass |
| `Baseline.MakeBaseline` | utils.py:154-156 | `c = [0] * len(c); c[-1] = 1` on a used vector gives its one-hot baseline |
| `Baseline.FillBaseline` | utils.py:151-157 | one key's baseline list is reset and then filled with its sessions' baselines, in order |
| `Baseline.BaselineContrasts` | utils.py:144-157 | the second loop, over the first-pass entries in the order it visits them, builds the baseline dict, or fails with the first key that cannot be unpacked |
| `Baseline.AddBaselineRegressor` | utils.py:131-160 | the whole function, for a given visiting order of the first-pass dict, is the first pass updated with the baseline dict built in that order; the input is only read |
| `GlmDesign.DesignMask` | intra_analysis.py:131 | column `j` is active exactly when some row is nonzero in it; one entry per original column |
| `GlmDesign.ColumnIsZero` | intra_analysis.py:131 | `np.all(X[:, j] == 0)` holds exactly when every row is zero in column `j` |
| `GlmDesign.Reduced` | intra_analysis.py:132 | `X[:, mask]` keeps every row and has one column per active regressor |
| `GlmDesign.FitGlmKeepsActiveColumns` | intra_analysis.py:130-134 | the fitted design keeps exactly the active columns in original order (scattering each reduced row back through the mask gives the original row), and none of its columns is all zero |
| `GlmDesign.ScatteredAt` | intra_analysis.py:103-104 | after `result_map[mask] = values` a masked position holds the value whose index is the number of masked positions before it, every other position holds 0 |
| `GlmDesign.CompressScattered` | intra_analysis.py:103-104 | selecting the masked positions of the filled map gives the values back |
| `GlmDesign.ScatteredCompress` | intra_analysis.py:132 | a row that is zero off the mask is recovered from its masked entries |
| `GlmDesign.Unmask` | intra_analysis.py:103-104 | the position-by-position fill yields the scattered map, broadcasts a single value, and raises ValueError for any other count |
| `GlmDesign.SessionSpecs` | intra_analysis.py:139-140 | a flat coefficient list becomes one session; an empty specification raises IndexError at `con_val[0]` |
| `GlmDesign.CheckContrast` | intra_analysis.py:137-151 | one vector per session up to the shorter of the two lists, vector `i` of length `n_regressors[i]`, entry `j` the spec's entry `j` if there is one and 0 otherwise (all zero for a None spec) |
| `ContrastMaps.InterleaveShape` | intra_analysis.py:206-208 | the inserted vector is twice as long, coefficient `j` at position `2j` and a 0 at `2j+1` |
| `ContrastMaps.EvensInterleave` | intra_analysis.py:206-208 | dropping the derivative slots gives the original coefficients back |
| `ContrastMaps.SanitizedSessionShape` | intra_analysis.py:203-209 | a sanitized session is None exactly when it was; otherwise a list twice as long whose even positions are the original coefficients |
| `ContrastMaps.SanitizedKeys` | intra_analysis.py:200-210 | contrast ids and session counts are kept, in input order, with no entry overwritten |
| `ContrastMaps.SanitizeSessions` | intra_analysis.py:202-209 | the session loop sanitizes each session in order |
| `ContrastMaps.SanitizeAll` | intra_analysis.py:200-210 | every contrast id is assigned its sanitized session list |
| `ContrastMaps.SanitizeContrast` | intra_analysis.py:199-213 | without `per_run` the sanitized dict is returned; with it, `one_map_per_run` of the sanitized dict |
| `ContrastMaps.ContributesIff` | intra_analysis.py:191-192 | a session contributes exactly when it is not None and either a list or an array with a nonzero entry |
| `ContrastMaps.SanitizedContributes` | intra_analysis.py:191-208 | after `sanitize_contrast` every non-None session contributes, all-zero or not |
| `ContrastMaps.RunsBeforeMonotone` | intra_analysis.py:196 | the run counter never decreases and strictly increases past a contributing session |
| `ContrastMaps.RunEntriesKeys` | intra_analysis.py:188-196 | one entry per contributing session, the `t`-th under run number `t + 1` |
| `ContrastMaps.RunEntriesAt` | intra_analysis.py:190-196 | contributing session `j` is stored under run `1 + #contributing sessions before j`, in a list of `n_sessions` slots all None except slot `j` |
| `ContrastMaps.PerRunFails` | intra_analysis.py:189 | `one_map_per_run` raises exactly when some contrast id has no `_`, whether or not it has a contributing session |
| `ContrastMaps.RunKeySource` | intra_analysis.py:189-193 | a per-run key leads back to the `<task>_<name>` id it was made from |
| `ContrastMaps.RunEntriesDistinct` | intra_analysis.py:193 | the per-run keys of one contrast are pairwise distinct |
| `ContrastMaps.PerRunDistinct` | intra_analysis.py:185-196 | with distinct contrast ids all per-run keys are distinct, each leading back to an id already seen |
| `ContrastMaps.PerRunGet` | intra_analysis.py:184-197 | with distinct ids, each contributing session ends up under its `<task>_run<NNN>_<name>` key with itself as the only non-None slot |
| `ContrastMaps.SplitRuns` | intra_analysis.py:188-196 | the inner loop with its `run_id` counter assigns exactly the per-run entries of one contrast |
| `ContrastMaps.OneMapPerRun` | intra_analysis.py:184-197 | the whole helper returns the per-run entries of every contrast in order, or raises at the first id without `_` |
| `IntraModel.FittedSessionsKeepPresent` | intra_analysis.py:43-47 | `fit` passes on exactly the sessions whose design and data are both present (up to the shorter list), in their original order |
| `IntraModel.RegressorCounts` | intra_analysis.py:64-65 | one count per model: the column count of its reduced design (active regressors only), or 0 for a missing model |
| `IntraModel.SessionVerdictUse` | intra_analysis.py:71-81 | a session is used exactly when its vector is not all zero, its model exists and it puts no weight on an inactive regressor; it contributes the weights of the active regressors |
| `IntraModel.DroppedColumnRaises` | intra_analysis.py:64-72 | for a fitted session and a padded vector that is not all zero, `_contrast` raises IndexError exactly when the design had an all-zero column |
| `IntraModel.CombinedIsOrderedSum` | intra_analysis.py:68-84 | the loop raises exactly when some session raises, with the first such error; otherwise the contrast is absent exactly when no session is used, and is the sum of the used sessions' contributions in session order |
| `IntraModel.MapsForEnabled` | intra_analysis.py:93-118 | one path per enabled flag in the order z, stat, effect, variance, path `k` being that statistic's map file and volume `k` its values unmasked; it fails exactly when one of them cannot be unmasked |
| `IntraModel.ZScoreDir` | intra_analysis.py:113 | z scores go to `z_maps` |
| `IntraModel.StatDir` | intra_analysis.py:113 | statistics go to `stat_maps` |
| `IntraModel.EffectDir` | intra_analysis.py:113 | effects go to `effect_maps` |
| `IntraModel.VarianceDir` | intra_analysis.py:113 | variances go to `variance_maps` |
| `IntraModel.MapPathPlain` | intra_analysis.py:112-116 | for an ordinary output directory the map path is `output_dir/<kind>_maps/<contrast_id>.nii.gz` |
| `IntraModel.ContrastResultCases` | intra_analysis.py:83-91 | `_contrast` returns `dict()` exactly when no session is used; otherwise z scores are computed exactly when `output_z` or `output_stat`, and there are as many paths as enabled flags |
| `IntraModel.IntraLinearModel.constructor` | intra_analysis.py:19-39 | the output directory and the four output flags are stored, the flags defaulting to z maps only; the model is not fitted |
| `IntraModel.IntraLinearModel.Fit` | intra_analysis.py:41-50 | `glm_` and `design_mask_` hold one `_fit_glm` result per kept session, in order; the model is fitted and the settings are unchanged |
| `IntraModel.IntraLinearModel.CombineSessions` | intra_analysis.py:62-81 | the session loop accumulates the contrast exactly as `Combined` describes |
| `IntraModel.IntraLinearModel.WriteMaps` | intra_analysis.py:93-120 | the output loop returns the paths and volumes described by `MapsFor` |
| `IntraModel.IntraLinearModel.ContrastOne` | intra_analysis.py:61-120 | before `fit`, reading `glm_` raises AttributeError; after it, `_contrast` normalises, combines, and writes the maps, failing with the first error |
| `IntraModel.IntraLinearModel.Contrast` | intra_analysis.py:122-127 | succeeds exactly when every id's `_contrast` does (so an unfitted model fails on any non-empty dict), then maps every id to its outputs; on failure the error is that of an id all of whose predecessors in sorted order succeeded |

## Left out

- GLM fitting and contrast statistics (`GeneralLinearModel.fit`, `glm.contrast`, `z_score`, the `z_score_`/`stat_`/`effect`/`variance` attributes) are done by an external numerical library over floating point. A contrast object is a term of summands. Its statistics are the parameter `stats` of `IntraLinearModel.ContrastOne` and `IntraLinearModel.Contrast`.
- `check_design`: SVD singular-value ratios are floating-point numerics.
- CPython 2's hash-table order is not computed. `Baseline.AddBaselineRegressor` takes the order in which its second loop visits the first-pass dict as a parameter, and what is proved holds for every such order.
- `output_dir`'s default, `tempfile.gettempdir()`, depends on the environment, so the constructor of `IntraLinearModel` always takes the directory. The four output flags keep their defaults.
- Masking, resampling and image I/O: `MultiNiftiMasker.fit_transform` (its output is the `data` parameter of `Fit`), `mask_img_` (its flattened array is the `maskArray` parameter), `resample_img`, `Nifti1Image`, `to_filename`, `os.makedirs`, and the module-level `nb.load` of the target affine and shape. The model returns the paths and unmasked volumes that would be written.
- `glm_model`, `contrast_type`, `target_affine`, `target_shape`, `model_tol`, `memory`, `n_jobs` and `masker` only reach the external libraries or the worker pool, so `IntraLinearModel` does not have them as fields.
- `joblib` `Parallel`/`delayed`/`Memory`: parallel dispatch and caching. The model runs the sessions in order, which is the order `Parallel` returns its results in.
- `do_intra_analysis` and the `__main__` driver loop: file discovery, external loaders and worker-pool fan-out. Only the two nested helpers are modelled.
- `sanitize_contrast`'s `insert_derivative` argument is never read by the code, so it is not a parameter.
- `make_dir`, `del_dir`, `copy_dir`, `copy_file`, `globing`, `save_table`, `get_table`: filesystem and CSV I/O wrappers.
- `check_path` runs on POSIX: `os.path.join` is modelled with `/` as the separator. Its `str(path)` conversion is the identity on strings.
- `check_contrast`: the test `isinstance(con_val[0], list)` is modelled by the shape of `ContrastSpec`. A per-session specification whose first entry is a NumPy array (a flat spec by that test) is not modelled.
- The boolean index at intra_analysis.py:72 follows current NumPy, where an index of the wrong length raises IndexError. Older NumPy versions only warned.
- Coefficients are `real`. NumPy's integer or float dtype and rounding are not modelled.
- Python `str` is `seq<char>`. Python 2's byte strings, Unicode and locale-dependent whitespace are not modelled.
