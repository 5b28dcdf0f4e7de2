/** File-name and path clean-up of utils.py: `safe_name`, `check_path`
    and `check_paths`. */
module Naming {
  import opened PyStr

  /** The characters of the class `[/ '"!*?;(){}.]` that `safe_name` turns into `_`. */
  predicate IsUnsafe(c: char) {
    c in "/ '\"!*?;(){}."
  }

  predicate NoUnsafe(s: string) {
    forall i :: 0 <= i < |s| ==> !IsUnsafe(s[i])
  }

  predicate NoDoubleUnderscore(s: string) {
    forall i :: 0 <= i < |s| - 1 ==> !(s[i] == '_' && s[i + 1] == '_')
  }

  /** First substitution of `safe_name`: every unsafe character becomes `_`. */
  function ReplaceUnsafe(s: string): (r: string)
    ensures |r| == |s|
    ensures forall i :: 0 <= i < |s| ==> r[i] == if IsUnsafe(s[i]) then '_' else s[i]
  {
    if |s| == 0 then "" else [if IsUnsafe(s[0]) then '_' else s[0]] + ReplaceUnsafe(s[1..])
  }

  /** Second substitution of `safe_name`: `re.sub('_+', '_', s)`. */
  function CollapseUnderscores(s: string): (r: string)
  {
    if |s| < 2 then s
    else if s[0] == '_' && s[1] == '_' then CollapseUnderscores(s[1..])
    else [s[0]] + CollapseUnderscores(s[1..])
  }

  function SafeName(name: string): string {
    CollapseUnderscores(ReplaceUnsafe(name))
  }

  /** The characters `safe_name` keeps as they are: neither unsafe nor `_`. */
  function Kept(s: string): (r: string)
  {
    if |s| == 0 then ""
    else (if IsUnsafe(s[0]) || s[0] == '_' then "" else [s[0]]) + Kept(s[1..])
  }

  lemma {:induction false} CollapseShape(s: string)
    ensures |CollapseUnderscores(s)| <= |s|
    ensures |s| > 0 ==> |CollapseUnderscores(s)| > 0 && CollapseUnderscores(s)[0] == s[0]
    ensures forall i :: 0 <= i < |CollapseUnderscores(s)| ==> CollapseUnderscores(s)[i] in s
  {
    if |s| >= 2 {
      CollapseShape(s[1..]);
      var c := CollapseUnderscores(s[1..]);
      assert forall i :: 0 <= i < |c| ==> c[i] in s by {
        assert forall x :: x in s[1..] ==> x in s;
      }
    }
  }

  /** `re.sub('_+', '_', s)` leaves no two underscores side by side. */
  lemma {:induction false} CollapseNoRuns(s: string)
    ensures NoDoubleUnderscore(CollapseUnderscores(s))
  {
    if |s| >= 2 {
      CollapseNoRuns(s[1..]);
      CollapseShape(s[1..]);
    }
  }

  lemma {:induction false} CollapseIdentity(s: string)
    requires NoDoubleUnderscore(s)
    ensures CollapseUnderscores(s) == s
  {
    if |s| >= 2 {
      CollapseIdentity(s[1..]);
      assert [s[0]] + s[1..] == s;
    }
  }

  lemma {:induction false} CollapseKeeps(s: string)
    ensures Kept(CollapseUnderscores(s)) == Kept(s)
  {
    if |s| >= 2 {
      CollapseKeeps(s[1..]);
      var c := CollapseUnderscores(s[1..]);
      if !(s[0] == '_' && s[1] == '_') {
        assert ([s[0]] + c)[1..] == c;
      }
    }
  }

  lemma {:induction false} ReplaceKeeps(s: string)
    ensures Kept(ReplaceUnsafe(s)) == Kept(s)
  {
    if |s| > 0 {
      ReplaceKeeps(s[1..]);
      assert ReplaceUnsafe(s)[1..] == ReplaceUnsafe(s[1..]);
    }
  }

  lemma ReplaceIdentity(s: string)
    requires NoUnsafe(s)
    ensures ReplaceUnsafe(s) == s
  {
  }

  /** No character of the unsafe class survives `safe_name`. */
  lemma SafeNameRemovesUnsafe(name: string)
    ensures NoUnsafe(SafeName(name))
  {
    var r := ReplaceUnsafe(name);
    CollapseShape(r);
    assert forall x :: x in r ==> !IsUnsafe(x);
  }

  /** `safe_name` leaves no run of underscores, keeps every other character
      in order, and is idempotent. */
  lemma SafeNameStructure(name: string)
    ensures NoDoubleUnderscore(SafeName(name))
    ensures Kept(SafeName(name)) == Kept(name)
    ensures SafeName(SafeName(name)) == SafeName(name)
  {
    var r := ReplaceUnsafe(name);
    CollapseNoRuns(r);
    CollapseKeeps(r);
    ReplaceKeeps(name);
    SafeNameRemovesUnsafe(name);
    ReplaceIdentity(SafeName(name));
    CollapseIdentity(SafeName(name));
  }

  /** `re.match('.*,\d+', p)`: from the start, a stretch without a newline
      (`.` does not match one), a comma, a digit. */
  predicate HasVolumeSuffix(p: string) {
    exists i :: 0 <= i < |p| - 1 && p[i] == ',' && IsDigit(p[i + 1]) && '\n' !in p[..i]
  }

  /** The components a backslash path keeps: a leading empty or drive
      (`C:`) component is dropped. */
  function WindowsParts(p: string): (parts: seq<string>)
    requires '\\' in p
    ensures |parts| >= 1
  {
    var parts := Split(p, '\\');
    if parts[0] == "" || ':' in parts[0] then parts[1..] else parts
  }

  function CheckPath(path: string): (r: string)
  {
    var p := Strip(path);
    if '\\' in p then PosixJoin(WindowsParts(p))
    else if HasVolumeSuffix(p) then Before(p, ',')
    else p
  }

  /** A backslash path comes back with no backslash; for ordinary components
      it is exactly the kept components joined with `/`, and splitting on `/`
      recovers them. */
  lemma CheckPathBackslash(path: string)
    requires '\\' in Strip(path)
    ensures '\\' !in CheckPath(path)
    ensures var parts := WindowsParts(Strip(path));
      (forall i :: 0 <= i < |parts| ==> parts[i] != "" && '/' !in parts[i]) ==>
        CheckPath(path) == Join(parts, '/') && Split(CheckPath(path), '/') == parts
  {
    var p := Strip(path);
    var all := Split(p, '\\');
    var parts := WindowsParts(p);
    assert forall i :: 0 <= i < |parts| ==> '\\' !in parts[i] by {
      assert forall i :: 0 <= i < |parts| ==> parts[i] in all;
    }
    PosixJoinAvoids(parts, '\\');
    if forall i :: 0 <= i < |parts| ==> parts[i] != "" && '/' !in parts[i] {
      PosixJoinPlain(parts);
      SplitJoin(parts, '/');
    }
  }

  /** Without a backslash, an SPM `,N` volume suffix is cut at the first comma;
      any other path is only stripped. */
  lemma CheckPathVolume(path: string)
    requires '\\' !in Strip(path)
    ensures HasVolumeSuffix(Strip(path)) ==>
      ',' !in CheckPath(path) && StartsWith(Strip(path), CheckPath(path))
      && |CheckPath(path)| < |Strip(path)| && Strip(path)[|CheckPath(path)|] == ','
    ensures !HasVolumeSuffix(Strip(path)) ==> CheckPath(path) == Strip(path)
  {
    var p := Strip(path);
    if HasVolumeSuffix(p) {
      var i :| 0 <= i < |p| - 1 && p[i] == ',' && IsDigit(p[i + 1]) && '\n' !in p[..i];
      assert ',' in p by { assert p[i] == ','; }
      var k := IndexOf(p, ',');
    }
  }

  /** The backslash branch is taken first and keeps the last component
      whole, so an SPM `,N` suffix there survives. */
  lemma CheckPathBackslashKeepsVolume(path: string)
    requires '\\' in Strip(path)
    ensures var parts := Split(Strip(path), '\\');
      EndsWith(CheckPath(path), parts[|parts| - 1])
  {
    var parts := Split(Strip(path), '\\');
    var kept := WindowsParts(Strip(path));
    assert kept[|kept| - 1] == parts[|parts| - 1];
    PosixJoinEndsWithLast(kept);
  }

  /** `check_paths`: `check_path` applied to every path, in order. */
  function CheckPaths(paths: seq<string>): (r: seq<string>)
    ensures |r| == |paths|
    ensures forall i :: 0 <= i < |paths| ==> r[i] == CheckPath(paths[i])
  {
    if |paths| == 0 then [] else [CheckPath(paths[0])] + CheckPaths(paths[1..])
  }
}
