/** The few Python `str` and `os.path` operations the naming code relies on,
    over `string` (a `seq<char>`). */
module PyStr {
  import opened Wrappers

  predicate IsDigit(c: char) { '0' <= c <= '9' }

  predicate AllDigits(s: string) { forall i :: 0 <= i < |s| ==> IsDigit(s[i]) }

  /** The characters Python 2's `str.strip()` removes. */
  predicate IsSpace(c: char) {
    c == ' ' || c == '\t' || c == '\n' || c == '\r' || c == '\U{000B}' || c == '\U{000C}'
  }

  predicate StartsWith(s: string, prefix: string) {
    |prefix| <= |s| && s[..|prefix|] == prefix
  }

  predicate EndsWith(s: string, suffix: string) {
    |suffix| <= |s| && s[|s| - |suffix|..] == suffix
  }

  /** Position of the first `c` in `s`. */
  function IndexOf(s: string, c: char): (i: nat)
    requires c in s
    ensures i < |s| && s[i] == c && c !in s[..i]
  {
    if s[0] == c then 0
    else
      var j := IndexOf(s[1..], c);
      assert s[..j + 1] == [s[0]] + s[1..][..j];
      j + 1
  }

  /** `s.split(c)[0]`: everything before the first `c`, or all of `s`. */
  function Before(s: string, c: char): (r: string)
    ensures c !in r && StartsWith(s, r)
    ensures c !in s ==> r == s
  {
    if c in s then s[..IndexOf(s, c)] else s
  }

  /** The first `c` is the one with no `c` before it. */
  lemma BeforeAt(s: string, c: char, i: nat)
    requires i < |s| && s[i] == c && c !in s[..i]
    ensures Before(s, c) == s[..i]
  {
    assert c in s;
  }

  /** `s.split(c, 1)[1]`: everything after the first `c`. */
  function After(s: string, c: char): (r: string)
    requires c in s
    ensures s == Before(s, c) + [c] + r
  {
    var i := IndexOf(s, c);
    assert s == s[..i] + [c] + s[i + 1..];
    s[i + 1..]
  }

  /** `s.split(sep)` with a one-character separator. */
  function Split(s: string, sep: char): (parts: seq<string>)
    ensures |parts| >= 1
    ensures forall i :: 0 <= i < |parts| ==> sep !in parts[i]
    ensures sep in s <==> |parts| >= 2
  {
    if |s| == 0 then [""]
    else
      var rest := Split(s[1..], sep);
      assert sep in s <==> s[0] == sep || sep in s[1..];
      if s[0] == sep then [""] + rest
      else [[s[0]] + rest[0]] + rest[1..]
  }

  /** `sep.join(parts)`. */
  function Join(parts: seq<string>, sep: char): string
    requires |parts| >= 1
  {
    if |parts| == 1 then parts[0] else parts[0] + [sep] + Join(parts[1..], sep)
  }

  lemma {:induction false} JoinCons(a: string, b: string, tail: seq<string>, sep: char)
    ensures Join([a + b] + tail, sep) == a + Join([b] + tail, sep)
  {
    var l := [a + b] + tail;
    var r := [b] + tail;
    if |tail| > 0 {
      assert l[1..] == tail && r[1..] == tail;
    }
  }

  /** Splitting and joining again gives back the string. */
  lemma {:induction false} JoinSplit(s: string, sep: char)
    ensures Join(Split(s, sep), sep) == s
  {
    if |s| > 0 {
      var rest := Split(s[1..], sep);
      JoinSplit(s[1..], sep);
      if s[0] == sep {
        assert ([""] + rest)[1..] == rest;
      } else {
        assert rest == [rest[0]] + rest[1..];
        JoinCons([s[0]], rest[0], rest[1..], sep);
      }
    }
  }

  lemma {:induction false} SplitNoSep(s: string, sep: char)
    requires sep !in s
    ensures Split(s, sep) == [s]
  {
    if |s| > 0 {
      assert sep !in s[1..] by { assert forall i :: 0 <= i < |s| - 1 ==> s[1..][i] == s[i + 1]; }
      SplitNoSep(s[1..], sep);
      assert [s[0]] + s[1..] == s;
    }
  }

  lemma {:induction false} SplitAfterPiece(a: string, b: string, sep: char)
    requires sep !in a
    ensures Split(a + [sep] + b, sep) == [a] + Split(b, sep)
  {
    var s := a + [sep] + b;
    if |a| == 0 {
      assert s[1..] == b;
    } else {
      assert s[1..] == a[1..] + [sep] + b;
      assert sep !in a[1..] by { assert forall i :: 0 <= i < |a| - 1 ==> a[1..][i] == a[i + 1]; }
      SplitAfterPiece(a[1..], b, sep);
      assert [a[0]] + a[1..] == a;
    }
  }

  /** Joining pieces that do not contain the separator and splitting again
      gives back the pieces. */
  lemma {:induction false} SplitJoin(parts: seq<string>, sep: char)
    requires |parts| >= 1
    requires forall i :: 0 <= i < |parts| ==> sep !in parts[i]
    ensures Split(Join(parts, sep), sep) == parts
  {
    if |parts| == 1 {
      SplitNoSep(parts[0], sep);
    } else {
      SplitJoin(parts[1..], sep);
      SplitAfterPiece(parts[0], Join(parts[1..], sep), sep);
    }
  }

  /** The first piece of a split is the part before the first separator. */
  lemma {:induction false} SplitHead(s: string, sep: char)
    ensures Split(s, sep)[0] == Before(s, sep)
  {
    if sep in s {
      var i := IndexOf(s, sep);
      assert s == s[..i] + [sep] + s[i + 1..];
      SplitAfterPiece(s[..i], s[i + 1..], sep);
    } else {
      SplitNoSep(s, sep);
    }
  }

  function StripLeft(s: string): string
  {
    if |s| > 0 && IsSpace(s[0]) then StripLeft(s[1..]) else s
  }

  function StripRight(s: string): string
  {
    if |s| > 0 && IsSpace(s[|s| - 1]) then StripRight(s[..|s| - 1]) else s
  }

  /** `s.strip()`: `s` without its leading and trailing whitespace. */
  function Strip(s: string): string
  {
    StripRight(StripLeft(s))
  }

  lemma {:induction false} StripLeftShape(s: string)
    ensures |StripLeft(s)| <= |s| && StripLeft(s) == s[|s| - |StripLeft(s)|..]
    ensures forall i :: 0 <= i < |s| - |StripLeft(s)| ==> IsSpace(s[i])
    ensures |StripLeft(s)| > 0 ==> !IsSpace(StripLeft(s)[0])
  {
    if |s| > 0 && IsSpace(s[0]) {
      StripLeftShape(s[1..]);
    }
  }

  lemma {:induction false} StripRightShape(s: string)
    ensures |StripRight(s)| <= |s| && StripRight(s) == s[..|StripRight(s)|]
    ensures forall i :: |StripRight(s)| <= i < |s| ==> IsSpace(s[i])
    ensures |StripRight(s)| > 0 ==> !IsSpace(StripRight(s)[|StripRight(s)| - 1])
  {
    if |s| > 0 && IsSpace(s[|s| - 1]) {
      StripRightShape(s[..|s| - 1]);
    }
  }

  lemma StripUnpadded(s: string)
    requires |s| > 0 ==> !IsSpace(s[0]) && !IsSpace(s[|s| - 1])
    ensures Strip(s) == s
  {
  }

  /** What `strip` keeps is a slice of `s` bounded by non-blank characters,
      and everything it drops is whitespace. */
  lemma StripIsTrim(s: string) returns (i: nat, j: nat)
    ensures i <= j <= |s| && Strip(s) == s[i..j]
    ensures forall k :: 0 <= k < i ==> IsSpace(s[k])
    ensures forall k :: j <= k < |s| ==> IsSpace(s[k])
    ensures |Strip(s)| > 0 ==> !IsSpace(Strip(s)[0]) && !IsSpace(Strip(s)[|Strip(s)| - 1])
  {
    var l := StripLeft(s);
    StripLeftShape(s);
    var r := StripRight(l);
    StripRightShape(l);
    i := |s| - |l|;
    j := i + |r|;
    assert l == s[i..];
    assert r == l[..|r|];
    assert r == s[i..j];
    forall k | j <= k < |s|
      ensures IsSpace(s[k])
    {
      assert s[k] == l[k - i];
    }
  }

  /** One step of `os.path.join` on POSIX: an absolute component restarts
      the path, and a separator is inserted only where one is missing. */
  function JoinTwo(path: string, b: string): string {
    if StartsWith(b, "/") then b
    else if path == "" || EndsWith(path, "/") then path + b
    else path + "/" + b
  }

  /** `os.path.join(*parts)` on POSIX; Python raises a TypeError for no
      argument at all, so at least one part is required. */
  function PosixJoin(parts: seq<string>): string
    requires |parts| >= 1
  {
    if |parts| == 1 then parts[0]
    else JoinTwo(PosixJoin(parts[..|parts| - 1]), parts[|parts| - 1])
  }

  /** Whatever the earlier components, the joined path ends with the last one. */
  lemma PosixJoinEndsWithLast(parts: seq<string>)
    requires |parts| >= 1
    ensures EndsWith(PosixJoin(parts), parts[|parts| - 1])
  {
    var b := parts[|parts| - 1];
    if |parts| == 1 {
      assert b[|b| - |b|..] == b;
    } else {
      JoinTwoEndsWith(PosixJoin(parts[..|parts| - 1]), b);
    }
  }

  lemma JoinTwoEndsWith(path: string, b: string)
    ensures EndsWith(JoinTwo(path, b), b)
  {
    var r := JoinTwo(path, b);
    assert r == b || r == path + b || r == path + "/" + b;
    assert r[|r| - |b|..] == b;
  }

  /** Joining a part that neither starts nor ends with `/` to a non-empty
      path without a trailing `/` inserts one `/`, and the result has no
      trailing `/` either. */
  lemma JoinTwoPlain(path: string, b: string)
    requires path != "" && !EndsWith(path, "/")
    requires b != "" && b[0] != '/' && b[|b| - 1] != '/'
    ensures JoinTwo(path, b) == path + "/" + b
    ensures !EndsWith(path + "/" + b, "/")
  {
    assert !StartsWith(b, "/") by { assert b[..1] == [b[0]]; }
    var r := path + "/" + b;
    assert r[|r| - 1..] == [b[|b| - 1]];
  }

  /** For ordinary components (non-empty, no `/`), `os.path.join` is the
      plain join with `/`. */
  lemma {:induction false} PosixJoinPlain(parts: seq<string>)
    requires |parts| >= 1
    requires forall i :: 0 <= i < |parts| ==> parts[i] != "" && '/' !in parts[i]
    ensures PosixJoin(parts) == Join(parts, '/')
    ensures '/' in PosixJoin(parts) <==> |parts| >= 2
    ensures PosixJoin(parts) != "" && !EndsWith(PosixJoin(parts), "/")
  {
    var n := |parts|;
    if n > 1 {
      var init := parts[..n - 1];
      PosixJoinPlain(init);
      var p := PosixJoin(init);
      var b := parts[n - 1];
      assert !StartsWith(b, "/") by { assert b[0] != '/'; }
      assert JoinTwo(p, b) == p + "/" + b;
      JoinSnoc(init, b, '/');
      assert init + [b] == parts;
      assert p + "/" + b == p + ['/'] + b;
      assert '/' in p + "/" + b by { assert (p + "/" + b)[|p|] == '/'; }
      assert (p + "/" + b)[|p + "/" + b| - 1] == b[|b| - 1];
    } else {
      assert '/' !in parts[0];
      assert parts[0][|parts[0]| - 1] != '/';
    }
  }

  lemma {:induction false} JoinSnoc(init: seq<string>, b: string, sep: char)
    requires |init| >= 1
    ensures Join(init + [b], sep) == Join(init, sep) + [sep] + b
  {
    if |init| == 1 {
      assert (init + [b])[1..] == [b];
    } else {
      assert (init + [b])[1..] == init[1..] + [b];
      JoinSnoc(init[1..], b, sep);
    }
  }

  /** Components free of `c` join, under `os.path.join`, into a path free of `c`
      (for any `c` other than `/`). */
  lemma {:induction false} PosixJoinAvoids(parts: seq<string>, c: char)
    requires |parts| >= 1 && c != '/'
    requires forall i :: 0 <= i < |parts| ==> c !in parts[i]
    ensures c !in PosixJoin(parts)
  {
    if |parts| > 1 {
      PosixJoinAvoids(parts[..|parts| - 1], c);
    }
  }

  function DigitChar(d: nat): (c: char)
    requires d < 10
    ensures IsDigit(c)
  {
    (d + '0' as int) as char
  }

  function DigitValue(c: char): (d: nat)
    requires IsDigit(c)
    ensures d < 10 && DigitChar(d) == c
  {
    c as int - '0' as int
  }

  /** `str(n)` for a natural number. */
  function Decimal(n: nat): (s: string)
    ensures |s| >= 1 && AllDigits(s)
  {
    if n < 10 then [DigitChar(n)] else Decimal(n / 10) + [DigitChar(n % 10)]
  }

  /** `'%03i' % n`: the decimal digits of `n`, left-padded with zeros to three. */
  function ZeroPad3(n: nat): (s: string)
  {
    var d := Decimal(n);
    if |d| >= 3 then d else seq(3 - |d|, _ => '0') + d
  }

  /** The value of a string of decimal digits (leading zeros allowed). */
  function ParseDecimal(s: string): nat
    requires AllDigits(s)
  {
    if |s| == 0 then 0 else ParseDecimal(s[..|s| - 1]) * 10 + DigitValue(s[|s| - 1])
  }

  lemma {:induction false} ParseDecimalOfDecimal(n: nat)
    ensures ParseDecimal(Decimal(n)) == n
  {
    var d := Decimal(n);
    if n >= 10 {
      ParseDecimalOfDecimal(n / 10);
      assert d[..|d| - 1] == Decimal(n / 10);
    }
  }

  lemma {:induction false} ParseDecimalLeadingZero(s: string)
    requires AllDigits(s)
    ensures AllDigits("0" + s) && ParseDecimal("0" + s) == ParseDecimal(s)
  {
    var z := "0" + s;
    if |s| > 0 {
      assert z[..|z| - 1] == "0" + s[..|s| - 1];
      ParseDecimalLeadingZero(s[..|s| - 1]);
    }
  }

  /** `str(n)` has one digit below 10, at most two below 100 and at most
      three below 1000, and more otherwise. */
  lemma {:induction false} DecimalLength(n: nat)
    ensures n < 10 <==> |Decimal(n)| == 1
    ensures n < 100 <==> |Decimal(n)| <= 2
    ensures n < 1000 <==> |Decimal(n)| <= 3
  {
    if n >= 10 {
      DecimalLength(n / 10);
    }
  }

  /** `'%03i' % n` is exactly three digits below 1000 and `str(n)` from
      there on, and reads back as `n`, so distinct run numbers never print
      alike. */
  lemma {:induction false} ZeroPad3RoundTrip(n: nat)
    ensures |ZeroPad3(n)| >= 3 && AllDigits(ZeroPad3(n))
    ensures n < 1000 ==> |ZeroPad3(n)| == 3
    ensures n >= 1000 ==> ZeroPad3(n) == Decimal(n)
    ensures ParseDecimal(ZeroPad3(n)) == n
  {
    var d := Decimal(n);
    DecimalLength(n);
    ParseDecimalOfDecimal(n);
    if |d| == 1 {
      ParseDecimalLeadingZero(d);
      ParseDecimalLeadingZero("0" + d);
      assert ZeroPad3(n) == "0" + ("0" + d);
    } else if |d| == 2 {
      ParseDecimalLeadingZero(d);
      assert ZeroPad3(n) == "0" + d;
    }
  }

  /** Python's `<` on strings: lexicographic by code point, a proper prefix first. */
  predicate LexLess(a: string, b: string)
  {
    if |a| == 0 then |b| > 0
    else if |b| == 0 then false
    else if a[0] == b[0] then LexLess(a[1..], b[1..])
    else a[0] < b[0]
  }

  lemma {:induction false} LexLessIrreflexive(a: string)
    ensures !LexLess(a, a)
  {
    if |a| > 0 { LexLessIrreflexive(a[1..]); }
  }

  lemma {:induction false} LexLessTransitive(a: string, b: string, c: string)
    requires LexLess(a, b) && LexLess(b, c)
    ensures LexLess(a, c)
  {
    if |a| > 0 && |b| > 0 && |c| > 0 && a[0] == b[0] && b[0] == c[0] {
      LexLessTransitive(a[1..], b[1..], c[1..]);
    }
  }

  lemma {:induction false} LexLessTotal(a: string, b: string)
    requires a != b
    ensures LexLess(a, b) || LexLess(b, a)
  {
    if |a| > 0 && |b| > 0 && a[0] == b[0] {
      assert a == [a[0]] + a[1..] && b == [b[0]] + b[1..];
      LexLessTotal(a[1..], b[1..]);
    }
  }

  /** Every non-empty finite set of strings has a least element, which is
      what `sorted` puts first. */
  lemma {:induction false} LeastExists(s: set<string>)
    requires s != {}
    ensures exists m :: m in s && forall x :: x in s && x != m ==> LexLess(m, x)
    decreases |s|
  {
    var x :| x in s;
    if s == {x} {
      assert forall y :: y in s && y != x ==> LexLess(x, y);
    } else {
      var rest := s - {x};
      LeastExists(rest);
      var m :| m in rest && forall y :: y in rest && y != m ==> LexLess(m, y);
      LeastOfTwo(s, rest, x, m);
    }
  }

  lemma LeastOfTwo(s: set<string>, rest: set<string>, x: string, m: string)
    requires x in s && rest == s - {x} && m in rest
    requires forall y :: y in rest && y != m ==> LexLess(m, y)
    ensures exists w :: w in s && forall y :: y in s && y != w ==> LexLess(w, y)
  {
    LexLessTotal(m, x);
    if LexLess(m, x) {
      assert forall y :: y in s && y != m ==> LexLess(m, y);
    } else {
      forall y | y in s && y != x
        ensures LexLess(x, y)
      {
        if y != m { LexLessTransitive(x, m, y); }
      }
    }
  }


  /** Whether `pat` occurs in `s` starting at `i` (`pat in s` for strings). */
  predicate OccursAt(s: string, pat: string, i: nat)
  {
    i + |pat| <= |s| && s[i..i + |pat|] == pat
  }

  predicate Contains(s: string, pat: string)
  {
    exists i :: 0 <= i <= |s| && OccursAt(s, pat, i)
  }

  /** `s.find(pat)`, as an Option: the first position where `pat` occurs. */
  function Find(s: string, pat: string): (r: Option<nat>)
    ensures r.Some? ==> r.value + |pat| <= |s|
  {
    if |s| < |pat| then None
    else if s[..|pat|] == pat then Some(0)
    else
      var r := Find(s[1..], pat);
      if r.None? then None else Some(r.value + 1)
  }

  /** An occurrence past the first character is an occurrence in the tail. */
  lemma OccursShift(s: string, pat: string, i: nat)
    requires 0 < i <= |s|
    ensures OccursAt(s, pat, i) <==> OccursAt(s[1..], pat, i - 1)
  {
    if i + |pat| <= |s| {
      assert s[i..i + |pat|] == s[1..][i - 1..i - 1 + |pat|];
    }
  }

  /** `Find` gives an occurrence with none before it, or None when there is
      no occurrence at all. */
  lemma {:induction false} FindSpec(s: string, pat: string)
    ensures Find(s, pat).Some? ==> OccursAt(s, pat, Find(s, pat).value)
    ensures Find(s, pat).Some? ==> forall i :: 0 <= i < Find(s, pat).value ==> !OccursAt(s, pat, i)
    ensures Find(s, pat).None? <==> !Contains(s, pat)
  {
    if |s| >= |pat| && s[..|pat|] != pat {
      FindSpec(s[1..], pat);
      FindSpecStep(s, pat);
    } else if |s| >= |pat| {
      assert OccursAt(s, pat, 0) by {
        assert s[0..|pat|] == s[..|pat|];
      }
    } else {
      assert !Contains(s, pat);
    }
  }

  /** When `pat` does not start `s`, what holds of `Find` on the tail holds
      of `Find` on `s`. */
  lemma FindSpecStep(s: string, pat: string)
    requires |s| >= |pat| && s[..|pat|] != pat
    requires Find(s[1..], pat).Some? ==> OccursAt(s[1..], pat, Find(s[1..], pat).value)
    requires Find(s[1..], pat).Some? ==> forall i :: 0 <= i < Find(s[1..], pat).value ==> !OccursAt(s[1..], pat, i)
    requires Find(s[1..], pat).None? <==> !Contains(s[1..], pat)
    ensures Find(s, pat).Some? ==> OccursAt(s, pat, Find(s, pat).value)
    ensures Find(s, pat).Some? ==> forall i :: 0 <= i < Find(s, pat).value ==> !OccursAt(s, pat, i)
    ensures Find(s, pat).None? <==> !Contains(s, pat)
  {
    var t := s[1..];
    forall i | 0 < i <= |s|
      ensures OccursAt(s, pat, i) <==> OccursAt(t, pat, i - 1)
    {
      OccursShift(s, pat, i);
    }
    assert !OccursAt(s, pat, 0) by {
      assert s[0..|pat|] == s[..|pat|];
    }
    if Find(t, pat).None? {
      assert !Contains(s, pat) by {
        forall i | 0 <= i <= |s|
          ensures !OccursAt(s, pat, i)
        {
          if i > 0 {
            assert !OccursAt(t, pat, i - 1);
          }
        }
      }
    } else {
      assert OccursAt(s, pat, Find(s, pat).value);
    }
  }

  /** `s.split(pat)[0]`: everything before the first occurrence of `pat`. */
  function CutAt(s: string, pat: string): string
  {
    match Find(s, pat)
    case None => s
    case Some(i) => s[..i]
  }

  /** The cut is a prefix ending where the first occurrence of `pat`
      starts, the whole string when `pat` does not occur, and free of `pat`
      otherwise. */
  lemma CutAtSpec(s: string, pat: string)
    ensures StartsWith(s, CutAt(s, pat))
    ensures Find(s, pat).Some? ==> |CutAt(s, pat)| == Find(s, pat).value
    ensures !Contains(s, pat) ==> CutAt(s, pat) == s
    ensures |pat| > 0 ==> !Contains(CutAt(s, pat), pat)
  {
    FindSpec(s, pat);
    match Find(s, pat)
    case None =>
    case Some(i) =>
      var key := s[..i];
      if |pat| > 0 {
        forall j | 0 <= j <= |key|
          ensures !OccursAt(key, pat, j)
        {
          if j + |pat| <= |key| {
            assert j < i;
            assert !OccursAt(s, pat, j);
            assert forall t :: j <= t < j + |pat| ==> key[t] == s[t];
            assert s[j..j + |pat|] == key[j..j + |pat|];
          }
        }
      }
  }
}
