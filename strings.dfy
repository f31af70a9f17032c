/** String helpers that stand for the Python built-ins the core relies on:
    `str(n)`, `int(s)`, `str.split`, `str.rsplit`, `str.replace`, `str.lower`,
    `str.startswith` / `str.endswith` and the `in` test on strings. */
module Strings {
  import opened Wrappers

  predicate IsDigit(c: char) { '0' <= c <= '9' }

  predicate AllDigits(s: string) { forall k :: 0 <= k < |s| ==> IsDigit(s[k]) }

  function DigitChar(d: nat): (c: char)
    requires d < 10
    ensures IsDigit(c)
  {
    ['0', '1', '2', '3', '4', '5', '6', '7', '8', '9'][d]
  }

  function DigitValue(c: char): (d: nat)
    requires IsDigit(c)
    ensures d < 10 && DigitChar(d) == c
  {
    (c as int - '0' as int) as nat
  }

  /** `str(n)` for a natural number: its decimal digits, most significant first. */
  function NatToString(n: nat): (s: string)
    ensures s != [] && AllDigits(s)
  {
    if n < 10 then [DigitChar(n)] else NatToString(n / 10) + [DigitChar(n % 10)]
  }

  /** `str(i)` for any Python int. */
  function IntToString(i: int): string {
    if i < 0 then "-" + NatToString(-i) else NatToString(i)
  }

  /** The value of a string of decimal digits. */
  function DigitsValue(s: string): nat
    requires AllDigits(s)
  {
    if s == [] then 0 else DigitsValue(s[..|s| - 1]) * 10 + DigitValue(s[|s| - 1])
  }

  /** Reading back what `str(n)` printed gives `n`. */
  lemma {:induction false} DigitsValueOfNatToString(n: nat)
    ensures DigitsValue(NatToString(n)) == n
  {
    if n >= 10 {
      var s := NatToString(n);
      assert s[..|s| - 1] == NatToString(n / 10);
      DigitsValueOfNatToString(n / 10);
    }
  }

  /** Decimal rendering is injective, so "sa" ids built from distinct indices differ. */
  lemma {:induction false} NatToStringInjective(a: nat, b: nat)
    requires NatToString(a) == NatToString(b)
    ensures a == b
  {
    DigitsValueOfNatToString(a);
    DigitsValueOfNatToString(b);
  }

  /** The characters Python's `int()` strips around a number (ASCII part of `str.isspace`). */
  predicate IsPySpace(c: char) {
    c == ' ' || c == '\t' || c == '\n' || c == '\r' || c == '\U{0b}' || c == '\U{0c}'
    || c == '\U{1c}' || c == '\U{1d}' || c == '\U{1e}' || c == '\U{1f}'
  }

  function StripLeft(s: string): (r: string)
    ensures |r| <= |s| && r == s[|s| - |r|..]
    ensures r != [] ==> !IsPySpace(r[0])
  {
    if s != [] && IsPySpace(s[0]) then StripLeft(s[1..]) else s
  }

  function StripRight(s: string): (r: string)
    ensures |r| <= |s| && r == s[..|r|]
    ensures r != [] ==> !IsPySpace(r[|r| - 1])
  {
    if s != [] && IsPySpace(s[|s| - 1]) then StripRight(s[..|s| - 1]) else s
  }

  /** Digits separated by single underscores, starting and ending with a digit
      (the literal form `int()` accepts after the sign). */
  predicate DigitGroups(s: string) {
    && s != []
    && IsDigit(s[0]) && IsDigit(s[|s| - 1])
    && (forall k :: 0 <= k < |s| ==> IsDigit(s[k]) || s[k] == '_')
    && (forall k :: 0 <= k < |s| - 1 ==> !(s[k] == '_' && s[k + 1] == '_'))
  }

  function RemoveUnderscores(s: string): (r: string)
    requires forall k :: 0 <= k < |s| ==> IsDigit(s[k]) || s[k] == '_'
    ensures AllDigits(r) && |r| <= |s|
  {
    if s == [] then []
    else if s[0] == '_' then RemoveUnderscores(s[1..])
    else [s[0]] + RemoveUnderscores(s[1..])
  }

  /** The value of an accepted digit-group literal. */
  function GroupsValue(b: string): nat
    requires DigitGroups(b)
  {
    DigitsValue(RemoveUnderscores(b))
  }

  /** `int()` after stripping: an optional sign, then digit groups. */
  function ParseSigned(t: string): Option<int> {
    if t == [] then None
    else if t[0] == '-' then (if DigitGroups(t[1..]) then Some(0 - GroupsValue(t[1..]) as int) else None)
    else if t[0] == '+' then (if DigitGroups(t[1..]) then Some(GroupsValue(t[1..])) else None)
    else if DigitGroups(t) then Some(GroupsValue(t))
    else None
  }

  /** Python's `int(s)` on a string: `None` where Python raises `ValueError`. */
  function PyInt(s: string): Option<int> {
    ParseSigned(StripRight(StripLeft(s)))
  }

  lemma {:induction false} RemoveUnderscoresOfDigits(s: string)
    requires AllDigits(s)
    ensures RemoveUnderscores(s) == s
  {
    if s != [] {
      assert AllDigits(s[1..]);
      RemoveUnderscoresOfDigits(s[1..]);
    }
  }

  /** `int(str(n)) == n`. */
  lemma {:induction false} PyIntOfNatToString(n: nat)
    ensures PyInt(NatToString(n)) == Some(n)
  {
    var s := NatToString(n);
    assert !IsPySpace(s[0]) && !IsPySpace(s[|s| - 1]);
    assert StripLeft(s) == s;
    assert StripRight(s) == s;
    assert s[0] != '-' && s[0] != '+';
    assert DigitGroups(s);
    RemoveUnderscoresOfDigits(s);
    assert ParseSigned(s) == Some(GroupsValue(s));
    DigitsValueOfNatToString(n);
  }

  /** A character that is neither a digit, a sign, an underscore nor white space makes
      `int()` fail. */
  lemma {:induction false} PyIntRejects(s: string, k: nat)
    requires k < |s|
    requires !IsDigit(s[k]) && s[k] != '_' && s[k] != '+' && s[k] != '-' && !IsPySpace(s[k])
    ensures PyInt(s) == None
  {
    var t := StripRight(StripLeft(s));
    var j := StripKeeps(s, k);
    if t[0] == '-' || t[0] == '+' {
      assert t[1..][j - 1] == s[k];
      assert !DigitGroups(t[1..]);
    } else {
      assert !DigitGroups(t);
    }
  }

  /** Stripping white space keeps every other character. */
  lemma {:induction false} StripKeeps(s: string, k: nat) returns (j: nat)
    requires k < |s| && !IsPySpace(s[k])
    ensures j < |StripRight(StripLeft(s))| && StripRight(StripLeft(s))[j] == s[k]
  {
    var l := StripLeft(s);
    StripLeftKeeps(s, k);
    j := k - (|s| - |l|);
    assert l[j] == s[k];
    StripRightKeeps(l, j);
  }

  lemma {:induction false} StripLeftKeeps(s: string, k: nat)
    requires k < |s| && !IsPySpace(s[k])
    ensures |s| - |StripLeft(s)| <= k
  {
    if s != [] && IsPySpace(s[0]) {
      assert k > 0;
      StripLeftKeeps(s[1..], k - 1);
    }
  }

  lemma {:induction false} StripRightKeeps(s: string, k: int)
    requires 0 <= k < |s| && !IsPySpace(s[k])
    ensures k < |StripRight(s)|
  {
    if s != [] && IsPySpace(s[|s| - 1]) {
      assert k < |s| - 1;
      StripRightKeeps(s[..|s| - 1], k);
    }
  }

  predicate StartsWith(s: string, prefix: string) {
    |prefix| <= |s| && s[..|prefix|] == prefix
  }

  /** Python's `sub in s` on strings. */
  predicate Contains(s: string, sub: string)
    decreases |s|
  {
    StartsWith(s, sub) || (s != [] && Contains(s[1..], sub))
  }

  lemma {:induction false} ContainsAt(s: string, sub: string, i: nat)
    requires i + |sub| <= |s| && s[i..i + |sub|] == sub
    ensures Contains(s, sub)
    decreases i
  {
    if i > 0 {
      assert s[1..][i - 1..i - 1 + |sub|] == sub;
      ContainsAt(s[1..], sub, i - 1);
    }
  }

  lemma {:induction false} ContainsSuffix(p: string, sub: string)
    ensures Contains(p + sub, sub)
  {
    assert (p + sub)[|p|..|p| + |sub|] == sub;
    ContainsAt(p + sub, sub, |p|);
  }

  lemma {:induction false} ContainsPrepend(a: string, s: string, sub: string)
    requires Contains(s, sub)
    ensures Contains(a + s, sub)
    decreases |a|
  {
    if a != [] {
      ContainsPrepend(a[1..], s, sub);
      assert (a + s)[1..] == a[1..] + s;
    } else {
      assert a + s == s;
    }
  }

  lemma {:induction false} ContainsAppend(s: string, b: string, sub: string)
    requires Contains(s, sub)
    ensures Contains(s + b, sub)
    decreases |s|
  {
    if StartsWith(s, sub) {
      assert (s + b)[..|sub|] == s[..|sub|];
    } else {
      ContainsAppend(s[1..], b, sub);
      assert (s + b)[1..] == s[1..] + b;
    }
  }

  predicate EndsWith(s: string, suffix: string) {
    |suffix| <= |s| && s[|s| - |suffix|..] == suffix
  }

  /** Index of the last occurrence of `c` in `s`. */
  function LastIndexOf(s: string, c: char): (r: Option<nat>)
    ensures r.Some? ==> r.value < |s| && s[r.value] == c
                        && forall k :: r.value < k < |s| ==> s[k] != c
    ensures r.None? ==> forall k :: 0 <= k < |s| ==> s[k] != c
  {
    if s == [] then None
    else if s[|s| - 1] == c then Some(|s| - 1)
    else LastIndexOf(s[..|s| - 1], c)
  }

  /** `s.split(c)[-1]`: the text after the last `c`, or all of `s`. */
  function AfterLast(s: string, c: char): (r: string)
    ensures forall k :: 0 <= k < |r| ==> r[k] != c
    ensures EndsWith(s, r)
    ensures |r| == |s| || s[|s| - |r| - 1] == c
  {
    match LastIndexOf(s, c)
    case None => s
    case Some(i) => s[i + 1..]
  }

  /** `s.rsplit(c, 1)` unpacked into two names: `None` where the unpacking raises
      because `c` does not occur. */
  function RSplitOnce(s: string, c: char): (r: Option<(string, string)>)
    ensures r.None? <==> forall k :: 0 <= k < |s| ==> s[k] != c
    ensures r.Some? ==> s == r.value.0 + [c] + r.value.1
                        && forall k :: 0 <= k < |r.value.1| ==> r.value.1[k] != c
  {
    match LastIndexOf(s, c)
    case None => None
    case Some(i) =>
      assert s == s[..i] + [c] + s[i + 1..];
      Some((s[..i], s[i + 1..]))
  }

  /** Splitting `a + c + b` on its last `c`, when `b` has none, gives back `a` and `b`. */
  lemma {:induction false} RSplitOnceOf(a: string, c: char, b: string)
    requires forall k :: 0 <= k < |b| ==> b[k] != c
    ensures RSplitOnce(a + [c] + b, c) == Some((a, b))
  {
    var s := a + [c] + b;
    assert s[|a|] == c;
    assert forall k :: |a| < k < |s| ==> s[k] == b[k - |a| - 1];
    var li := LastIndexOf(s, c);
    assert li.Some?;
    assert li.value == |a|;
    assert s[..|a|] == a && s[|a| + 1..] == b;
  }

  /** The text after the last `c` of `a + c + b`, when `b` has none, is `b`. */
  lemma {:induction false} AfterLastOf(a: string, c: char, b: string)
    requires forall k :: 0 <= k < |b| ==> b[k] != c
    ensures AfterLast(a + [c] + b, c) == b
  {
    RSplitOnceOf(a, c, b);
    var s := a + [c] + b;
    assert LastIndexOf(s, c).value == |a|;
  }

  /** Python's `s.replace(pat, rep)`: non-overlapping occurrences, left to right. */
  function ReplaceAll(s: string, pat: string, rep: string): string
    requires pat != []
    decreases |s|
  {
    if |s| < |pat| then s
    else if s[..|pat|] == pat then rep + ReplaceAll(s[|pat|..], pat, rep)
    else [s[0]] + ReplaceAll(s[1..], pat, rep)
  }

  /** A text without the pattern is left alone by `replace`. */
  lemma {:induction false} ReplaceAllAbsent(s: string, pat: string, rep: string)
    requires pat != [] && !Contains(s, pat)
    ensures ReplaceAll(s, pat, rep) == s
    decreases |s|
  {
    if |s| >= |pat| {
      assert !StartsWith(s, pat);
      ReplaceAllAbsent(s[1..], pat, rep);
    }
  }

  /** ASCII upper case letters become lower case; everything else is kept. */
  function LowerAscii(s: string): (r: string)
    ensures |r| == |s|
    ensures forall k :: 0 <= k < |s| ==>
      r[k] == (if 'A' <= s[k] <= 'Z' then (s[k] as int + 32) as char else s[k])
  {
    if s == [] then []
    else [if 'A' <= s[0] <= 'Z' then (s[0] as int + 32) as char else s[0]] + LowerAscii(s[1..])
  }

  /** No occurrence of `pat` in `s` starts before index `n`. */
  predicate NoMatchBefore(s: string, pat: string, n: nat) {
    forall i :: 0 <= i < n && i <= |s| ==> !StartsWith(s[i..], pat)
  }

  /** `replace` passes over a prefix in which no occurrence starts. */
  lemma {:induction false} ReplaceAllConcat(a: string, b: string, pat: string, rep: string)
    requires pat != [] && NoMatchBefore(a + b, pat, |a|)
    ensures ReplaceAll(a + b, pat, rep) == a + ReplaceAll(b, pat, rep)
    decreases |a|
  {
    var s := a + b;
    if a == [] {
      assert s == b;
    } else if |s| >= |pat| {
      assert s[0..] == s;
      assert s[..|pat|] != pat;
      assert s[1..] == a[1..] + b;
      forall i | 0 <= i < |a| - 1 && i <= |s[1..]| ensures !StartsWith(s[1..][i..], pat) {
        assert s[1..][i..] == s[i + 1..];
      }
      ReplaceAllConcat(a[1..], b, pat, rep);
      assert a == [a[0]] + a[1..];
    }
  }

  /** `s.split(c)[0]`: the text before the first `c`, or all of `s`. */
  function BeforeFirst(s: string, c: char): (r: string)
    ensures StartsWith(s, r)
    ensures forall k :: 0 <= k < |r| ==> r[k] != c
    ensures |r| == |s| || s[|r|] == c
  {
    if s == [] || s[0] == c then [] else [s[0]] + BeforeFirst(s[1..], c)
  }

  lemma {:induction false} BeforeFirstOf(a: string, c: char, b: string)
    requires forall k :: 0 <= k < |a| ==> a[k] != c
    ensures BeforeFirst(a + [c] + b, c) == a
  {
    var s := a + [c] + b;
    if a != [] {
      assert s[1..] == a[1..] + [c] + b;
      BeforeFirstOf(a[1..], c, b);
      assert a == [a[0]] + a[1..];
    }
  }
}
