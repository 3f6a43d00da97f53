/** Optional values: Python's `None` or a value. */
module Options {
  datatype Option<+T> = None | Some(value: T)
}

/**
 * The few Python string operations the agent relies on, with the meaning
 * CPython gives them: `pat in s`, `s.find(pat)`, `s.split(sep)`,
 * `sep.join(pieces)`, `s.strip()` and a one-character `s.replace(a, b)`.
 */
module Text {
  import opened Options

  /** `pat` occurs in `s` starting at index `k`. */
  predicate OccursAt(s: string, pat: string, k: nat) {
    k + |pat| <= |s| && s[k..k + |pat|] == pat
  }

  /** The first occurrence of `pat` in `s` at or after index `from`. */
  function FindFrom(s: string, pat: string, from: nat): (r: Option<nat>)
    decreases |s| - from
    ensures r.Some? ==> from <= r.value && OccursAt(s, pat, r.value)
    ensures r.Some? ==> forall k :: from <= k < r.value ==> !OccursAt(s, pat, k)
    ensures r.None? ==> forall k :: from <= k ==> !OccursAt(s, pat, k)
  {
    if |s| < from + |pat| then None
    else if s[from..from + |pat|] == pat then Some(from)
    else FindFrom(s, pat, from + 1)
  }

  /** `s.find(pat)`, with `None` standing for -1. */
  function Find(s: string, pat: string): (r: Option<nat>)
    ensures r.Some? ==> OccursAt(s, pat, r.value)
    ensures r.Some? ==> forall k: nat :: k < r.value ==> !OccursAt(s, pat, k)
    ensures r.None? ==> forall k :: !OccursAt(s, pat, k)
  {
    FindFrom(s, pat, 0)
  }

  /** The first occurrence determines `Find`. */
  lemma FindIs(s: string, pat: string, i: nat)
    requires OccursAt(s, pat, i) && forall k: nat :: k < i ==> !OccursAt(s, pat, k)
    ensures Find(s, pat) == Some(i)
  {
  }

  /** Where the first occurrence of `pat` in `s` starts, or `|s|` when there is none. */
  function FindOrEnd(s: string, pat: string): (n: nat)
    ensures n <= |s|
    ensures forall k: nat :: k < n ==> !OccursAt(s, pat, k)
    ensures n < |s| ==> OccursAt(s, pat, n)
  {
    match Find(s, pat)
    case None => |s|
    case Some(i) => i
  }

  /**
   * Cutting `s` at `m` first, then at the first `c`, is cutting it at the
   * earlier of `m` and its own first `c`.
   */
  lemma FindOrEndPrefixChar(s: string, c: char, m: nat)
    requires m <= |s|
    ensures var n := FindOrEnd(s, [c]); FindOrEnd(s[..m], [c]) == if n < m then n else m
  {
    var n := FindOrEnd(s, [c]);
    forall k: nat | k < m ensures OccursAt(s[..m], [c], k) <==> OccursAt(s, [c], k) {
      assert s[..m][k..k + 1] == s[k..k + 1];
    }
    if n < m {
      FindIs(s[..m], [c], n);
    } else {
      assert forall k: nat :: !OccursAt(s[..m], [c], k);
    }
  }

  /** `pat in s`. */
  predicate Contains(s: string, pat: string) {
    Find(s, pat).Some?
  }

  lemma OccursContains(s: string, pat: string, k: nat)
    requires OccursAt(s, pat, k)
    ensures Contains(s, pat)
  {
  }

  /** An occurrence inside a slice is an occurrence in the whole string. */
  lemma OccursInSlice(s: string, pat: string, i: nat, j: nat, k: nat)
    requires i <= j <= |s| && OccursAt(s[i..j], pat, k)
    ensures OccursAt(s, pat, i + k)
  {
    forall t | 0 <= t < |pat| ensures s[i + k..i + k + |pat|][t] == pat[t] {
      assert pat[t] == s[i..j][k..k + |pat|][t];
    }
  }

  /** A string free of `pat` has only `pat`-free slices. */
  lemma SliceFree(s: string, pat: string, i: nat, j: nat)
    requires i <= j <= |s| && !Contains(s, pat)
    ensures !Contains(s[i..j], pat)
  {
    if Contains(s[i..j], pat) {
      OccursInSlice(s, pat, i, j, Find(s[i..j], pat).value);
    }
  }

  /** A one-character pattern occurs exactly when its character does. */
  lemma ContainsChar(s: string, c: char)
    ensures Contains(s, [c]) <==> c in s
  {
    if c in s {
      var k :| 0 <= k < |s| && s[k] == c;
      assert s[k..k + 1] == [c];
      OccursContains(s, [c], k);
    }
    if Contains(s, [c]) {
      var k := Find(s, [c]).value;
      assert s[k] == s[k..k + 1][0];
    }
  }

  /**
   * `p` and `m` disagree somewhere at start index `k` of `p`, before `p` runs
   * out: no occurrence of `m` in any `p + q` can begin at `k`.
   */
  predicate MismatchAt(p: string, m: string, k: nat) {
    exists j :: 0 <= j < |m| && k + j < |p| && p[k + j] != m[j]
  }

  /** No occurrence of `m` in `p + q` when none begins in `p` and `q` is free of it. */
  lemma FreeConcat(p: string, q: string, m: string)
    requires forall k :: 0 <= k < |p| ==> MismatchAt(p, m, k)
    requires !Contains(q, m)
    ensures !Contains(p + q, m)
  {
    var s := p + q;
    forall k: nat | k < |p| ensures !OccursAt(s, m, k) {
      assert MismatchAt(p, m, k);
      var j :| 0 <= j < |m| && k + j < |p| && p[k + j] != m[j];
      if k + |m| <= |s| {
        assert s[k..k + |m|][j] == p[k + j];
      }
    }
    forall k: nat | |p| <= k ensures !OccursAt(s, m, k) {
      if k + |m| <= |s| {
        assert s[k..k + |m|] == q[k - |p|..k - |p| + |m|];
        assert !OccursAt(q, m, k - |p|);
      }
    }
  }

  /**
   * Gluing two `m`-free strings creates no occurrence of `m` when the second
   * starts with a character `m` does not use.
   */
  lemma FreeAcrossFresh(p: string, q: string, m: string)
    requires !Contains(p, m) && !Contains(q, m)
    requires q != [] && q[0] !in m
    ensures !Contains(p + q, m)
  {
    var s := p + q;
    forall k: nat | k < |p| ensures !OccursAt(s, m, k) {
      if k + |m| <= |p| {
        assert s[k..k + |m|] == p[k..k + |m|];
        assert !OccursAt(p, m, k);
      } else if k + |m| <= |s| {
        assert s[k..k + |m|][|p| - k] == q[0];
      }
    }
    forall k: nat | |p| <= k ensures !OccursAt(s, m, k) {
      if k + |m| <= |s| {
        assert s[k..k + |m|] == q[k - |p|..k - |p| + |m|];
        assert !OccursAt(q, m, k - |p|);
      }
    }
  }

  /**
   * In `x + m + y`, the first `m` is the one after `x` when `x` is free of it
   * and ends with a character `m` does not use.
   */
  lemma FindAfterFresh(x: string, m: string, y: string)
    requires !Contains(x, m) && x != [] && x[|x| - 1] !in m
    ensures Find(x + m + y, m) == Some(|x|)
  {
    var s := x + m + y;
    assert s[|x|..|x| + |m|] == m;
    assert OccursAt(s, m, |x|);
    forall k: nat | k < |x| ensures !OccursAt(s, m, k) {
      if k + |m| <= |x| {
        assert s[k..k + |m|] == x[k..k + |m|];
        assert !OccursAt(x, m, k);
      } else if k + |m| <= |s| {
        assert s[k..k + |m|][|x| - 1 - k] == x[|x| - 1];
      }
    }
  }

  /** `s.split(sep)` for a non-empty separator. */
  function Split(s: string, sep: string): (pieces: seq<string>)
    requires sep != []
    decreases |s|
    ensures |pieces| >= 1 && pieces[0] <= s
    ensures |pieces| >= 2 <==> Contains(s, sep)
  {
    match Find(s, sep)
    case None => [s]
    case Some(i) => [s[..i]] + Split(s[i + |sep|..], sep)
  }

  /** The first piece of a split runs up to the first separator, or is the whole text. */
  lemma SplitFirst(s: string, sep: string)
    requires sep != []
    ensures Split(s, sep)[0] == s[..FindOrEnd(s, sep)]
  {
  }

  /** The second piece of a split runs from the end of the first separator up to the next one, or to the end. */
  lemma SplitSecond(s: string, sep: string)
    requires sep != [] && Contains(s, sep)
    ensures var rest := s[Find(s, sep).value + |sep|..];
      Split(s, sep)[1] == rest[..FindOrEnd(rest, sep)] && !Contains(Split(s, sep)[1], sep)
  {
    var i := Find(s, sep).value;
    var rest := s[i + |sep|..];
    var later := Split(rest, sep);
    assert Split(s, sep) == [s[..i]] + later;
    assert Split(s, sep)[1] == later[0];
    SplitPiecesFree(rest, sep, 0);
    SplitFirst(rest, sep);
  }

  /** `sep.join(pieces)`. */
  function Join(sep: string, pieces: seq<string>): (s: string)
    ensures |pieces| >= 1 ==> pieces[0] <= s
  {
    if |pieces| == 0 then ""
    else if |pieces| == 1 then pieces[0]
    else pieces[0] + sep + Join(sep, pieces[1..])
  }

  /** Joining the pieces of a split with the separator gives the string back. */
  lemma {:induction false} JoinSplit(s: string, sep: string)
    requires sep != []
    ensures Join(sep, Split(s, sep)) == s
    decreases |s|
  {
    match Find(s, sep)
    case None =>
    case Some(i) =>
      var rest := s[i + |sep|..];
      JoinSplit(rest, sep);
      assert Split(s, sep) == [s[..i]] + Split(rest, sep);
      assert s == s[..i] + sep + rest by {
        assert s[i..i + |sep|] == sep;
        assert s == s[..i] + s[i..i + |sep|] + rest;
      }
  }

  /** The text before the first occurrence of `sep` is free of it. */
  lemma BeforeFirstFree(s: string, sep: string, i: nat)
    requires sep != [] && Find(s, sep) == Some(i)
    ensures !Contains(s[..i], sep)
  {
    if Contains(s[..i], sep) {
      OccursInSlice(s, sep, 0, i, Find(s[..i], sep).value);
    }
  }

  /** The text before the first occurrence of `pat`, or all of it when there is none, is free of `pat`. */
  lemma UpToFirstFree(s: string, pat: string)
    requires pat != []
    ensures !Contains(s[..FindOrEnd(s, pat)], pat)
  {
    match Find(s, pat)
    case None =>
      assert s[..|s|] == s;
    case Some(i) =>
      BeforeFirstFree(s, pat, i);
  }

  /** No piece of a split contains the separator. */
  lemma {:induction false} SplitPiecesFree(s: string, sep: string, n: nat)
    requires sep != [] && n < |Split(s, sep)|
    ensures !Contains(Split(s, sep)[n], sep)
    decreases |s|
  {
    var f := Find(s, sep);
    if f.Some? {
      var i := f.value;
      var rest := s[i + |sep|..];
      assert Split(s, sep) == [s[..i]] + Split(rest, sep);
      if n == 0 {
        BeforeFirstFree(s, sep, i);
      } else {
        SplitPiecesFree(rest, sep, n - 1);
        assert Split(s, sep)[n] == Split(rest, sep)[n - 1];
      }
    }
  }

  /**
   * Splitting on a one-character separator undoes joining with it, when no
   * piece holds that character.
   */
  lemma {:induction false} SplitJoinChar(pieces: seq<string>, c: char)
    requires |pieces| >= 1
    requires forall n :: 0 <= n < |pieces| ==> c !in pieces[n]
    ensures Split(Join([c], pieces), [c]) == pieces
  {
    var s := Join([c], pieces);
    if |pieces| == 1 {
      ContainsChar(s, c);
    } else {
      var p0 := pieces[0];
      var rest := Join([c], pieces[1..]);
      assert pieces == [p0] + pieces[1..];
      JoinCons([c], p0, pieces[1..]);
      assert s == p0 + [c] + rest;
      assert Find(s, [c]) == Some(|p0|) by {
        assert s[|p0|..|p0| + 1] == [c] && OccursAt(s, [c], |p0|);
        forall k: nat | k < |p0| ensures !OccursAt(s, [c], k) {
          assert s[k] == p0[k];
          assert s[k..k + 1] == [s[k]];
        }
      }
      assert s[..|p0|] == p0;
      assert s[|p0| + 1..] == rest;
      assert Split(s, [c]) == [p0] + Split(rest, [c]);
      SplitJoinChar(pieces[1..], c);
      assert pieces == [p0] + pieces[1..];
    }
  }

  /**
   * The characters CPython treats as whitespace, both for `str.strip()` and
   * for `\s` in a `str` regular expression (Py_UNICODE_ISSPACE).
   */
  predicate IsSpace(c: char) {
    ('\t' <= c <= '\r') || ('\U{1C}' <= c <= ' ') || c == '\U{85}' || c == '\U{A0}'
    || c == '\U{1680}' || ('\U{2000}' <= c <= '\U{200A}') || c == '\U{2028}' || c == '\U{2029}'
    || c == '\U{202F}' || c == '\U{205F}' || c == '\U{3000}'
  }

  predicate AllSpace(s: string) {
    forall i :: 0 <= i < |s| ==> IsSpace(s[i])
  }

  /** Two runs of whitespace make one. */
  lemma AllSpaceConcat(x: string, y: string)
    requires AllSpace(x) && AllSpace(y)
    ensures AllSpace(x + y)
  {
    forall i | 0 <= i < |x + y| ensures IsSpace((x + y)[i]) {
      if i >= |x| { assert (x + y)[i] == y[i - |x|]; }
    }
  }

  /** `s.lstrip()`. */
  function StripLeft(s: string): (r: string)
    ensures |r| <= |s| && r == s[|s| - |r|..]
    ensures AllSpace(s[..|s| - |r|])
    ensures r == [] || !IsSpace(r[0])
  {
    if s != [] && IsSpace(s[0]) then StripLeft(s[1..]) else s
  }

  /** `s.rstrip()`. */
  function StripRight(s: string): (r: string)
    ensures |r| <= |s| && r == s[..|r|]
    ensures AllSpace(s[|r|..])
    ensures r == [] || !IsSpace(r[|r| - 1])
  {
    if s != [] && IsSpace(s[|s| - 1]) then
      var r := StripRight(s[..|s| - 1]);
      assert s[|r|..] == s[..|s| - 1][|r|..] + [s[|s| - 1]];
      AllSpaceConcat(s[..|s| - 1][|r|..], [s[|s| - 1]]);
      r
    else s
  }

  /** The length of the whitespace that `s.strip()` removes in front. */
  function LeadingSpace(s: string): (n: nat)
    ensures n <= |s|
  {
    |s| - |StripLeft(s)|
  }

  /** A prefix `r` of a suffix `l` of `s` is a slice of `s`, and what follows `r` in `l` ends `s`. */
  lemma SuffixPrefix(s: string, l: string, r: string)
    requires |l| <= |s| && l == s[|s| - |l|..] && |r| <= |l| && r == l[..|r|]
    ensures r == s[|s| - |l|..|s| - |l| + |r|] && l[|r|..] == s[|s| - |l| + |r|..]
  {
  }

  /**
   * `s.strip()`: the slice of `s` left once whitespace is removed from both
   * ends; it neither starts nor ends with whitespace.
   */
  function Strip(s: string): (r: string)
    ensures LeadingSpace(s) + |r| <= |s| && r == s[LeadingSpace(s)..LeadingSpace(s) + |r|]
    ensures AllSpace(s[..LeadingSpace(s)]) && AllSpace(s[LeadingSpace(s) + |r|..])
    ensures r == [] || (!IsSpace(r[0]) && !IsSpace(r[|r| - 1]))
  {
    var l := StripLeft(s);
    var r := StripRight(l);
    SuffixPrefix(s, l, r);
    r
  }

  /** Neither starts nor ends with whitespace. */
  predicate Stripped(s: string) {
    s == [] || (!IsSpace(s[0]) && !IsSpace(s[|s| - 1]))
  }

  lemma {:induction false} StripLeftPadded(l: string, x: string)
    requires AllSpace(l) && (x == [] || !IsSpace(x[0]))
    ensures StripLeft(l + x) == x
    decreases |l|
  {
    if l != [] {
      assert (l + x)[0] == l[0];
      assert (l + x)[1..] == l[1..] + x;
      StripLeftPadded(l[1..], x);
    } else {
      assert l + x == x;
    }
  }

  lemma {:induction false} StripRightPadded(x: string, r: string)
    requires AllSpace(r) && (x == [] || !IsSpace(x[|x| - 1]))
    ensures StripRight(x + r) == x
    decreases |r|
  {
    if r != [] {
      var r' := r[..|r| - 1];
      assert (x + r)[|x + r| - 1] == r[|r| - 1];
      assert (x + r)[..|x + r| - 1] == x + r';
      StripRightPadded(x, r');
    } else {
      assert x + r == x;
    }
  }

  /** Stripping whitespace padding off a stripped string gives that string. */
  lemma StripPadded(l: string, s: string, r: string)
    requires AllSpace(l) && Stripped(s) && AllSpace(r)
    ensures Strip(l + s + r) == s
  {
    if s == [] {
      assert AllSpace(l + s + r);
      StripLeftPadded(l + s + r, []);
      assert l + s + r + [] == l + s + r;
    } else {
      assert l + s + r == l + (s + r);
      StripLeftPadded(l, s + r);
      StripRightPadded(s, r);
    }
  }

  /** Number of occurrences of `c` in `s`. */
  function CountChar(s: string, c: char): (n: nat)
    ensures n <= |s|
    ensures n == 0 <==> c !in s
  {
    if s == [] then 0 else (if s[0] == c then 1 else 0) + CountChar(s[1..], c)
  }

  /** `s.replace(a, b)` for a one-character `a`: every `a` becomes `b`. */
  function ReplaceChar(s: string, a: char, b: string): (r: string)
  {
    if s == [] then []
    else (if s[0] == a then b else [s[0]]) + ReplaceChar(s[1..], a, b)
  }

  /** An occurrence of a character one place further in `s` is one in the tail of `s`. */
  lemma OccursShift(s: string, c: char, k: nat)
    requires s != []
    ensures OccursAt(s, [c], k + 1) <==> OccursAt(s[1..], [c], k)
  {
    if k + 1 < |s| {
      assert s[k + 1..k + 2] == s[1..][k..k + 1];
    }
  }

  /** Searching for a character past a different first character shifts the answer by one. */
  lemma FindPastHead(s: string, c: char)
    requires s != [] && s[0] != c
    ensures Find(s, [c]) == match Find(s[1..], [c]) case None => None case Some(i) => Some(i + 1)
  {
    assert !OccursAt(s, [c], 0) by {
      assert s[0..1] == [s[0]];
    }
    match Find(s[1..], [c])
    case None =>
      forall k: nat ensures !OccursAt(s, [c], k) {
        if k > 0 {
          OccursShift(s, c, k - 1);
        }
      }
    case Some(i) =>
      OccursShift(s, c, i);
      forall k: nat | k < i + 1 ensures !OccursAt(s, [c], k) {
        if k > 0 {
          OccursShift(s, c, k - 1);
        }
      }
      FindIs(s, [c], i + 1);
  }

  /** Joining a first piece in front of the rest. */
  lemma JoinCons(b: string, p: string, rest: seq<string>)
    ensures Join(b, [p] + rest) == if rest == [] then p else p + b + Join(b, rest)
  {
    assert ([p] + rest)[0] == p && ([p] + rest)[1..] == rest;
  }

  lemma {:induction false} JoinExtendFirst(b: string, x: char, pieces: seq<string>)
    requires |pieces| >= 1
    ensures Join(b, [[x] + pieces[0]] + pieces[1..]) == [x] + Join(b, pieces)
  {
    var p0, rest := pieces[0], pieces[1..];
    JoinCons(b, [x] + p0, rest);
    if rest != [] {
      var tail := Join(b, rest);
      assert Join(b, pieces) == p0 + b + tail;
      assert ([x] + p0) + b + tail == [x] + (p0 + b + tail);
    }
  }

  /** Splitting at a leading separator character gives an empty first piece. */
  lemma SplitAtHead(s: string, a: char)
    requires s != [] && s[0] == a
    ensures Split(s, [a]) == [""] + Split(s[1..], [a])
  {
    assert OccursAt(s, [a], 0) by { assert s[0..1] == [s[0]]; }
  }

  /** Splitting past a first character other than the separator puts that character in front of the first piece. */
  lemma SplitPastHead(s: string, a: char)
    requires s != [] && s[0] != a
    ensures var rest := Split(s[1..], [a]); Split(s, [a]) == [[s[0]] + rest[0]] + rest[1..]
  {
    FindPastHead(s, a);
    match Find(s[1..], [a])
    case None =>
      assert Split(s[1..], [a]) == [s[1..]];
      assert s == [s[0]] + s[1..];
    case Some(i) =>
      SplitPastHeadAt(s, a, i);
  }

  /** `SplitPastHead` when the tail holds the separator first at `i`. */
  lemma SplitPastHeadAt(s: string, a: char, i: nat)
    requires s != [] && Find(s[1..], [a]) == Some(i) && Find(s, [a]) == Some(i + 1)
    ensures var rest := Split(s[1..], [a]); Split(s, [a]) == [[s[0]] + rest[0]] + rest[1..]
  {
    var t := s[1..];
    var rest := Split(t, [a]);
    var later := Split(t[i + 1..], [a]);
    assert rest == [t[..i]] + later;
    assert s[..i + 1] == [s[0]] + t[..i];
    assert s[i + 2..] == t[i + 1..];
    calc {
      Split(s, [a]);
      [s[..i + 1]] + Split(s[i + 2..], [a]);
      [[s[0]] + t[..i]] + later;
      { assert rest[0] == t[..i] && rest[1..] == later; }
      [[s[0]] + rest[0]] + rest[1..];
    }
  }

  /** The one-character `ReplaceChar` agrees with Python's definition of `replace`: split, then join. */
  lemma {:induction false} ReplaceCharIsSplitJoin(s: string, a: char, b: string)
    ensures ReplaceChar(s, a, b) == Join(b, Split(s, [a]))
    decreases |s|
  {
    if s == [] {
      assert Split(s, [a]) == [s];
    } else {
      ReplaceCharIsSplitJoin(s[1..], a, b);
      if s[0] == a {
        SplitAtHead(s, a);
        JoinCons(b, "", Split(s[1..], [a]));
      } else {
        SplitPastHead(s, a);
        JoinExtendFirst(b, s[0], Split(s[1..], [a]));
      }
    }
  }
}
