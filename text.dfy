/** The Python string operations the duplicate review relies on: `str.strip()`,
    substring tests (`in`), `str.lower()`, string ordering and `", ".join`. */
module Text {

  // ---------------------------------------------------------------------------
  // Whitespace and str.strip()
  // ---------------------------------------------------------------------------

  /** Python's `str.isspace()` on one character: exactly the characters that
      `str.strip()` with no argument removes. */
  predicate IsSpace(c: char) {
    || '\t' <= c <= '\r'
    || '\U{1C}' <= c <= '\U{1F}'
    || c == ' '
    || c == '\U{85}'
    || c == '\U{A0}'
    || c == '\U{1680}'
    || '\U{2000}' <= c <= '\U{200A}'
    || c == '\U{2028}'
    || c == '\U{2029}'
    || c == '\U{202F}'
    || c == '\U{205F}'
    || c == '\U{3000}'
  }

  predicate AllSpace(s: string) {
    forall i :: 0 <= i < |s| ==> IsSpace(s[i])
  }

  /** Neither end of `s` is whitespace. */
  predicate IsTrimmed(s: string) {
    s == [] || (!IsSpace(s[0]) && !IsSpace(s[|s| - 1]))
  }

  /** `t` is what remains of `s` once some whitespace is cut from both ends. */
  ghost predicate StrippedFrom(t: string, s: string) {
    exists lo :: 0 <= lo <= |s| - |t| && s[lo..lo + |t|] == t && AllSpace(s[..lo]) && AllSpace(s[lo + |t|..])
  }

  /** `s` without its leading whitespace. */
  function TrimStart(s: string): (r: string)
    ensures |r| <= |s| && r == s[|s| - |r|..]
    ensures AllSpace(s[..|s| - |r|])
    ensures r == [] || !IsSpace(r[0])
  {
    if s != [] && IsSpace(s[0]) then
      var r := TrimStart(s[1..]);
      TrimStartCons(s, r);
      r
    else s
  }

  /** Leading whitespace of `s[1..]` after a whitespace `s[0]` is leading whitespace
      of `s`. */
  lemma TrimStartCons(s: string, r: string)
    requires s != [] && IsSpace(s[0])
    requires |r| <= |s| - 1 && r == s[1..][|s| - 1 - |r|..]
    requires AllSpace(s[1..][..|s| - 1 - |r|])
    ensures r == s[|s| - |r|..]
    ensures AllSpace(s[..|s| - |r|])
  {
    assert s[..|s| - |r|] == [s[0]] + s[1..][..|s| - 1 - |r|];
    assert s[1..][|s| - 1 - |r|..] == s[|s| - |r|..];
  }

  /** `s` without its trailing whitespace. */
  function TrimEnd(s: string): (r: string)
    ensures |r| <= |s| && r == s[..|r|]
    ensures AllSpace(s[|r|..])
    ensures r == [] || !IsSpace(r[|r| - 1])
  {
    if s != [] && IsSpace(s[|s| - 1]) then
      var r := TrimEnd(s[..|s| - 1]);
      assert s[|r|..] == s[..|s| - 1][|r|..] + [s[|s| - 1]];
      assert s[..|s| - 1][..|r|] == s[..|r|];
      r
    else s
  }

  /** Python's `str.strip()` with no argument. */
  function Trim(s: string): (r: string)
    ensures IsTrimmed(r)
    ensures StrippedFrom(r, s)
  {
    var t := TrimStart(s);
    var r := TrimEnd(t);
    TrimBothEnds(s, t, r);
    r
  }

  /** Cutting the leading and then the trailing whitespace leaves a string with no
      whitespace at either end, found inside `s` between two runs of whitespace. */
  lemma TrimBothEnds(s: string, t: string, r: string)
    requires t == TrimStart(s) && r == TrimEnd(t)
    ensures IsTrimmed(r)
    ensures StrippedFrom(r, s)
  {
    var lo := |s| - |t|;
    assert r != [] ==> r[0] == t[0];
    assert s[lo..lo + |r|] == r by {
      assert s[lo..][..|r|] == s[lo..lo + |r|];
    }
    assert AllSpace(s[lo + |r|..]) by {
      assert s[lo + |r|..] == t[|r|..];
    }
  }

  /** Cutting leading whitespace stops at the first character that is not whitespace. */
  lemma {:induction false} TrimStartAt(s: string, lo: nat)
    requires lo < |s| && AllSpace(s[..lo]) && !IsSpace(s[lo])
    ensures TrimStart(s) == s[lo..]
  {
    if lo > 0 {
      assert s[..lo][0] == s[0];
      assert s[1..][..lo - 1] == s[1..lo];
      TrimStartAt(s[1..], lo - 1);
      assert s[1..][lo - 1..] == s[lo..];
    }
  }

  /** Cutting trailing whitespace stops after the last character that is not whitespace. */
  lemma {:induction false} TrimEndAt(s: string, hi: nat)
    requires 0 < hi <= |s| && AllSpace(s[hi..]) && !IsSpace(s[hi - 1])
    ensures TrimEnd(s) == s[..hi]
    decreases |s|
  {
    if hi < |s| {
      assert s[hi..][|s| - 1 - hi] == s[|s| - 1];
      assert s[..|s| - 1][hi..] == s[hi..|s| - 1];
      TrimEndAt(s[..|s| - 1], hi);
      assert s[..|s| - 1][..hi] == s[..hi];
    }
  }

  lemma {:induction false} AllSpaceTrimStart(s: string)
    requires AllSpace(s)
    ensures TrimStart(s) == []
  {
    if s != [] {
      AllSpaceTrimStart(s[1..]);
    }
  }

  /** Cutting whitespace at index `lo` on the left and after `t` on the right,
      where `t` starts and ends with non-whitespace, is what `Trim` does. */
  lemma TrimAt(t: string, s: string, lo: nat)
    requires t != [] && IsTrimmed(t)
    requires lo + |t| <= |s| && s[lo..lo + |t|] == t
    requires AllSpace(s[..lo]) && AllSpace(s[lo + |t|..])
    ensures Trim(s) == t
  {
    assert s[lo] == t[0];
    TrimStartAt(s, lo);
    TrimEndSlice(s, lo, t);
  }

  lemma TrimEndSlice(s: string, lo: nat, t: string)
    requires t != [] && IsTrimmed(t)
    requires lo + |t| <= |s| && s[lo..lo + |t|] == t
    requires AllSpace(s[lo + |t|..])
    ensures TrimEnd(s[lo..]) == t
  {
    var u := s[lo..];
    assert u[|t|..] == s[lo + |t|..];
    assert u[|t| - 1] == t[|t| - 1];
    TrimEndAt(u, |t|);
    assert u[..|t|] == t;
  }

  /** The trimmed string is the only string that is both free of whitespace at its
      ends and obtained from `s` by cutting whitespace at both ends: `Trim` is
      determined by its contract. */
  lemma TrimUnique(t: string, s: string)
    requires IsTrimmed(t) && StrippedFrom(t, s)
    ensures t == Trim(s)
  {
    var lo :| 0 <= lo <= |s| - |t| && s[lo..lo + |t|] == t && AllSpace(s[..lo]) && AllSpace(s[lo + |t|..]);
    if t == [] {
      assert s == s[..lo] + s[lo..];
      AllSpaceTrimStart(s);
    } else {
      TrimAt(t, s, lo);
    }
  }

  /** A string with no whitespace at either end is left as it is. */
  lemma TrimmedUnchanged(s: string)
    requires IsTrimmed(s)
    ensures Trim(s) == s
  {
    assert s[0..0 + |s|] == s && s[..0] == [] && s[0 + |s|..] == [];
    TrimUnique(s, s);
  }

  /** `str.strip()` is idempotent. */
  lemma TrimIdempotent(s: string)
    ensures Trim(Trim(s)) == Trim(s)
  {
    TrimmedUnchanged(Trim(s));
  }

  /** A cell holding only whitespace is stripped to the empty string. */
  lemma AllSpaceTrimsToEmpty(s: string)
    requires AllSpace(s)
    ensures Trim(s) == ""
  {
    AllSpaceTrimStart(s);
  }

  // ---------------------------------------------------------------------------
  // Substring tests
  // ---------------------------------------------------------------------------

  predicate IsPrefix(p: string, s: string) {
    |p| <= |s| && s[..|p|] == p
  }

  predicate IsSuffix(p: string, s: string) {
    |p| <= |s| && s[|s| - |p|..] == p
  }

  /** Python's `sub in s`. A string only contains strings no longer than itself. */
  predicate Contains(s: string, sub: string)
    ensures Contains(s, sub) ==> |sub| <= |s|
    decreases |s|
  {
    IsPrefix(sub, s) || (s != [] && Contains(s[1..], sub))
  }

  /** `sub` occurs in `s` starting at index `i`. */
  predicate OccursAt(s: string, sub: string, i: int) {
    0 <= i && i + |sub| <= |s| && s[i..i + |sub|] == sub
  }

  /** `Contains` agrees with the positional definition of a substring. */
  lemma {:induction false} ContainsAt(s: string, sub: string)
    ensures Contains(s, sub) <==> exists i :: OccursAt(s, sub, i)
    decreases |s|
  {
    if s == [] {
      if Contains(s, sub) {
        assert OccursAt(s, sub, 0);
      }
    } else {
      ContainsAt(s[1..], sub);
      if IsPrefix(sub, s) {
        assert OccursAt(s, sub, 0);
      } else if Contains(s[1..], sub) {
        var i :| OccursAt(s[1..], sub, i);
        assert s[1..][i..i + |sub|] == s[i + 1..i + 1 + |sub|];
        assert OccursAt(s, sub, i + 1);
      }
      if exists i :: OccursAt(s, sub, i) {
        var i :| OccursAt(s, sub, i);
        if i == 0 {
          assert IsPrefix(sub, s);
        } else {
          assert s[1..][i - 1..i - 1 + |sub|] == s[i..i + |sub|];
          assert OccursAt(s[1..], sub, i - 1);
        }
      }
    }
  }

  // ---------------------------------------------------------------------------
  // str.lower()
  // ---------------------------------------------------------------------------

  predicate IsAsciiUpper(c: char) { 'A' <= c <= 'Z' }

  predicate IsAsciiLetter(c: char) { IsAsciiUpper(c) || 'a' <= c <= 'z' }

  function LowerChar(c: char): char {
    if IsAsciiUpper(c) then (c as int + 32) as char else c
  }

  /** `str.lower()` restricted to the ASCII letters. */
  function Lower(s: string): (r: string)
    ensures |r| == |s|
    ensures forall i :: 0 <= i < |s| ==> !IsAsciiUpper(r[i])
    ensures forall i :: 0 <= i < |s| && !IsAsciiUpper(s[i]) ==> r[i] == s[i]
  {
    seq(|s|, i requires 0 <= i < |s| => LowerChar(s[i]))
  }

  /** A word without ASCII letters occurs at a position of the lowered string
      exactly when it occurs there in the original. */
  lemma LowerOccursAt(s: string, word: string, i: int)
    requires forall k :: 0 <= k < |word| ==> !IsAsciiLetter(word[k])
    ensures OccursAt(Lower(s), word, i) <==> OccursAt(s, word, i)
  {
    var l := Lower(s);
    if 0 <= i && i + |word| <= |s| {
      if l[i..i + |word|] == word {
        forall k | 0 <= k < |word| ensures s[i + k] == word[k] {
          assert l[i..i + |word|][k] == word[k];
        }
        assert s[i..i + |word|] == word;
      }
      if s[i..i + |word|] == word {
        forall k | 0 <= k < |word| ensures l[i + k] == word[k] {
          assert s[i..i + |word|][k] == word[k];
        }
        assert l[i..i + |word|] == word;
      }
    }
  }

  /** Lowering a header does not change whether it contains a word that has no
      ASCII letter, such as an Arabic keyword. */
  lemma LowerKeepsCaselessWords(s: string, word: string)
    requires forall k :: 0 <= k < |word| ==> !IsAsciiLetter(word[k])
    ensures Contains(Lower(s), word) <==> Contains(s, word)
  {
    ContainsAt(Lower(s), word);
    ContainsAt(s, word);
    forall i {
      LowerOccursAt(s, word, i);
    }
  }

  // ---------------------------------------------------------------------------
  // String order
  // ---------------------------------------------------------------------------

  /** Python's `a <= b` on str: code points compared left to right, and a proper
      prefix comes first. */
  predicate LexLe(a: string, b: string)
    ensures IsPrefix(a, b) ==> LexLe(a, b)
    decreases |a|
  {
    a == [] || (b != [] && (a[0] < b[0] || (a[0] == b[0] && LexLe(a[1..], b[1..]))))
  }

  lemma {:induction false} LexLeTotal(a: string, b: string)
    ensures LexLe(a, b) || LexLe(b, a)
    decreases |a|
  {
    if a != [] && b != [] && a[0] == b[0] {
      LexLeTotal(a[1..], b[1..]);
    }
  }

  lemma {:induction false} LexLeTransitive(a: string, b: string, c: string)
    requires LexLe(a, b) && LexLe(b, c)
    ensures LexLe(a, c)
    decreases |a|
  {
    if a != [] && a[0] == b[0] && b[0] == c[0] {
      LexLeTransitive(a[1..], b[1..], c[1..]);
    }
  }

  lemma {:induction false} LexLeAntisymmetric(a: string, b: string)
    requires LexLe(a, b) && LexLe(b, a)
    ensures a == b
    decreases |a|
  {
    if a != [] {
      LexLeAntisymmetric(a[1..], b[1..]);
      assert a == [a[0]] + a[1..] && b == [b[0]] + b[1..];
    }
  }

  // ---------------------------------------------------------------------------
  // ", ".join and its inverse
  // ---------------------------------------------------------------------------

  const Sep: string := ", "

  /** Python's `", ".join(xs)`. */
  function Join(xs: seq<string>): (r: string)
    ensures |xs| >= 1 ==> IsPrefix(xs[0], r)
    ensures |xs| >= 1 ==> IsSuffix(xs[|xs| - 1], r)
  {
    if |xs| == 0 then ""
    else if |xs| == 1 then xs[0]
    else xs[0] + Sep + Join(xs[1..])
  }

  /** Python's `s.split(", ")`: cut at each occurrence of the separator, left to right. */
  function Split(s: string): (r: seq<string>)
    ensures |r| >= 1
    decreases |s|
  {
    if |s| < |Sep| then [s]
    else if s[..|Sep|] == Sep then [""] + Split(s[|Sep|..])
    else
      var rest := Split(s[1..]);
      [[s[0]] + rest[0]] + rest[1..]
  }

  lemma {:induction false} SplitPlain(x: string)
    requires !Contains(x, Sep)
    ensures Split(x) == [x]
    decreases |x|
  {
    if |x| >= |Sep| {
      assert !IsPrefix(Sep, x);
      SplitPlain(x[1..]);
      assert [x[0]] + x[1..] == x;
    }
  }

  lemma {:induction false} SplitPrefix(x: string, t: string)
    requires !Contains(x, Sep)
    ensures Split(x + Sep + t) == [x] + Split(t)
    decreases |x|
  {
    var s := x + Sep + t;
    if x == [] {
      assert s[..|Sep|] == Sep && s[|Sep|..] == t;
    } else {
      assert s[..|Sep|] != Sep by {
        if |x| >= |Sep| {
          assert !IsPrefix(Sep, x);
          assert s[..|Sep|] == x[..|Sep|];
        } else {
          assert s[1] == ',';
        }
      }
      assert s[1..] == x[1..] + Sep + t;
      SplitPrefix(x[1..], t);
      assert [x[0]] + x[1..] == x;
    }
  }

  /** Splitting a joined list gives the list back, provided no element contains the
      separator itself. */
  lemma {:induction false} SplitJoin(xs: seq<string>)
    requires |xs| >= 1
    requires forall i :: 0 <= i < |xs| ==> !Contains(xs[i], Sep)
    ensures Split(Join(xs)) == xs
  {
    if |xs| == 1 {
      SplitPlain(xs[0]);
    } else {
      SplitPrefix(xs[0], Join(xs[1..]));
      SplitJoin(xs[1..]);
    }
  }
}
