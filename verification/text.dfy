/**
 * The string operations the search path relies on: Python's `str.strip()`,
 * `str.lower()`, `str.startswith()` and the `<` / `<=` comparison of `str`
 * values (lexicographic by code point, a proper prefix sorting first).
 */
module Text {

  /** Python's `str.isspace()`: the characters `str.strip()` removes. */
  predicate IsSpace(c: char) {
    var n := c as int;
    || (0x09 <= n <= 0x0D) || (0x1C <= n <= 0x20)
    || n == 0x85 || n == 0xA0 || n == 0x1680
    || (0x2000 <= n <= 0x200A)
    || n == 0x2028 || n == 0x2029 || n == 0x202F || n == 0x205F || n == 0x3000
  }

  /** Drops leading whitespace. */
  function TrimStart(s: string): (r: string)
    ensures |r| <= |s| && r == s[|s| - |r|..]
    ensures |r| > 0 ==> !IsSpace(r[0])
    ensures forall i :: 0 <= i < |s| - |r| ==> IsSpace(s[i])
  {
    if |s| > 0 && IsSpace(s[0]) then
      var r := TrimStart(s[1..]);
      assert s[1..][|s| - 1 - |r|..] == s[|s| - |r|..];
      assert forall i :: 1 <= i < |s| - |r| ==> s[i] == s[1..][i - 1];
      r
    else s
  }

  /** Drops trailing whitespace. */
  function TrimEnd(s: string): (r: string)
    ensures |r| <= |s| && r == s[..|r|]
    ensures |r| > 0 ==> !IsSpace(r[|r| - 1])
    ensures forall i :: |r| <= i < |s| ==> IsSpace(s[i])
  {
    if |s| > 0 && IsSpace(s[|s| - 1]) then
      var r := TrimEnd(s[..|s| - 1]);
      assert s[..|s| - 1][..|r|] == s[..|r|];
      assert forall i :: |r| <= i < |s| - 1 ==> s[i] == s[..|s| - 1][i];
      r
    else s
  }

  /** Every character of `s` is whitespace. */
  predicate AllSpace(s: string) {
    forall k :: 0 <= k < |s| ==> IsSpace(s[k])
  }

  /**
   * `r` is `s` with a run of leading and a run of trailing whitespace cut
   * off, and nothing else.
   */
  ghost predicate Trimmed(s: string, r: string) {
    exists lead, trail :: s == lead + r + trail && AllSpace(lead) && AllSpace(trail)
  }

  /**
   * A suffix `t` of `s` after whitespace, cut down to a prefix `r` before
   * whitespace, is `s` trimmed.
   */
  lemma InfixIsTrimmed(s: string, t: string, r: string)
    requires |t| <= |s| && t == s[|s| - |t|..]
    requires forall k :: 0 <= k < |s| - |t| ==> IsSpace(s[k])
    requires |r| <= |t| && r == t[..|r|]
    requires forall k :: |r| <= k < |t| ==> IsSpace(t[k])
    ensures Trimmed(s, r)
  {
    var i := |s| - |t|;
    var lead, trail := s[..i], t[|r|..];
    assert AllSpace(lead);
    assert AllSpace(trail);
    assert s == lead + t;
    assert t == r + trail;
    assert s == lead + r + trail;
  }

  /** Trimming both ends keeps one infix and drops only whitespace around it. */
  lemma TrimmedInfix(s: string)
    ensures Trimmed(s, TrimEnd(TrimStart(s)))
  {
    var t := TrimStart(s);
    InfixIsTrimmed(s, t, TrimEnd(t));
  }

  /** Trimming both ends leaves nothing exactly when everything is whitespace. */
  lemma TrimmedBlank(s: string)
    ensures TrimEnd(TrimStart(s)) == [] <==> forall i :: 0 <= i < |s| ==> IsSpace(s[i])
  {
    var t := TrimStart(s);
    if t != [] {
      assert !IsSpace(s[|s| - |t|]);
    }
  }

  /** Trimming both ends leaves a string that starts and ends with non-whitespace. */
  lemma TrimmedEnds(s: string)
    ensures var r := TrimEnd(TrimStart(s));
      r != [] ==> !IsSpace(r[0]) && !IsSpace(r[|r| - 1])
  {
    var t := TrimStart(s);
    var r := TrimEnd(t);
    if r != [] {
      assert r[0] == t[0];
    }
  }

  /**
   * Python's `str.strip()` with no argument: the longest infix of `s` that
   * neither starts nor ends with whitespace. It is empty exactly when `s`
   * is all whitespace.
   */
  function Strip(s: string): (r: string)
    ensures |r| <= |s|
    ensures r == [] <==> forall i :: 0 <= i < |s| ==> IsSpace(s[i])
    ensures r != [] ==> !IsSpace(r[0]) && !IsSpace(r[|r| - 1])
    ensures Trimmed(s, r)
  {
    TrimmedInfix(s);
    TrimmedBlank(s);
    TrimmedEnds(s);
    TrimEnd(TrimStart(s))
  }

  /**
   * Lower-case mapping of one character: the ASCII letters and the Latin-1
   * capitals (U+00C0..U+00DE, except the multiplication sign U+00D7) move
   * to their small forms, everything else is left as it is.
   */
  function LowerChar(c: char): char {
    var n := c as int;
    if (0x41 <= n <= 0x5A) || (0xC0 <= n <= 0xDE && n != 0xD7) then (n + 32) as char else c
  }

  /** Python's `str.lower()`, character by character. */
  function Lower(s: string): (r: string)
    ensures |r| == |s|
  {
    if |s| == 0 then [] else [LowerChar(s[0])] + Lower(s[1..])
  }

  /** Lower-casing twice is lower-casing once. */
  lemma {:induction false} LowerIdempotent(s: string)
    ensures Lower(Lower(s)) == Lower(s)
    decreases |s|
  {
    if |s| > 0 {
      LowerIdempotent(s[1..]);
      assert Lower(s)[1..] == Lower(s[1..]);
    }
  }

  /** Python's `a <= b` on `str`. */
  predicate Le(a: string, b: string)
    decreases |a|
  {
    |a| == 0 || (|b| > 0 && (a[0] < b[0] || (a[0] == b[0] && Le(a[1..], b[1..]))))
  }

  /** Python's `a < b` on `str`; `LtIsStrict` shows it is `<=` without equality. */
  predicate Lt(a: string, b: string) {
    !Le(b, a)
  }

  /** Python's `s.startswith(q)`. */
  predicate StartsWith(s: string, q: string) {
    |q| <= |s| && s[..|q|] == q
  }

  lemma {:induction false} LeReflexive(a: string)
    ensures Le(a, a)
    decreases |a|
  {
    if |a| > 0 {
      LeReflexive(a[1..]);
    }
  }

  lemma {:induction false} LeTotal(a: string, b: string)
    ensures Le(a, b) || Le(b, a)
    decreases |a|
  {
    if |a| > 0 && |b| > 0 && a[0] == b[0] {
      LeTotal(a[1..], b[1..]);
    }
  }

  lemma {:induction false} LeAntisymmetric(a: string, b: string)
    requires Le(a, b) && Le(b, a)
    ensures a == b
    decreases |a|
  {
    if |a| > 0 {
      LeAntisymmetric(a[1..], b[1..]);
      assert a == [a[0]] + a[1..] && b == [b[0]] + b[1..];
    }
  }

  lemma {:induction false} LeTransitive(a: string, b: string, c: string)
    requires Le(a, b) && Le(b, c)
    ensures Le(a, c)
    decreases |a|
  {
    if |a| > 0 && a[0] == b[0] && b[0] == c[0] {
      LeTransitive(a[1..], b[1..], c[1..]);
    }
  }

  /** The two orders agree: `a < b` holds exactly when `a <= b` and `a != b`. */
  lemma LtIsStrict(a: string, b: string)
    ensures Lt(a, b) <==> Le(a, b) && a != b
  {
    LeTotal(a, b);
    LeReflexive(a);
    if Le(a, b) && Le(b, a) {
      LeAntisymmetric(a, b);
    }
  }

  /** A string is never smaller than any of its prefixes. */
  lemma {:induction false} PrefixIsLower(s: string, q: string)
    requires StartsWith(s, q)
    ensures Le(q, s)
    decreases |q|
  {
    if |q| > 0 {
      assert s[1..][..|q| - 1] == q[1..];
      PrefixIsLower(s[1..], q[1..]);
    }
  }

  /**
   * Strings sharing the prefix `q` form one block of the lexicographic order:
   * whatever lies between `q` and a string that starts with `q` starts with
   * `q` too.
   */
  lemma {:induction false} PrefixBlock(q: string, a: string, b: string)
    requires Le(q, a) && Le(a, b) && StartsWith(b, q)
    ensures StartsWith(a, q)
    decreases |q|
  {
    if |q| > 0 {
      assert b[0] == q[0];
      assert a[0] == q[0];
      assert b[1..][..|q| - 1] == q[1..];
      PrefixBlock(q[1..], a[1..], b[1..]);
      assert a[..|q|] == [a[0]] + a[1..][..|q| - 1];
    }
  }
}
