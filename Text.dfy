/** The string helpers the parser needs: Java's String.trim(). */
module Text {

  /** String.trim() treats every character at or below U+0020 as whitespace. */
  predicate IsWhitespace(c: char) {
    c <= ' '
  }

  predicate IsBlank(s: string) {
    forall i :: 0 <= i < |s| ==> IsWhitespace(s[i])
  }

  /** Neither starts nor ends with whitespace (the empty string qualifies). */
  predicate IsTrimmed(s: string) {
    s == [] || (!IsWhitespace(s[0]) && !IsWhitespace(s[|s| - 1]))
  }

  /** Drops the leading whitespace: the result is the suffix that starts at the first
      non-whitespace character. */
  function TrimStart(s: string): (r: string)
    ensures |r| <= |s|
    ensures r == [] || !IsWhitespace(r[0])
  {
    if s != [] && IsWhitespace(s[0]) then TrimStart(s[1..]) else s
  }

  /** TrimStart removes a blank prefix and nothing more. */
  lemma {:induction false} TrimStartDropsBlank(s: string)
    ensures var r := TrimStart(s); r == s[|s| - |r|..] && IsBlank(s[..|s| - |r|])
  {
    if s != [] && IsWhitespace(s[0]) {
      TrimStartDropsBlank(s[1..]);
    }
  }

  /** Drops the trailing whitespace: the result is the prefix that ends at the last
      non-whitespace character. */
  function TrimEnd(s: string): (r: string)
    ensures |r| <= |s|
    ensures r == [] || !IsWhitespace(r[|r| - 1])
    ensures s != [] && !IsWhitespace(s[0]) ==> r != [] && r[0] == s[0]
  {
    if s != [] && IsWhitespace(s[|s| - 1]) then TrimEnd(s[..|s| - 1]) else s
  }

  /** TrimEnd removes a blank suffix and nothing more. */
  lemma {:induction false} TrimEndDropsBlank(s: string)
    ensures var r := TrimEnd(s); r == s[..|r|] && IsBlank(s[|r|..])
  {
    if s != [] && IsWhitespace(s[|s| - 1]) {
      TrimEndDropsBlank(s[..|s| - 1]);
    }
  }

  function Trim(s: string): (r: string)
    ensures IsTrimmed(r)
    ensures |r| <= |s|
  {
    TrimEnd(TrimStart(s))
  }

  lemma {:induction false} TrimStartAfterBlank(a: string, y: string)
    requires IsBlank(a)
    requires y == [] || !IsWhitespace(y[0])
    ensures TrimStart(a + y) == y
  {
    if a == [] {
      assert a + y == y;
    } else {
      assert (a + y)[1..] == a[1..] + y;
      TrimStartAfterBlank(a[1..], y);
    }
  }

  lemma {:induction false} TrimEndBeforeBlank(y: string, b: string)
    requires IsBlank(b)
    requires y == [] || !IsWhitespace(y[|y| - 1])
    ensures TrimEnd(y + b) == y
  {
    if b == [] {
      assert y + b == y;
    } else {
      assert (y + b)[..|y + b| - 1] == y + b[..|b| - 1];
      TrimEndBeforeBlank(y, b[..|b| - 1]);
    }
  }

  /** Trimming removes exactly the blank text around an already trimmed value. */
  lemma TrimAroundTrimmed(a: string, x: string, b: string)
    requires IsBlank(a) && IsBlank(b) && IsTrimmed(x)
    ensures Trim(a + x + b) == x
  {
    if x == [] {
      assert a + x + b == (a + b) + [];
      assert IsBlank(a + b);
      TrimStartAfterBlank(a + b, []);
      assert TrimEnd([]) == [];
    } else {
      assert a + x + b == a + (x + b);
      TrimStartAfterBlank(a, x + b);
      TrimEndBeforeBlank(x, b);
    }
  }

  /** The trimmed text is empty exactly when the input was blank. */
  lemma TrimEmptyIffBlank(s: string)
    ensures Trim(s) == [] <==> IsBlank(s)
  {
    if IsBlank(s) {
      TrimAroundTrimmed(s, [], []);
      assert s + [] + [] == s;
    } else {
      TrimStartDropsBlank(s);
      var t := TrimStart(s);
      assert t != [] && !IsWhitespace(t[0]);
    }
  }

  /** Trim is idempotent. */
  lemma TrimIdempotent(s: string)
    ensures Trim(Trim(s)) == Trim(s)
  {
    var t := Trim(s);
    TrimAroundTrimmed([], t, []);
    assert [] + t + [] == t;
  }

  /** `part` occurs in `s` as a contiguous piece. */
  predicate Contains(s: string, part: string) {
    exists i :: 0 <= i <= |s| - |part| && OccursAt(s, part, i)
  }

  predicate OccursAt(s: string, part: string, i: int) {
    0 <= i <= |s| - |part| && s[i..i + |part|] == part
  }
}
