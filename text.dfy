/**
 * The few operations of Python's `str` that the account script relies on:
 * `strip()`, `lower()` and the substring test `w in s`.
 *
 * `IsSpace` is the exact set of characters for which `str.isspace()` holds,
 * which is also what `\s` and `\S` mean in a `re` pattern over `str`.
 * `LowerChar` folds ASCII letters only; Python's `lower()` folds every
 * cased Unicode letter (see README, "Left out").
 */
module Text {

  predicate IsSpace(c: char)
  {
    var n := c as int;
    (9 <= n <= 13) || (28 <= n <= 32) || n == 0x85 || n == 0xA0 || n == 0x1680
    || (0x2000 <= n <= 0x200A) || n == 0x2028 || n == 0x2029 || n == 0x202F
    || n == 0x205F || n == 0x3000
  }

  ghost predicate AllSpace(s: string)
  {
    forall i :: 0 <= i < |s| ==> IsSpace(s[i])
  }

  ghost predicate NoSpace(s: string)
  {
    forall i :: 0 <= i < |s| ==> !IsSpace(s[i])
  }

  /** The length of the run of whitespace at the head of `s`. */
  function LeadingSpaces(s: string): (n: nat)
    ensures n <= |s|
    ensures AllSpace(s[..n])
    ensures n < |s| ==> !IsSpace(s[n])
  {
    if s == [] || !IsSpace(s[0]) then 0
    else
      var m := LeadingSpaces(s[1..]);
      assert s[..1 + m] == [s[0]] + s[1..][..m];
      1 + m
  }

  /** The length of the run of whitespace at the tail of `s`. */
  function TrailingSpaces(s: string): (n: nat)
    ensures n <= |s|
    ensures AllSpace(s[|s| - n..])
    ensures n < |s| ==> !IsSpace(s[|s| - 1 - n])
    ensures s != [] && !IsSpace(s[0]) ==> n < |s|
  {
    if s == [] || !IsSpace(s[|s| - 1]) then 0
    else
      var init := s[..|s| - 1];
      var m := TrailingSpaces(init);
      assert s[|s| - (1 + m)..] == init[|init| - m..] + [s[|s| - 1]];
      1 + m
  }

  /** The length of the run of non-whitespace characters at the head of `s`. */
  function LeadingNonSpaces(s: string): (n: nat)
    ensures n <= |s|
    ensures NoSpace(s[..n])
    ensures n < |s| ==> IsSpace(s[n])
  {
    if s == [] || IsSpace(s[0]) then 0
    else
      var m := LeadingNonSpaces(s[1..]);
      assert s[..1 + m] == [s[0]] + s[1..][..m];
      1 + m
  }

  lemma AllSpaceChars(s: string, n: nat)
    requires n <= |s| && AllSpace(s[..n])
    ensures forall i :: 0 <= i < n ==> IsSpace(s[i])
  {
    forall i | 0 <= i < n
      ensures IsSpace(s[i])
    {
      assert s[..n][i] == s[i];
    }
  }

  lemma NoSpaceChars(s: string, n: nat)
    requires n <= |s| && NoSpace(s[..n])
    ensures forall i :: 0 <= i < n ==> !IsSpace(s[i])
  {
    forall i | 0 <= i < n
      ensures !IsSpace(s[i])
    {
      assert s[..n][i] == s[i];
    }
  }

  /** The run lengths above are the only ones with their defining properties. */
  lemma LeadingSpacesUnique(s: string, n: nat)
    requires n <= |s| && AllSpace(s[..n]) && (n < |s| ==> !IsSpace(s[n]))
    ensures LeadingSpaces(s) == n
  {
    AllSpaceChars(s, n);
    AllSpaceChars(s, LeadingSpaces(s));
  }

  lemma LeadingNonSpacesUnique(s: string, n: nat)
    requires n <= |s| && NoSpace(s[..n]) && (n < |s| ==> IsSpace(s[n]))
    ensures LeadingNonSpaces(s) == n
  {
    NoSpaceChars(s, n);
    NoSpaceChars(s, LeadingNonSpaces(s));
  }

  /** Python's `s.strip()`: `s` without the whitespace at either end. */
  function Strip(s: string): (r: string)
    ensures |r| <= |s|
    ensures r == [] || (!IsSpace(r[0]) && !IsSpace(r[|r| - 1]))
  {
    var lead := LeadingSpaces(s);
    var rest := s[lead..];
    var trail := TrailingSpaces(rest);
    rest[..|rest| - trail]
  }

  /** `s` is `r` with the whitespace runs `s[..i]` before it and `s[i + |r|..]` after it. */
  ghost predicate SpacesAround(s: string, i: nat, r: string)
  {
    i + |r| <= |s| && s[i..i + |r|] == r && AllSpace(s[..i]) && AllSpace(s[i + |r|..])
  }

  /** `strip()` removes whitespace only: what it returns is `s` between two runs of whitespace. */
  lemma StripRemovesOnlySpaces(s: string)
    ensures exists i: nat :: SpacesAround(s, i, Strip(s))
  {
    var lead := LeadingSpaces(s);
    var rest := s[lead..];
    var trail := TrailingSpaces(rest);
    var r := rest[..|rest| - trail];
    assert s[lead..lead + |r|] == r;
    assert s[lead + |r|..] == rest[|rest| - trail..];
    assert SpacesAround(s, lead, Strip(s));
  }

  function LowerChar(c: char): char
  {
    if 'A' <= c <= 'Z' then (c as int + 32) as char else c
  }

  /** `s.lower()` restricted to ASCII letters. */
  function Lower(s: string): string
  {
    seq(|s|, i requires 0 <= i < |s| => LowerChar(s[i]))
  }

  /** `w` occurs in `s` starting at index `i`. */
  predicate OccursAt(s: string, w: string, i: nat)
  {
    i + |w| <= |s| && s[i..i + |w|] == w
  }

  /** Python's `w in s` for two strings. */
  predicate Contains(s: string, w: string)
  {
    exists i: nat | i <= |s| :: OccursAt(s, w, i)
  }

  lemma StripEmptyIffAllSpace(s: string)
    ensures Strip(s) == [] <==> AllSpace(s)
  {
    var lead := LeadingSpaces(s);
    var rest := s[lead..];
    if lead < |s| {
      assert rest[0] == s[lead];
      assert !AllSpace(s);
    } else {
      assert s[..lead] == s;
    }
  }

  /** Stripping twice is stripping once. */
  lemma StripIdempotent(s: string)
    ensures Strip(Strip(s)) == Strip(s)
  {
    var r := Strip(s);
    if r != [] {
      assert LeadingSpaces(r) == 0;
      assert r[0..] == r;
      assert TrailingSpaces(r) == 0;
      assert r[..|r|] == r;
    }
  }

  lemma LowerCharKeepsSpace(c: char)
    ensures IsSpace(LowerChar(c)) == IsSpace(c)
  {
  }

  lemma {:induction false} LeadingSpacesOfLower(s: string)
    ensures LeadingSpaces(Lower(s)) == LeadingSpaces(s)
  {
    if s != [] {
      LowerCharKeepsSpace(s[0]);
      assert Lower(s)[1..] == Lower(s[1..]);
      LeadingSpacesOfLower(s[1..]);
    }
  }

  lemma {:induction false} TrailingSpacesOfLower(s: string)
    ensures TrailingSpaces(Lower(s)) == TrailingSpaces(s)
  {
    if s != [] {
      LowerCharKeepsSpace(s[|s| - 1]);
      assert Lower(s)[..|s| - 1] == Lower(s[..|s| - 1]);
      TrailingSpacesOfLower(s[..|s| - 1]);
    }
  }

  /** Lower-casing does not move the ends that `strip()` finds. */
  lemma StripLowerCommute(s: string)
    ensures Strip(Lower(s)) == Lower(Strip(s))
  {
    LeadingSpacesOfLower(s);
    var lead := LeadingSpaces(s);
    assert Lower(s)[lead..] == Lower(s[lead..]);
    TrailingSpacesOfLower(s[lead..]);
  }

  lemma LowerIdempotent(s: string)
    ensures Lower(Lower(s)) == Lower(s)
  {
  }

  /** A string that holds no lower-case ASCII letter is the lower-casing of itself only. */
  lemma LowerOnlyFixesItself(x: string, k: string)
    requires forall i :: 0 <= i < |k| ==> !('a' <= k[i] <= 'z')
    requires Lower(x) == k
    ensures x == k
  {
    forall i | 0 <= i < |x|
      ensures x[i] == k[i]
    {
      assert LowerChar(x[i]) == k[i];
    }
  }

  /** Any piece of an occurring string occurs too. */
  lemma ContainsInfix(s: string, w: string, j: nat, k: nat)
    requires Contains(s, w)
    requires j <= k <= |w|
    ensures Contains(s, w[j..k])
  {
    var i: nat :| i <= |s| && OccursAt(s, w, i);
    forall m | 0 <= m < k - j
      ensures s[i + j..i + k][m] == w[j..k][m]
    {
      assert s[i + j + m] == s[i..i + |w|][j + m];
    }
    assert OccursAt(s, w[j..k], i + j);
  }

  lemma OccursAtContains(s: string, w: string, i: nat)
    requires OccursAt(s, w, i)
    ensures Contains(s, w)
  {
  }
}
