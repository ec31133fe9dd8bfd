/**
 * The few `java.lang.String` and `long` operations the core relies on, with
 * Java's meaning: `indexOf`, `startsWith`, `endsWith`, `contains`, `trim`,
 * `toLowerCase`, `equalsIgnoreCase` and truncating integer division.
 *
 * Case mapping is modelled for exactly those characters whose Java case
 * mapping involves an ASCII letter (A-Z, KELVIN SIGN, the dotted and dotless
 * i, the long s); every comparison the core makes is against an ASCII name,
 * so the mapping of any other character cannot change its outcome.
 */
module JavaText {

  /** `s.indexOf(c)`: the first position of `c` in `s`, or -1. */
  function IndexOf(s: string, c: char): (i: int)
    ensures -1 <= i < |s|
    ensures i == -1 <==> c !in s
    ensures 0 <= i ==> s[i] == c && c !in s[..i]
  {
    if |s| == 0 then -1
    else if s[0] == c then 0
    else
      var j := IndexOf(s[1..], c);
      if j < 0 then -1
      else
        assert s[..j + 1] == [s[0]] + s[1..][..j];
        j + 1
  }

  /** The first position of `c` is determined by what precedes it. */
  lemma IndexOfPrefix(a: string, c: char, b: string)
    requires c !in a
    ensures IndexOf(a + [c] + b, c) == |a|
  {
    var s := a + [c] + b;
    assert s[|a|] == c;
    assert s[..|a|] == a;
  }

  /** Any occurrence of `c` bounds its first position from above. */
  lemma {:induction false} IndexOfAtMost(s: string, c: char, i: int)
    requires 0 <= i < |s| && s[i] == c
    ensures 0 <= IndexOf(s, c) <= i
  {
    if s[0] != c {
      IndexOfAtMost(s[1..], c, i - 1);
    }
  }

  /** When `c` does not occur before `i` but does occur at or after it, its first position is at or after `i`. */
  lemma {:induction false} IndexOfAtLeast(s: string, c: char, i: int)
    requires 0 <= i <= |s| && c !in s[..i] && c in s[i..]
    ensures i <= IndexOf(s, c)
  {
    if i > 0 {
      assert s[0] == s[..i][0];
      assert s[1..][..i - 1] == s[..i][1..];
      assert s[1..][i - 1..] == s[i..];
      IndexOfAtLeast(s[1..], c, i - 1);
    }
  }

  /** `s.startsWith(p)`. */
  predicate StartsWith(s: string, p: string) {
    |p| <= |s| && s[..|p|] == p
  }

  /** `s.endsWith(p)`. */
  predicate EndsWith(s: string, p: string) {
    |p| <= |s| && s[|s| - |p|..] == p
  }

  /** `s.contains(t)`: `t` occurs in `s` at some position. */
  predicate Contains(s: string, t: string)
    decreases |s|
  {
    StartsWith(s, t) || (|s| > 0 && Contains(s[1..], t))
  }

  /** `t` occurs in `s` starting at position `k`. */
  predicate OccursAt(s: string, t: string, k: nat) {
    k + |t| <= |s| && s[k..k + |t|] == t
  }

  /** `contains` holds exactly when `t` occurs at some position of `s`. */
  lemma {:induction false} ContainsIffOccurs(s: string, t: string)
    ensures Contains(s, t) <==> exists k: nat :: OccursAt(s, t, k)
    decreases |s|
  {
    if exists k: nat :: OccursAt(s, t, k) {
      var k: nat :| OccursAt(s, t, k);
      ContainsAt(s, t, k);
    }
    if Contains(s, t) && !StartsWith(s, t) {
      ContainsIffOccurs(s[1..], t);
      var k: nat :| OccursAt(s[1..], t, k);
      assert s[k + 1..k + 1 + |t|] == s[1..][k..k + |t|];
      assert OccursAt(s, t, k + 1);
    } else if StartsWith(s, t) {
      assert OccursAt(s, t, 0);
    }
  }

  lemma {:induction false} ContainsAt(s: string, t: string, k: nat)
    requires OccursAt(s, t, k)
    ensures Contains(s, t)
    decreases k
  {
    if k > 0 {
      assert s[1..][k - 1..k - 1 + |t|] == s[k..k + |t|];
      ContainsAt(s[1..], t, k - 1);
    }
  }

  /** `trim()` removes every leading and trailing character up to U+0020. */
  predicate Blank(c: char) {
    c <= ' '
  }

  function TrimStart(s: string): (r: string)
    ensures |r| <= |s| && r == s[|s| - |r|..]
    ensures |r| > 0 ==> !Blank(r[0])
  {
    if |s| > 0 && Blank(s[0]) then TrimStart(s[1..]) else s
  }

  function TrimEnd(s: string): (r: string)
    ensures |r| <= |s| && r == s[..|r|]
    ensures |r| > 0 ==> !Blank(r[|r| - 1])
  {
    if |s| > 0 && Blank(s[|s| - 1]) then TrimEnd(s[..|s| - 1]) else s
  }

  /** `s.trim()`: `s` without its leading and trailing blanks. */
  function Trim(s: string): string {
    TrimEnd(TrimStart(s))
  }

  /** A trimmed text neither starts nor ends with a blank. */
  lemma TrimEnds(s: string)
    ensures var r := Trim(s); |r| > 0 ==> !Blank(r[0]) && !Blank(r[|r| - 1])
  {
    var a := TrimStart(s);
    var r := TrimEnd(a);
    if |r| > 0 {
      assert r == a[..|r|];
      assert r[0] == a[0];
    }
  }

  /** A text that neither starts nor ends with a blank is its own trim. */
  lemma TrimIdentity(s: string)
    requires |s| > 0 && !Blank(s[0]) && !Blank(s[|s| - 1])
    ensures Trim(s) == s
  {
    assert TrimStart(s) == s;
  }

  /** A leading blank never survives trimming. */
  lemma TrimLeadingBlank(c: char, s: string)
    requires Blank(c)
    ensures Trim([c] + s) == Trim(s)
  {
    assert ([c] + s)[1..] == s;
  }

  /**
   * `toLowerCase()` of one character, in a non-Turkish default locale: the
   * capital letters, the KELVIN SIGN (which becomes `k`) and the capital I
   * with dot above (which becomes `i` followed by a combining dot).
   */
  function LowerChar(c: char): (r: string)
    ensures |r| >= 1
  {
    if 'A' <= c <= 'Z' then [(c as int + 32) as char]
    else if c == '\U{212A}' then "k"
    else if c == '\U{0130}' then "i\U{0307}"
    else [c]
  }

  /** A character that `toLowerCase()` leaves alone. */
  predicate Lowered(c: char) {
    !('A' <= c <= 'Z') && c != '\U{212A}' && c != '\U{0130}'
  }

  /** `s.toLowerCase()`. */
  function LowerCase(s: string): (r: string)
    ensures |r| >= |s|
  {
    if s == [] then [] else LowerChar(s[0]) + LowerCase(s[1..])
  }

  lemma {:induction false} LowerCaseAppend(a: string, b: string)
    ensures LowerCase(a + b) == LowerCase(a) + LowerCase(b)
  {
    if a != [] {
      assert (a + b)[0] == a[0] && (a + b)[1..] == a[1..] + b;
      LowerCaseAppend(a[1..], b);
      calc {
        LowerCase(a + b);
        LowerChar(a[0]) + LowerCase(a[1..] + b);
        LowerChar(a[0]) + (LowerCase(a[1..]) + LowerCase(b));
        (LowerChar(a[0]) + LowerCase(a[1..])) + LowerCase(b);
      }
    } else {
      assert a + b == b;
    }
  }

  /** Lower-casing leaves a string that has nothing to lower unchanged. */
  lemma {:induction false} LowerCaseIdentity(s: string)
    requires forall i :: 0 <= i < |s| ==> Lowered(s[i])
    ensures LowerCase(s) == s
  {
    if s != [] {
      LowerCaseIdentity(s[1..]);
    }
  }

  /** Lower-casing a text whose first capital letter follows a lower-case prefix folds that letter. */
  lemma LowerCaseCapital(a: string, c: char, b: string)
    requires forall i :: 0 <= i < |a| ==> Lowered(a[i])
    requires 'A' <= c <= 'Z'
    ensures LowerCase(a + [c] + b) == a + [(c as int + 32) as char] + LowerCase(b)
  {
    LowerCaseAppend(a + [c], b);
    LowerCaseAppend(a, [c]);
    LowerCaseIdentity(a);
    assert LowerCase([c]) == [(c as int + 32) as char] by {
      assert [c][1..] == [];
    }
  }

  /** Lower-casing a word with one capital letter in it folds just that letter. */
  lemma LowerCaseOneCapital(a: string, c: char, b: string)
    requires forall i :: 0 <= i < |a| ==> Lowered(a[i])
    requires forall i :: 0 <= i < |b| ==> Lowered(b[i])
    requires 'A' <= c <= 'Z'
    ensures LowerCase(a + [c] + b) == a + [(c as int + 32) as char] + b
  {
    LowerCaseCapital(a, c, b);
    LowerCaseIdentity(b);
  }

  /**
   * The character that `Character.toLowerCase(Character.toUpperCase(c))`
   * yields, for the characters where that is an ASCII letter.
   */
  function FoldChar(c: char): char {
    if 'A' <= c <= 'Z' then (c as int + 32) as char
    else if c == '\U{212A}' then 'k'
    else if c == '\U{0130}' || c == '\U{0131}' then 'i'
    else if c == '\U{017F}' then 's'
    else c
  }

  /** Two characters that `equalsIgnoreCase` accepts as equal. */
  predicate SameIgnoringCase(a: char, b: char) {
    a == b || FoldChar(a) == FoldChar(b)
  }

  /** `a.equalsIgnoreCase(b)`: equal lengths and equal characters up to case. */
  predicate EqualsIgnoreCase(a: string, b: string) {
    |a| == |b| && forall i :: 0 <= i < |a| ==> SameIgnoringCase(a[i], b[i])
  }

  /** Java's `a / 1000` on `long`: the quotient truncated toward zero. */
  function JavaDivThousand(a: int): (q: int)
    ensures 0 <= a ==> 0 <= 1000 * q <= a < 1000 * q + 1000
    ensures a < 0 ==> 1000 * q - 1000 < a <= 1000 * q <= 0
  {
    if a >= 0 then a / 1000 else -((-a) / 1000)
  }
}
