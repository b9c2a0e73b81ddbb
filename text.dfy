/** The Python string operations the core relies on: str.upper(), str.lower(),
    str.replace(pat, '') and str.isdigit(), restricted to ASCII. */
module Text {

  predicate IsLowerLetter(c: char) { 'a' <= c <= 'z' }

  predicate IsUpperLetter(c: char) { 'A' <= c <= 'Z' }

  predicate IsDigit(c: char) { '0' <= c <= '9' }

  function LowerChar(c: char): (l: char)
    ensures !IsUpperLetter(l)
    ensures IsUpperLetter(c) ==> IsLowerLetter(l)
    ensures !IsUpperLetter(c) ==> l == c
  {
    if IsUpperLetter(c) then (c as int + 32) as char else c
  }

  function UpperChar(c: char): (u: char)
    ensures !IsLowerLetter(u)
    ensures IsLowerLetter(c) ==> IsUpperLetter(u)
    ensures !IsLowerLetter(c) ==> u == c
    ensures LowerChar(u) == LowerChar(c)
  {
    if IsLowerLetter(c) then (c as int - 32) as char else c
  }

  /** str.upper(): the same letters up to case, none of them lower-case. */
  function Upper(s: string): (r: string)
    ensures |r| == |s|
    ensures forall i :: 0 <= i < |r| ==> !IsLowerLetter(r[i])
    ensures forall i :: 0 <= i < |r| ==> LowerChar(r[i]) == LowerChar(s[i])
  {
    seq(|s|, i requires 0 <= i < |s| => UpperChar(s[i]))
  }

  /** str.lower(): the same letters up to case, none of them a capital; every
      other character is kept. */
  function Lower(s: string): (r: string)
    ensures |r| == |s|
    ensures forall i :: 0 <= i < |r| ==> !IsUpperLetter(r[i])
    ensures forall i :: 0 <= i < |r| ==> UpperChar(r[i]) == UpperChar(s[i])
    ensures forall i :: 0 <= i < |r| && !IsUpperLetter(s[i]) ==> r[i] == s[i]
  {
    seq(|s|, i requires 0 <= i < |s| => LowerChar(s[i]))
  }

  /** Upper-casing twice is upper-casing once, and neither case mapping
      changes what the other one sees. */
  lemma UpperIdempotent(s: string)
    ensures Upper(Upper(s)) == Upper(s)
    ensures Lower(Upper(s)) == Lower(s)
    ensures Upper(Lower(s)) == Upper(s)
  {
    assert forall i :: 0 <= i < |s| ==> Upper(Upper(s))[i] == Upper(s)[i];
    assert forall i :: 0 <= i < |s| ==> Lower(Upper(s))[i] == Lower(s)[i];
    assert forall i :: 0 <= i < |s| ==> Upper(Lower(s))[i] == Upper(s)[i];
  }

  /** Non-empty and made of the digits 0-9 only (str.isdigit() on ASCII). */
  predicate IsDigits(s: string) {
    |s| > 0 && forall c :: c in s ==> IsDigit(c)
  }

  /** The number a run of decimal digits spells. */
  function DigitsValue(p: string): nat
    requires forall c :: c in p ==> IsDigit(c)
    decreases |p|
  {
    if |p| == 0 then 0
    else
      assert forall c :: c in p[..|p| - 1] ==> c in p;
      assert p[|p| - 1] in p;
      var digit := p[|p| - 1] as int - '0' as int;
      assert IsDigit(p[|p| - 1]) && digit >= 0;
      DigitsValue(p[..|p| - 1]) * 10 + digit
  }

  /** A run of digits spells a number above zero exactly when it is not all
      zeros. */
  lemma {:induction false} DigitsValuePositive(p: string)
    requires forall c :: c in p ==> IsDigit(c)
    ensures DigitsValue(p) > 0 <==> exists i :: 0 <= i < |p| && p[i] != '0'
    decreases |p|
  {
    if |p| > 0 {
      var q := p[..|p| - 1];
      assert forall c :: c in q ==> c in p;
      DigitsValuePositive(q);
      assert p[|p| - 1] in p;
      if exists i :: 0 <= i < |p| && p[i] != '0' {
        var i :| 0 <= i < |p| && p[i] != '0';
        if i < |p| - 1 {
          assert q[i] != '0';
        }
      }
      if exists i :: 0 <= i < |q| && q[i] != '0' {
        var i :| 0 <= i < |q| && q[i] != '0';
        assert p[i] == q[i];
      }
    }
  }

  predicate OccursAt(s: string, pat: string, i: int) {
    0 <= i && i + |pat| <= |s| && s[i..i + |pat|] == pat
  }

  predicate Contains(s: string, pat: string) {
    exists i | 0 <= i <= |s| :: OccursAt(s, pat, i)
  }

  /** s.replace(pat, ''): scanning left to right, every non-overlapping
      occurrence of pat is cut out. What is left can contain pat again
      ("SS.." without "S." is "S."). */
  function RemoveAll(s: string, pat: string): (r: string)
    requires |pat| > 0
    ensures |r| <= |s|
    ensures forall c :: c in r ==> c in s
    decreases |s|
  {
    if |s| < |pat| then s
    else if s[..|pat|] == pat then RemoveAll(s[|pat|..], pat)
    else [s[0]] + RemoveAll(s[1..], pat)
  }

  /** Text without the pattern is left alone. */
  lemma {:induction false} RemoveAllAbsent(s: string, pat: string)
    requires |pat| > 0 && !Contains(s, pat)
    ensures RemoveAll(s, pat) == s
    decreases |s|
  {
    if |s| >= |pat| {
      assert !OccursAt(s, pat, 0);
      forall i | OccursAt(s[1..], pat, i)
        ensures OccursAt(s, pat, i + 1)
      {
        assert s[1..][i..i + |pat|] == s[i + 1..i + 1 + |pat|];
      }
      RemoveAllAbsent(s[1..], pat);
      assert s == [s[0]] + s[1..];
    }
  }

  /** Removing a one-character pattern keeps exactly the other characters. */
  lemma {:induction false} RemoveCharMembers(s: string, c: char)
    ensures forall x :: x in RemoveAll(s, [c]) <==> x in s && x != c
    decreases |s|
  {
    if |s| >= 1 {
      RemoveCharMembers(s[1..], c);
      assert s == [s[0]] + s[1..];
      if s[..1] == [c] {
        assert s[0] == c;
      } else {
        assert s[0] != c;
      }
    }
  }

  /** Text in which the pattern's first character never occurs is left alone. */
  lemma RemoveAllFree(t: string, pat: string)
    requires |pat| > 0 && pat[0] !in t
    ensures RemoveAll(t, pat) == t
  {
    forall i | 0 <= i <= |t|
      ensures !OccursAt(t, pat, i)
    {
      if i + |pat| <= |t| {
        assert t[i..i + |pat|][0] == t[i] && t[i] in t;
      }
    }
    RemoveAllAbsent(t, pat);
  }

  /** An occurrence preceded by text that cannot start one is cut out, and
      the scan carries on after it. */
  lemma {:induction false} RemoveAllSplit(a: string, pat: string, b: string)
    requires |pat| > 0 && pat[0] !in a
    ensures RemoveAll(a + pat + b, pat) == a + RemoveAll(b, pat)
    decreases |a|
  {
    var s := a + pat + b;
    assert |s| >= |pat|;
    if a == [] {
      assert s == pat + b;
      assert s[..|pat|] == pat && s[|pat|..] == b;
    } else {
      var rest := a[1..] + pat + b;
      assert s[1..] == rest by { assert a == [a[0]] + a[1..]; }
      assert s[..|pat|] != pat by { assert s[0] == a[0]; assert a[0] in a; }
      assert RemoveAll(s, pat) == [a[0]] + RemoveAll(rest, pat);
      assert pat[0] !in a[1..] by { assert forall c :: c in a[1..] ==> c in a; }
      RemoveAllSplit(a[1..], pat, b);
      assert a == [a[0]] + a[1..];
    }
  }

  /** The pieces joined by a separator. */
  function JoinWith(parts: seq<string>, sep: string): string
  {
    if |parts| == 0 then []
    else if |parts| == 1 then parts[0]
    else parts[0] + sep + JoinWith(parts[1..], sep)
  }

  /** The pieces written one after another. */
  function Concat(parts: seq<string>): string
  {
    if |parts| == 0 then [] else parts[0] + Concat(parts[1..])
  }

  /** Every occurrence is cut out: text made of pieces that cannot start an
      occurrence, joined by the pattern, loses every one of the joins. */
  lemma {:induction false} RemoveAllJoin(parts: seq<string>, pat: string)
    requires |pat| > 0
    requires forall i :: 0 <= i < |parts| ==> pat[0] !in parts[i]
    ensures RemoveAll(JoinWith(parts, pat), pat) == Concat(parts)
    decreases |parts|
  {
    if |parts| == 1 {
      RemoveAllFree(parts[0], pat);
      assert Concat(parts) == parts[0] + Concat([]);
    } else if |parts| > 1 {
      RemoveAllSplit(parts[0], pat, JoinWith(parts[1..], pat));
      RemoveAllJoin(parts[1..], pat);
    }
  }

  /** Text holding the pattern loses at least one character. */
  lemma {:induction false} RemoveAllShrinks(s: string, pat: string)
    requires |pat| > 0 && Contains(s, pat)
    ensures |RemoveAll(s, pat)| < |s|
    decreases |s|
  {
    var i :| 0 <= i <= |s| && OccursAt(s, pat, i);
    if s[..|pat|] != pat {
      assert i != 0;
      assert s[1..][i - 1..i - 1 + |pat|] == s[i..i + |pat|];
      assert OccursAt(s[1..], pat, i - 1);
      RemoveAllShrinks(s[1..], pat);
    }
  }

  /** The text comes back unchanged exactly when it does not hold the pattern. */
  lemma RemoveAllUnchanged(s: string, pat: string)
    requires |pat| > 0
    ensures RemoveAll(s, pat) == s <==> !Contains(s, pat)
  {
    if Contains(s, pat) {
      RemoveAllShrinks(s, pat);
    } else {
      RemoveAllAbsent(s, pat);
    }
  }
}
