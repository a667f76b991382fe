/** The few Python string operations the handlers rely on, written out:
    `str.count`, the `<` order on str, and `str.rstrip` of one character. */
module Text {

  /** Python's `s.count(sub)`: non-overlapping occurrences of sub, scanned
      from the left; the empty string occurs |s| + 1 times. */
  function Count(s: string, sub: string): nat
    decreases |s|
  {
    if |sub| == 0 then |s| + 1
    else if |s| < |sub| then 0
    else if sub <= s then 1 + Count(s[|sub|..], sub)
    else Count(s[1..], sub)
  }

  /** sub occurs in s at some position. */
  predicate Occurs(sub: string, s: string)
  {
    exists i :: 0 <= i <= |s| && sub <= s[i..]
  }

  /** `s.count(sub) > 0` is exactly "sub is a substring of s". */
  lemma {:induction false} CountPositiveIffOccurs(s: string, sub: string)
    ensures Count(s, sub) > 0 <==> Occurs(sub, s)
    decreases |s|
  {
    if |sub| == 0 {
      assert sub <= s[0..];
    } else if |s| < |sub| {
      // no position leaves room for sub
    } else if sub <= s {
      assert s[0..] == s;
    } else {
      CountPositiveIffOccurs(s[1..], sub);
      if Occurs(sub, s) {
        var i :| 0 <= i <= |s| && sub <= s[i..];
        assert s[0..] == s;
        assert i != 0;
        assert s[1..][i - 1..] == s[i..];
      }
      if Occurs(sub, s[1..]) {
        var i :| 0 <= i <= |s[1..]| && sub <= s[1..][i..];
        assert s[1..][i..] == s[i + 1..];
      }
    }
  }

  /** Python's `a < b` on str: lexicographic by code point, a proper prefix
      coming first. */
  predicate StrLess(a: string, b: string)
    decreases |a|
  {
    |b| > 0 && (|a| == 0 || a[0] < b[0] || (a[0] == b[0] && StrLess(a[1..], b[1..])))
  }

  lemma {:induction false} StrLessIrreflexive(a: string)
    ensures !StrLess(a, a)
    decreases |a|
  {
    if |a| > 0 {
      StrLessIrreflexive(a[1..]);
    }
  }

  lemma {:induction false} StrLessTransitive(a: string, b: string, c: string)
    requires StrLess(a, b) && StrLess(b, c)
    ensures StrLess(a, c)
    decreases |a|
  {
    if |a| > 0 && a[0] == b[0] && b[0] == c[0] {
      StrLessTransitive(a[1..], b[1..], c[1..]);
    }
  }

  lemma {:induction false} StrLessTotal(a: string, b: string)
    ensures a == b || StrLess(a, b) || StrLess(b, a)
    decreases |a|
  {
    if |a| > 0 && |b| > 0 && a[0] == b[0] {
      StrLessTotal(a[1..], b[1..]);
      if a[1..] == b[1..] {
        assert a == [a[0]] + a[1..] && b == [b[0]] + b[1..];
      }
    }
  }

  /** Python's `s.rstrip(c)`: s without the run of c that ends it. */
  function RStrip(s: string, c: char): (r: string)
    ensures r <= s
    ensures r == [] || r[|r| - 1] != c
    ensures forall i :: |r| <= i < |s| ==> s[i] == c
  {
    if |s| > 0 && s[|s| - 1] == c then RStrip(s[..|s| - 1], c) else s
  }
}
