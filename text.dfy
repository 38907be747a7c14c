/** The Python string operations the scraper relies on, over ASCII:
    `str.strip()`, `str.lower()`, `in`, `startswith`, `endswith` and
    `str.replace(pattern, "")`. */
module Text {

  /** Python's `str.isspace` on ASCII: space, \t \n \v \f \r and the
      separators \x1c to \x1f. */
  predicate IsSpace(c: char) {
    c == ' ' || ('\t' <= c <= '\r') || ('\U{1C}' <= c <= '\U{1F}')
  }

  predicate AllSpace(s: string) {
    forall i :: 0 <= i < |s| ==> IsSpace(s[i])
  }

  /** A string that `strip()` leaves alone. */
  predicate IsStripped(s: string) {
    s == [] || (!IsSpace(s[0]) && !IsSpace(s[|s| - 1]))
  }

  predicate StartsWith(s: string, p: string) {
    |p| <= |s| && s[..|p|] == p
  }

  predicate EndsWith(s: string, p: string) {
    |p| <= |s| && s[|s| - |p|..] == p
  }

  /** Python's `p in s`. */
  predicate Contains(s: string, p: string)
    decreases |s|
  {
    StartsWith(s, p) || (s != [] && Contains(s[1..], p))
  }

  /** `lstrip()`: the kept text does not start with whitespace. */
  function StripLeft(s: string): (r: string)
    ensures |r| <= |s|
    ensures r == [] || !IsSpace(r[0])
  {
    if s != [] && IsSpace(s[0]) then StripLeft(s[1..]) else s
  }

  /** `rstrip()`: the kept text does not end with whitespace. */
  function StripRight(s: string): (r: string)
    ensures |r| <= |s|
    ensures r == [] || !IsSpace(r[|r| - 1])
  {
    if s != [] && IsSpace(s[|s| - 1]) then StripRight(s[..|s| - 1]) else s
  }

  /** `lstrip()` drops a whitespace prefix and nothing else. */
  lemma {:induction false} StripLeftSuffix(s: string)
    ensures var r := StripLeft(s);
      r == s[|s| - |r|..] && AllSpace(s[..|s| - |r|])
    decreases |s|
  {
    if s != [] && IsSpace(s[0]) {
      var r := StripLeft(s[1..]);
      StripLeftSuffix(s[1..]);
      assert s[..|s| - |r|] == [s[0]] + s[1..][..|s| - 1 - |r|];
    }
  }

  /** `rstrip()` drops a whitespace suffix and nothing else. */
  lemma {:induction false} StripRightPrefix(s: string)
    ensures var r := StripRight(s);
      r == s[..|r|] && AllSpace(s[|r|..])
    decreases |s|
  {
    if s != [] && IsSpace(s[|s| - 1]) {
      var r := StripRight(s[..|s| - 1]);
      StripRightPrefix(s[..|s| - 1]);
      assert s[|r|..] == s[..|s| - 1][|r|..] + [s[|s| - 1]];
    }
  }

  /** `rstrip()` keeps the first character of whatever it keeps. */
  lemma StripRightHead(s: string)
    ensures StripRight(s) != [] ==> StripRight(s)[0] == s[0]
  {
    StripRightPrefix(s);
  }

  /** Python's `s.strip()`: the result has no whitespace left at either end. */
  function Strip(s: string): (r: string)
    ensures IsStripped(r)
    ensures |r| <= |s|
  {
    var l := StripLeft(s);
    StripRightHead(l);
    StripRight(l)
  }

  /** `strip()` only removes whitespace, and only from the two ends. */
  lemma StripSplits(s: string)
    ensures exists pre, post :: s == pre + Strip(s) + post && AllSpace(pre) && AllSpace(post)
  {
    var l := StripLeft(s);
    var r := StripRight(l);
    assert Strip(s) == r;
    StripPieces(s, l, r);
  }

  lemma StripPieces(s: string, l: string, r: string)
    requires l == StripLeft(s) && r == StripRight(l)
    ensures exists pre, post :: s == pre + r + post && AllSpace(pre) && AllSpace(post)
  {
    StripLeftSuffix(s);
    StripRightPrefix(l);
    SplitAround(s, l, r);
  }

  /** s with a whitespace prefix cut off leaves l; l with a whitespace suffix
      cut off leaves r. */
  lemma SplitAround(s: string, l: string, r: string)
    requires |l| <= |s| && l == s[|s| - |l|..] && AllSpace(s[..|s| - |l|])
    requires |r| <= |l| && r == l[..|r|] && AllSpace(l[|r|..])
    ensures exists pre, post :: s == pre + r + post && AllSpace(pre) && AllSpace(post)
  {
    var pre := s[..|s| - |l|];
    var post := l[|r|..];
    assert l == r + post;
    assert s == pre + l;
    assert s == pre + r + post;
  }

  /** A leading whitespace character is stripped away. */
  lemma StripSpaceCons(c: char, s: string)
    requires IsSpace(c)
    ensures Strip([c] + s) == Strip(s)
  {
    assert ([c] + s)[1..] == s;
  }

  /** A trailing whitespace character is stripped away. */
  lemma StripSpaceSnoc(s: string, c: char)
    requires IsSpace(c) && s != [] && !IsSpace(s[0])
    ensures Strip(s + [c]) == Strip(s)
  {
    var t := s + [c];
    assert t[0] == s[0];
    assert StripLeft(t) == t && StripLeft(s) == s;
    assert t[..|t| - 1] == s;
  }

  /** `strip()` removes something from a string with whitespace at an end. */
  lemma StripShorter(s: string)
    requires !IsStripped(s)
    ensures |Strip(s)| < |s|
  {
    if IsSpace(s[0]) {
      assert |StripLeft(s)| < |s|;
    } else {
      assert StripLeft(s) == s;
      assert StripRight(s) == StripRight(s[..|s| - 1]);
    }
  }

  function LowerChar(c: char): char {
    if 'A' <= c <= 'Z' then (c as int + 32) as char else c
  }

  predicate NoUpper(s: string) {
    forall c :: c in s ==> !('A' <= c <= 'Z')
  }

  /** Python's `s.lower()` on ASCII: same length, every upper-case letter
      becomes a lower-case one, every other character stays where it was. */
  function Lower(s: string): (r: string)
    ensures |r| == |s| && NoUpper(r)
    ensures forall i :: 0 <= i < |s| && 'A' <= s[i] <= 'Z' ==> r[i] as int == s[i] as int + 32
    ensures forall i :: 0 <= i < |s| && !('A' <= s[i] <= 'Z') ==> r[i] == s[i]
  {
    seq(|s|, i requires 0 <= i < |s| => LowerChar(s[i]))
  }

  /** Python's `s.replace(p, "")`: occurrences of p are removed left to right,
      without overlap.  The result is never longer, and a string that does not
      contain p is returned unchanged. */
  function RemoveAll(s: string, p: string): (r: string)
    requires p != []
    ensures |r| <= |s|
    ensures !Contains(s, p) ==> r == s
    decreases |s|
  {
    if |s| < |p| then s
    else if s[..|p|] == p then RemoveAll(s[|p|..], p)
    else [s[0]] + RemoveAll(s[1..], p)
  }

  /** p occurs in s at index j. */
  predicate OccursAt(s: string, p: string, j: nat) {
    j <= |s| && StartsWith(s[j..], p)
  }

  /** The pass of `replace(p, "")` up to the first occurrence of p: the text
      before it is kept as it is, the occurrence goes, and the pass resumes
      right after it. */
  lemma RemoveAllFirst(s: string, p: string, i: nat)
    requires p != [] && OccursAt(s, p, i)
    requires forall j :: 0 <= j < i ==> !OccursAt(s, p, j)
    ensures i + |p| <= |s|
    ensures RemoveAll(s, p) == s[..i] + RemoveAll(s[i + |p|..], p)
  {
    RemoveAllFrom(s, p, 0, i);
    assert s[0..] == s;
  }

  /** From index k up to the first occurrence i, the pass copies s[k..i] unchanged. */
  lemma {:induction false} RemoveAllFrom(s: string, p: string, k: nat, i: nat)
    requires p != [] && k <= i && OccursAt(s, p, i)
    requires forall j :: k <= j < i ==> !OccursAt(s, p, j)
    ensures i + |p| <= |s|
    ensures RemoveAll(s[k..], p) == s[k..i] + RemoveAll(s[i + |p|..], p)
    decreases i - k
  {
    if k == i {
      RemoveAllAt(s, p, i);
    } else {
      RemoveAllSkipAt(s, p, k, i);
      RemoveAllFrom(s, p, k + 1, i);
      Rejoin(s, k, i, RemoveAll(s[k..], p), RemoveAll(s[k + 1..], p), RemoveAll(s[i + |p|..], p));
    }
  }

  /** An occurrence at index i goes, and the pass resumes after it. */
  lemma RemoveAllAt(s: string, p: string, i: nat)
    requires p != [] && OccursAt(s, p, i)
    ensures i + |p| <= |s|
    ensures RemoveAll(s[i..], p) == s[i..i] + RemoveAll(s[i + |p|..], p)
  {
    var u := s[i..];
    assert u[|p|..] == s[i + |p|..];
  }

  /** Where p does not occur at k (but does later), the pass keeps s[k]. */
  lemma RemoveAllSkipAt(s: string, p: string, k: nat, i: nat)
    requires p != [] && k < i && OccursAt(s, p, i) && !OccursAt(s, p, k)
    ensures RemoveAll(s[k..], p) == [s[k]] + RemoveAll(s[k + 1..], p)
  {
    var u := s[k..];
    assert |p| <= |u|;
    assert u[1..] == s[k + 1..];
  }

  lemma Rejoin(s: string, k: nat, i: nat, a: string, b: string, rest: string)
    requires k < i <= |s| && a == [s[k]] + b && b == s[k + 1..i] + rest
    ensures a == s[k..i] + rest
  {
    assert s[k..i] == [s[k]] + s[k + 1..i];
  }

  /** Every character left after a removal was in the input. */
  lemma {:induction false} RemoveAllKeeps(s: string, p: string, x: char)
    requires p != [] && x in RemoveAll(s, p)
    ensures x in s
    decreases |s|
  {
    if |s| >= |p| {
      if s[..|p|] == p {
        RemoveAllKeeps(s[|p|..], p, x);
      } else if x != s[0] {
        RemoveAllKeeps(s[1..], p, x);
      }
    }
  }

  /** Removing a one-character pattern leaves none of that character. */
  lemma {:induction false} RemoveAllGone(s: string, c: char)
    ensures c !in RemoveAll(s, [c])
    decreases |s|
  {
    if |s| >= 1 {
      if s[..1] == [c] {
        RemoveAllGone(s[1..], c);
      } else {
        RemoveAllGone(s[1..], c);
        assert s[0] != c;
      }
    }
  }

  /** A character occurs in s exactly when the one-character string does. */
  lemma {:induction false} ContainsChar(s: string, c: char)
    ensures Contains(s, [c]) <==> c in s
    decreases |s|
  {
    if s != [] {
      ContainsChar(s[1..], c);
      assert s == [s[0]] + s[1..];
    }
  }

  /** An occurrence survives having anything put in front of it. */
  lemma {:induction false} ContainsAppend(a: string, b: string, p: string)
    requires Contains(b, p)
    ensures Contains(a + b, p)
    decreases |a|
  {
    if a == [] {
      assert a + b == b;
    } else {
      ContainsAppend(a[1..], b, p);
      assert (a + b)[1..] == a[1..] + b;
    }
  }

  /** A non-empty pattern that occurs in s has its first character in s. */
  lemma {:induction false} ContainsHead(s: string, p: string)
    requires p != [] && Contains(s, p)
    ensures p[0] in s
    decreases |s|
  {
    if !StartsWith(s, p) {
      ContainsHead(s[1..], p);
    } else {
      assert s[0] == p[0];
    }
  }

  /** `strip()` does nothing to a string that has no whitespace at its ends. */
  lemma StripStripped(s: string)
    requires IsStripped(s)
    ensures Strip(s) == s
  {
    assert StripLeft(s) == s;
  }

  /** `lower()` does nothing to a string without upper-case letters. */
  lemma LowerNoUpper(s: string)
    requires NoUpper(s)
    ensures Lower(s) == s
  {
    forall i | 0 <= i < |s| ensures Lower(s)[i] == s[i] {
      assert s[i] in s;
    }
  }

  lemma LowerTwice(s: string)
    ensures Lower(Lower(s)) == Lower(s)
  {
    LowerNoUpper(Lower(s));
  }

  lemma {:induction false} StripLeftLower(s: string)
    ensures StripLeft(Lower(s)) == Lower(StripLeft(s))
    decreases |s|
  {
    if s != [] {
      var l := Lower(s);
      assert l[0] == LowerChar(s[0]);
      if IsSpace(s[0]) {
        assert l[1..] == Lower(s[1..]);
        StripLeftLower(s[1..]);
      }
    }
  }

  lemma {:induction false} StripRightLower(s: string)
    ensures StripRight(Lower(s)) == Lower(StripRight(s))
    decreases |s|
  {
    if s != [] {
      var l := Lower(s);
      assert l[|s| - 1] == LowerChar(s[|s| - 1]);
      if IsSpace(s[|s| - 1]) {
        assert l[..|s| - 1] == Lower(s[..|s| - 1]);
        StripRightLower(s[..|s| - 1]);
      }
    }
  }

  /** Lower-casing and stripping commute, because no letter is whitespace. */
  lemma StripLower(s: string)
    ensures Strip(Lower(s)) == Lower(Strip(s))
  {
    StripLeftLower(s);
    StripRightLower(StripLeft(s));
  }

  /** Every character that `strip()` keeps was in the input. */
  lemma StripKeeps(s: string, c: char)
    requires c in Strip(s)
    ensures c in s
  {
    var l := StripLeft(s);
    StripLeftSuffix(s);
    StripRightPrefix(l);
    InnerKeeps(s, l, StripRight(l), c);
  }

  /** A character of a prefix of a suffix of s is a character of s. */
  lemma InnerKeeps(s: string, l: string, r: string, c: char)
    requires |l| <= |s| && l == s[|s| - |l|..] && |r| <= |l| && r == l[..|r|]
    requires c in r
    ensures c in s
  {
    var i :| 0 <= i < |r| && r[i] == c;
    assert s[|s| - |l| + i] == c;
  }

  /** Every character of `lower()`'s result other than a lower-case letter
      was in the input. */
  lemma LowerKeeps(s: string, c: char)
    requires c in Lower(s) && !('a' <= c <= 'z')
    ensures c in s
  {
    var i :| 0 <= i < |s| && Lower(s)[i] == c;
    assert s[i] == c;
  }

  /** Removing a one-character pattern works piece by piece. */
  lemma {:induction false} RemoveCharAppend(a: string, b: string, c: char)
    ensures RemoveAll(a + b, [c]) == RemoveAll(a, [c]) + RemoveAll(b, [c])
    decreases |a|
  {
    if a == [] {
      assert a + b == b;
    } else {
      assert (a + b)[1..] == a[1..] + b;
      RemoveCharAppend(a[1..], b, c);
    }
  }

  /** A pattern whose first character is absent is not there to remove. */
  lemma RemoveAbsent(s: string, p: string)
    requires p != [] && p[0] !in s
    ensures RemoveAll(s, p) == s
  {
    if Contains(s, p) {
      ContainsHead(s, p);
    }
  }

  lemma RemoveSelf(c: char)
    ensures RemoveAll([c], [c]) == []
  {
    assert [c][..1] == [c];
    assert [c][1..] == [];
  }

  /** Removing every c from a + [c] + b leaves the rest of a and b. */
  lemma RemoveOne(a: string, c: char, b: string)
    requires c !in a && c !in b
    ensures RemoveAll(a + [c] + b, [c]) == a + b
  {
    var ac := a + [c];
    RemoveCharAppend(ac, b, c);
    RemoveCharAppend(a, [c], c);
    RemoveAbsent(a, [c]);
    RemoveAbsent(b, [c]);
    RemoveSelf(c);
    assert RemoveAll(ac, [c]) == a;
  }

  /** Removing the one c from s, written as a + [c] + b, leaves r == a + b. */
  lemma RemoveOneAt(s: string, a: string, c: char, b: string, r: string)
    requires s == a + [c] + b && r == a + b && c !in a && c !in b
    ensures RemoveAll(s, [c]) == r
  {
    RemoveOne(a, c, b);
  }
}
