/** The Some/None datatype used for the nullable values of the invoice reader. */
module Wrappers {
  datatype Option<+T> = None | Some(value: T)
}

/**
  Character classes and string operations shared by the invoice reader:
  whitespace as Python's str.isspace() sees it, ASCII digits, ASCII
  lower-casing, substring containment, str.replace with an empty
  replacement, and str.strip().
 */
module Text {

  /** The characters for which Python's str.isspace() holds; str.split() and str.strip() use them. */
  predicate IsSpace(c: char) {
    || c == ' '
    || ('\U{9}' <= c <= '\U{D}')
    || ('\U{1C}' <= c <= '\U{1F}')
    || c == '\U{85}' || c == '\U{A0}' || c == '\U{1680}'
    || ('\U{2000}' <= c <= '\U{200A}')
    || c == '\U{2028}' || c == '\U{2029}' || c == '\U{202F}' || c == '\U{205F}' || c == '\U{3000}'
  }

  predicate IsDigit(c: char) {
    '0' <= c <= '9'
  }

  predicate NoSpace(w: string) {
    forall k :: 0 <= k < |w| ==> !IsSpace(w[k])
  }

  function LowerChar(c: char): (d: char)
    ensures 'A' <= c <= 'Z' ==> 'a' <= d <= 'z' && d as int - c as int == 32
    ensures !('A' <= c <= 'Z') ==> d == c
  {
    if 'A' <= c <= 'Z' then (c as int + 32) as char else c
  }

  /** str.lower(), restricted to the ASCII letters. */
  function Lower(s: string): (r: string)
    ensures |r| == |s|
    ensures forall k :: 0 <= k < |s| ==> r[k] == LowerChar(s[k])
  {
    seq(|s|, k requires 0 <= k < |s| => LowerChar(s[k]))
  }

  /** `w` occurs in `t` starting at index `i`. */
  predicate OccursAt(t: string, w: string, i: nat) {
    i + |w| <= |t| && t[i..i + |w|] == w
  }

  /** Python's `w in t` for strings. */
  predicate Contains(t: string, w: string) {
    exists i: nat | i <= |t| :: OccursAt(t, w, i)
  }

  /** An occurrence of an occurrence is an occurrence. */
  lemma OccursWithin(t: string, m: string, w: string, i: nat, j: nat)
    requires OccursAt(t, m, i) && OccursAt(m, w, j)
    ensures OccursAt(t, w, i + j)
  {
    forall k | 0 <= k < |w| ensures t[i + j + k] == w[k] {
      assert m[j + k] == w[k];
      assert t[i + (j + k)] == m[j + k];
    }
    assert t[i + j..i + j + |w|] == w;
  }

  /** `w in m` and `m in t` give `w in t`. */
  lemma ContainsWithin(t: string, m: string, w: string)
    requires Contains(t, m) && Contains(m, w)
    ensures Contains(t, w)
  {
    var i: nat :| i <= |t| && OccursAt(t, m, i);
    var j: nat :| j <= |m| && OccursAt(m, w, j);
    OccursWithin(t, m, w, i, j);
  }

  /** `s.replace(x, "")` for a single character `x`. */
  function Without(s: string, x: char): (r: string)
    ensures |r| <= |s|
  {
    if s == [] then []
    else (if s[0] == x then [] else [s[0]]) + Without(s[1..], x)
  }

  /** Every `x` is removed, and every other character is kept, as often as it occurs. */
  lemma {:induction false} WithoutKeeps(s: string, x: char)
    ensures multiset(Without(s, x))[x] == 0
    ensures forall c :: c != x ==> multiset(Without(s, x))[c] == multiset(s)[c]
  {
    if s != [] {
      WithoutKeeps(s[1..], x);
      assert s == [s[0]] + s[1..];
    }
  }

  lemma {:induction false} WithoutAbsent(s: string, x: char)
    requires forall k :: 0 <= k < |s| ==> s[k] != x
    ensures Without(s, x) == s
  {
    if s != [] {
      WithoutAbsent(s[1..], x);
    }
  }

  /** The removal works piecewise. */
  lemma {:induction false} WithoutAppend(a: string, b: string, x: char)
    ensures Without(a + b, x) == Without(a, x) + Without(b, x)
  {
    if a != [] {
      WithoutAppend(a[1..], b, x);
      assert (a + b)[0] == a[0];
      assert (a + b)[1..] == a[1..] + b;
      var h := if a[0] == x then [] else [a[0]];
      assert Without(a + b, x) == h + (Without(a[1..], x) + Without(b, x));
      assert Without(a, x) == h + Without(a[1..], x);
    } else {
      assert a + b == b;
    }
  }

  function DropLeadingSpace(s: string): string {
    if s != [] && IsSpace(s[0]) then DropLeadingSpace(s[1..]) else s
  }

  lemma {:induction false} DropLeadingSpaceSuffix(s: string)
    ensures var r := DropLeadingSpace(s);
            && |r| <= |s| && r == s[|s| - |r|..]
            && (forall k :: 0 <= k < |s| - |r| ==> IsSpace(s[k]))
            && (r == [] || !IsSpace(r[0]))
  {
    if s != [] && IsSpace(s[0]) {
      var t := s[1..];
      DropLeadingSpaceSuffix(t);
      var r := DropLeadingSpace(t);
      assert DropLeadingSpace(s) == r;
      assert t[|t| - |r|..] == s[|s| - |r|..];
      forall k | 0 <= k < |s| - |r| ensures IsSpace(s[k]) {
        if k > 0 {
          assert s[k] == t[k - 1];
        }
      }
    }
  }

  function DropTrailingSpace(s: string): string {
    if s != [] && IsSpace(s[|s| - 1]) then DropTrailingSpace(s[..|s| - 1]) else s
  }

  lemma {:induction false} DropTrailingSpacePrefix(s: string)
    ensures var r := DropTrailingSpace(s);
            && |r| <= |s| && r == s[..|r|]
            && (forall k :: |r| <= k < |s| ==> IsSpace(s[k]))
            && (r == [] || !IsSpace(r[|r| - 1]))
  {
    if s != [] && IsSpace(s[|s| - 1]) {
      var t := s[..|s| - 1];
      DropTrailingSpacePrefix(t);
      var r := DropTrailingSpace(t);
      assert DropTrailingSpace(s) == r;
      assert t[..|r|] == s[..|r|];
      forall k | |r| <= k < |s| ensures IsSpace(s[k]) {
        if k < |s| - 1 {
          assert s[k] == t[k];
        }
      }
    }
  }

  /** str.strip(). */
  function Strip(s: string): string {
    DropTrailingSpace(DropLeadingSpace(s))
  }

  /**
    The stripped text is the middle of `s` once all leading and all
    trailing whitespace is cut off.
   */
  lemma StripMiddle(s: string)
    ensures exists i, j :: 0 <= i <= j <= |s| && Strip(s) == s[i..j]
              && (forall k :: 0 <= k < i ==> IsSpace(s[k]))
              && (forall k :: j <= k < |s| ==> IsSpace(s[k]))
    ensures Strip(s) == [] || (!IsSpace(Strip(s)[0]) && !IsSpace(Strip(s)[|Strip(s)| - 1]))
  {
    var a := DropLeadingSpace(s);
    DropLeadingSpaceSuffix(s);
    var r := DropTrailingSpace(a);
    DropTrailingSpacePrefix(a);
    var i := |s| - |a|;
    assert r == s[i..i + |r|];
    assert forall k :: i + |r| <= k < |s| ==> s[k] == a[k - i];
  }
}
