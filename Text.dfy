/** The handful of Python string operations the request handler relies on:
    str.strip(), str.lower(), str.startswith(), str.endswith() and the `in`
    substring test. Strings are sequences of Unicode code points. */
module Text {

  /** Python's str.isspace() for one code point: the characters str.strip()
      (called without arguments) removes from either end. */
  predicate IsSpace(c: char) {
    var n := c as int;
    (9 <= n <= 13) || (28 <= n <= 32) || n == 0x85 || n == 0xA0 || n == 0x1680
    || (0x2000 <= n <= 0x200A) || n == 0x2028 || n == 0x2029 || n == 0x202F
    || n == 0x205F || n == 0x3000
  }

  /** Drops the leading whitespace: what is left is a suffix of `s`, every
      dropped character is whitespace and the first kept one is not. */
  function TrimStart(s: string): (r: string)
    ensures |r| <= |s| && r == s[|s| - |r|..]
    ensures forall k :: 0 <= k < |s| - |r| ==> IsSpace(s[k])
    ensures r == [] || !IsSpace(r[0])
    decreases |s|
  {
    if s != [] && IsSpace(s[0]) then TrimStart(s[1..]) else s
  }

  /** Drops the trailing whitespace: what is left is a prefix of `s`, every
      dropped character is whitespace and the last kept one is not. */
  function TrimEnd(s: string): (r: string)
    ensures |r| <= |s| && r == s[..|r|]
    ensures forall k :: |r| <= k < |s| ==> IsSpace(s[k])
    ensures r == [] || !IsSpace(r[|r| - 1])
    decreases |s|
  {
    if s != [] && IsSpace(s[|s| - 1]) then TrimEnd(s[..|s| - 1]) else s
  }

  /** Python's s.strip(). */
  function Strip(s: string): (r: string)
    ensures |r| <= |s|
    ensures r == [] || (!IsSpace(r[0]) && !IsSpace(r[|r| - 1]))
  {
    TrimEnd(TrimStart(s))
  }

  /** Strip keeps one contiguous block of `s` and removes only whitespace
      around it; `i` is where the kept block starts. */
  lemma StripIsInfix(s: string) returns (i: nat)
    ensures i + |Strip(s)| <= |s| && Strip(s) == s[i..i + |Strip(s)|]
    ensures forall k :: 0 <= k < i ==> IsSpace(s[k])
    ensures forall k :: i + |Strip(s)| <= k < |s| ==> IsSpace(s[k])
  {
    var t := TrimStart(s);
    i := |s| - |t|;
    var r := TrimEnd(t);
    assert r == t[..|r|];
    assert t == s[i..];
    forall k | i + |r| <= k < |s|
      ensures IsSpace(s[k])
    {
      assert s[k] == t[k - i];
    }
  }

  /** The test `not s.strip()`: the string is blank exactly when every
      character of it is whitespace. */
  lemma StripBlank(s: string)
    ensures Strip(s) == [] <==> forall k :: 0 <= k < |s| ==> IsSpace(s[k])
  {
    var i := StripIsInfix(s);
    if Strip(s) != [] {
      assert !IsSpace(s[i]);
    }
  }

  /** A string with no whitespace at either end is its own Strip. */
  lemma StripNoSpaceEnds(s: string)
    requires s == [] || (!IsSpace(s[0]) && !IsSpace(s[|s| - 1]))
    ensures Strip(s) == s
  {
  }

  /** Python's lower-casing of one ASCII letter; other characters are kept. */
  function LowerChar(c: char): char {
    if 'A' <= c <= 'Z' then (c as int + 32) as char else c
  }

  /** Python's s.lower(), on ASCII letters. */
  function Lower(s: string): (r: string)
    ensures |r| == |s|
  {
    seq(|s|, i requires 0 <= i < |s| => LowerChar(s[i]))
  }

  lemma LowerAppend(a: string, b: string)
    ensures Lower(a + b) == Lower(a) + Lower(b)
  {
  }

  /** Lowering twice is lowering once: a lowered name dispatches like the
      original. */
  lemma LowerIdempotent(s: string)
    ensures Lower(Lower(s)) == Lower(s)
  {
  }

  /** A lower-case letter appears in Lower(s) only where `s` has that letter
      in either case. */
  lemma LowerMissing(s: string, c: char)
    requires 'a' <= c <= 'z'
    requires c !in s && (c as int - 32) as char !in s
    ensures c !in Lower(s)
  {
    forall k | 0 <= k < |s|
      ensures Lower(s)[k] != c
    {
      assert s[k] != c && s[k] != (c as int - 32) as char;
    }
  }

  /** Python's s.startswith(p). */
  predicate StartsWith(s: string, p: string) {
    |p| <= |s| && s[..|p|] == p
  }

  /** Python's s.endswith(x). */
  predicate EndsWith(s: string, x: string) {
    |x| <= |s| && s[|s| - |x|..] == x
  }

  /** `w` occurs in `s` starting at position `i`. */
  predicate OccursAt(s: string, w: string, i: int) {
    0 <= i <= |s| - |w| && s[i..i + |w|] == w
  }

  /** Python's `w in s`: some position of `s` starts an occurrence of `w`
      (the empty string occurs everywhere). */
  function Contains(s: string, w: string): (r: bool)
    ensures r <==> exists i :: OccursAt(s, w, i)
    decreases |s|
  {
    if StartsWith(s, w) then
      assert OccursAt(s, w, 0);
      true
    else if s == [] then
      false
    else
      var r := Contains(s[1..], w);
      assert forall i :: OccursAt(s[1..], w, i) <==> OccursAt(s, w, i + 1) by {
        forall i ensures OccursAt(s[1..], w, i) <==> OccursAt(s, w, i + 1) {
          if 0 <= i <= |s| - 1 - |w| {
            assert s[1..][i..i + |w|] == s[i + 1..i + 1 + |w|];
          }
        }
      }
      assert r ==> OccursAt(s, w, (var j :| OccursAt(s[1..], w, j); j) + 1);
      assert !r ==> forall i :: !OccursAt(s, w, i) by {
        if !r {
          forall i ensures !OccursAt(s, w, i) {
            if i >= 1 {
              assert !OccursAt(s[1..], w, i - 1);
            }
          }
        }
      }
      r
  }

  /** An occurrence needs every character of `w`: a character of `w` that
      `s` lacks rules out any occurrence. */
  lemma MissingCharNotContained(s: string, w: string, c: char)
    requires c in w && c !in s
    ensures !Contains(s, w)
  {
    var j :| 0 <= j < |w| && w[j] == c;
    forall i | 0 <= i <= |s| - |w|
      ensures !OccursAt(s, w, i)
    {
      assert s[i..i + |w|][j] == s[i + j] != c;
    }
  }

  /** Prefixing `m` with a string `p` that holds no occurrence of `w` and ends
      in a character `w` lacks neither creates nor hides an occurrence. */
  lemma {:induction false} ContainsAfterSeparator(p: string, m: string, w: string)
    requires p != [] && p[|p| - 1] !in w
    requires !Contains(p, w)
    ensures Contains(p + m, w) <==> Contains(m, w)
  {
    var s := p + m;
    forall i | 0 <= i < |p|
      ensures !OccursAt(s, w, i)
    {
      if i + |w| <= |p| {
        assert p[i..i + |w|] == s[i..i + |w|];
        assert !OccursAt(p, w, i);
      } else if i + |w| <= |s| {
        assert s[|p| - 1] in s[i..i + |w|];
      }
    }
    forall i | |p| <= i && OccursAt(s, w, i)
      ensures OccursAt(m, w, i - |p|)
    {
      assert m[i - |p|..i - |p| + |w|] == s[i..i + |w|];
    }
    forall i | OccursAt(m, w, i)
      ensures OccursAt(s, w, i + |p|)
    {
      assert s[|p| + i..|p| + i + |w|] == m[i..i + |w|];
    }
  }
}
