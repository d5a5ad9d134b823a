/** Character and string helpers shared by the text pipeline: literal global
    replacement (what `String.prototype.replace` does with a `/literal/g`
    pattern), JavaScript's `trim`, and ASCII lower-casing. */
module Strings {

  datatype Option<T> = None | Some(value: T)

  // ---------------------------------------------------------------------
  // Prefixes and occurrences
  // ---------------------------------------------------------------------

  predicate StartsWith<T(==)>(s: seq<T>, p: seq<T>) {
    |p| <= |s| && s[..|p|] == p
  }

  predicate EndsWith<T(==)>(s: seq<T>, p: seq<T>) {
    |p| <= |s| && s[|s| - |p|..] == p
  }

  /** `p` occurs nowhere in `s`. */
  predicate Absent(s: string, p: string) {
    forall i :: 0 <= i <= |s| ==> !StartsWith(s[i..], p)
  }

  /** The two-character sequence `a b` occurs nowhere in `s`. */
  predicate NoPair(s: string, a: char, b: char) {
    forall i :: 0 <= i < |s| - 1 ==> !(s[i] == a && s[i + 1] == b)
  }

  /** No proper prefix of `p` is also a suffix of `p`: two occurrences of `p`
      can never overlap. */
  predicate Unbordered(p: string) {
    forall k :: 0 < k < |p| ==> p[..k] != p[|p| - k..]
  }

  lemma NoPairAbsent(s: string, p: string)
    requires |p| >= 2 && NoPair(s, p[0], p[1])
    ensures Absent(s, p)
  {
    forall i | 0 <= i <= |s|
      ensures !StartsWith(s[i..], p)
    {
      if i + 1 < |s| {
        assert s[i..][0] == s[i] && s[i..][1] == s[i + 1];
      }
    }
  }

  lemma AbsentChar(s: string, c: char)
    requires c !in s
    ensures Absent(s, [c])
  {
    forall i | 0 <= i <= |s|
      ensures !StartsWith(s[i..], [c])
    {
      if i < |s| {
        assert s[i..][0] == s[i];
      }
    }
  }

  // ---------------------------------------------------------------------
  // Global replacement of a literal pattern
  // ---------------------------------------------------------------------

  /** `s.replace(/pat/g, rep)` for a pattern that matches only the literal
      string `pat`: the leftmost occurrence is replaced and the scan resumes
      after it, so occurrences never overlap. */
  function ReplaceAll(s: string, pat: string, rep: string): (r: string)
    requires pat != []
    decreases |s|
  {
    if s == [] then []
    else if StartsWith(s, pat) then rep + ReplaceAll(s[|pat|..], pat, rep)
    else [s[0]] + ReplaceAll(s[1..], pat, rep)
  }

  /** Replacement leaves a text without the pattern untouched. */
  lemma {:induction false} ReplaceAllAbsent(s: string, pat: string, rep: string)
    requires pat != [] && Absent(s, pat)
    ensures ReplaceAll(s, pat, rep) == s
    decreases |s|
  {
    if s != [] {
      assert !StartsWith(s[0..], pat);
      assert s[0..] == s;
      forall i | 0 <= i <= |s[1..]|
        ensures !StartsWith(s[1..][i..], pat)
      {
        assert s[1..][i..] == s[i + 1..];
      }
      ReplaceAllAbsent(s[1..], pat, rep);
    }
  }

  /** Replacing with a single character `c` that is not part of the two-character
      sequence `q` never creates `q`; when `q` is the pattern itself, none is left. */
  lemma {:induction false} ReplaceAllNoPair(s: string, pat: string, c: char, a: char, b: char)
    requires pat != [] && c != a && c != b
    requires pat == [a, b] || NoPair(s, a, b)
    ensures NoPair(ReplaceAll(s, pat, [c]), a, b)
    decreases |s|
  {
    if s != [] {
      var r := ReplaceAll(s, pat, [c]);
      if StartsWith(s, pat) {
        ReplaceAllNoPair(s[|pat|..], pat, c, a, b);
        assert r == [c] + ReplaceAll(s[|pat|..], pat, [c]);
      } else {
        ReplaceAllNoPair(s[1..], pat, c, a, b);
        var tail := ReplaceAll(s[1..], pat, [c]);
        assert r == [s[0]] + tail;
        if |tail| > 0 && s[0] == a {
          ReplaceAllHead(s[1..], pat, c);
          assert s[..2] == [s[0], s[1]];
        }
      }
    }
  }

  /** The first character of a replacement result is the replacement or the
      first character of the input. */
  lemma ReplaceAllHead(s: string, pat: string, c: char)
    requires pat != [] && s != []
    ensures ReplaceAll(s, pat, [c]) != []
    ensures ReplaceAll(s, pat, [c])[0] == c || ReplaceAll(s, pat, [c])[0] == s[0]
  {
  }

  /** Replacing a one-character pattern by something else removes that
      character entirely. */
  lemma {:induction false} ReplaceAllRemovesChar(s: string, x: char, rep: string)
    requires x !in rep
    ensures x !in ReplaceAll(s, [x], rep)
    decreases |s|
  {
    if s != [] {
      if StartsWith(s, [x]) {
        ReplaceAllRemovesChar(s[1..], x, rep);
      } else {
        assert s[0] != x;
        ReplaceAllRemovesChar(s[1..], x, rep);
      }
    }
  }

  /** Every character of the result comes from the input or from `rep`. */
  lemma {:induction false} ReplaceAllChars(s: string, pat: string, rep: string, x: char)
    requires pat != [] && x !in s && x !in rep
    ensures x !in ReplaceAll(s, pat, rep)
    decreases |s|
  {
    if s != [] {
      if StartsWith(s, pat) {
        assert x !in s[|pat|..];
        ReplaceAllChars(s[|pat|..], pat, rep, x);
      } else {
        assert x !in s[1..];
        ReplaceAllChars(s[1..], pat, rep, x);
      }
    }
  }

  /** An unbordered pattern cannot match at a position that is followed,
      closer than its own length, by another occurrence of it. */
  lemma UnborderedNoEarlyMatch(a: string, pat: string, b: string)
    requires pat != [] && Unbordered(pat) && 0 < |a| < |pat|
    ensures !StartsWith(a + pat + b, pat)
  {
    var s := a + pat + b;
    var k := |pat| - |a|;
    assert pat[..k] != pat[|pat| - k..];
    var j :| 0 <= j < k && pat[..k][j] != pat[|pat| - k..][j];
    assert s[|a| + j] == pat[j];
    assert s[..|pat|][|a| + j] != pat[|a| + j];
  }

  /** Before the occurrence of `pat` that follows `a`, the text `a + pat + b`
      matches the pattern where `a` does. */
  lemma AroundHead(a: string, pat: string, b: string)
    requires pat != [] && Unbordered(pat) && a != []
    ensures StartsWith(a + pat + b, pat) <==> StartsWith(a, pat)
    ensures (a + pat + b)[0] == a[0] && (a + pat + b)[1..] == a[1..] + pat + b
    ensures StartsWith(a, pat) ==> (a + pat + b)[|pat|..] == a[|pat|..] + pat + b
  {
    var s := a + pat + b;
    if |a| < |pat| {
      UnborderedNoEarlyMatch(a, pat, b);
    } else {
      assert s[..|pat|] == a[..|pat|];
      assert s[|pat|..] == a[|pat|..] + pat + b;
    }
    assert s[1..] == a[1..] + pat + b;
  }

  /** One step of `ReplaceAll` on a non-empty text. */
  lemma ReplaceAllCons(s: string, pat: string, rep: string)
    requires pat != [] && s != []
    ensures StartsWith(s, pat) ==> ReplaceAll(s, pat, rep) == rep + ReplaceAll(s[|pat|..], pat, rep)
    ensures !StartsWith(s, pat) ==> ReplaceAll(s, pat, rep) == [s[0]] + ReplaceAll(s[1..], pat, rep)
  {
  }

  lemma ConcatAssoc3<T>(x: seq<T>, y: seq<T>, z: seq<T>)
    ensures x + (y + z) == x + y + z
  {
  }

  lemma ConcatAssoc<T>(x: seq<T>, y: seq<T>, z: seq<T>, w: seq<T>)
    ensures x + (y + z + w) == (x + y) + z + w
  {
  }

  /** An occurrence of an unbordered pattern is replaced on its own, whatever
      surrounds it. */
  lemma {:induction false} ReplaceAllAround(a: string, pat: string, rep: string, b: string)
    requires pat != [] && Unbordered(pat)
    ensures ReplaceAll(a + pat + b, pat, rep)
         == ReplaceAll(a, pat, rep) + rep + ReplaceAll(b, pat, rep)
    decreases |a|
  {
    var s := a + pat + b;
    if a == [] {
      assert s == pat + b;
      assert s[..|pat|] == pat;
      assert s[|pat|..] == b;
    } else {
      AroundHead(a, pat, b);
      ReplaceAllCons(s, pat, rep);
      ReplaceAllCons(a, pat, rep);
      if StartsWith(a, pat) {
        ReplaceAllAround(a[|pat|..], pat, rep, b);
        ConcatAssoc(rep, ReplaceAll(a[|pat|..], pat, rep), rep, ReplaceAll(b, pat, rep));
      } else {
        ReplaceAllAround(a[1..], pat, rep, b);
        ConcatAssoc([a[0]], ReplaceAll(a[1..], pat, rep), rep, ReplaceAll(b, pat, rep));
      }
    }
  }

  /** Before a character `c` that does not occur in `pat`, the text
      `a + [c] + b` matches the pattern where `a` does. */
  lemma AroundCharHead(a: string, c: char, pat: string, b: string)
    requires pat != [] && c !in pat && a != []
    ensures StartsWith(a + [c] + b, pat) <==> StartsWith(a, pat)
    ensures (a + [c] + b)[0] == a[0] && (a + [c] + b)[1..] == a[1..] + [c] + b
    ensures StartsWith(a, pat) ==> (a + [c] + b)[|pat|..] == a[|pat|..] + [c] + b
  {
    var s := a + [c] + b;
    if |pat| <= |a| {
      assert s[..|pat|] == a[..|pat|];
      assert s[|pat|..] == a[|pat|..] + [c] + b;
    } else {
      assert s[|a|] == c != pat[|a|];
    }
    assert s[1..] == a[1..] + [c] + b;
  }

  /** A character that cannot start the pattern is copied on its own. */
  lemma {:induction false} ReplaceAllAroundChar(a: string, c: char, pat: string, rep: string, b: string)
    requires pat != [] && c !in pat
    ensures ReplaceAll(a + [c] + b, pat, rep)
         == ReplaceAll(a, pat, rep) + [c] + ReplaceAll(b, pat, rep)
    decreases |a|
  {
    var s := a + [c] + b;
    if a == [] {
      assert s == [c] + b;
      assert !StartsWith(s, pat) by { assert s[0] == c; assert c != pat[0]; }
      assert s[1..] == b;
    } else {
      AroundCharHead(a, c, pat, b);
      ReplaceAllCons(s, pat, rep);
      ReplaceAllCons(a, pat, rep);
      if StartsWith(a, pat) {
        ReplaceAllAroundChar(a[|pat|..], c, pat, rep, b);
        ConcatAssoc(rep, ReplaceAll(a[|pat|..], pat, rep), [c], ReplaceAll(b, pat, rep));
      } else {
        ReplaceAllAroundChar(a[1..], c, pat, rep, b);
        ConcatAssoc([a[0]], ReplaceAll(a[1..], pat, rep), [c], ReplaceAll(b, pat, rep));
      }
    }
  }

  /** `n` newlines. */
  function Newlines(n: nat): (r: string)
    ensures |r| == n && forall i :: 0 <= i < n ==> r[i] == '\n'
  {
    if n == 0 then [] else "\n" + Newlines(n - 1)
  }

  // ---------------------------------------------------------------------
  // Whitespace and trim
  // ---------------------------------------------------------------------

  /** ECMAScript WhiteSpace and LineTerminator code points: exactly what
      `String.prototype.trim` removes from both ends. */
  predicate IsJsWhitespace(c: char) {
    c == '\t' || c == '\n' || c == '\U{000B}' || c == '\U{000C}' || c == '\r'
    || c == ' ' || c == '\U{00A0}' || c == '\U{1680}'
    || ('\U{2000}' <= c <= '\U{200A}')
    || c == '\U{2028}' || c == '\U{2029}' || c == '\U{202F}' || c == '\U{205F}'
    || c == '\U{3000}' || c == '\U{FEFF}'
  }

  /** Neither end of `s` is whitespace. */
  predicate IsTrimmed(s: string) {
    s == [] || (!IsJsWhitespace(s[0]) && !IsJsWhitespace(s[|s| - 1]))
  }

  function LeadingWhitespace(s: string): (n: nat)
    ensures n <= |s|
    ensures forall i :: 0 <= i < n ==> IsJsWhitespace(s[i])
    ensures n < |s| ==> !IsJsWhitespace(s[n])
  {
    if s != [] && IsJsWhitespace(s[0]) then 1 + LeadingWhitespace(s[1..]) else 0
  }

  function TrailingWhitespace(s: string): (n: nat)
    ensures n <= |s|
    ensures forall i :: |s| - n <= i < |s| ==> IsJsWhitespace(s[i])
    ensures n < |s| ==> !IsJsWhitespace(s[|s| - 1 - n])
  {
    if s != [] && IsJsWhitespace(s[|s| - 1]) then 1 + TrailingWhitespace(s[..|s| - 1]) else 0
  }

  /** `s.trim()`: whitespace removed from both ends. */
  function Trim(s: string): (r: string)
    ensures IsTrimmed(r) && |r| <= |s|
  {
    var t := s[LeadingWhitespace(s)..];
    t[..|t| - TrailingWhitespace(t)]
  }

  /** What `Trim` keeps is one slice of its input, and everything it drops is
      whitespace. */
  lemma TrimSlice(s: string) returns (k: nat)
    ensures k + |Trim(s)| <= |s| && Trim(s) == s[k..k + |Trim(s)|]
    ensures forall i :: 0 <= i < k ==> IsJsWhitespace(s[i])
    ensures forall i :: k + |Trim(s)| <= i < |s| ==> IsJsWhitespace(s[i])
  {
    k := LeadingWhitespace(s);
    var t := s[k..];
    var n := TrailingWhitespace(t);
    assert t[..|t| - n] == s[k..k + (|t| - n)];
  }

  /** Trimming a trimmed string changes nothing. */
  lemma TrimTrimmed(s: string)
    requires IsTrimmed(s)
    ensures Trim(s) == s
  {
    assert LeadingWhitespace(s) == 0;
    assert s[0..] == s;
    assert TrailingWhitespace(s) == 0;
  }

  // ---------------------------------------------------------------------
  // ASCII case folding
  // ---------------------------------------------------------------------

  /** Lower-cases ASCII letters and leaves every other character alone. */
  function ToLower(c: char): (r: char)
    ensures 'A' <= c <= 'Z' ==> 'a' <= r <= 'z'
    ensures !('A' <= c <= 'Z') ==> r == c
  {
    if 'A' <= c <= 'Z' then (c as int + 32) as char else c
  }

  /** `s.toLowerCase()`, restricted to ASCII so that lengths and offsets are kept. */
  function Lower(s: string): (r: string)
    ensures |r| == |s|
    ensures forall i :: 0 <= i < |s| ==> r[i] == ToLower(s[i])
  {
    seq(|s|, i requires 0 <= i < |s| => ToLower(s[i]))
  }

  lemma LowerSlice(s: string, i: nat, j: nat)
    requires i <= j <= |s|
    ensures Lower(s)[i..j] == Lower(s[i..j])
  {
  }
}
