/** `cleanText` (src/lib/textParser.ts): a fixed chain of rewrites that
    normalises line endings, strips blanks at line ends, collapses blank-line
    runs and trims. Each link of the chain is one function below. */
module TextParser {
  import opened Strings

  // ---------------------------------------------------------------------
  // Character classes used by the chain
  // ---------------------------------------------------------------------

  /** The characters of the class `[ \t]`. */
  predicate IsBlank(c: char) {
    c == ' ' || c == '\t'
  }

  /** The characters before which `$` matches in a multiline regular expression. */
  predicate IsLineTerminator(c: char) {
    c == '\n' || c == '\r' || c == '\U{2028}' || c == '\U{2029}'
  }

  /** The two-character escape `\r` (a backslash and the letter r) and the
      four-character escape `\r\n` that scraped text sometimes carries. */
  const EscapedCr: string := ['\\', 'r']
  const EscapedCrLf: string := ['\\', 'r', '\\', 'n']

  // ---------------------------------------------------------------------
  // The links of the chain
  // ---------------------------------------------------------------------

  /** Lines 5-6: the escape `\r\n` first, then any remaining escape `\r`,
      each becomes a real newline. */
  function UnescapeCr(s: string): string {
    ReplaceAll(ReplaceAll(s, EscapedCrLf, "\n"), EscapedCr, "\n")
  }

  /** Lines 9-10: CRLF first, then any remaining CR, each becomes LF. */
  function NormalizeLineEndings(s: string): string {
    ReplaceAll(ReplaceAll(s, "\r\n", "\n"), "\r", "\n")
  }

  /** `s` starts with zero or more blanks followed by a line terminator or by
      the end of the text: the place where `[ \t]+$` (multiline) can end. */
  predicate AtLineEnd(s: string) {
    s == [] || IsLineTerminator(s[0]) || (IsBlank(s[0]) && AtLineEnd(s[1..]))
  }

  /** No blank is the last character of a line. */
  predicate NoBlankAtLineEnd(s: string) {
    forall i :: 0 <= i < |s| && IsBlank(s[i]) ==> i + 1 < |s| && !IsLineTerminator(s[i + 1])
  }

  /** Line 13, `/[ \t]+$/gm` replaced by nothing: a blank is deleted exactly
      when the run of blanks it belongs to reaches a line terminator or the end
      of the text. */
  function StripTrailingBlanks(s: string): (r: string)
    ensures NoBlankAtLineEnd(r)
    ensures forall c :: c in r ==> c in s
    decreases |s|
  {
    if s == [] then []
    else if IsBlank(s[0]) && AtLineEnd(s[1..]) then StripTrailingBlanks(s[1..])
    else [s[0]] + StripTrailingBlanks(s[1..])
  }

  /** No three newlines in a row. */
  predicate NoTripleNewline(s: string) {
    forall i :: 0 <= i < |s| - 2 ==> !(s[i] == '\n' && s[i + 1] == '\n' && s[i + 2] == '\n')
  }

  /** Line 16, `/\n{3,}/g` replaced by two newlines, read left to right: `run`
      counts the newlines that immediately precede `s` in the input (only 0,
      1 and "2 or more" matter); a newline is dropped once two of its run have
      been kept, so a run of n newlines leaves min(n, 2). */
  function CollapseFrom(s: string, run: nat): (r: string)
    requires run <= 2
    ensures NoTripleNewline(r)
    ensures run == 2 && r != [] ==> r[0] != '\n'
    ensures run == 1 && |r| >= 2 ==> !(r[0] == '\n' && r[1] == '\n')
    ensures forall c :: c in r ==> c in s
    decreases |s|
  {
    if s == [] then []
    else if s[0] == '\n' then
      if run == 2 then CollapseFrom(s[1..], 2) else "\n" + CollapseFrom(s[1..], run + 1)
    else [s[0]] + CollapseFrom(s[1..], 0)
  }

  function CollapseNewlines(s: string): string {
    CollapseFrom(s, 0)
  }

  /** The text `cleanText` returns, lines 3-19. */
  function CleanText(raw: string): string {
    Trim(CollapseNewlines(StripTrailingBlanks(NormalizeLineEndings(UnescapeCr(raw)))))
  }

  /** What every output of `CleanText` looks like. */
  predicate IsClean(s: string) {
    && '\r' !in s
    && NoPair(s, '\\', 'r')
    && NoBlankAtLineEnd(s)
    && NoTripleNewline(s)
    && IsTrimmed(s)
  }

  // ---------------------------------------------------------------------
  // Properties of the individual links
  // ---------------------------------------------------------------------

  /** After the unescaping steps no escape `\r` survives. */
  lemma UnescapeRemovesEscapes(s: string)
    ensures NoPair(UnescapeCr(s), '\\', 'r')
  {
    ReplaceAllNoPair(ReplaceAll(s, EscapedCrLf, "\n"), EscapedCr, '\n', '\\', 'r');
  }

  /** Line-ending normalisation removes every CR and creates no escape. */
  lemma NormalizeLineEndingsProps(s: string)
    ensures '\r' !in NormalizeLineEndings(s)
    ensures NoPair(s, '\\', 'r') ==> NoPair(NormalizeLineEndings(s), '\\', 'r')
  {
    ReplaceAllRemovesChar(ReplaceAll(s, "\r\n", "\n"), '\r', "\n");
    if NoPair(s, '\\', 'r') {
      ReplaceAllNoPair(s, "\r\n", '\n', '\\', 'r');
      ReplaceAllNoPair(ReplaceAll(s, "\r\n", "\n"), "\r", '\n', '\\', 'r');
    }
  }

  /** After a line end, stripping starts with the line terminator (or nothing). */
  lemma {:induction false} StripAtLineEnd(s: string)
    requires AtLineEnd(s)
    ensures StripTrailingBlanks(s) == [] || IsLineTerminator(StripTrailingBlanks(s)[0])
    decreases |s|
  {
    if s != [] && !IsLineTerminator(s[0]) {
      StripAtLineEnd(s[1..]);
    }
  }

  /** Stripping blanks never creates an escape `\r`. */
  lemma {:induction false} StripKeepsNoEscape(s: string)
    requires NoPair(s, '\\', 'r')
    ensures NoPair(StripTrailingBlanks(s), '\\', 'r')
    decreases |s|
  {
    if s != [] {
      assert NoPair(s[1..], '\\', 'r');
      StripKeepsNoEscape(s[1..]);
      if !(IsBlank(s[0]) && AtLineEnd(s[1..])) && s[0] == '\\' && |s| > 1 {
        var tail := StripTrailingBlanks(s[1..]);
        if IsBlank(s[1]) && AtLineEnd(s[2..]) {
          assert tail == StripTrailingBlanks(s[2..]);
          StripAtLineEnd(s[2..]);
        } else {
          assert tail[0] == s[1];
        }
      }
    }
  }

  /** A blank that `NoBlankAtLineEnd` allows does not start a line end. */
  lemma {:induction false} BlankNotAtLineEnd(s: string)
    requires NoBlankAtLineEnd(s) && s != [] && IsBlank(s[0])
    ensures !AtLineEnd(s)
    decreases |s|
  {
    assert 1 < |s| && !IsLineTerminator(s[1]);
    if IsBlank(s[1]) {
      BlankNotAtLineEnd(s[1..]);
    }
  }

  /** Stripping changes nothing when no line ends in a blank. */
  lemma {:induction false} StripIdentity(s: string)
    requires NoBlankAtLineEnd(s)
    ensures StripTrailingBlanks(s) == s
    decreases |s|
  {
    if s != [] {
      if IsBlank(s[0]) {
        BlankNotAtLineEnd(s);
      }
      StripIdentity(s[1..]);
    }
  }

  /** Collapsing drops only newlines that follow two newlines, so the pair
      `a b` with `a` not a newline is never created. */
  lemma {:induction false} CollapseKeepsNoPair(s: string, run: nat, a: char, b: char)
    requires run <= 2 && a != '\n' && NoPair(s, a, b)
    ensures NoPair(CollapseFrom(s, run), a, b)
    decreases |s|
  {
    if s != [] {
      CollapseKeepsNoPair(s[1..], if s[0] == '\n' then (if run == 2 then 2 else run + 1) else 0, a, b);
      if s[0] == a && |s| > 1 {
        assert CollapseFrom(s[1..], 0)[0] == s[1];
      }
    }
  }

  /** Collapsing keeps every blank followed by what followed it before. */
  lemma {:induction false} CollapseKeepsNoBlankAtLineEnd(s: string, run: nat)
    requires run <= 2 && NoBlankAtLineEnd(s)
    ensures NoBlankAtLineEnd(CollapseFrom(s, run))
    decreases |s|
  {
    if s != [] {
      CollapseKeepsNoBlankAtLineEnd(s[1..], if s[0] == '\n' then (if run == 2 then 2 else run + 1) else 0);
      if IsBlank(s[0]) {
        assert 1 < |s|;
        assert CollapseFrom(s[1..], 0)[0] == s[1];
      }
    }
  }

  /** Collapsing changes nothing when no run is longer than two, counting the
      `run` newlines already before `s`. */
  lemma {:induction false} CollapseIdentity(s: string, run: nat)
    requires run <= 2 && NoTripleNewline(s)
    requires run == 2 ==> s == [] || s[0] != '\n'
    requires run == 1 ==> |s| < 2 || !(s[0] == '\n' && s[1] == '\n')
    ensures CollapseFrom(s, run) == s
    decreases |s|
  {
    if s != [] {
      CollapseIdentity(s[1..], if s[0] == '\n' then run + 1 else 0);
    }
  }

  /** Only spaces and tabs. */
  predicate AllBlank(s: string) {
    forall i :: 0 <= i < |s| ==> IsBlank(s[i])
  }

  /** One line: no line terminator inside. */
  predicate NoLineTerminator(s: string) {
    forall i :: 0 <= i < |s| ==> !IsLineTerminator(s[i])
  }

  /** A text is blank exactly when its first character is and the rest is. */
  lemma AllBlankCons(l: string)
    requires l != []
    ensures AllBlank(l) <==> IsBlank(l[0]) && AllBlank(l[1..])
  {
    if IsBlank(l[0]) && AllBlank(l[1..]) {
      forall i | 0 <= i < |l| ensures IsBlank(l[i]) {
        if i > 0 { assert l[i] == l[1..][i - 1]; }
      }
    }
  }

  /** A line without its trailing blanks: the prefix that is empty or ends
      in a non-blank, after which only blanks remain. */
  function DropTrailingBlanks(l: string): (r: string)
    ensures |r| <= |l| && r == l[..|r|] && AllBlank(l[|r|..])
    ensures r == [] || !IsBlank(r[|r| - 1])
    decreases |l|
  {
    if AllBlank(l) then
      assert l[0..] == l;
      []
    else
      AllBlankCons(l);
      var d := DropTrailingBlanks(l[1..]);
      assert [l[0]] + d == l[..1 + |d|];
      assert l[1 + |d|..] == l[1..][|d|..];
      assert d == [] ==> l[1..][0..] == l[1..];
      [l[0]] + d
  }

  /** Within one line, `[ \t]+$` can end only where the rest of the line is
      blank. */
  lemma {:induction false} AtLineEndIff(x: string, rest: string)
    requires NoLineTerminator(x) && (rest == [] || IsLineTerminator(rest[0]))
    ensures AtLineEnd(x + rest) <==> AllBlank(x)
    decreases |x|
  {
    if x == [] {
      assert x + rest == rest;
    } else {
      assert (x + rest)[1..] == x[1..] + rest;
      AtLineEndIff(x[1..], rest);
      AllBlankCons(x);
    }
  }

  lemma StripCons(s: string)
    requires s != []
    ensures StripTrailingBlanks(s) == if IsBlank(s[0]) && AtLineEnd(s[1..])
      then StripTrailingBlanks(s[1..]) else [s[0]] + StripTrailingBlanks(s[1..])
  {
  }

  lemma DropCons(l: string)
    requires l != []
    ensures DropTrailingBlanks(l) == if AllBlank(l) then [] else [l[0]] + DropTrailingBlanks(l[1..])
  {
  }

  lemma NoLineTerminatorTail(l: string)
    requires l != [] && NoLineTerminator(l)
    ensures NoLineTerminator(l[1..])
  {
    assert forall i :: 0 <= i < |l| - 1 ==> l[1..][i] == l[i + 1];
  }

  /** Line 13 works line by line: a line followed by a line terminator (or
      by the end of the text) loses exactly its trailing spaces and tabs, and
      every other character of it is kept in order. */
  lemma {:induction false} StripLine(l: string, rest: string)
    requires NoLineTerminator(l) && (rest == [] || IsLineTerminator(rest[0]))
    ensures StripTrailingBlanks(l + rest) == DropTrailingBlanks(l) + StripTrailingBlanks(rest)
    decreases |l|
  {
    if l == [] {
      assert l + rest == rest;
    } else {
      ConsSplit(l, rest);
      NoLineTerminatorTail(l);
      StripLine(l[1..], rest);
      AtLineEndIff(l[1..], rest);
      AllBlankCons(l);
      StripCons(l + rest);
      DropCons(l);
      ConcatAssoc3([l[0]], DropTrailingBlanks(l[1..]), StripTrailingBlanks(rest));
    }
  }

  lemma ConsSplit(l: string, rest: string)
    requires l != []
    ensures (l + rest) != [] && (l + rest)[0] == l[0] && (l + rest)[1..] == l[1..] + rest
  {
  }

  /** Collapsing a text that does not end in a newline leaves the newline
      count at zero for what follows. */
  lemma {:induction false} CollapseAfterLine(a: string, rest: string, run: nat)
    requires run <= 2 && a != [] && a[|a| - 1] != '\n'
    ensures CollapseFrom(a + rest, run) == CollapseFrom(a, run) + CollapseFrom(rest, 0)
    decreases |a|
  {
    var s := a + rest;
    assert s[0] == a[0] && s[1..] == a[1..] + rest;
    var next := if a[0] == '\n' then (if run == 2 then 2 else run + 1) else 0;
    if |a| == 1 {
      assert s[1..] == rest && a[1..] == [];
    } else {
      CollapseAfterLine(a[1..], rest, next);
      if a[0] != '\n' || run < 2 {
        ConcatAssoc([a[0]], CollapseFrom(a[1..], next), CollapseFrom(rest, 0), []);
        assert [a[0]] + (CollapseFrom(a[1..], next) + CollapseFrom(rest, 0))
            == ([a[0]] + CollapseFrom(a[1..], next)) + CollapseFrom(rest, 0);
      }
    }
  }

  /** What a text that does not start with a newline collapses to does not
      depend on the newlines counted before it. */
  lemma CollapseNoLeadingNewline(b: string, run: nat)
    requires run <= 2 && (b == [] || b[0] != '\n')
    ensures CollapseFrom(b, run) == CollapseFrom(b, 0)
  {
  }

  lemma CollapseNewlineCons(s: string, run: nat)
    requires run <= 2 && s != [] && s[0] == '\n'
    ensures CollapseFrom(s, run)
         == if run == 2 then CollapseFrom(s[1..], 2) else "\n" + CollapseFrom(s[1..], run + 1)
  {
  }

  /** Step of `CollapseRun` once two newlines are already counted: the
      newline is dropped. */
  lemma CollapseRunFull(n: nat, b: string)
    requires n >= 1
    requires CollapseFrom(Newlines(n - 1) + b, 2) == CollapseFrom(b, 0)
    ensures CollapseFrom(Newlines(n) + b, 2) == CollapseFrom(b, 0)
  {
    var s := Newlines(n) + b;
    assert s[0] == '\n' && s[1..] == Newlines(n - 1) + b;
    CollapseNewlineCons(s, 2);
  }

  /** Step of `CollapseRun` below two counted newlines: the newline is kept. */
  lemma CollapseRunKeep(n: nat, b: string, run: nat, k: nat)
    requires n >= 1 && run < 2
    requires CollapseFrom(Newlines(n - 1) + b, run + 1) == Newlines(k) + CollapseFrom(b, 0)
    ensures CollapseFrom(Newlines(n) + b, run) == Newlines(k + 1) + CollapseFrom(b, 0)
  {
    var s := Newlines(n) + b;
    assert s[0] == '\n' && s[1..] == Newlines(n - 1) + b;
    CollapseNewlineCons(s, run);
    ConcatAssoc3("\n", Newlines(k), CollapseFrom(b, 0));
  }

  /** A run of `n` newlines, after `run` already counted, keeps as many as
      bring the count to two, and the text after it is collapsed afresh. */
  lemma {:induction false} CollapseRun(n: nat, b: string, run: nat)
    requires run <= 2 && (b == [] || b[0] != '\n')
    ensures CollapseFrom(Newlines(n) + b, run)
         == Newlines(if n < 2 - run then n else 2 - run) + CollapseFrom(b, 0)
    decreases n
  {
    var rest := CollapseFrom(b, 0);
    if n == 0 {
      assert Newlines(0) + b == b && Newlines(0) + rest == rest;
      CollapseNoLeadingNewline(b, run);
    } else if run == 2 {
      assert Newlines(0) + rest == rest;
      CollapseRun(n - 1, b, 2);
      CollapseRunFull(n, b);
    } else {
      var k: nat := if n - 1 < 1 - run then n - 1 else 1 - run;
      assert k + 1 == if n < 2 - run then n else 2 - run;
      CollapseRun(n - 1, b, run + 1);
      CollapseRunKeep(n, b, run, k);
    }
  }

  /** Line 16 on a run of `n` newlines between text that does not end in a
      newline and text that does not start with one: the run keeps min(n, 2)
      newlines, and the text on either side is collapsed on its own. */
  lemma NewlineRunCollapsed(a: string, n: nat, b: string)
    requires a == [] || a[|a| - 1] != '\n'
    requires b == [] || b[0] != '\n'
    ensures CollapseNewlines(a + Newlines(n) + b)
         == CollapseNewlines(a) + Newlines(if n < 2 then n else 2) + CollapseNewlines(b)
  {
    var t := Newlines(n) + b;
    CollapseRun(n, b, 0);
    ConcatAssoc3(a, Newlines(n), b);
    if a == [] {
      assert a + t == t;
    } else {
      CollapseAfterLine(a, t, 0);
      ConcatAssoc3(CollapseFrom(a, 0), Newlines(if n < 2 then n else 2), CollapseFrom(b, 0));
    }
  }

  /** Three newlines between two words become two. */
  lemma ThreeNewlinesBecomeTwo()
    ensures CollapseNewlines("a\n\n\nb") == "a\n\nb"
  {
    assert "a\n\n\nb" == "a" + Newlines(3) + "b";
    NewlineRunCollapsed("a", 3, "b");
    assert CollapseNewlines("a") == "a";
    assert CollapseNewlines("b") == "b";
    assert "a" + Newlines(2) + "b" == "a\n\nb";
  }

  /** A slice keeps the absence of CR, of the escape `\r` and of triple
      newlines. */
  lemma SliceKeepsAbsences(s: string, lo: nat, hi: nat)
    requires lo <= hi <= |s|
    requires '\r' !in s && NoPair(s, '\\', 'r') && NoTripleNewline(s)
    ensures '\r' !in s[lo..hi] && NoPair(s[lo..hi], '\\', 'r') && NoTripleNewline(s[lo..hi])
  {
    assert forall i :: 0 <= i < hi - lo ==> s[lo..hi][i] == s[lo + i];
  }

  /** A slice whose last character is not a blank keeps every line free of
      trailing blanks. */
  lemma SliceKeepsNoBlankAtLineEnd(s: string, lo: nat, hi: nat)
    requires lo <= hi <= |s| && NoBlankAtLineEnd(s)
    requires lo < hi ==> !IsBlank(s[hi - 1])
    ensures NoBlankAtLineEnd(s[lo..hi])
  {
    var t := s[lo..hi];
    forall i | 0 <= i < |t| && IsBlank(t[i])
      ensures i + 1 < |t| && !IsLineTerminator(t[i + 1])
    {
      assert t[i] == s[lo + i];
      assert i + 1 < |t|;
      assert t[i + 1] == s[lo + i + 1];
    }
  }

  /** Every property of `IsClean` except the trim survives trimming, because
      trimming keeps a slice and cuts only whitespace. */
  lemma TrimKeepsClean(s: string)
    requires '\r' !in s && NoPair(s, '\\', 'r') && NoBlankAtLineEnd(s) && NoTripleNewline(s)
    ensures IsClean(Trim(s))
  {
    var k := TrimSlice(s);
    var hi := k + |Trim(s)|;
    SliceKeepsAbsences(s, k, hi);
    if k < hi {
      assert s[hi - 1] == Trim(s)[|Trim(s)| - 1];
    }
    SliceKeepsNoBlankAtLineEnd(s, k, hi);
  }

  // ---------------------------------------------------------------------
  // Properties of the whole chain
  // ---------------------------------------------------------------------

  /** `cleanText` leaves no CR, no escape `\r`, no blank at a line end, no three
      newlines in a row, and no whitespace at either end. */
  lemma CleanTextIsClean(raw: string)
    ensures IsClean(CleanText(raw))
  {
    var u := UnescapeCr(raw);
    UnescapeRemovesEscapes(raw);
    var n := NormalizeLineEndings(u);
    NormalizeLineEndingsProps(u);
    var st := StripTrailingBlanks(n);
    StripKeepsNoEscape(n);
    var co := CollapseNewlines(st);
    CollapseKeepsNoPair(st, 0, '\\', 'r');
    CollapseKeepsNoBlankAtLineEnd(st, 0);
    TrimKeepsClean(co);
  }

  /** The links before the collapse change nothing in a text with no CR,
      no escape `\r` and no blank at a line end. */
  lemma EarlyLinksIdentity(s: string)
    requires '\r' !in s && NoPair(s, '\\', 'r') && NoBlankAtLineEnd(s)
    ensures StripTrailingBlanks(NormalizeLineEndings(UnescapeCr(s))) == s
  {
    NoPairAbsent(s, EscapedCrLf);
    ReplaceAllAbsent(s, EscapedCrLf, "\n");
    NoPairAbsent(s, EscapedCr);
    ReplaceAllAbsent(s, EscapedCr, "\n");
    assert UnescapeCr(s) == s;
    assert NoPair(s, '\r', '\n');
    NoPairAbsent(s, "\r\n");
    ReplaceAllAbsent(s, "\r\n", "\n");
    AbsentChar(s, '\r');
    ReplaceAllAbsent(s, "\r", "\n");
    assert NormalizeLineEndings(s) == s;
    StripIdentity(s);
  }

  /** A clean text is a fixed point of `cleanText`. */
  lemma CleanTextFixedPoint(s: string)
    requires IsClean(s)
    ensures CleanText(s) == s
  {
    EarlyLinksIdentity(s);
    CollapseIdentity(s, 0);
    TrimTrimmed(s);
  }

  /** Cleaning twice is the same as cleaning once. */
  lemma CleanTextIdempotent(raw: string)
    ensures CleanText(CleanText(raw)) == CleanText(raw)
  {
    CleanTextIsClean(raw);
    CleanTextFixedPoint(CleanText(raw));
  }

  /** Where the characters of `a + Newlines(n) + b` come from. */
  lemma JoinedAt(a: string, n: nat, b: string)
    ensures |a + Newlines(n) + b| == |a| + n + |b|
    ensures forall i :: 0 <= i < |a| ==> (a + Newlines(n) + b)[i] == a[i]
    ensures forall i :: |a| <= i < |a| + n ==> (a + Newlines(n) + b)[i] == '\n'
    ensures forall i :: |a| + n <= i < |a| + n + |b| ==> (a + Newlines(n) + b)[i] == b[i - |a| - n]
  {
  }

  /** Joining with at least one newline creates no CR and no escape `\r`. */
  lemma JoinedNoCr(a: string, n: nat, b: string)
    requires '\r' !in a && '\r' !in b && NoPair(a, '\\', 'r') && NoPair(b, '\\', 'r') && n >= 1
    ensures '\r' !in a + Newlines(n) + b && NoPair(a + Newlines(n) + b, '\\', 'r')
  {
    JoinedAt(a, n, b);
  }

  /** Joining with at least one newline leaves no blank at a line end when
      `a` does not end in whitespace. */
  lemma JoinedNoBlankAtLineEnd(a: string, n: nat, b: string)
    requires NoBlankAtLineEnd(a) && NoBlankAtLineEnd(b) && n >= 1
    requires a != [] && !IsJsWhitespace(a[|a| - 1])
    ensures NoBlankAtLineEnd(a + Newlines(n) + b)
  {
    JoinedAt(a, n, b);
  }

  /** `cleanText` on two clean pieces of text joined by a run of `n >= 1`
      newlines: the pieces are kept as they are and the run keeps min(n, 2)
      newlines, so single line breaks (hard wraps) and blank lines survive
      and longer gaps shrink to one blank line. */
  lemma NewlineGapCleaned(a: string, n: nat, b: string)
    requires IsClean(a) && IsClean(b) && a != [] && b != [] && n >= 1
    ensures CleanText(a + Newlines(n) + b) == a + Newlines(if n < 2 then n else 2) + b
  {
    var s := a + Newlines(n) + b;
    JoinedNoCr(a, n, b);
    JoinedNoBlankAtLineEnd(a, n, b);
    EarlyLinksIdentity(s);
    NewlineRunCollapsed(a, n, b);
    CollapseIdentity(a, 0);
    CollapseIdentity(b, 0);
    var m := if n < 2 then n else 2;
    JoinedAt(a, m, b);
    TrimTrimmed(a + Newlines(m) + b);
  }

  /** A single newline between two clean lines is kept: hard wraps survive. */
  lemma HardWrapKept(a: string, b: string)
    requires IsClean(a) && IsClean(b) && a != [] && b != []
    ensures CleanText(a + "\n" + b) == a + "\n" + b
  {
    assert Newlines(1) == "\n";
    NewlineGapCleaned(a, 1, b);
  }

  // ---------------------------------------------------------------------
  // Line endings: escapes and CRLF become one newline each
  // ---------------------------------------------------------------------

  /** A single pass over the text that turns CRLF, and otherwise CR, into LF:
      the reference for what lines 9-10 mean. */
  function LineEndingsRef(s: string): (r: string)
    ensures '\r' !in r
    decreases |s|
  {
    if s == [] then []
    else if StartsWith(s, "\r\n") then "\n" + LineEndingsRef(s[2..])
    else if s[0] == '\r' then "\n" + LineEndingsRef(s[1..])
    else [s[0]] + LineEndingsRef(s[1..])
  }

  /** The two global replacements of lines 9-10 agree with the single pass. */
  lemma {:induction false} NormalizeLineEndingsIsRef(s: string)
    ensures NormalizeLineEndings(s) == LineEndingsRef(s)
    decreases |s|
  {
    if s != [] {
      var first := ReplaceAll(s, "\r\n", "\n");
      if StartsWith(s, "\r\n") {
        NormalizeLineEndingsIsRef(s[2..]);
        assert first == "\n" + ReplaceAll(s[2..], "\r\n", "\n");
        assert ReplaceAll(first, "\r", "\n") == "\n" + ReplaceAll(first[1..], "\r", "\n");
        assert first[1..] == ReplaceAll(s[2..], "\r\n", "\n");
      } else {
        NormalizeLineEndingsIsRef(s[1..]);
        assert first == [s[0]] + ReplaceAll(s[1..], "\r\n", "\n");
        assert first[1..] == ReplaceAll(s[1..], "\r\n", "\n");
        if s[0] == '\r' {
          assert ReplaceAll(first, "\r", "\n") == "\n" + ReplaceAll(first[1..], "\r", "\n");
        } else {
          assert ReplaceAll(first, "\r", "\n") == [s[0]] + ReplaceAll(first[1..], "\r", "\n");
        }
      }
    }
  }

  /** A real CRLF becomes exactly one LF, wherever it stands. */
  lemma CrLfBecomesOneNewline(a: string, b: string)
    ensures NormalizeLineEndings(a + "\r\n" + b)
         == NormalizeLineEndings(a) + "\n" + NormalizeLineEndings(b)
  {
    assert Unbordered("\r\n") by {
      assert "\r\n"[..1][0] != "\r\n"[1..][0];
    }
    ReplaceAllAround(a, "\r\n", "\n", b);
    ReplaceAllAroundChar(ReplaceAll(a, "\r\n", "\n"), '\n', "\r", "\n", ReplaceAll(b, "\r\n", "\n"));
  }

  /** The escape `\r\n` becomes exactly one newline, wherever it stands. */
  lemma EscapedCrLfBecomesOneNewline(a: string, b: string)
    ensures UnescapeCr(a + EscapedCrLf + b) == UnescapeCr(a) + "\n" + UnescapeCr(b)
  {
    assert Unbordered(EscapedCrLf) by {
      assert EscapedCrLf[..1][0] != EscapedCrLf[3..][0];
      assert EscapedCrLf[..2][1] != EscapedCrLf[2..][1];
      assert EscapedCrLf[..3][0] != EscapedCrLf[1..][0];
    }
    ReplaceAllAround(a, EscapedCrLf, "\n", b);
    ReplaceAllAroundChar(ReplaceAll(a, EscapedCrLf, "\n"), '\n', EscapedCr, "\n", ReplaceAll(b, EscapedCrLf, "\n"));
  }
}
