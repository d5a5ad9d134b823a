/** src/lib/textProcessor.ts: splitting text into paragraphs, and the
    case-insensitive search that counts and locates a query in them. */
module TextProcessor {
  import opened Strings

  // ---------------------------------------------------------------------
  // Paragraphs
  // ---------------------------------------------------------------------

  /** Number of newlines `s` starts with. */
  function NewlineRun(s: string): (n: nat)
    ensures n <= |s|
    ensures forall i :: 0 <= i < n ==> s[i] == '\n'
    ensures n < |s| ==> s[n] != '\n'
  {
    if s != [] && s[0] == '\n' then 1 + NewlineRun(s[1..]) else 0
  }

  /** `s.split(/\n{2,}/)`: the pieces between maximal runs of two or more
      newlines, in order. The first piece is a prefix of `s`, and no piece holds
      two newlines in a row. */
  function SplitParagraphs(s: string): (r: seq<string>)
    ensures |r| >= 1
    ensures |r[0]| <= |s| && r[0] == s[..|r[0]|]
    ensures forall i :: 0 <= i < |r| ==> NoPair(r[i], '\n', '\n')
    decreases |s|
  {
    if s == [] then [""]
    else if StartsWith(s, "\n\n") then [""] + SplitParagraphs(s[NewlineRun(s)..])
    else
      var rest := SplitParagraphs(s[1..]);
      assert [s[0]] + rest[0] == s[..1 + |rest[0]|];
      [[s[0]] + rest[0]] + rest[1..]
  }

  /** The pieces, rejoined with a blank line between them. */
  function JoinParagraphs(ps: seq<string>): string {
    if ps == [] then []
    else if |ps| == 1 then ps[0]
    else ps[0] + "\n\n" + JoinParagraphs(ps[1..])
  }

  /** `.map(p => p.trim())`. */
  function TrimAll(ps: seq<string>): (r: seq<string>)
    ensures |r| == |ps|
    ensures forall i :: 0 <= i < |ps| ==> r[i] == Trim(ps[i])
  {
    seq(|ps|, i requires 0 <= i < |ps| => Trim(ps[i]))
  }

  /** `.filter(p => p.length > 0)`: the non-empty pieces, in order. */
  function NonEmpty(ps: seq<string>): (r: seq<string>)
    ensures forall p :: p in r <==> p in ps && p != []
    ensures |r| <= |ps|
  {
    if ps == [] then []
    else if ps[0] == [] then NonEmpty(ps[1..])
    else [ps[0]] + NonEmpty(ps[1..])
  }

  /** `processContent`, lines 1-8; the `Reader` component derives its rendered
      paragraphs with the same expression (src/components/Reader.tsx:12-19). */
  function ProcessContent(content: string): (r: seq<string>)
    ensures content == [] ==> r == []
    ensures forall p :: p in r ==> p != [] && IsTrimmed(p) && Trim(p) == p
    ensures forall p :: p in r ==> NoPair(p, '\n', '\n')
  {
    if content == [] then []
    else
      var pieces := SplitParagraphs(content);
      var r := NonEmpty(TrimAll(pieces));
      assert forall p :: p in r ==> Trim(p) == p by {
        forall p | p in r ensures Trim(p) == p { TrimTrimmed(p); }
      }
      assert forall p :: p in r ==> NoPair(p, '\n', '\n') by {
        forall p | p in r ensures NoPair(p, '\n', '\n') {
          var i :| 0 <= i < |pieces| && p == Trim(pieces[i]);
          TrimKeepsNoPair(pieces[i], '\n', '\n');
        }
      }
      r
  }

  lemma TrimKeepsNoPair(s: string, a: char, b: char)
    requires NoPair(s, a, b)
    ensures NoPair(Trim(s), a, b)
  {
    var k := TrimSlice(s);
    var t := Trim(s);
    assert forall i :: 0 <= i < |t| ==> t[i] == s[k + i];
  }

  /** When no run of newlines is longer than two, splitting and rejoining
      gives the text back: no character is lost or moved. */
  lemma {:induction false} SplitJoin(s: string)
    requires forall i :: 0 <= i < |s| - 2 ==> !(s[i] == '\n' && s[i + 1] == '\n' && s[i + 2] == '\n')
    ensures JoinParagraphs(SplitParagraphs(s)) == s
    decreases |s|
  {
    if s != [] {
      if StartsWith(s, "\n\n") {
        assert s[0] == '\n' && s[1] == '\n';
        assert NewlineRun(s) == 2 by {
          assert NewlineRun(s) >= 2;
          if |s| > 2 { assert s[2] != '\n'; }
        }
        SplitJoin(s[2..]);
        var rest := SplitParagraphs(s[2..]);
        assert SplitParagraphs(s) == [""] + rest;
        assert JoinParagraphs([""] + rest) == "" + "\n\n" + JoinParagraphs(rest);
        assert s == "\n\n" + s[2..];
      } else {
        SplitJoin(s[1..]);
        var rest := SplitParagraphs(s[1..]);
        JoinConsHead(s[0], rest);
        assert s == [s[0]] + s[1..];
      }
    }
  }

  lemma JoinConsHead(c: char, ps: seq<string>)
    requires ps != []
    ensures JoinParagraphs([[c] + ps[0]] + ps[1..]) == [c] + JoinParagraphs(ps)
  {
    var qs := [[c] + ps[0]] + ps[1..];
    if |ps| > 1 {
      assert qs[1..] == ps[1..];
    }
  }

  /** A text with no blank line is one paragraph: itself, trimmed. */
  lemma SingleParagraph(content: string)
    requires NoPair(content, '\n', '\n') && Trim(content) != []
    ensures ProcessContent(content) == [Trim(content)]
  {
    SplitNoBreak(content);
  }

  lemma {:induction false} SplitNoBreak(s: string)
    requires NoPair(s, '\n', '\n')
    ensures SplitParagraphs(s) == [s]
    decreases |s|
  {
    if s != [] {
      assert !StartsWith(s, "\n\n") by {
        if |s| >= 2 { assert s[..2] == [s[0], s[1]]; }
      }
      SplitNoBreak(s[1..]);
      assert [s[0]] + s[1..] == s;
    }
  }

  // ---------------------------------------------------------------------
  // Paragraph order
  // ---------------------------------------------------------------------

  /** The filter keeps the pieces of each part, one part after the other. */
  lemma {:induction false} NonEmptyConcat(a: seq<string>, b: seq<string>)
    ensures NonEmpty(a + b) == NonEmpty(a) + NonEmpty(b)
    decreases |a|
  {
    if a == [] {
      assert a + b == b;
    } else {
      assert (a + b)[0] == a[0] && (a + b)[1..] == a[1..] + b;
      NonEmptyConcat(a[1..], b);
      if a[0] != [] {
        ConcatAssoc3([a[0]], NonEmpty(a[1..]), NonEmpty(b));
      }
    }
  }

  /** A single piece is kept exactly when it is not empty. */
  lemma NonEmptySingle(p: string)
    ensures NonEmpty([p]) == if p == [] then [] else [p]
  {
    assert [p][1..] == [];
  }

  lemma TrimAllConcat(a: seq<string>, b: seq<string>)
    ensures TrimAll(a + b) == TrimAll(a) + TrimAll(b)
  {
  }

  lemma SplitBlank(s: string)
    requires StartsWith(s, "\n\n")
    ensures SplitParagraphs(s) == [""] + SplitParagraphs(s[NewlineRun(s)..])
  {
  }

  lemma SplitChar(s: string)
    requires s != [] && !StartsWith(s, "\n\n")
    ensures SplitParagraphs(s) == [[s[0]] + SplitParagraphs(s[1..])[0]] + SplitParagraphs(s[1..])[1..]
  {
  }

  /** Growing the first piece of `x + y` grows the first piece of `x`. */
  lemma HeadGrows(c: char, x: seq<string>, y: seq<string>)
    requires |x| >= 1
    ensures [[c] + (x + y)[0]] + (x + y)[1..] == [[c] + x[0]] + x[1..] + y
  {
    assert (x + y)[0] == x[0];
    assert (x + y)[1..] == x[1..] + y;
  }

  /** A newline run that stops before the end of `a` is not lengthened by
      what follows `a`. */
  lemma {:induction false} NewlineRunPrefix(a: string, rest: string)
    requires a != [] && a[|a| - 1] != '\n'
    ensures NewlineRun(a + rest) == NewlineRun(a) < |a|
    decreases |a|
  {
    if a[0] == '\n' {
      assert (a + rest)[1..] == a[1..] + rest;
      NewlineRunPrefix(a[1..], rest);
    }
  }

  /** The run `Newlines(n)` before a text that does not start with a newline
      is exactly `n` long. */
  lemma {:induction false} NewlineRunOf(n: nat, b: string)
    requires b == [] || b[0] != '\n'
    ensures NewlineRun(Newlines(n) + b) == n
    decreases n
  {
    if n == 0 {
      assert Newlines(n) + b == b;
    } else {
      assert (Newlines(n) + b)[1..] == Newlines(n - 1) + b;
      NewlineRunOf(n - 1, b);
    }
  }

  /** Whether a text starts with a blank line is decided by its first two
      characters. */
  lemma StartsWithBlankLine(a: string, rest: string)
    requires a != [] && a[|a| - 1] != '\n'
    ensures StartsWith(a + rest, "\n\n") <==> StartsWith(a, "\n\n")
  {
    if |a| >= 2 {
      assert (a + rest)[..2] == a[..2];
    } else {
      assert (a + rest)[0] == a[0];
    }
  }

  /** The run alone: a text starting with `n >= 2` newlines splits into an
      empty first piece and the pieces after the run. */
  lemma SplitAtRunFront(n: nat, b: string)
    requires n >= 2
    requires b == [] || b[0] != '\n'
    ensures SplitParagraphs(Newlines(n) + b) == [""] + SplitParagraphs(b)
  {
    var s := Newlines(n) + b;
    assert s[..2] == "\n\n";
    NewlineRunOf(n, b);
    assert s[n..] == b;
    SplitBlank(s);
  }

  /** A blank line at the start of `a` is skipped the same way whatever
      follows `a`. */
  lemma SplitBlankBefore(a: string, rest: string)
    requires a != [] && a[|a| - 1] != '\n' && StartsWith(a, "\n\n")
    ensures SplitParagraphs(a + rest) == [""] + SplitParagraphs(a[NewlineRun(a)..] + rest)
  {
    StartsWithBlankLine(a, rest);
    NewlineRunPrefix(a, rest);
    SplitBlank(a + rest);
    assert (a + rest)[NewlineRun(a)..] == a[NewlineRun(a)..] + rest;
  }

  /** Step of `SplitAtRun` when `a` itself starts with a blank line. */
  lemma SplitGlueBlank(a: string, rest: string, y: seq<string>)
    requires a != [] && a[|a| - 1] != '\n' && StartsWith(a, "\n\n")
    requires SplitParagraphs(a[NewlineRun(a)..] + rest) == SplitParagraphs(a[NewlineRun(a)..]) + y
    ensures SplitParagraphs(a + rest) == SplitParagraphs(a) + y
  {
    SplitBlankBefore(a, rest);
    SplitBlank(a);
    ConcatAssoc3([""], SplitParagraphs(a[NewlineRun(a)..]), y);
  }

  /** Step of `SplitAtRun` when `a` starts with an ordinary character. */
  lemma SplitGlueChar(a: string, rest: string, y: seq<string>)
    requires a != [] && a[|a| - 1] != '\n' && !StartsWith(a, "\n\n")
    requires SplitParagraphs(a[1..] + rest) == SplitParagraphs(a[1..]) + y
    ensures SplitParagraphs(a + rest) == SplitParagraphs(a) + y
  {
    StartsWithBlankLine(a, rest);
    assert (a + rest)[0] == a[0];
    assert (a + rest)[1..] == a[1..] + rest;
    SplitChar(a + rest);
    SplitChar(a);
    HeadGrows(a[0], SplitParagraphs(a[1..]), y);
  }

  /** Splitting at a maximal run of two or more newlines: the pieces before
      it, then the pieces after it. */
  lemma {:induction false} SplitAtRun(a: string, n: nat, b: string)
    requires n >= 2
    requires a == [] || a[|a| - 1] != '\n'
    requires b == [] || b[0] != '\n'
    ensures SplitParagraphs(a + Newlines(n) + b) == SplitParagraphs(a) + SplitParagraphs(b)
    decreases |a|
  {
    var rest := Newlines(n) + b;
    ConcatAssoc3(a, Newlines(n), b);
    if a == [] {
      assert a + rest == rest;
      SplitAtRunFront(n, b);
    } else if StartsWith(a, "\n\n") {
      var t := a[NewlineRun(a)..];
      NewlineRunPrefix(a, []);
      SplitAtRun(t, n, b);
      ConcatAssoc3(t, Newlines(n), b);
      SplitGlueBlank(a, rest, SplitParagraphs(b));
    } else {
      SplitAtRun(a[1..], n, b);
      ConcatAssoc3(a[1..], Newlines(n), b);
      SplitGlueChar(a, rest, SplitParagraphs(b));
    }
  }

  /** `processContent` is the pipeline of split, trim and filter on every
      input; the empty text gives no paragraph either way. */
  lemma ProcessContentIs(content: string)
    ensures ProcessContent(content) == NonEmpty(TrimAll(SplitParagraphs(content)))
  {
    if content == [] {
      assert Trim("") == "";
      assert TrimAll([""]) == [""];
      NonEmptySingle("");
    }
  }

  /** Paragraphs come in reading order: text before a blank line gives the
      first paragraphs, text after it the following ones. */
  lemma ParagraphsInOrder(a: string, n: nat, b: string)
    requires n >= 2
    requires a == [] || a[|a| - 1] != '\n'
    requires b == [] || b[0] != '\n'
    ensures ProcessContent(a + Newlines(n) + b) == ProcessContent(a) + ProcessContent(b)
  {
    ProcessContentIs(a + Newlines(n) + b);
    ProcessContentIs(a);
    ProcessContentIs(b);
    SplitAtRun(a, n, b);
    TrimAllConcat(SplitParagraphs(a), SplitParagraphs(b));
    NonEmptyConcat(TrimAll(SplitParagraphs(a)), TrimAll(SplitParagraphs(b)));
  }

  // ---------------------------------------------------------------------
  // Search
  // ---------------------------------------------------------------------

  /** A search hit: half-open offsets into the paragraph at `paragraphIndex`. */
  datatype MatchRange = MatchRange(paragraphIndex: nat, start: nat, end: nat)

  /** `q` occurs in `t` at offset `i`. */
  predicate OccursAt(t: string, q: string, i: nat) {
    i + |q| <= |t| && t[i..i + |q|] == q
  }

  /** `t.indexOf(q, from)` for a non-empty `q`: the first occurrence at or
      after `from`, or -1 when there is none. */
  function IndexOf(t: string, q: string, from: nat): (r: int)
    requires q != []
    ensures r == -1 || (from <= r && OccursAt(t, q, r))
    ensures forall i :: from <= i && (r == -1 || i < r) ==> !OccursAt(t, q, i)
    decreases |t| - from
  {
    if from + |q| > |t| then -1
    else if OccursAt(t, q, from) then from
    else IndexOf(t, q, from + 1)
  }

  /** Every offset at or after `from` where `q` occurs in `t`, ascending;
      overlapping occurrences are all listed. */
  function OccurrencesFrom(t: string, q: string, from: nat): seq<nat>
    requires q != []
    decreases |t| - from
  {
    if from + |q| > |t| then []
    else if OccursAt(t, q, from) then [from] + OccurrencesFrom(t, q, from + 1)
    else OccurrencesFrom(t, q, from + 1)
  }

  /** The listed offsets are occurrences at or after `from`, strictly
      ascending, and none is missing. */
  lemma {:induction false} OccurrencesSpec(t: string, q: string, from: nat)
    requires q != []
    ensures forall k :: 0 <= k < |OccurrencesFrom(t, q, from)| ==>
      from <= OccurrencesFrom(t, q, from)[k] && OccursAt(t, q, OccurrencesFrom(t, q, from)[k])
    ensures forall k, l :: 0 <= k < l < |OccurrencesFrom(t, q, from)| ==>
      OccurrencesFrom(t, q, from)[k] < OccurrencesFrom(t, q, from)[l]
    ensures forall i :: from <= i && OccursAt(t, q, i) ==> i in OccurrencesFrom(t, q, from)
    decreases |t| - from
  {
    if from + |q| <= |t| {
      OccurrencesSpec(t, q, from + 1);
    }
  }

  /** Offsets before the next hit contribute nothing. */
  lemma {:induction false} OccurrencesSkip(t: string, q: string, from: nat, to: nat)
    requires q != [] && from <= to
    requires forall i :: from <= i < to ==> !OccursAt(t, q, i)
    ensures OccurrencesFrom(t, q, from) == OccurrencesFrom(t, q, to)
    decreases (to as int) - (from as int)
  {
    if from < to {
      OccurrencesSkip(t, q, from + 1, to);
      if from + |q| > |t| {
        assert OccurrencesFrom(t, q, to) == [] by {
          assert to + |q| > |t|;
        }
      }
    }
  }

  /** At a hit, the hit heads the list of occurrences. */
  lemma OccurrencesAtHit(t: string, q: string, hit: nat)
    requires q != [] && OccursAt(t, q, hit)
    ensures OccurrencesFrom(t, q, hit) == [hit] + OccurrencesFrom(t, q, hit + 1)
  {
  }

  /** Past the end of the text there is nothing left. */
  lemma OccurrencesPastEnd(t: string, q: string)
    requires q != []
    ensures OccurrencesFrom(t, q, |t| + 1) == []
  {
  }

  /** The ranges of one paragraph, one per occurrence offset. */
  function RangesOf(pi: nat, starts: seq<nat>, len: nat): seq<MatchRange>
    decreases |starts|
  {
    if starts == [] then []
    else [MatchRange(pi, starts[0], starts[0] + len)] + RangesOf(pi, starts[1..], len)
  }

  /** One range per offset, spanning `len` characters from it. */
  lemma {:induction false} RangesOfSpec(pi: nat, starts: seq<nat>, len: nat)
    ensures |RangesOf(pi, starts, len)| == |starts|
    ensures forall k :: 0 <= k < |starts| ==>
      RangesOf(pi, starts, len)[k] == MatchRange(pi, starts[k], starts[k] + len)
    decreases |starts|
  {
    if starts != [] {
      RangesOfSpec(pi, starts[1..], len);
    }
  }

  /** The ranges of paragraph `p`, which stands at index `pi`: one per offset
      where the lower-cased query occurs in the lower-cased paragraph. */
  function ParagraphRanges(pi: nat, p: string, q: string): seq<MatchRange>
    requires q != []
  {
    RangesOf(pi, OccurrencesFrom(Lower(p), Lower(q), 0), |q|)
  }

  /** All ranges for the paragraphs of `ps`, paragraph by paragraph. */
  function AllRanges(ps: seq<string>, q: string): seq<MatchRange>
    requires q != []
    decreases |ps|
  {
    if ps == [] then []
    else AllRanges(ps[..|ps| - 1], q) + ParagraphRanges(|ps| - 1, ps[|ps| - 1], q)
  }

  /** What `getMatchIndices` returns: nothing for a query shorter than two
      characters. */
  function MatchIndices(ps: seq<string>, q: string): seq<MatchRange> {
    if |q| < 2 then [] else AllRanges(ps, q)
  }

  /** `m` marks, in paragraph `p`, a slice that equals `q` up to case. */
  predicate HitIn(p: string, q: string, m: MatchRange) {
    && m.end == m.start + |q|
    && m.end <= |p|
    && Lower(p[m.start..m.end]) == Lower(q)
  }

  /** A range `m` is a hit of `q` in `ps`. */
  predicate IsHit(ps: seq<string>, q: string, m: MatchRange) {
    m.paragraphIndex < |ps| && HitIn(ps[m.paragraphIndex], q, m)
  }

  /** Ranges come by paragraph, then by strictly increasing start. */
  predicate Ordered(r: seq<MatchRange>) {
    forall k, l :: 0 <= k < l < |r| ==>
      r[k].paragraphIndex < r[l].paragraphIndex
      || (r[k].paragraphIndex == r[l].paragraphIndex && r[k].start < r[l].start)
  }

  /** Each range of a paragraph marks a hit in it. */
  lemma ParagraphRangeIsHit(pi: nat, p: string, q: string, k: nat)
    requires q != [] && k < |ParagraphRanges(pi, p, q)|
    ensures ParagraphRanges(pi, p, q)[k].paragraphIndex == pi
    ensures HitIn(p, q, ParagraphRanges(pi, p, q)[k])
  {
    var occ := OccurrencesFrom(Lower(p), Lower(q), 0);
    OccurrencesSpec(Lower(p), Lower(q), 0);
    RangesOfSpec(pi, occ, |q|);
    assert OccursAt(Lower(p), Lower(q), occ[k]);
    LowerSlice(p, occ[k], occ[k] + |q|);
  }

  /** Each hit in a paragraph is one of its ranges. */
  lemma HitIsParagraphRange(pi: nat, p: string, q: string, m: MatchRange)
    requires q != [] && m.paragraphIndex == pi && HitIn(p, q, m)
    ensures m in ParagraphRanges(pi, p, q)
  {
    var occ := OccurrencesFrom(Lower(p), Lower(q), 0);
    OccurrencesSpec(Lower(p), Lower(q), 0);
    RangesOfSpec(pi, occ, |q|);
    LowerSlice(p, m.start, m.end);
    assert OccursAt(Lower(p), Lower(q), m.start);
    var k :| 0 <= k < |occ| && occ[k] == m.start;
    assert ParagraphRanges(pi, p, q)[k] == m;
  }

  /** The ranges of one paragraph have strictly increasing starts. */
  lemma ParagraphRangesIncreasing(pi: nat, p: string, q: string)
    requires q != []
    ensures forall k, l :: 0 <= k < l < |ParagraphRanges(pi, p, q)| ==>
      ParagraphRanges(pi, p, q)[k].start < ParagraphRanges(pi, p, q)[l].start
  {
    OccurrencesSpec(Lower(p), Lower(q), 0);
    RangesOfSpec(pi, OccurrencesFrom(Lower(p), Lower(q), 0), |q|);
  }

  /** The ranges of one paragraph are exactly its hits, in increasing order. */
  lemma ParagraphRangesSpec(pi: nat, p: string, q: string)
    requires q != []
    ensures forall m :: m in ParagraphRanges(pi, p, q) <==> m.paragraphIndex == pi && HitIn(p, q, m)
    ensures forall k, l :: 0 <= k < l < |ParagraphRanges(pi, p, q)| ==>
      ParagraphRanges(pi, p, q)[k].start < ParagraphRanges(pi, p, q)[l].start
  {
    var r := ParagraphRanges(pi, p, q);
    forall m ensures m in r <==> m.paragraphIndex == pi && HitIn(p, q, m) {
      if m in r {
        var k :| 0 <= k < |r| && r[k] == m;
        ParagraphRangeIsHit(pi, p, q, k);
      }
      if m.paragraphIndex == pi && HitIn(p, q, m) {
        HitIsParagraphRange(pi, p, q, m);
      }
    }
    ParagraphRangesIncreasing(pi, p, q);
  }

  /** Every range returned lies in its paragraph and marks a hit. */
  lemma {:induction false} AllRangesSound(ps: seq<string>, q: string)
    requires q != []
    ensures forall m :: m in AllRanges(ps, q) ==> IsHit(ps, q, m)
    decreases |ps|
  {
    if ps != [] {
      var last := |ps| - 1;
      AllRangesSound(ps[..last], q);
      ParagraphRangesSpec(last, ps[last], q);
      forall m | m in AllRanges(ps[..last], q) ensures IsHit(ps, q, m) {
        assert ps[m.paragraphIndex] == ps[..last][m.paragraphIndex];
      }
    }
  }

  /** Every hit is returned. */
  lemma {:induction false} AllRangesComplete(ps: seq<string>, q: string)
    requires q != []
    ensures forall m :: IsHit(ps, q, m) ==> m in AllRanges(ps, q)
    decreases |ps|
  {
    if ps != [] {
      var last := |ps| - 1;
      AllRangesComplete(ps[..last], q);
      ParagraphRangesSpec(last, ps[last], q);
      forall m | IsHit(ps, q, m) ensures m in AllRanges(ps, q) {
        if m.paragraphIndex < last {
          assert ps[m.paragraphIndex] == ps[..last][m.paragraphIndex];
          assert IsHit(ps[..last], q, m);
        }
      }
    }
  }

  /** The ranges come by paragraph, then by start. */
  lemma {:induction false} AllRangesOrdered(ps: seq<string>, q: string)
    requires q != []
    ensures Ordered(AllRanges(ps, q))
    decreases |ps|
  {
    if ps != [] {
      var last := |ps| - 1;
      var init := AllRanges(ps[..last], q);
      var mine := ParagraphRanges(last, ps[last], q);
      AllRangesOrdered(ps[..last], q);
      AllRangesSound(ps[..last], q);
      ParagraphRangesSpec(last, ps[last], q);
      var r := init + mine;
      forall k, l | 0 <= k < l < |r|
        ensures r[k].paragraphIndex < r[l].paragraphIndex
                || (r[k].paragraphIndex == r[l].paragraphIndex && r[k].start < r[l].start)
      {
        if l < |init| {
          assert r[k] == init[k] && r[l] == init[l];
        } else if k < |init| {
          assert r[k] in init;
          assert r[l] == mine[l - |init|] && r[l] in mine;
        } else {
          assert r[k] == mine[k - |init|] && r[l] == mine[l - |init|];
        }
      }
    }
  }

  /** The properties of `getMatchIndices`' result, lines 28-51: nothing for a
      short query; otherwise exactly the hits, each inside its paragraph, in
      paragraph-then-start order. */
  lemma MatchIndicesSpec(ps: seq<string>, q: string)
    ensures |q| < 2 ==> MatchIndices(ps, q) == []
    ensures forall m :: m in MatchIndices(ps, q) ==> IsHit(ps, q, m)
    ensures |q| >= 2 ==> forall m :: IsHit(ps, q, m) ==> m in MatchIndices(ps, q)
    ensures Ordered(MatchIndices(ps, q))
  {
    if |q| >= 2 {
      AllRangesSound(ps, q);
      AllRangesComplete(ps, q);
      AllRangesOrdered(ps, q);
    }
  }

  /** Overlapping occurrences are all reported: "aa" in "aaa" at 0 and at 1. */
  lemma OverlappingHits()
    ensures MatchIndices(["aaa"], "aa") == [MatchRange(0, 0, 2), MatchRange(0, 1, 3)]
  {
    var t := Lower("aaa");
    assert t == "aaa";
    var lq := Lower("aa");
    assert lq == "aa";
    assert OccurrencesFrom(t, lq, 2) == [];
    assert t[1..3] == lq;
    assert OccurrencesFrom(t, lq, 1) == [1];
    assert t[0..2] == lq;
    assert OccurrencesFrom(t, lq, 0) == [0, 1];
    assert ["aaa"][..0] == [];
    assert AllRanges(["aaa"], "aa") == [] + RangesOf(0, [0, 1], 2);
  }

  // ---------------------------------------------------------------------
  // The scanning loops of the source
  // ---------------------------------------------------------------------

  lemma AllRangesNext(ps: seq<string>, q: string, k: nat)
    requires q != [] && k < |ps|
    ensures AllRanges(ps[..k + 1], q) == AllRanges(ps[..k], q) + ParagraphRanges(k, ps[k], q)
  {
    assert ps[..k + 1][..k] == ps[..k];
  }

  /** One step of the scan: the occurrences from `pos` are empty when
      `indexOf` finds nothing, and otherwise start with the hit it finds. */
  lemma OccurrencesNext(t: string, q: string, pos: nat)
    requires q != []
    ensures IndexOf(t, q, pos) == -1 ==> OccurrencesFrom(t, q, pos) == []
    ensures IndexOf(t, q, pos) != -1 ==>
      OccurrencesFrom(t, q, pos) == [IndexOf(t, q, pos)] + OccurrencesFrom(t, q, IndexOf(t, q, pos) + 1)
  {
    var hit := IndexOf(t, q, pos);
    if hit == -1 {
      if pos + |q| <= |t| {
        OccurrencesSkip(t, q, pos, |t| + 1);
        OccurrencesPastEnd(t, q);
      }
    } else {
      OccurrencesSkip(t, q, pos, hit);
      OccurrencesAtHit(t, q, hit);
    }
  }

  lemma RangesOfCons(pi: nat, x: nat, rest: seq<nat>, len: nat)
    ensures RangesOf(pi, [x] + rest, len) == [MatchRange(pi, x, x + len)] + RangesOf(pi, rest, len)
  {
    assert ([x] + rest)[1..] == rest;
  }

  lemma AppendOne<T>(done: seq<T>, x: T, rest: seq<T>, all: seq<T>)
    requires done + ([x] + rest) == all
    ensures (done + [x]) + rest == all
  {
  }

  /** A step of `ScanParagraph`: the range at the hit `indexOf` finds moves
      from what is left to scan to what is recorded. */
  lemma ScanStep(pi: nat, t: string, q: string, pos: nat, ranges: seq<MatchRange>, all: seq<MatchRange>)
    requires q != [] && IndexOf(t, q, pos) != -1
    requires ranges + RangesOf(pi, OccurrencesFrom(t, q, pos), |q|) == all
    ensures IndexOf(t, q, pos) + |q| <= |t|
    ensures (ranges + [MatchRange(pi, IndexOf(t, q, pos), IndexOf(t, q, pos) + |q|)])
      + RangesOf(pi, OccurrencesFrom(t, q, IndexOf(t, q, pos) + 1), |q|) == all
  {
    var hit := IndexOf(t, q, pos);
    OccurrencesNext(t, q, pos);
    RangesOfCons(pi, hit, OccurrencesFrom(t, q, hit + 1), |q|);
    AppendOne(ranges, MatchRange(pi, hit, hit + |q|), RangesOf(pi, OccurrencesFrom(t, q, hit + 1), |q|), all);
  }

  /** The last step of `ScanParagraph`: with no hit left, all is recorded. */
  lemma ScanEnd(pi: nat, t: string, q: string, pos: nat, ranges: seq<MatchRange>, all: seq<MatchRange>)
    requires q != [] && IndexOf(t, q, pos) == -1
    requires ranges + RangesOf(pi, OccurrencesFrom(t, q, pos), |q|) == all
    ensures ranges == all
  {
    OccurrencesNext(t, q, pos);
    assert ranges + [] == all;
  }

  /** A step of `CountInParagraph`, as `ScanStep`. */
  lemma CountStep(t: string, q: string, pos: nat, found: seq<nat>, all: seq<nat>)
    requires q != [] && IndexOf(t, q, pos) != -1
    requires found + OccurrencesFrom(t, q, pos) == all
    ensures IndexOf(t, q, pos) + |q| <= |t|
    ensures (found + [IndexOf(t, q, pos)]) + OccurrencesFrom(t, q, IndexOf(t, q, pos) + 1) == all
  {
    OccurrencesNext(t, q, pos);
    AppendOne(found, IndexOf(t, q, pos), OccurrencesFrom(t, q, IndexOf(t, q, pos) + 1), all);
  }

  /** The last step of `CountInParagraph`, as `ScanEnd`. */
  lemma CountEnd(t: string, q: string, pos: nat, found: seq<nat>, all: seq<nat>)
    requires q != [] && IndexOf(t, q, pos) == -1
    requires found + OccurrencesFrom(t, q, pos) == all
    ensures found == all
  {
    OccurrencesNext(t, q, pos);
    assert found + [] == all;
  }

  /** The inner scan of `getMatchIndices`, lines 36-47: look for the
      lower-cased query from `pos`, record a range at each hit and resume one
      character past the hit's start. */
  method ScanParagraph(paragraphIndex: nat, textLower: string, queryLower: string)
    returns (ranges: seq<MatchRange>)
    requires queryLower != []
    ensures ranges == RangesOf(paragraphIndex, OccurrencesFrom(textLower, queryLower, 0), |queryLower|)
  {
    ghost var all := RangesOf(paragraphIndex, OccurrencesFrom(textLower, queryLower, 0), |queryLower|);
    ranges := [];
    var pos := 0;
    while true
      invariant pos <= |textLower| + 1
      invariant ranges + RangesOf(paragraphIndex, OccurrencesFrom(textLower, queryLower, pos), |queryLower|) == all
      decreases |textLower| + 1 - pos
    {
      var hit := IndexOf(textLower, queryLower, pos);
      if hit == -1 {
        ScanEnd(paragraphIndex, textLower, queryLower, pos, ranges, all);
        break;
      }
      ScanStep(paragraphIndex, textLower, queryLower, pos, ranges, all);
      ranges := ranges + [MatchRange(paragraphIndex, hit, hit + |queryLower|)];
      pos := hit + 1;
    }
  }

  /** `getMatchIndices`, lines 28-51: scan every paragraph in order and
      concatenate the ranges found in each. */
  method GetMatchIndices(paragraphs: seq<string>, query: string) returns (matches: seq<MatchRange>)
    ensures matches == MatchIndices(paragraphs, query)
  {
    if |query| < 2 {
      return [];
    }
    var queryLower := Lower(query);
    matches := [];
    var paragraphIndex := 0;
    while paragraphIndex < |paragraphs|
      invariant paragraphIndex <= |paragraphs|
      invariant matches == AllRanges(paragraphs[..paragraphIndex], query)
    {
      var ranges := ScanParagraph(paragraphIndex, Lower(paragraphs[paragraphIndex]), queryLower);
      AllRangesNext(paragraphs, query, paragraphIndex);
      matches := matches + ranges;
      paragraphIndex := paragraphIndex + 1;
    }
    assert paragraphs[..|paragraphs|] == paragraphs;
  }

  /** The inner scan of `countMatches`, lines 16-23: the same search as
      `ScanParagraph`, counting hits. */
  method CountInParagraph(textLower: string, queryLower: string) returns (count: nat)
    requires queryLower != []
    ensures count == |OccurrencesFrom(textLower, queryLower, 0)|
  {
    ghost var all := OccurrencesFrom(textLower, queryLower, 0);
    ghost var found: seq<nat> := [];
    count := 0;
    var pos := 0;
    while true
      invariant pos <= |textLower| + 1
      invariant found + OccurrencesFrom(textLower, queryLower, pos) == all
      invariant count == |found|
      decreases |textLower| + 1 - pos
    {
      var hit := IndexOf(textLower, queryLower, pos);
      if hit == -1 {
        CountEnd(textLower, queryLower, pos, found, all);
        break;
      }
      CountStep(textLower, queryLower, pos, found, all);
      count := count + 1;
      found := found + [hit];
      pos := hit + 1;
    }
  }

  /** `countMatches`, lines 10-26: the number of ranges `getMatchIndices`
      returns, on every input. */
  method CountMatches(paragraphs: seq<string>, query: string) returns (count: nat)
    ensures count == |MatchIndices(paragraphs, query)|
  {
    if |query| < 2 {
      return 0;
    }
    var queryLower := Lower(query);
    count := 0;
    var paragraphIndex := 0;
    while paragraphIndex < |paragraphs|
      invariant paragraphIndex <= |paragraphs|
      invariant count == |AllRanges(paragraphs[..paragraphIndex], query)|
    {
      var n := CountInParagraph(Lower(paragraphs[paragraphIndex]), queryLower);
      AllRangesNext(paragraphs, query, paragraphIndex);
      RangesOfSpec(paragraphIndex, OccurrencesFrom(Lower(paragraphs[paragraphIndex]), queryLower, 0), |query|);
      count := count + n;
      paragraphIndex := paragraphIndex + 1;
    }
    assert paragraphs[..|paragraphs|] == paragraphs;
  }
}
