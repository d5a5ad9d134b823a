/** The search bar of the reader (src/components/SearchBar.tsx): a query, the
    index of the highlighted match, and the transitions that move or reset
    that index. `totalMatches` and `isOpen` are owned by the parent and come
    in as parameters; the `onSearch` notifications the effects send are
    returned as values. */
module SearchBar {
  import opened Strings

  // ---------------------------------------------------------------------
  // Wrap-around arithmetic (lines 64-72)
  // ---------------------------------------------------------------------

  /** Line 66: `(prev + 1) % total`. Both operands are non-negative here,
      where JavaScript's `%` and Dafny's agree. */
  function NextIndex(prev: nat, total: nat): (r: nat)
    requires total > 0
    ensures r < total
  {
    (prev + 1) % total
  }

  /** Line 71: `(prev - 1 + total) % total`; for `prev >= 0` the dividend is
      never negative. */
  function PrevIndex(prev: nat, total: nat): (r: nat)
    requires total > 0
    ensures r < total
  {
    (prev - 1 + total) % total
  }

  lemma ModBelowTwice(x: int, m: int)
    requires m > 0 && 0 <= x < 2 * m
    ensures x % m == if x < m then x else x - m
  {
    var q, r := x / m, x % m;
    assert x == q * m + r && 0 <= r < m;
    assert 0 <= q < 2;
  }

  /** From a valid index, next moves one forward and wraps from the last
      match to the first; previous moves one back and wraps from the first
      to the last. */
  lemma WrapAround(i: nat, total: nat)
    requires i < total
    ensures NextIndex(i, total) == if i == total - 1 then 0 else i + 1
    ensures PrevIndex(i, total) == if i == 0 then total - 1 else i - 1
  {
    ModBelowTwice(i + 1, total);
    ModBelowTwice(i - 1 + total, total);
  }

  /** Next then previous comes back, and so does previous then next. */
  lemma NextPrevInverse(i: nat, total: nat)
    requires i < total
    ensures PrevIndex(NextIndex(i, total), total) == i
    ensures NextIndex(PrevIndex(i, total), total) == i
  {
    WrapAround(i, total);
    WrapAround(NextIndex(i, total), total);
    WrapAround(PrevIndex(i, total), total);
  }

  // ---------------------------------------------------------------------
  // The results label (lines 148-154)
  // ---------------------------------------------------------------------

  function Digit(d: nat): (c: char)
    requires d < 10
    ensures '0' <= c <= '9'
  {
    ('0' as int + d) as char
  }

  /** The decimal numeral of `n`, as a template literal prints it. */
  function NatToString(n: nat): (s: string)
    ensures |s| >= 1
    ensures forall i :: 0 <= i < |s| ==> '0' <= s[i] <= '9'
  {
    if n < 10 then [Digit(n)] else NatToString(n / 10) + [Digit(n % 10)]
  }

  /** Reads a non-empty numeral back. */
  function ParseNat(s: string): nat
    requires |s| >= 1 && forall i :: 0 <= i < |s| ==> '0' <= s[i] <= '9'
  {
    var d := (s[|s| - 1] as int - '0' as int) as nat;
    if |s| == 1 then d else 10 * ParseNat(s[..|s| - 1]) + d
  }

  lemma {:induction false} NatToStringRoundTrip(n: nat)
    ensures ParseNat(NatToString(n)) == n
  {
    if n >= 10 {
      NatToStringRoundTrip(n / 10);
      var s := NatToString(n);
      assert s[..|s| - 1] == NatToString(n / 10);
    }
  }

  /** What the counter shows, if anything: only for queries of at least two
      characters, `current/total` counting from one, or "No results". */
  function ResultsLabel(query: string, currentMatch: nat, total: nat): (r: Option<string>)
    ensures r.Some? <==> |query| >= 2
    ensures r.Some? && total == 0 ==> r.value == "No results"
  {
    if |query| >= 2 then
      Some(if total > 0 then NatToString(currentMatch + 1) + "/" + NatToString(total) else "No results")
    else None
  }

  /** The offset of the first `/` in `s`, or `|s|`. */
  function SlashAt(s: string): (k: nat)
    ensures k <= |s| && forall i :: 0 <= i < k ==> s[i] != '/'
    ensures k < |s| ==> s[k] == '/'
  {
    if s == [] || s[0] == '/' then 0 else 1 + SlashAt(s[1..])
  }

  /** Reads a `current/total` label back into its two numbers. */
  function ParseCounter(s: string): Option<(nat, nat)> {
    var k := SlashAt(s);
    if 1 <= k && k + 2 <= |s|
       && (forall i :: 0 <= i < k ==> '0' <= s[i] <= '9')
       && (forall i :: k + 1 <= i < |s| ==> '0' <= s[i] <= '9')
    then Some((ParseNat(s[..k]), ParseNat(s[k + 1..])))
    else None
  }

  /** The slash is the first one: the numeral before it has none. */
  lemma {:induction false} SlashAfterNumeral(a: string, b: string)
    requires forall i :: 0 <= i < |a| ==> '0' <= a[i] <= '9'
    ensures SlashAt(a + "/" + b) == |a|
    decreases |a|
  {
    if a != [] {
      assert (a + "/" + b)[1..] == a[1..] + "/" + b;
      SlashAfterNumeral(a[1..], b);
    } else {
      assert (a + "/" + b)[0] == '/';
    }
  }

  /** A counter label shows the 1-based position and the total, readable
      back without loss. */
  lemma CounterLabelRoundTrip(query: string, currentMatch: nat, total: nat)
    requires |query| >= 2 && total > 0
    ensures ResultsLabel(query, currentMatch, total).Some?
    ensures ParseCounter(ResultsLabel(query, currentMatch, total).value) == Some((currentMatch + 1, total))
  {
    var a := NatToString(currentMatch + 1);
    var b := NatToString(total);
    var s := a + "/" + b;
    SlashAfterNumeral(a, b);
    assert s[..|a|] == a;
    assert s[|a| + 1..] == b;
    NatToStringRoundTrip(currentMatch + 1);
    NatToStringRoundTrip(total);
  }

  // ---------------------------------------------------------------------
  // The component's state (lines 20-94)
  // ---------------------------------------------------------------------

  /** A call `onSearch(query, index)` made by one of the effects. */
  datatype SearchReport = SearchReport(query: string, index: nat)

  datatype Key = Escape | Enter(shift: bool) | Other

  class SearchCursor {
    var isOpen: bool
    var query: string
    var currentMatch: nat

    /** Lines 20-21: an empty query and the first match. */
    constructor (open: bool)
      ensures isOpen == open && query == "" && currentMatch == 0
    {
      isOpen := open;
      query := "";
      currentMatch := 0;
    }

    /** Lines 64-67 with the effect of lines 47-62: nothing happens without
        matches; otherwise the index moves forward with wrap-around, and a
        change of index is reported. */
    method GoToNext(total: nat) returns (report: Option<SearchReport>)
      modifies this
      ensures isOpen == old(isOpen) && query == old(query)
      ensures total == 0 ==> currentMatch == old(currentMatch) && report == None
      ensures total > 0 ==> currentMatch == NextIndex(old(currentMatch), total)
      ensures total > 0 && old(currentMatch) < total ==> currentMatch < total
      ensures report == if currentMatch != old(currentMatch) then Some(SearchReport(query, currentMatch)) else None
    {
      if total == 0 {
        return None;
      }
      var prev := currentMatch;
      currentMatch := NextIndex(prev, total);
      report := if currentMatch != prev then Some(SearchReport(query, currentMatch)) else None;
    }

    /** Lines 69-72 with the effect of lines 47-62: the same, backwards. */
    method GoToPrev(total: nat) returns (report: Option<SearchReport>)
      modifies this
      ensures isOpen == old(isOpen) && query == old(query)
      ensures total == 0 ==> currentMatch == old(currentMatch) && report == None
      ensures total > 0 ==> currentMatch == PrevIndex(old(currentMatch), total)
      ensures total > 0 && old(currentMatch) < total ==> currentMatch < total
      ensures report == if currentMatch != old(currentMatch) then Some(SearchReport(query, currentMatch)) else None
    {
      if total == 0 {
        return None;
      }
      var prev := currentMatch;
      currentMatch := PrevIndex(prev, total);
      report := if currentMatch != prev then Some(SearchReport(query, currentMatch)) else None;
    }

    /** Line 135 and the effect of lines 41-44: a new query starts again at
        the first match and is reported; the same query changes nothing. */
    method ChangeQuery(q: string) returns (report: Option<SearchReport>)
      modifies this
      ensures isOpen == old(isOpen) && query == q
      ensures q != old(query) ==> currentMatch == 0 && report == Some(SearchReport(q, 0))
      ensures q == old(query) ==> currentMatch == old(currentMatch) && report == None
    {
      if q == query {
        return None;
      }
      query := q;
      currentMatch := 0;
      report := Some(SearchReport(q, 0));
    }

    /** The `isOpen` property changes; the effect of lines 32-38 clears the
        query and the index when the bar closes. */
    method SetOpen(open: bool) returns (report: Option<SearchReport>)
      modifies this
      ensures isOpen == open
      ensures !open ==> query == "" && currentMatch == 0 && report == Some(SearchReport("", 0))
      ensures open ==> query == old(query) && currentMatch == old(currentMatch) && report == None
    {
      isOpen := open;
      if open {
        return None;
      }
      query := "";
      currentMatch := 0;
      report := Some(SearchReport("", 0));
    }

    /** Lines 75-90: keys are ignored while closed; Escape asks the parent to
        close the bar (which then clears it), Enter moves forward and
        Shift+Enter backward. The returned report is the `onSearch` call the
        effects make after the key. */
    method HandleKey(key: Key, total: nat) returns (report: Option<SearchReport>)
      modifies this
      ensures !old(isOpen) || key == Other ==>
        isOpen == old(isOpen) && query == old(query) && currentMatch == old(currentMatch) && report == None
      ensures old(isOpen) && key == Escape ==>
        !isOpen && query == "" && currentMatch == 0 && report == Some(SearchReport("", 0))
      ensures old(isOpen) && key.Enter? ==>
        report == if currentMatch != old(currentMatch) then Some(SearchReport(query, currentMatch)) else None
      ensures old(isOpen) && key == Enter(false) && total > 0 ==>
        isOpen && query == old(query) && currentMatch == NextIndex(old(currentMatch), total)
      ensures old(isOpen) && key == Enter(true) && total > 0 ==>
        isOpen && query == old(query) && currentMatch == PrevIndex(old(currentMatch), total)
      ensures old(isOpen) && key.Enter? && total == 0 ==>
        isOpen && query == old(query) && currentMatch == old(currentMatch)
    {
      if !isOpen {
        return None;
      }
      match key
      case Escape =>
        report := SetOpen(false);
      case Enter(shift) =>
        if shift {
          report := GoToPrev(total);
        } else {
          report := GoToNext(total);
        }
      case Other =>
        report := None;
    }
  }

  /** Enter then Shift+Enter leaves an open bar on the match it started from. */
  method NextThenPrev(bar: SearchCursor, total: nat)
    requires bar.isOpen && bar.currentMatch < total
    modifies bar
    ensures bar.isOpen && bar.query == old(bar.query) && bar.currentMatch == old(bar.currentMatch)
  {
    var _ := bar.HandleKey(Enter(false), total);
    var _ := bar.HandleKey(Enter(true), total);
    NextPrevInverse(old(bar.currentMatch), total);
  }
}
