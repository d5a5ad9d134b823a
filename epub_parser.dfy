/** `parseEpub` (src/lib/epubParser.ts): pick the XHTML and HTML entries of
    an EPUB archive, turn each into plain text with a fixed chain of regular
    expression rewrites, and join the pieces. The archive itself is a
    parameter: a list of entries with their names, directory flags and
    contents. */
module EpubParser {
  import opened Strings

  // ---------------------------------------------------------------------
  // Searching
  // ---------------------------------------------------------------------

  /** The first offset at or after `from` that holds `c`. */
  function FindChar(s: string, c: char, from: nat): (r: Option<nat>)
    ensures r.Some? ==> from <= r.value < |s| && s[r.value] == c
    decreases |s| - from
  {
    if from >= |s| then None
    else if s[from] == c then Some(from)
    else FindChar(s, c, from + 1)
  }

  /** `FindChar` finds the first occurrence, and finds nothing only when
      there is none. */
  lemma {:induction false} FindCharSpec(s: string, c: char, from: nat)
    ensures FindChar(s, c, from).Some? ==> forall k :: from <= k < FindChar(s, c, from).value ==> s[k] != c
    ensures FindChar(s, c, from).None? ==> forall k :: from <= k < |s| ==> s[k] != c
    decreases |s| - from
  {
    if from < |s| && s[from] != c {
      FindCharSpec(s, c, from + 1);
    }
  }

  /** `s` starts with `p` when ASCII letters are compared without regard to
      case: what the `i` flag does for these ASCII patterns. */
  predicate StartsWithCi(s: string, p: string)
    ensures StartsWithCi(s, p) ==> |p| <= |s|
    decreases |p|
  {
    p == [] || (s != [] && ToLower(s[0]) == ToLower(p[0]) && StartsWithCi(s[1..], p[1..]))
  }

  /** Comparing character by character is comparing the lower-cased prefix. */
  lemma {:induction false} StartsWithCiIff(s: string, p: string)
    ensures StartsWithCi(s, p) <==> |p| <= |s| && Lower(s[..|p|]) == Lower(p)
    decreases |p|
  {
    if p != [] && s != [] {
      StartsWithCiIff(s[1..], p[1..]);
      if |p| <= |s| {
        var a, b := Lower(s[..|p|]), Lower(p);
        assert a == [a[0]] + a[1..] && b == [b[0]] + b[1..];
        assert a[1..] == Lower(s[1..][..|p| - 1]);
        assert b[1..] == Lower(p[1..]);
      }
    }
  }

  /** The first offset at or after `from` where `p` starts, ignoring case. */
  function FindCi(s: string, p: string, from: nat): (r: Option<nat>)
    requires p != []
    ensures r.Some? ==> from <= r.value && r.value + |p| <= |s|
    decreases |s| - from
  {
    if from >= |s| then None
    else if StartsWithCi(s[from..], p) then Some(from)
    else FindCi(s, p, from + 1)
  }

  /** `FindCi` finds the first offset where `p` starts, and finds nothing
      only when there is none. */
  lemma {:induction false} FindCiSpec(s: string, p: string, from: nat)
    requires p != []
    ensures FindCi(s, p, from).Some? ==> StartsWithCi(s[FindCi(s, p, from).value..], p)
    ensures FindCi(s, p, from).Some? ==>
      forall k :: from <= k < FindCi(s, p, from).value ==> !StartsWithCi(s[k..], p)
    ensures FindCi(s, p, from).None? ==> forall k :: from <= k <= |s| ==> !StartsWithCi(s[k..], p)
    decreases |s| - from
  {
    if from < |s| && !StartsWithCi(s[from..], p) {
      FindCiSpec(s, p, from + 1);
    }
  }

  // ---------------------------------------------------------------------
  // Lines 16-17: `<name[^>]*>[\s\S]*?</name>`, case-insensitive
  // ---------------------------------------------------------------------

  function OpenTag(name: string): string {
    ['<'] + name
  }

  function CloseTag(name: string): string {
    ['<', '/'] + name + ['>']
  }

  /** The length of the block that starts `s`, if one does: the opening
      `<name`, everything up to the first `>` (which `[^>]*>` must reach),
      then the shortest stretch up to the first closing tag. */
  function BlockLength(s: string, name: string): (r: Option<nat>)
    ensures r.Some? ==> |CloseTag(name)| <= r.value <= |s|
  {
    if !StartsWithCi(s, OpenTag(name)) then None
    else match FindChar(s, '>', |OpenTag(name)|)
      case None => None
      case Some(j) =>
        match FindCi(s, CloseTag(name), j + 1)
        case None => None
        case Some(k) => Some(k + |CloseTag(name)|)
  }

  /** `s.replace(/<name[^>]*>[\s\S]*?<\/name>/gi, "")`: the leftmost block is
      deleted and the scan resumes after it. */
  function RemoveBlocks(s: string, name: string): (r: string)
    decreases |s|
  {
    if s == [] then []
    else match BlockLength(s, name)
      case Some(n) => RemoveBlocks(s[n..], name)
      case None => [s[0]] + RemoveBlocks(s[1..], name)
  }

  /** Only `<` can start a block. */
  lemma LowerIsLt(c: char)
    requires ToLower(c) == '<'
    ensures c == '<'
  {
  }

  lemma LowerNotLt(c: char)
    requires c != '<'
    ensures ToLower(c) != '<'
  {
  }

  /** A character other than `<` starts no block and is copied. */
  lemma RemoveBlocksCons(s: string, name: string)
    requires s != [] && s[0] != '<'
    ensures RemoveBlocks(s, name) == [s[0]] + RemoveBlocks(s[1..], name)
  {
    LowerNotLt(s[0]);
  }

  /** A text without `<` holds no block and is kept as it is. */
  lemma {:induction false} RemoveBlocksNoLt(s: string, name: string)
    requires '<' !in s
    ensures RemoveBlocks(s, name) == s
    decreases |s|
  {
    if s != [] {
      if StartsWithCi(s, OpenTag(name)) {
        LowerIsLt(s[0]);
      }
      RemoveBlocksNoLt(s[1..], name);
    }
  }

  /** Text before the first `<` is copied as it is. */
  lemma {:induction false} RemoveBlocksPrefix(a: string, s: string, name: string)
    requires '<' !in a
    ensures RemoveBlocks(a + s, name) == a + RemoveBlocks(s, name)
    decreases |a|
  {
    if a == [] {
      assert a + s == s;
    } else {
      assert a[0] in a;
      assert (a + s)[0] == a[0] && (a + s)[1..] == a[1..] + s;
      RemoveBlocksCons(a + s, name);
      RemoveBlocksPrefix(a[1..], s, name);
      ConcatAssoc3([a[0]], a[1..], RemoveBlocks(s, name));
      assert [a[0]] + a[1..] == a;
    }
  }

  /** No block starts where no closing tag can follow. */
  lemma NoCloseNoBlock(s: string, name: string)
    requires s != [] && '<' !in s[1..]
    ensures BlockLength(s, name).None?
  {
    if StartsWithCi(s, OpenTag(name)) {
      match FindChar(s, '>', |OpenTag(name)|)
      case None =>
      case Some(j) =>
        FindCiSpec(s, CloseTag(name), j + 1);
        match FindCi(s, CloseTag(name), j + 1)
        case None =>
        case Some(k) =>
          assert s[k] == s[1..][k - 1];
          LowerNotLt(s[k]);
    }
  }

  /** A text whose only `<` has no closing tag after it holds no block. */
  lemma RemoveBlocksOneLt(a: string, u: string, name: string)
    requires '<' !in a && '<' !in u
    ensures RemoveBlocks(a + ['<'] + u, name) == a + ['<'] + u
  {
    var s := ['<'] + u;
    assert s[1..] == u;
    NoCloseNoBlock(s, name);
    RemoveBlocksNoLt(u, name);
    assert RemoveBlocks(s, name) == s;
    RemoveBlocksPrefix(a, s, name);
    assert a + s == a + ['<'] + u;
  }

  /** Where no block starts, the first character is copied. */
  lemma RemoveBlocksNone(s: string, name: string)
    requires s != [] && BlockLength(s, name).None?
    ensures RemoveBlocks(s, name) == [s[0]] + RemoveBlocks(s[1..], name)
  {
  }

  /** Text in which no block starts is copied as it is, whatever it holds,
      and the scan goes on after it. */
  lemma {:induction false} RemoveBlocksKeeps(a: string, s: string, name: string)
    requires forall i :: 0 <= i < |a| ==> BlockLength((a + s)[i..], name).None?
    ensures RemoveBlocks(a + s, name) == a + RemoveBlocks(s, name)
    decreases |a|
  {
    if a == [] {
      assert a + s == s;
    } else {
      var x := a + s;
      assert x[0..] == x;
      RemoveBlocksNone(x, name);
      assert x[1..] == a[1..] + s;
      forall i | 0 <= i < |a[1..]| ensures BlockLength((a[1..] + s)[i..], name).None? {
        assert (a[1..] + s)[i..] == x[i + 1..];
      }
      RemoveBlocksKeeps(a[1..], s, name);
      ConcatAssoc3([a[0]], a[1..], RemoveBlocks(s, name));
      assert [a[0]] + a[1..] == a;
    }
  }

  /** No `<name` opens anywhere in `s`, in any letter case. */
  predicate NoOpenTag(s: string, name: string) {
    forall i :: 0 <= i < |s| ==> !StartsWithCi(s[i..], OpenTag(name))
  }

  /** Text in which no `<name` opens, tags and all, passes lines 16-17
      unchanged. */
  lemma RemoveBlocksNoOpen(s: string, name: string)
    requires NoOpenTag(s, name)
    ensures RemoveBlocks(s, name) == s
  {
    assert s + [] == s;
    RemoveBlocksKeeps(s, [], name);
  }

  /** Lines 16-17 on text holding one block after text in which no block
      starts (ordinary tags included): the text before is kept and the
      block goes, contents and all. */
  lemma BlockRemovedAfterTags(name: string, pre: string, open: string, attrs: string, body: string,
                              close: string, rest: string)
    requires forall i :: 0 <= i < |pre| ==>
      BlockLength((pre + open + attrs + ">" + body + close + rest)[i..], name).None?
    requires Lower(open) == Lower(OpenTag(name)) && Lower(close) == Lower(CloseTag(name))
    requires '>' !in attrs
    requires forall k :: 0 <= k < |body| ==> !StartsWithCi((body + close)[k..], CloseTag(name))
    ensures RemoveBlocks(pre + open + attrs + ">" + body + close + rest, name)
         == pre + RemoveBlocks(rest, name)
  {
    var block := open + attrs + ">" + body + close + rest;
    BlockAfter(pre, open, attrs, body, close, rest);
    RemoveBlocksKeeps(pre, block, name);
    BlockRemoved(name, open, attrs, body, close, rest);
  }

  /** An opening tag in any case, attributes without `>`, then `>`: the
      block starts here and its opening tag ends at that `>`. */
  lemma BlockOpens(name: string, open: string, attrs: string, body: string, close: string, rest: string)
    requires Lower(open) == Lower(OpenTag(name)) && '>' !in attrs
    ensures StartsWithCi(open + attrs + ">" + body + close + rest, OpenTag(name))
    ensures FindChar(open + attrs + ">" + body + close + rest, '>', |OpenTag(name)|) == Some(|open| + |attrs|)
  {
    var s := open + attrs + ">" + body + close + rest;
    var j := |open| + |attrs|;
    assert |open| == |OpenTag(name)| by {
      assert |Lower(open)| == |open|;
    }
    assert s[..|open|] == open;
    StartsWithCiIff(s, OpenTag(name));
    forall i | |open| <= i < j ensures s[i] != '>' {
      assert s[i] == attrs[i - |open|];
    }
    assert s[j] == '>';
    FindCharSpec(s, '>', |open|);
  }

  /** After the opening tag, the first closing tag is the one after `body`,
      and what follows it is `rest`. */
  lemma BlockCloses(name: string, open: string, attrs: string, body: string, close: string, rest: string)
    requires Lower(close) == Lower(CloseTag(name))
    requires forall k :: 0 <= k < |body| ==> !StartsWithCi((body + close)[k..], CloseTag(name))
    ensures FindCi(open + attrs + ">" + body + close + rest, CloseTag(name), |open| + |attrs| + 1)
         == Some(|open| + |attrs| + 1 + |body|)
    ensures (open + attrs + ">" + body + close + rest)[|open| + |attrs| + 1 + |body| + |CloseTag(name)|..] == rest
  {
    var s := open + attrs + ">" + body + close + rest;
    var ct := CloseTag(name);
    var from := |open| + |attrs| + 1;
    var k := from + |body|;
    assert |close| == |ct| by {
      assert |Lower(close)| == |close|;
    }
    forall i | from <= i < k ensures !StartsWithCi(s[i..], ct) {
      var b := i - from;
      assert !StartsWithCi((body + close)[b..], ct);
      assert s[i..][..|ct|] == (body + close)[b..][..|ct|];
      StartsWithCiIff(s[i..], ct);
      StartsWithCiIff((body + close)[b..], ct);
    }
    assert s[k..][..|ct|] == close;
    StartsWithCiIff(s[k..], ct);
    assert s[k + |ct|..] == rest;
    FindCiSpec(s, ct, from);
  }

  /** A block is deleted together with its contents: whatever the case of
      its tags, whatever attributes the opening tag carries (none holds `>`),
      and up to the first closing tag after the opening one. */
  lemma BlockRemoved(name: string, open: string, attrs: string, body: string, close: string, rest: string)
    requires Lower(open) == Lower(OpenTag(name)) && Lower(close) == Lower(CloseTag(name))
    requires '>' !in attrs
    requires forall k :: 0 <= k < |body| ==> !StartsWithCi((body + close)[k..], CloseTag(name))
    ensures RemoveBlocks(open + attrs + ">" + body + close + rest, name) == RemoveBlocks(rest, name)
  {
    BlockOpens(name, open, attrs, body, close, rest);
    BlockCloses(name, open, attrs, body, close, rest);
    SkipBlock(open + attrs + ">" + body + close + rest, name, |open| + |attrs|, |open| + |attrs| + 1 + |body|);
  }

  lemma BlockAfter(pre: string, open: string, attrs: string, body: string, close: string, rest: string)
    ensures pre + open + attrs + ">" + body + close + rest == pre + (open + attrs + ">" + body + close + rest)
  {
  }

  /** Lines 16-17 on text holding one block after a prefix without `<`:
      the prefix is kept and the block goes, contents and all. */
  lemma BlockRemovedAfter(name: string, pre: string, open: string, attrs: string, body: string,
                          close: string, rest: string)
    requires '<' !in pre
    requires Lower(open) == Lower(OpenTag(name)) && Lower(close) == Lower(CloseTag(name))
    requires '>' !in attrs
    requires forall k :: 0 <= k < |body| ==> !StartsWithCi((body + close)[k..], CloseTag(name))
    ensures RemoveBlocks(pre + open + attrs + ">" + body + close + rest, name)
         == pre + RemoveBlocks(rest, name)
  {
    var block := open + attrs + ">" + body + close + rest;
    BlockAfter(pre, open, attrs, body, close, rest);
    RemoveBlocksPrefix(pre, block, name);
    BlockRemoved(name, open, attrs, body, close, rest);
  }

  /** Where the opening tag ends at a `>` and a closing tag follows, the
      scan deletes everything up to the end of that closing tag. */
  lemma SkipBlock(s: string, name: string, j: nat, k: nat)
    requires StartsWithCi(s, OpenTag(name))
    requires FindChar(s, '>', |OpenTag(name)|) == Some(j)
    requires FindCi(s, CloseTag(name), j + 1) == Some(k)
    ensures k + |CloseTag(name)| <= |s|
    ensures RemoveBlocks(s, name) == RemoveBlocks(s[k + |CloseTag(name)|..], name)
  {
    BlockLengthIs(s, name, j, k);
    RemoveBlocksStep(s, name, k + |CloseTag(name)|);
  }

  lemma RemoveBlocksStep(s: string, name: string, n: nat)
    requires BlockLength(s, name) == Some(n)
    ensures n <= |s|
    ensures RemoveBlocks(s, name) == RemoveBlocks(s[n..], name)
  {
    assert |CloseTag(name)| <= n <= |s|;
  }

  lemma BlockLengthIs(s: string, name: string, j: nat, k: nat)
    requires StartsWithCi(s, OpenTag(name))
    requires FindChar(s, '>', |OpenTag(name)|) == Some(j)
    requires FindCi(s, CloseTag(name), j + 1) == Some(k)
    ensures BlockLength(s, name) == Some(k + |CloseTag(name)|)
  {
  }

  // ---------------------------------------------------------------------
  // Line 18: tags, `<[^>]+>`
  // ---------------------------------------------------------------------

  /** The length of the tag that starts `s`, if one does: `<`, at least one
      character other than `>`, then the first `>`. */
  function TagLength(s: string): (r: Option<nat>)
    ensures r.Some? ==> 3 <= r.value <= |s| && s[0] == '<' && s[r.value - 1] == '>'
    ensures r.Some? ==> forall k :: 1 <= k < r.value - 1 ==> s[k] != '>'
    ensures r.None? ==>
      s == [] || s[0] != '<' || (|s| >= 2 && s[1] == '>') || forall k :: 1 <= k < |s| ==> s[k] != '>'
  {
    if s == [] || s[0] != '<' then None
    else
      FindCharSpec(s, '>', 1);
      match FindChar(s, '>', 1)
      case None => None
      case Some(j) => if j >= 2 then Some(j + 1) else None
  }

  /** `s.replace(/<[^>]+>/g, "")`. */
  function StripTags(s: string): (r: string)
    ensures |r| <= |s|
    ensures forall c :: c in r ==> c in s
    decreases |s|
  {
    if s == [] then []
    else match TagLength(s)
      case Some(n) => StripTags(s[n..])
      case None => [s[0]] + StripTags(s[1..])
  }

  /** A character other than `<` starts no tag and is copied. */
  lemma StripTagsCons(s: string)
    requires s != [] && s[0] != '<'
    ensures StripTags(s) == [s[0]] + StripTags(s[1..])
  {
  }

  /** Text before the first `<` is copied as it is. */
  lemma {:induction false} StripTagsPrefix(a: string, s: string)
    requires '<' !in a
    ensures StripTags(a + s) == a + StripTags(s)
    decreases |a|
  {
    if a == [] {
      assert a + s == s;
    } else {
      assert a[0] in a;
      assert (a + s)[0] == a[0] && (a + s)[1..] == a[1..] + s;
      StripTagsCons(a + s);
      StripTagsPrefix(a[1..], s);
      ConcatAssoc3([a[0]], a[1..], StripTags(s));
      assert [a[0]] + a[1..] == a;
    }
  }

  /** A tag, `<`, a non-empty run without `>`, then `>`, is deleted whole. */
  lemma StripTagFront(t: string, b: string)
    requires t != [] && '>' !in t
    ensures StripTags(['<'] + t + ['>'] + b) == StripTags(b)
  {
    var s := ['<'] + t + ['>'] + b;
    var n := |t| + 2;
    assert s[n - 1] == '>';
    forall k | 1 <= k < n - 1 ensures s[k] != '>' {
      assert s[k] == t[k - 1];
    }
    FindCharSpec(s, '>', 1);
    assert FindChar(s, '>', 1) == Some(n - 1);
    assert s[n..] == b;
  }

  /** Line 18 on text holding one tag: what precedes the tag (no `<` in it)
      is kept, the tag goes, and the rest is stripped in turn. */
  lemma StripTagAt(a: string, t: string, b: string)
    requires '<' !in a && t != [] && '>' !in t
    ensures StripTags(a + ['<'] + t + ['>'] + b) == a + StripTags(b)
  {
    assert a + ['<'] + t + ['>'] + b == a + (['<'] + t + ['>'] + b);
    StripTagsPrefix(a, ['<'] + t + ['>'] + b);
    StripTagFront(t, b);
  }

  /** No tag starts anywhere in `s`. */
  predicate NoTags(s: string) {
    forall i :: 0 <= i < |s| ==> TagLength(s[i..]).None?
  }

  /** Every `<` of `s` is directly followed by `>` or by no `>` at all. */
  predicate LtHarmless(s: string) {
    forall i :: 0 <= i < |s| && s[i] == '<' ==>
      (i + 1 < |s| && s[i + 1] == '>') || '>' !in s[i + 1..]
  }

  lemma LtHarmlessNoTags(s: string)
    requires LtHarmless(s)
    ensures NoTags(s)
  {
    forall i | 0 <= i < |s| ensures TagLength(s[i..]).None? {
      var t := s[i..];
      if t[0] == '<' {
        if i + 1 < |s| && s[i + 1] == '>' {
          assert t[1] == '>';
        } else {
          assert t[1..] == s[i + 1..];
          forall k | 1 <= k < |t| ensures t[k] != '>' {
            assert t[k] == s[i + 1..][k - 1];
          }
        }
      }
    }
  }

  /** A text that starts with `>` keeps it. */
  lemma StripTagsKeepsGt(s: string)
    requires s != [] && s[0] == '>'
    ensures StripTags(s) != [] && StripTags(s)[0] == '>'
  {
  }

  lemma {:induction false} StripTagsLtHarmless(s: string)
    ensures LtHarmless(StripTags(s))
    decreases |s|
  {
    if s != [] {
      match TagLength(s)
      case Some(n) =>
        StripTagsLtHarmless(s[n..]);
      case None =>
        var tail := StripTags(s[1..]);
        StripTagsLtHarmless(s[1..]);
        var r := [s[0]] + tail;
        forall i | 0 <= i < |r| && r[i] == '<'
          ensures (i + 1 < |r| && r[i + 1] == '>') || '>' !in r[i + 1..]
        {
          if i > 0 {
            assert r[i + 1..] == tail[i..];
            assert r[i] == tail[i - 1];
          } else if |s| > 1 && s[1] == '>' {
            StripTagsKeepsGt(s[1..]);
          } else {
            assert r[1..] == tail;
            assert '>' !in s[1..] by {
              assert FindChar(s, '>', 1).None?;
              FindCharSpec(s, '>', 1);
              forall k | 0 <= k < |s[1..]| ensures s[1..][k] != '>' {
                assert s[1..][k] == s[k + 1];
              }
            }
          }
        }
    }
  }

  /** Once tags are stripped, none is left (line 18). */
  lemma StripTagsNoTags(s: string)
    ensures NoTags(StripTags(s))
  {
    StripTagsLtHarmless(s);
    LtHarmlessNoTags(StripTags(s));
  }

  /** A text without `<` holds no tag and is kept as it is. */
  lemma {:induction false} StripTagsNoLt(s: string)
    requires '<' !in s
    ensures StripTags(s) == s
    decreases |s|
  {
    if s != [] {
      StripTagsNoLt(s[1..]);
    }
  }

  // ---------------------------------------------------------------------
  // Lines 19-22: four entities, in this order
  // ---------------------------------------------------------------------

  const Nbsp: string := "&nbsp;"
  const Lt: string := "&lt;"
  const Gt: string := "&gt;"
  const Amp: string := "&amp;"

  /** The four replacements of lines 19-22, `&amp;` last. */
  function DecodeEntities(s: string): string {
    ReplaceAll(ReplaceAll(ReplaceAll(ReplaceAll(s, Nbsp, " "), Lt, "<"), Gt, ">"), Amp, "&")
  }

  /** Lines 15-22: blocks, then tags, then entities. */
  function StripHtml(html: string): string {
    DecodeEntities(StripTags(RemoveBlocks(RemoveBlocks(html, "script"), "style")))
  }

  /** A pattern holding a character the text lacks does not occur in it. */
  lemma AbsentMissing(s: string, p: string, c: char)
    requires c in p && c !in s
    ensures Absent(s, p)
  {
    var k :| 0 <= k < |p| && p[k] == c;
    forall i | 0 <= i <= |s| ensures !StartsWith(s[i..], p) {
      if |p| <= |s[i..]| {
        assert s[i..][..|p|][k] == s[i + k] != c;
      }
    }
  }

  /** A text without `&` holds no entity, so decoding keeps it. */
  lemma DecodeNoAmp(s: string)
    requires '&' !in s
    ensures DecodeEntities(s) == s
  {
    AbsentMissing(s, Nbsp, '&');
    ReplaceAllAbsent(s, Nbsp, " ");
    AbsentMissing(s, Lt, '&');
    ReplaceAllAbsent(s, Lt, "<");
    AbsentMissing(s, Gt, '&');
    ReplaceAllAbsent(s, Gt, ">");
    AbsentMissing(s, Amp, '&');
    ReplaceAllAbsent(s, Amp, "&");
  }

  /** Plain text, with neither `<` nor `&`, passes through unchanged. */
  lemma StripHtmlPlain(s: string)
    requires '<' !in s && '&' !in s
    ensures StripHtml(s) == s
  {
    RemoveBlocksNoLt(s, "script");
    RemoveBlocksNoLt(s, "style");
    StripTagsNoLt(s);
    DecodeNoAmp(s);
  }

  /** `s` has `&` only where it starts an entity whose second character is
      none of `cs`. */
  predicate AmpNotBefore(s: string, cs: set<char>) {
    forall i :: 0 <= i < |s| - 1 && s[i] == '&' ==> s[i + 1] !in cs
  }

  /** An entity whose second character never follows `&` does not occur. */
  lemma AbsentEntity(s: string, p: string, cs: set<char>)
    requires |p| >= 2 && p[0] == '&' && p[1] in cs && AmpNotBefore(s, cs)
    ensures Absent(s, p)
  {
    NoPairAbsent(s, p);
  }

  /** Entities other than the four are left alone: a text in which `&`
      never starts `&nbsp;`, `&lt;`, `&gt;` or `&amp;` is not changed by
      lines 19-22 (`&quot;`, for one, is kept). */
  lemma DecodeKeepsOtherEntities(s: string)
    requires AmpNotBefore(s, {'n', 'l', 'g', 'a'})
    ensures DecodeEntities(s) == s
  {
    var cs := {'n', 'l', 'g', 'a'};
    AbsentEntity(s, Nbsp, cs);
    ReplaceAllAbsent(s, Nbsp, " ");
    AbsentEntity(s, Lt, cs);
    ReplaceAllAbsent(s, Lt, "<");
    AbsentEntity(s, Gt, cs);
    ReplaceAllAbsent(s, Gt, ">");
    AbsentEntity(s, Amp, cs);
    ReplaceAllAbsent(s, Amp, "&");
  }

  /** Text without `<` in which `&` never starts one of the four entities
      comes out of the whole chain as it went in. */
  lemma OtherEntitiesKept(s: string)
    requires '<' !in s && AmpNotBefore(s, {'n', 'l', 'g', 'a'})
    ensures StripHtml(s) == s
  {
    StripHtmlNoLtIsDecode(s);
    DecodeKeepsOtherEntities(s);
  }

  /** Lines 15-22 on text around one tag: the tag goes and the text on
      both sides is kept, joined with nothing in between. */
  lemma TextAroundTagKept(a: string, t: string, b: string)
    requires '<' !in a && '<' !in t && '<' !in b
    requires t != [] && '>' !in t
    requires AmpNotBefore(a + b, {'n', 'l', 'g', 'a'})
    ensures StripHtml(a + ['<'] + t + ['>'] + b) == a + b
  {
    var s := a + ['<'] + t + ['>'] + b;
    var u := t + ['>'] + b;
    assert s == a + ['<'] + u;
    assert '<' !in u by {
      assert forall c :: c in u ==> c in t || c == '>' || c in b;
    }
    RemoveBlocksOneLt(a, u, "script");
    RemoveBlocksOneLt(a, u, "style");
    StripTagAt(a, t, b);
    StripTagsNoLt(b);
    DecodeKeepsOtherEntities(a + b);
  }

  /** A piece of markup: text without `<`, or a tag `<body>` whose body is
      non-empty and holds no `>`. */
  datatype Markup = Text(text: string) | Tag(body: string)

  predicate WellFormed(m: Markup) {
    match m
    case Text(t) => '<' !in t
    case Tag(b) => b != [] && '>' !in b
  }

  /** The markup written out. */
  function Render(ms: seq<Markup>): string {
    if ms == [] then []
    else match ms[0]
      case Text(t) => t + Render(ms[1..])
      case Tag(b) => ['<'] + b + ['>'] + Render(ms[1..])
  }

  /** The text pieces alone, in order. */
  function PlainOf(ms: seq<Markup>): string {
    if ms == [] then []
    else match ms[0]
      case Text(t) => t + PlainOf(ms[1..])
      case Tag(_) => PlainOf(ms[1..])
  }

  /** Line 18 on markup: every tag goes and every text piece is kept, in
      order. */
  lemma {:induction false} StripTagsRender(ms: seq<Markup>)
    requires forall k :: 0 <= k < |ms| ==> WellFormed(ms[k])
    ensures StripTags(Render(ms)) == PlainOf(ms)
    decreases |ms|
  {
    if ms != [] {
      assert WellFormed(ms[0]);
      StripTagsRender(ms[1..]);
      match ms[0]
      case Text(t) =>
        StripTagsPrefix(t, Render(ms[1..]));
      case Tag(b) =>
        StripTagFront(b, Render(ms[1..]));
    }
  }

  /** Lines 15-22 on markup whose tags are ordinary ones (none opens with
      `<script` or `<style`, in any case) and whose text has no entity of
      the four: the tags go and the text is kept, in order. */
  lemma MarkupStripped(ms: seq<Markup>)
    requires forall k :: 0 <= k < |ms| ==> WellFormed(ms[k])
    requires NoOpenTag(Render(ms), "script") && NoOpenTag(Render(ms), "style")
    requires AmpNotBefore(PlainOf(ms), {'n', 'l', 'g', 'a'})
    ensures StripHtml(Render(ms)) == PlainOf(ms)
  {
    RemoveBlocksNoOpen(Render(ms), "script");
    RemoveBlocksNoOpen(Render(ms), "style");
    StripTagsRender(ms);
    DecodeKeepsOtherEntities(PlainOf(ms));
  }

  /** `<p>a</p>` comes out as `a`. */
  lemma ParagraphStripped()
    ensures StripHtml("<p>a</p>") == "a"
  {
    var ms := [Tag("p"), Text("a"), Tag("/p")];
    assert Render(ms) == "<p>a</p>";
    assert PlainOf(ms) == "a";
    NoOpenInParagraph("script");
    NoOpenInParagraph("style");
    MarkupStripped(ms);
  }

  lemma NoOpenInParagraph(name: string)
    requires name == "script" || name == "style"
    ensures NoOpenTag("<p>a</p>", name)
  {
    var s := "<p>a</p>";
    forall i | 0 <= i < |s| ensures !StartsWithCi(s[i..], OpenTag(name)) {
      assert s[i..] != [] && (s[i] != '<' || ToLower(s[i + 1]) != ToLower(OpenTag(name)[1]));
    }
  }

  lemma LtUnbordered()
    ensures Unbordered(Lt)
  {
    assert Lt[..1][0] != Lt[3..][0];
    assert Lt[..2][0] != Lt[2..][0];
    assert Lt[..3][0] != Lt[1..][0];
  }

  lemma GtUnbordered()
    ensures Unbordered(Gt)
  {
    assert Gt[..1][0] != Gt[3..][0];
    assert Gt[..2][0] != Gt[2..][0];
    assert Gt[..3][0] != Gt[1..][0];
  }

  lemma AmpUnbordered()
    ensures Unbordered(Amp)
  {
    assert Amp[..1][0] != Amp[4..][0];
    assert Amp[..2][0] != Amp[3..][0];
    assert Amp[..3][0] != Amp[2..][0];
    assert Amp[..4][0] != Amp[1..][0];
  }

  /** In `&lt;` + t + `&gt;`, `&` is followed by `l` or `g` only. */
  lemma EscapedTagAmps(t: string)
    requires '&' !in t
    ensures AmpNotBefore(Lt + t + Gt, {'n', 'a'})
    ensures AmpNotBefore(t + Gt, {'l'})
  {
    var s := Lt + t + Gt;
    var n := |t|;
    forall i | 0 <= i < |s| - 1 ensures s[i] == '&' ==> s[i + 1] !in {'n', 'a'} {
      if i < 4 {
        assert s[i] == Lt[i] && s[1] == Lt[1];
      } else if i < n + 4 {
        assert s[i] == t[i - 4];
      } else {
        assert s[i] == Gt[i - n - 4] && s[i + 1] == Gt[i + 1 - n - 4];
      }
    }
    var u := t + Gt;
    forall i | 0 <= i < |u| - 1 ensures u[i] == '&' ==> u[i + 1] != 'l' {
      if i < n {
        assert u[i] == t[i];
      } else {
        assert u[i] == Gt[i - n] && u[i + 1] == Gt[i + 1 - n];
      }
    }
  }

  /** The entity step on an escaped tag. */
  lemma DecodeEscapedTag(t: string)
    requires '&' !in t
    ensures DecodeEntities(Lt + t + Gt) == "<" + t + ">"
  {
    var s := Lt + t + Gt;
    var u := t + Gt;
    var v := "<" + t;
    EscapedTagAmps(t);
    assert ReplaceAll(s, Nbsp, " ") == s by {
      AbsentEntity(s, Nbsp, {'n', 'a'});
      ReplaceAllAbsent(s, Nbsp, " ");
    }
    assert ReplaceAll(s, Lt, "<") == "<" + u by {
      assert s == [] + Lt + u;
      LtUnbordered();
      ReplaceAllAround([], Lt, "<", u);
      AbsentEntity(u, Lt, {'l'});
      ReplaceAllAbsent(u, Lt, "<");
    }
    assert ReplaceAll("<" + u, Gt, ">") == v + ">" by {
      assert "<" + u == v + Gt + [];
      GtUnbordered();
      ReplaceAllAround(v, Gt, ">", []);
      AbsentMissing(v, Gt, '&');
      ReplaceAllAbsent(v, Gt, ">");
    }
    assert ReplaceAll(v + ">", Amp, "&") == v + ">" by {
      AbsentMissing(v + ">", Amp, '&');
      ReplaceAllAbsent(v + ">", Amp, "&");
    }
  }

  /** Entities are decoded after tags are stripped, so an escaped tag such
      as `&lt;b&gt;` comes out as the literal text `<b>`. */
  lemma EscapedTagSurvives(t: string)
    requires '<' !in t && '&' !in t
    ensures StripHtml(Lt + t + Gt) == "<" + t + ">"
  {
    assert '<' !in Lt + t + Gt;
    StripHtmlNoLtIsDecode(Lt + t + Gt);
    DecodeEscapedTag(t);
  }

  /** The entity step on a doubly escaped text. */
  lemma DecodeDoubleEscape(t: string)
    requires '&' !in t
    ensures DecodeEntities(Amp + t) == "&" + t
  {
    var s := Amp + t;
    var cs := {'n', 'l', 'g'};
    assert AmpNotBefore(s, cs) by {
      forall i | 0 <= i < |s| - 1 ensures s[i] == '&' ==> s[i + 1] !in cs {
        if i >= 5 {
          assert s[i] == t[i - 5];
        } else {
          assert s[i] == Amp[i] && s[1] == Amp[1];
        }
      }
    }
    assert ReplaceAll(ReplaceAll(ReplaceAll(s, Nbsp, " "), Lt, "<"), Gt, ">") == s by {
      AbsentEntity(s, Nbsp, cs);
      ReplaceAllAbsent(s, Nbsp, " ");
      AbsentEntity(s, Lt, cs);
      ReplaceAllAbsent(s, Lt, "<");
      AbsentEntity(s, Gt, cs);
      ReplaceAllAbsent(s, Gt, ">");
    }
    assert ReplaceAll(s, Amp, "&") == "&" + t by {
      assert s == [] + Amp + t;
      AmpUnbordered();
      ReplaceAllAround([], Amp, "&", t);
      AbsentMissing(t, Amp, '&');
      ReplaceAllAbsent(t, Amp, "&");
    }
  }

  /** `&amp;` is decoded last, so a doubly escaped `&amp;lt;` comes out as
      `&lt;` and not as `<`. */
  lemma AmpDecodedLast(t: string)
    requires '<' !in t && '&' !in t
    ensures StripHtml(Amp + t) == "&" + t
  {
    assert '<' !in Amp + t;
    StripHtmlNoLtIsDecode(Amp + t);
    DecodeDoubleEscape(t);
  }

  /** Without `<` only the entity step acts. */
  lemma StripHtmlNoLtIsDecode(s: string)
    requires '<' !in s
    ensures StripHtml(s) == DecodeEntities(s)
  {
    RemoveBlocksNoLt(s, "script");
    RemoveBlocksNoLt(s, "style");
    StripTagsNoLt(s);
  }

  // ---------------------------------------------------------------------
  // Lines 7-9: which entries are read
  // ---------------------------------------------------------------------

  /** An archive entry: its path, whether it is a directory, and its
      contents read as a string. */
  datatype ZipEntry = ZipEntry(name: string, dir: bool, content: string)

  /** Lines 7-9: a file whose name ends, case-sensitively, in `.xhtml` or `.html`. */
  predicate IsChapter(e: ZipEntry) {
    !e.dir && (EndsWith(e.name, ".xhtml") || EndsWith(e.name, ".html"))
  }

  /** The entries that are read, in listing order. */
  function Chapters(entries: seq<ZipEntry>): (r: seq<ZipEntry>)
    ensures forall e :: e in r <==> e in entries && IsChapter(e)
    ensures |r| <= |entries|
  {
    if entries == [] then []
    else if IsChapter(entries[0]) then [entries[0]] + Chapters(entries[1..])
    else Chapters(entries[1..])
  }

  /** Filtering commutes with concatenation, so the listing order is kept. */
  lemma {:induction false} ChaptersConcat(a: seq<ZipEntry>, b: seq<ZipEntry>)
    ensures Chapters(a + b) == Chapters(a) + Chapters(b)
    decreases |a|
  {
    if a == [] {
      assert a + b == b;
    } else {
      assert (a + b)[0] == a[0];
      assert (a + b)[1..] == a[1..] + b;
      ChaptersConcat(a[1..], b);
    }
  }

  // ---------------------------------------------------------------------
  // Lines 5, 11-27: accumulation and the final trim
  // ---------------------------------------------------------------------

  /** The plain text of each file, in order. */
  function Plains(files: seq<ZipEntry>): (r: seq<string>)
    ensures |r| == |files|
    ensures forall k :: 0 <= k < |files| ==> r[k] == StripHtml(files[k].content)
  {
    seq(|files|, k requires 0 <= k < |files| => StripHtml(files[k].content))
  }

  /** The text accumulated from `plains`: each piece followed by a blank
      line, in order. */
  function Joined(plains: seq<string>): string
    decreases |plains|
  {
    if plains == [] then ""
    else Joined(plains[..|plains| - 1]) + plains[|plains| - 1] + "\n\n"
  }

  /** Accumulating two runs of pieces one after the other gives the two
      texts one after the other. */
  lemma {:induction false} JoinedConcat(a: seq<string>, b: seq<string>)
    ensures Joined(a + b) == Joined(a) + Joined(b)
    decreases |b|
  {
    if b == [] {
      assert a + b == a;
    } else {
      var b' := b[..|b| - 1];
      assert (a + b)[..|a + b| - 1] == a + b';
      assert (a + b)[|a + b| - 1] == b[|b| - 1];
      JoinedConcat(a, b');
    }
  }

  /** One more piece appends it and a blank line. */
  lemma JoinedStep(plains: seq<string>, i: nat)
    requires i < |plains|
    ensures Joined(plains[..i + 1]) == Joined(plains[..i]) + plains[i] + "\n\n"
  {
    assert plains[..i + 1][..i] == plains[..i];
  }

  /** The text of the files, before the final trim. */
  function Accumulate(files: seq<ZipEntry>): string {
    Joined(Plains(files))
  }

  /** `parseEpub`, lines 3-28, with the archive already opened: the loop
      that appends each chapter's plain text and a blank line, then the trim. */
  method ParseEpub(entries: seq<ZipEntry>) returns (text: string)
    ensures text == Trim(Accumulate(Chapters(entries)))
  {
    var files := Chapters(entries);
    ghost var plains := Plains(files);
    var acc := "";
    var i := 0;
    while i < |files|
      invariant i <= |files|
      invariant acc == Joined(plains[..i])
    {
      var plain := StripHtml(files[i].content);
      JoinedStep(plains, i);
      acc := acc + plain + "\n\n";
      i := i + 1;
    }
    assert plains[..i] == plains;
    text := Trim(acc);
  }

  /** An archive with no chapter gives the empty text. */
  lemma NoChaptersEmpty(entries: seq<ZipEntry>)
    requires forall e :: e in entries ==> !IsChapter(e)
    ensures Trim(Accumulate(Chapters(entries))) == ""
  {
    assert Chapters(entries) == [] by {
      if Chapters(entries) != [] {
        assert Chapters(entries)[0] in Chapters(entries);
      }
    }
  }

  /** The text of the chapters of two runs of entries is the text of the
      first run followed by that of the second. */
  lemma ListingOrderKept(a: seq<ZipEntry>, b: seq<ZipEntry>)
    ensures Accumulate(Chapters(a + b)) == Accumulate(Chapters(a)) + Accumulate(Chapters(b))
  {
    ChaptersConcat(a, b);
    PlainsConcat(Chapters(a), Chapters(b));
    JoinedConcat(Plains(Chapters(a)), Plains(Chapters(b)));
  }

  lemma PlainsConcat(a: seq<ZipEntry>, b: seq<ZipEntry>)
    ensures Plains(a + b) == Plains(a) + Plains(b)
  {
    var l, r := Plains(a + b), Plains(a) + Plains(b);
    forall k | 0 <= k < |a + b| ensures l[k] == r[k] {
      if k < |a| {
        assert (a + b)[k] == a[k];
      } else {
        assert (a + b)[k] == b[k - |a|];
      }
    }
  }
}
