/** `parseTxt` (src/lib/txtParser.ts): choose how to decode an uploaded text
    file from its bytes. Byte order marks win, then strict UTF-8, then two
    zero-byte heuristics for BOM-less UTF-16, then windows-1252. The decoder
    itself is a parameter; only the choice is modelled. */
module TxtParser {
  import opened Strings

  type byte = b: int | 0 <= b < 256

  // ---------------------------------------------------------------------
  // Byte order marks (lines 8-18)
  // ---------------------------------------------------------------------

  const Utf8Bom: seq<byte> := [0xEF, 0xBB, 0xBF]
  const Utf16LeBom: seq<byte> := [0xFF, 0xFE]
  const Utf16BeBom: seq<byte> := [0xFE, 0xFF]

  /** Line 9: a length guard, then the three bytes EF BB BF. */
  function HasUtf8Bom(bytes: seq<byte>): (r: bool)
    ensures r <==> StartsWith(bytes, Utf8Bom)
  {
    |bytes| >= 3 && bytes[0] == 0xEF && bytes[1] == 0xBB && bytes[2] == 0xBF
  }

  /** Line 13: a length guard, then the two bytes FF FE. */
  function HasUtf16LeBom(bytes: seq<byte>): (r: bool)
    ensures r <==> StartsWith(bytes, Utf16LeBom)
  {
    |bytes| >= 2 && bytes[0] == 0xFF && bytes[1] == 0xFE
  }

  /** Line 17: a length guard, then the two bytes FE FF. */
  function HasUtf16BeBom(bytes: seq<byte>): (r: bool)
    ensures r <==> StartsWith(bytes, Utf16BeBom)
  {
    |bytes| >= 2 && bytes[0] == 0xFE && bytes[1] == 0xFF
  }

  /** The three marks exclude one another: at most one check succeeds. */
  lemma BomsExclusive(bytes: seq<byte>)
    ensures !(HasUtf8Bom(bytes) && HasUtf16LeBom(bytes))
    ensures !(HasUtf8Bom(bytes) && HasUtf16BeBom(bytes))
    ensures !(HasUtf16LeBom(bytes) && HasUtf16BeBom(bytes))
  {
  }

  // ---------------------------------------------------------------------
  // Strict UTF-8 (the fatal decode at line 68)
  // ---------------------------------------------------------------------

  predicate IsTail(b: byte) {
    0x80 <= b <= 0xBF
  }

  /** The length of the well-formed character that starts `bytes`, following
      the UTF8-char rule of section 4 of RFC 3629, or 0 when `bytes` does not
      start with one. */
  function CharLength(bytes: seq<byte>): (n: nat)
    ensures n <= |bytes| && n <= 4
  {
    if |bytes| == 0 then 0
    else
      var b0 := bytes[0];
      if b0 <= 0x7F then 1
      else if 0xC2 <= b0 <= 0xDF then
        if |bytes| >= 2 && IsTail(bytes[1]) then 2 else 0
      else if 0xE0 <= b0 <= 0xEF then
        if |bytes| >= 3 && IsTail(bytes[1]) && IsTail(bytes[2])
           && (b0 != 0xE0 || bytes[1] >= 0xA0)
           && (b0 != 0xED || bytes[1] <= 0x9F)
        then 3 else 0
      else if 0xF0 <= b0 <= 0xF4 then
        if |bytes| >= 4 && IsTail(bytes[1]) && IsTail(bytes[2]) && IsTail(bytes[3])
           && (b0 != 0xF0 || bytes[1] >= 0x90)
           && (b0 != 0xF4 || bytes[1] <= 0x8F)
        then 4 else 0
      else 0
  }

  /** `bytes` is a sequence of well-formed UTF-8 characters: exactly the
      inputs on which a fatal UTF-8 decoder does not throw. */
  predicate IsValidUtf8(bytes: seq<byte>)
    decreases |bytes|
  {
    bytes == [] || (CharLength(bytes) > 0 && IsValidUtf8(bytes[CharLength(bytes)..]))
  }

  /** The bytes C0, C1 and F5-FF never occur in valid UTF-8. */
  lemma {:induction false} ValidUtf8ExcludedBytes(bytes: seq<byte>)
    requires IsValidUtf8(bytes)
    ensures forall i :: 0 <= i < |bytes| ==> bytes[i] != 0xC0 && bytes[i] != 0xC1 && bytes[i] < 0xF5
    decreases |bytes|
  {
    if bytes != [] {
      var n := CharLength(bytes);
      ValidUtf8ExcludedBytes(bytes[n..]);
      forall i | 0 <= i < |bytes|
        ensures bytes[i] != 0xC0 && bytes[i] != 0xC1 && bytes[i] < 0xF5
      {
        if i >= n {
          assert bytes[i] == bytes[n..][i - n];
        }
      }
    }
  }

  /** A character's length depends only on the bytes it spans. */
  lemma CharLengthPrefix(a: seq<byte>, b: seq<byte>)
    requires CharLength(a) > 0
    ensures CharLength(a + b) == CharLength(a)
  {
    var n := CharLength(a);
    assert forall i :: 0 <= i < n ==> (a + b)[i] == a[i];
  }

  /** Valid UTF-8 is closed under concatenation. */
  lemma {:induction false} ValidUtf8Concat(a: seq<byte>, b: seq<byte>)
    requires IsValidUtf8(a) && IsValidUtf8(b)
    ensures IsValidUtf8(a + b)
    decreases |a|
  {
    if a == [] {
      assert a + b == b;
    } else {
      var n := CharLength(a);
      CharLengthPrefix(a, b);
      ValidUtf8Concat(a[n..], b);
      assert (a + b)[n..] == a[n..] + b;
    }
  }

  // ---------------------------------------------------------------------
  // The UTF-16 heuristics (lines 20-46)
  // ---------------------------------------------------------------------

  /** At most 4000 bytes are inspected. */
  const SampleLimit: nat := 4000

  function Min(a: int, b: int): int {
    if a <= b then a else b
  }

  /** The number of zero bytes at offsets of the given parity below `n`. */
  function ZeroCount(bytes: seq<byte>, parity: nat, n: nat): nat
    requires n <= |bytes|
  {
    if n == 0 then 0
    else ZeroCount(bytes, parity, n - 1) + (if (n - 1) % 2 == parity && bytes[n - 1] == 0 then 1 else 0)
  }

  /** The number of offsets of the given parity below `n`. */
  function OffsetCount(parity: nat, n: nat): nat {
    if n == 0 then 0
    else OffsetCount(parity, n - 1) + (if (n - 1) % 2 == parity then 1 else 0)
  }

  /** Below `n` there are n / 2 odd offsets and (n + 1) / 2 even ones. */
  lemma {:induction false} OffsetCountClosedForm(n: nat)
    ensures OffsetCount(1, n) == n / 2
    ensures OffsetCount(0, n) == (n + 1) / 2
  {
    if n > 0 {
      OffsetCountClosedForm(n - 1);
    }
  }

  /** There are never more zero bytes than inspected offsets. */
  lemma {:induction false} ZeroCountBound(bytes: seq<byte>, parity: nat, n: nat)
    requires n <= |bytes|
    ensures ZeroCount(bytes, parity, n) <= OffsetCount(parity, n)
  {
    if n > 0 {
      ZeroCountBound(bytes, parity, n - 1);
    }
  }

  /** The verdict of the heuristic that inspects offsets of `parity` (1 for
      `looksLikeUtf16Le`, 0 for `looksLikeUtf16Be`): at least 8 bytes in the
      sample and a zero ratio above 0.35. The source divides in double
      precision; with at most 2000 inspected offsets the rounding never
      moves the quotient across 0.35, so the division is exact here. */
  function LooksLikeUtf16(bytes: seq<byte>, parity: nat): bool {
    var sample := Min(|bytes|, SampleLimit);
    if sample < 8 then false
    else
      var checked := OffsetCount(parity, sample);
      var zeros := ZeroCount(bytes, parity, sample);
      checked > 0 && (zeros as real) / (checked as real) > 0.35
  }

  /** With fewer than 8 bytes both heuristics say no. */
  lemma ShortInputNotUtf16(bytes: seq<byte>, parity: nat)
    requires |bytes| < 8
    ensures !LooksLikeUtf16(bytes, parity)
  {
  }

  /** The ratio test in integers: more than 7 zeros per 20 inspected offsets,
      where the little-endian heuristic inspects sample / 2 offsets and the
      big-endian one (sample + 1) / 2. */
  lemma LooksLikeUtf16Exact(bytes: seq<byte>, parity: nat)
    requires parity == 0 || parity == 1
    ensures var sample := Min(|bytes|, SampleLimit);
      var checked := if parity == 1 then sample / 2 else (sample + 1) / 2;
      LooksLikeUtf16(bytes, parity) <==>
        sample >= 8 && 20 * ZeroCount(bytes, parity, sample) > 7 * checked
  {
    var sample := Min(|bytes|, SampleLimit);
    OffsetCountClosedForm(sample);
    if sample >= 8 {
      var checked := OffsetCount(parity, sample);
      var zeros := ZeroCount(bytes, parity, sample);
      assert checked > 0;
      RatioAboveExact(zeros as real, checked as real);
    }
  }

  /** For a positive divisor, a quotient above 0.35 means more than 7 parts
      in 20. */
  lemma RatioAboveExact(z: real, c: real)
    requires c > 0.0
    ensures z / c > 0.35 <==> 20.0 * z > 7.0 * c
  {
    var q := z / c;
    assert q * c == z;
    assert (q - 0.35) * c == z - 0.35 * c;
    if q > 0.35 {
      assert (q - 0.35) * c > 0.0;
    }
    if 20.0 * z > 7.0 * c {
      assert (q - 0.35) * c > 0.0;
    }
  }

  /** One step of the counting loops: offset `i` is inspected. */
  lemma CountStep(bytes: seq<byte>, parity: nat, i: nat, sample: nat)
    requires i < sample <= |bytes| && i % 2 == parity
    ensures ZeroCount(bytes, parity, Min(i + 2, sample))
         == ZeroCount(bytes, parity, i) + (if bytes[i] == 0 then 1 else 0)
    ensures OffsetCount(parity, Min(i + 2, sample)) == OffsetCount(parity, i) + 1
  {
    assert ZeroCount(bytes, parity, i + 1) == ZeroCount(bytes, parity, i) + (if bytes[i] == 0 then 1 else 0);
    if i + 2 <= sample {
      assert (i + 1) % 2 != parity;
    }
  }

  /** The final comparison of both heuristics (lines 31 and 45). */
  function RatioAbove(zeros: nat, checked: nat): bool {
    checked > 0 && (zeros as real) / (checked as real) > 0.35
  }

  /** `looksLikeUtf16Le`, lines 20-32: count zero bytes at odd offsets of the
      sample. */
  method LooksLikeUtf16Le(bytes: seq<byte>) returns (r: bool)
    ensures r == LooksLikeUtf16(bytes, 1)
  {
    var sample := Min(|bytes|, SampleLimit);
    if sample < 8 {
      return false;
    }
    var zeroOdd := 0;
    var checked := 0;
    var i := 1;
    while i < sample
      invariant 1 <= i <= sample + 1 && i % 2 == 1
      invariant zeroOdd == ZeroCount(bytes, 1, Min(i, sample))
      invariant checked == OffsetCount(1, Min(i, sample))
      decreases sample - i
    {
      CountStep(bytes, 1, i, sample);
      if bytes[i] == 0 {
        zeroOdd := zeroOdd + 1;
      }
      checked := checked + 1;
      i := i + 2;
    }
    r := RatioAbove(zeroOdd, checked);
  }

  /** `looksLikeUtf16Be`, lines 34-46: the same count over even offsets. */
  method LooksLikeUtf16Be(bytes: seq<byte>) returns (r: bool)
    ensures r == LooksLikeUtf16(bytes, 0)
  {
    var sample := Min(|bytes|, SampleLimit);
    if sample < 8 {
      return false;
    }
    var zeroEven := 0;
    var checked := 0;
    var i := 0;
    while i < sample
      invariant 0 <= i <= sample + 1 && i % 2 == 0
      invariant zeroEven == ZeroCount(bytes, 0, Min(i, sample))
      invariant checked == OffsetCount(0, Min(i, sample))
      decreases sample - i
    {
      CountStep(bytes, 0, i, sample);
      if bytes[i] == 0 {
        zeroEven := zeroEven + 1;
      }
      checked := checked + 1;
      i := i + 2;
    }
    r := RatioAbove(zeroEven, checked);
  }

  // ---------------------------------------------------------------------
  // The choice of encoding (lines 52-82)
  // ---------------------------------------------------------------------

  datatype Encoding = Utf8WithBom | Utf16LeWithBom | Utf16BeWithBom | Utf8 | Utf16Le | Utf16Be | Windows1252

  /** The tag reported in `ParsedTxt.encoding`. */
  function Tag(e: Encoding): (t: string)
    ensures t in AllTags
  {
    match e
    case Utf8WithBom => "utf-8-bom"
    case Utf16LeWithBom => "utf-16le-bom"
    case Utf16BeWithBom => "utf-16be-bom"
    case Utf8 => "utf-8"
    case Utf16Le => "utf-16le"
    case Utf16Be => "utf-16be"
    case Windows1252 => "windows-1252"
  }

  /** The seven tags `parseTxt` can report. */
  const AllTags: seq<string> :=
    ["utf-8-bom", "utf-16le-bom", "utf-16be-bom", "utf-8", "utf-16le", "utf-16be", "windows-1252"]

  /** Reads a tag back. */
  function TagEncoding(t: string): (r: Option<Encoding>)
    ensures r.Some? <==> t in AllTags
  {
    if t == "utf-8-bom" then Some(Utf8WithBom)
    else if t == "utf-16le-bom" then Some(Utf16LeWithBom)
    else if t == "utf-16be-bom" then Some(Utf16BeWithBom)
    else if t == "utf-8" then Some(Utf8)
    else if t == "utf-16le" then Some(Utf16Le)
    else if t == "utf-16be" then Some(Utf16Be)
    else if t == "windows-1252" then Some(Windows1252)
    else None
  }

  /** Every tag reads back as the encoding it was made from. */
  lemma TagRoundTrip(e: Encoding)
    ensures TagEncoding(Tag(e)) == Some(e)
  {
  }

  /** Distinct encodings are reported under distinct tags. */
  lemma TagInjective(e1: Encoding, e2: Encoding)
    requires Tag(e1) == Tag(e2)
    ensures e1 == e2
  {
    TagRoundTrip(e1);
    TagRoundTrip(e2);
  }

  /** The label passed to the decoder for each choice: the tag, without the
      `-bom` suffix that the three byte-order-mark choices carry. */
  function DecoderLabel(e: Encoding): (name: string)
    ensures Tag(e) == if e in {Utf8WithBom, Utf16LeWithBom, Utf16BeWithBom} then name + "-bom" else name
  {
    match e
    case Utf8WithBom | Utf8 => "utf-8"
    case Utf16LeWithBom | Utf16Le => "utf-16le"
    case Utf16BeWithBom | Utf16Be => "utf-16be"
    case Windows1252 => "windows-1252"
  }

  /** The first test that succeeds, in source order, decides. */
  function SelectEncoding(bytes: seq<byte>): Encoding {
    if HasUtf8Bom(bytes) then Utf8WithBom
    else if HasUtf16LeBom(bytes) then Utf16LeWithBom
    else if HasUtf16BeBom(bytes) then Utf16BeWithBom
    else if IsValidUtf8(bytes) then Utf8
    else if LooksLikeUtf16(bytes, 1) then Utf16Le
    else if LooksLikeUtf16(bytes, 0) then Utf16Be
    else Windows1252
  }

  /** No byte order mark at the start of `bytes`. */
  predicate NoBom(bytes: seq<byte>) {
    !StartsWith(bytes, Utf8Bom) && !StartsWith(bytes, Utf16LeBom) && !StartsWith(bytes, Utf16BeBom)
  }

  /** The priority of the choice, written as a condition per outcome: each
      outcome happens exactly when its own test holds and every earlier one
      fails. */
  lemma SelectionPriority(bytes: seq<byte>)
    ensures SelectEncoding(bytes) == Utf8WithBom <==> StartsWith(bytes, Utf8Bom)
    ensures SelectEncoding(bytes) == Utf16LeWithBom <==> StartsWith(bytes, Utf16LeBom)
    ensures SelectEncoding(bytes) == Utf16BeWithBom <==> StartsWith(bytes, Utf16BeBom)
    ensures SelectEncoding(bytes) == Utf8 <==> NoBom(bytes) && IsValidUtf8(bytes)
    ensures SelectEncoding(bytes) == Utf16Le <==>
      NoBom(bytes) && !IsValidUtf8(bytes) && LooksLikeUtf16(bytes, 1)
    ensures SelectEncoding(bytes) == Utf16Be <==>
      NoBom(bytes) && !IsValidUtf8(bytes) && !LooksLikeUtf16(bytes, 1) && LooksLikeUtf16(bytes, 0)
    ensures SelectEncoding(bytes) == Windows1252 <==>
      NoBom(bytes) && !IsValidUtf8(bytes) && !LooksLikeUtf16(bytes, 1) && !LooksLikeUtf16(bytes, 0)
  {
    BomsExclusive(bytes);
  }

  /** Eight zero bytes: valid UTF-8 and, by the heuristic, UTF-16LE; the
      UTF-8 test comes first, so the heuristic is never consulted. */
  lemma ZeroBytesAreUtf8()
    ensures IsValidUtf8([0, 0, 0, 0, 0, 0, 0, 0])
    ensures LooksLikeUtf16([0, 0, 0, 0, 0, 0, 0, 0], 1)
    ensures SelectEncoding([0, 0, 0, 0, 0, 0, 0, 0]) == Utf8
  {
    var z: seq<byte> := [0, 0, 0, 0, 0, 0, 0, 0];
    assert IsValidUtf8(z[8..]) by { assert z[8..] == []; }
    assert IsValidUtf8(z[7..]) by { assert z[7..][1..] == z[8..]; }
    assert IsValidUtf8(z[6..]) by { assert z[6..][1..] == z[7..]; }
    assert IsValidUtf8(z[5..]) by { assert z[5..][1..] == z[6..]; }
    assert IsValidUtf8(z[4..]) by { assert z[4..][1..] == z[5..]; }
    assert IsValidUtf8(z[3..]) by { assert z[3..][1..] == z[4..]; }
    assert IsValidUtf8(z[2..]) by { assert z[2..][1..] == z[3..]; }
    assert IsValidUtf8(z[1..]) by { assert z[1..][1..] == z[2..]; }
    assert z[0..] == z;
    LooksLikeUtf16Exact(z, 1);
    assert ZeroCount(z, 1, 8) == 4;
  }

  /** The result of `parseTxt`. */
  datatype ParsedTxt = ParsedTxt(text: string, encoding: string)

  /** `parseTxt`, lines 52-82: the same tests in the same order, calling the
      counting heuristics; `decode` stands for `TextDecoder`, given the bytes
      and the label of the chosen encoding. */
  method ParseTxt(bytes: seq<byte>, decode: (seq<byte>, string) -> string) returns (r: ParsedTxt)
    ensures r.encoding == Tag(SelectEncoding(bytes))
    ensures r.text == decode(bytes, DecoderLabel(SelectEncoding(bytes)))
  {
    var e: Encoding;
    if HasUtf8Bom(bytes) {
      e := Utf8WithBom;
    } else if HasUtf16LeBom(bytes) {
      e := Utf16LeWithBom;
    } else if HasUtf16BeBom(bytes) {
      e := Utf16BeWithBom;
    } else if IsValidUtf8(bytes) {
      e := Utf8;
    } else {
      var le := LooksLikeUtf16Le(bytes);
      if le {
        e := Utf16Le;
      } else {
        var be := LooksLikeUtf16Be(bytes);
        e := if be then Utf16Be else Windows1252;
      }
    }
    r := ParsedTxt(decode(bytes, DecoderLabel(e)), Tag(e));
  }
}
