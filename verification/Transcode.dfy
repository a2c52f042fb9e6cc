/**
 Conversion between UTF-8 and UTF-16 (utf_string_conversions.cpp, utf_string_conversion_utils.cpp):
 the converting loop over a shared index, with U+FFFD for each error.
 */
module Transcode {
  import opened Words
  import opened Utf8
  import opened Utf16

  const REPLACEMENT := 0xFFFD

  // ----- what a conversion computes -----

  /** Each error replaced by U+FFFD. */
  function Repaired(cs: seq<int>): (r: seq<int>)
    requires forall k | 0 <= k < |cs| :: cs[k] == -1 || IsScalar(cs[k])
    ensures |r| == |cs| && Scalars(r)
    ensures forall k | 0 <= k < |cs| :: r[k] == if cs[k] == -1 then 0xFFFD else cs[k]
  {
    seq(|cs|, k requires 0 <= k < |cs| => if cs[k] == -1 then REPLACEMENT else cs[k])
  }

  function Text8(s: seq<byte>): (cs: seq<int>)
    ensures Scalars(cs)
  {
    DecodedScalars(s);
    Repaired(DecodeAll(s))
  }

  function Text16(s: seq<unit>): (cs: seq<int>)
    ensures Scalars(cs)
  {
    Decoded16Scalars(s);
    Repaired(DecodeAll16(s))
  }

  predicate Clean8(s: seq<byte>) {
    -1 !in DecodeAll(s)
  }

  lemma Clean8Iff(s: seq<byte>)
    ensures Clean8(s) <==> WellFormed(s)
  {
    WellFormedIffNoError(s);
  }

  predicate Clean16(s: seq<unit>) {
    -1 !in DecodeAll16(s)
  }

  lemma Clean16Iff(s: seq<unit>)
    ensures Clean16(s) <==> Paired(s)
  {
    PairedIffNoError(s);
  }

  function To16(s: seq<byte>): (r: seq<unit>) {
    EncodeAll16(Text8(s))
  }

  function To8(s: seq<unit>): (r: seq<byte>) {
    EncodeAll(Text16(s))
  }

  // ----- the program -----

  /** `ReadUnicodeCharacter` on bytes: the index is left at the last byte consumed. */
  method ReadCharacter8(src: seq<byte>, length: nat, at: nat) returns (defined: bool, ok: bool, c: int, last: nat)
    requires at < length <= |src| && length < INT_LIMIT
    ensures defined <==> !(at + 2 == INT_LIMIT && 0xE0 <= src[at] < 0xF0)
    ensures defined ==> at <= last < length && Next(src[at..length]) == Read(if ok then c else -1, last - at + 1)
    ensures defined && ok ==> IsScalar(c)
  {
    hide Next;
    var i;
    ok, last := false, 0;
    defined, c, i := NextChar(src, at, length);
    if defined {
      last := i - 1;
      ok := IsScalar(c);
      if c != -1 {
        NextIsEncode(src[at..length]);
      }
    }
  }

  /** `ReadUnicodeCharacter` on 16-bit units. */
  method ReadCharacter16(src: seq<unit>, length: nat, at: nat) returns (ok: bool, c: int, last: nat)
    requires at < length <= |src|
    ensures at <= last < length && Next16(src[at..length]) == Read(if ok then c else -1, last - at + 1)
    ensures ok ==> IsScalar(c)
  {
    ghost var t := src[at..length];
    assert t[0] == src[at] && (|t| > 1 ==> t[1] == src[at + 1]);
    last := at;
    if IsLead16(src[at]) || IsTrail16(src[at]) {
      if !IsLead16(src[at]) || at + 1 >= length || !IsTrail16(src[at + 1]) {
        return false, 0, last;
      }
      c := src[at] * 1024 + src[at + 1] - SURROGATE_OFFSET;
      last := last + 1;
    } else {
      c := src[at];
    }
    ok := IsScalar(c);
  }

  /** `WriteUnicodeCharacter` to bytes: make room for four, write in place, cut the rest off. */
  method WriteCharacter8(c: int, output: seq<byte>) returns (r: seq<byte>, n: nat)
    requires IsScalar(c)
    ensures r == output + Encode(c) && n == |Encode(c)|
  {
    if c <= 0x7F {
      return output + [c], 1;
    }
    var i := |output|;
    r := output + [0, 0, 0, 0];
    if c <= 0x7FF {
      r, i := r[i := 0xC0 + c / 64], i + 1;
    } else {
      if c <= 0xFFFF {
        r, i := r[i := 0xE0 + c / 4096], i + 1;
      } else {
        r, i := r[i := 0xF0 + c / 0x4_0000], i + 1;
        r, i := r[i := 0x80 + c / 4096 % 64], i + 1;
      }
      r, i := r[i := 0x80 + c / 64 % 64], i + 1;
    }
    r, i := r[i := 0x80 + c % 64], i + 1;
    r := r[..i];
    n := i - |output|;
  }

  /** `WriteUnicodeCharacter` to 16-bit units. */
  method WriteCharacter16(c: int, output: seq<unit>) returns (r: seq<unit>, n: nat)
    requires IsScalar(c)
    ensures r == output + Encode16(c) && n == |Encode16(c)|
  {
    if c <= 0xFFFF {
      return output + [c], 1;
    }
    var i := |output|;
    r := output + [0, 0];
    r, i := r[i := c / 1024 + 0xD7C0], i + 1;
    r, i := r[i := 0xDC00 + c % 1024], i + 1;
    n := 2;
  }

  /** `ConvertUnicode` from bytes to 16-bit units; the length is cast to 32 bits. */
  method Convert8To16(src: seq<byte>) returns (defined: bool, ok: bool, output: seq<unit>)
    ensures defined <==> !LeadAtLimit(src[..Len32(|src|)])
    ensures defined ==> output == To16(src[..Len32(|src|)])
    ensures defined ==> (ok <==> WellFormed(src[..Len32(|src|)]))
  {
    hide Next;
    hide Encode16;
    hide To16;
    hide Clean8;
    hide WellFormed;
    To16Ends();
    defined, ok, output := true, true, [];
    var length := Int32(|src|);
    ghost var text := src[..Len32(|src|)];
    assert text[0..] == text;
    var i := 0;
    while i < length
      invariant i <= |text| && (LeadAtLimit(text) ==> i < |text|)
      invariant To16(text) == output + To16(text[i..])
      invariant Clean8(text) <==> ok && Clean8(text[i..])
    {
      var valid, c, last;
      defined, valid, c, last := ReadCharacter8(src, length, i);
      if !defined {
        return;
      }
      assert src[i..length] == text[i..];
      SkipsNoLead(text, i);
      To16Step(text[i..]);
      assert text[i..][last - i + 1..] == text[last + 1..];
      ok := ok && valid;
      var written;
      output, written := WriteCharacter16(if valid then c else REPLACEMENT, output);
      i := last + 1;
    }
    assert text[i..] == [];
    Clean8Iff(text);
  }

  /** `ConvertUnicode` from 16-bit units to bytes; the length is cast to 32 bits. */
  method Convert16To8(src: seq<unit>) returns (ok: bool, output: seq<byte>)
    ensures output == To8(src[..Len32(|src|)])
    ensures ok <==> Paired(src[..Len32(|src|)])
  {
    hide Next16;
    hide Encode;
    hide To8;
    hide Clean16;
    hide Paired;
    To8Ends();
    ok, output := true, [];
    var length := Int32(|src|);
    ghost var text := src[..Len32(|src|)];
    assert text[0..] == text;
    var i := 0;
    while i < length
      invariant i <= |text|
      invariant To8(text) == output + To8(text[i..])
      invariant Clean16(text) <==> ok && Clean16(text[i..])
    {
      var valid, c, last := ReadCharacter16(src, length, i);
      assert src[i..length] == text[i..];
      To8Step(text[i..]);
      assert text[i..][last - i + 1..] == text[last + 1..];
      ok := ok && valid;
      var written;
      output, written := WriteCharacter8(if valid then c else REPLACEMENT, output);
      i := last + 1;
    }
    assert text[i..] == [];
    Clean16Iff(text);
  }

  lemma To16Ends()
    ensures To16([]) == [] && Clean8([])
  {
  }

  lemma To16Step(s: seq<byte>)
    requires s != []
    ensures var r := Next(s);
            && (r.c == -1 || IsScalar(r.c))
            && To16(s) == Encode16(if r.c == -1 then REPLACEMENT else r.c) + To16(s[r.used..])
            && (Clean8(s) <==> r.c != -1 && Clean8(s[r.used..]))
  {
    hide Next;
    hide Encode16;
    DecodedScalars(s);
    var cs, rest := Text8(s), s[Next(s).used..];
    assert DecodeAll(s)[0] == Next(s).c && DecodeAll(s)[1..] == DecodeAll(rest);
    assert cs[1..] == Text8(rest);
  }

  lemma To8Ends()
    ensures To8([]) == [] && Clean16([])
  {
  }

  lemma To8Step(s: seq<unit>)
    requires s != []
    ensures var r := Next16(s);
            && (r.c == -1 || IsScalar(r.c))
            && To8(s) == Encode(if r.c == -1 then REPLACEMENT else r.c) + To8(s[r.used..])
            && (Clean16(s) <==> r.c != -1 && Clean16(s[r.used..]))
  {
    hide Next16;
    hide Encode;
    Decoded16Scalars(s);
    var cs, rest := Text16(s), s[Next16(s).used..];
    assert DecodeAll16(s)[0] == Next16(s).c && DecodeAll16(s)[1..] == DecodeAll16(rest);
    assert cs[1..] == Text16(rest);
  }

  // ----- round trips -----

  /** The output is always well formed and says what the input says, errors replaced. */
  lemma OutputWellFormed16(s: seq<byte>)
    ensures Paired(To16(s))
    ensures Text16(To16(s)) == DecodeAll16(To16(s)) == Text8(s)
  {
    Decode16InvertsEncode(Text8(s));
    PairedIffNoError(To16(s));
    assert Text16(To16(s)) == Text8(s);
  }

  lemma OutputWellFormed8(s: seq<unit>)
    ensures WellFormed(To8(s))
    ensures Text8(To8(s)) == DecodeAll(To8(s)) == Text16(s)
  {
    DecodeInvertsEncode(Text16(s));
    assert Text8(To8(s)) == Text16(s);
  }

  /** To UTF-16 and back gives the same bytes exactly when they were well formed. */
  lemma RoundTrip8(s: seq<byte>)
    ensures To8(To16(s)) == s <==> WellFormed(s)
  {
    OutputWellFormed16(s);
    OutputWellFormed8(To16(s));
    if WellFormed(s) {
      WellFormedIffNoError(s);
      assert Text8(s) == DecodeAll(s);
    }
  }

  /** To UTF-8 and back gives the same units exactly when every surrogate was paired. */
  lemma RoundTrip16(s: seq<unit>)
    ensures To16(To8(s)) == s <==> Paired(s)
  {
    OutputWellFormed8(s);
    OutputWellFormed16(To8(s));
    if Paired(s) {
      PairedIffNoError(s);
      Decoded16Scalars(s);
      assert Text16(s) == DecodeAll16(s);
      Encode16InvertsDecode(s);
    }
  }

  // ----- damage stays local -----

  lemma {:induction false} EncodeAll16Concat(xs: seq<int>, ys: seq<int>)
    requires Scalars(xs) && Scalars(ys)
    ensures Scalars(xs + ys) && EncodeAll16(xs + ys) == EncodeAll16(xs) + EncodeAll16(ys)
  {
    hide Encode16;
    if xs == [] {
      assert xs + ys == ys;
    } else {
      EncodeAll16Concat(xs[1..], ys);
      assert (xs + ys)[1..] == xs[1..] + ys;
    }
  }

  lemma To16Join(a: seq<byte>, b: seq<byte>)
    requires DecodeAll(a + b) == DecodeAll(a) + DecodeAll(b)
    ensures To16(a + b) == To16(a) + To16(b)
  {
    var x, y := Text8(a), Text8(b);
    DecodedScalars(a);
    DecodedScalars(b);
    DecodedScalars(a + b);
    assert Text8(a + b) == x + y;
    EncodeAll16Concat(x, y);
  }

  /** Well-formed text converts as if it stood alone, whatever bytes stand before and after it. */
  lemma WellFormedSurvives(before: seq<byte>, text: seq<byte>, after: seq<byte>)
    requires WellFormed(text) && text != []
    ensures To16(before + (text + after)) == To16(before) + (To16(text) + To16(after))
  {
    hide WellFormed;
    hide To16;
    hide Next;
    WellFormedStartsClear(text);
    WellFormedIffNoError(text);
    assert (text + after)[0] == text[0];
    DecodeConcat(before, text + after);
    To16Join(before, text + after);
    DecodeAfterClean(text, after);
    To16Join(text, after);
  }

  lemma WellFormedStartsClear(text: seq<byte>)
    requires WellFormed(text) && text != []
    ensures !IsTrail(text[0])
  {
    WellFormedIffNoError(text);
    assert DecodeAll(text)[0] == Next(text).c;
  }

  // ----- what the 32-bit length does -----

  lemma {:induction false} AsciiIsClean(s: seq<byte>)
    requires forall k | 0 <= k < |s| :: s[k] < 0x80
    ensures WellFormed(s)
  {
    WellFormedIffNoError(s);
    AsciiDecodes(s);
  }

  lemma SpoiltIsMisread(n: nat)
    requires n >= INT_LIMIT
    ensures var s := Spoilt(n);
            && WellFormed(s[..Len32(n)]) && !WellFormed(s)
            && To16(s[..Len32(n)]) != To16(s)
  {
    hide Len32;
    var s, m := Spoilt(n), Len32(n);
    var good, rest := s[..m], s[m..];
    assert s == good + rest && rest[0] == 0xFF;
    AsciiIsClean(good);
    WellFormedIffNoError(good);
    WellFormedIffNoError(s);
    DecodeAfterClean(good, rest);
    assert DecodeAll(rest)[0] == Next(rest).c == -1;
    assert -1 in DecodeAll(s) by {
      assert DecodeAll(s)[|DecodeAll(good)|] == -1;
    }
    To16Join(good, rest);
    To16Step(rest);
  }

  /** What the program does with the bytes is defined, and the output and the flag are right. */
  ghost predicate OutputRight8(s: seq<byte>) {
    !LeadAtLimit(s[..Len32(|s|)]) && To16(s[..Len32(|s|)]) == To16(s)
  }

  ghost predicate FlagRight8(s: seq<byte>) {
    !LeadAtLimit(s[..Len32(|s|)]) && (WellFormed(s[..Len32(|s|)]) <==> WellFormed(s))
  }

  /** The conversion of texts of n bytes is right, output or flag, if and only if n is below 2^31 - 1. */
  lemma ConversionRightIff8(n: nat)
    ensures (forall s: seq<byte> | |s| == n :: OutputRight8(s)) <==> n < INT_LIMIT - 1
    ensures (forall s: seq<byte> | |s| == n :: FlagRight8(s)) <==> n < INT_LIMIT - 1
  {
    hide Len32;
    hide To16;
    hide WellFormed;
    if n < INT_LIMIT - 1 {
      forall s: seq<byte> | |s| == n ensures OutputRight8(s) && FlagRight8(s) {
        assert s[..Len32(n)] == s;
      }
    } else if n == INT_LIMIT - 1 {
      var s: seq<byte> := seq(n, _ => 0xE0);
      assert s[..Len32(n)] == s;
      assert !OutputRight8(s) && !FlagRight8(s);
    } else {
      SpoiltIsMisread(n);
      assert |Spoilt(n)| == n;
      assert !OutputRight8(Spoilt(n)) && !FlagRight8(Spoilt(n));
    }
  }

  lemma {:induction false} Decode16AfterClean(a: seq<unit>, b: seq<unit>)
    requires -1 !in DecodeAll16(a)
    ensures DecodeAll16(a + b) == DecodeAll16(a) + DecodeAll16(b)
  {
    hide Next16;
    hide Encode16;
    if a == [] {
      assert a + b == b;
    } else {
      var n := Next16(a).used;
      assert DecodeAll16(a)[0] == Next16(a).c && DecodeAll16(a)[1..] == DecodeAll16(a[n..]);
      Next16IsEncode(a);
      Next16InvertsEncode(Next16(a).c, a[n..] + b);
      assert a + b == Encode16(Next16(a).c) + (a[n..] + b);
      Decode16AfterClean(a[n..], b);
      assert (a + b)[n..] == a[n..] + b;
    }
  }

  lemma {:induction false} EncodeAllConcat(xs: seq<int>, ys: seq<int>)
    requires Scalars(xs) && Scalars(ys)
    ensures Scalars(xs + ys) && EncodeAll(xs + ys) == EncodeAll(xs) + EncodeAll(ys)
  {
    hide Encode;
    if xs == [] {
      assert xs + ys == ys;
    } else {
      EncodeAllConcat(xs[1..], ys);
      assert (xs + ys)[1..] == xs[1..] + ys;
    }
  }

  lemma To8Join(a: seq<unit>, b: seq<unit>)
    requires DecodeAll16(a + b) == DecodeAll16(a) + DecodeAll16(b)
    ensures To8(a + b) == To8(a) + To8(b)
  {
    hide DecodeAll16;
    hide EncodeAll;
    var x, y := Text16(a), Text16(b);
    Decoded16Scalars(a);
    Decoded16Scalars(b);
    Decoded16Scalars(a + b);
    assert Text16(a + b) == x + y;
    EncodeAllConcat(x, y);
  }

  function Spoilt16(n: nat): (s: seq<unit>)
    ensures |s| == n
  {
    seq(Len32(n), _ => 0x41) + seq(n - Len32(n), _ => 0xDC00)
  }

  lemma Spoilt16IsMisread(n: nat)
    requires n >= INT_LIMIT
    ensures var s := Spoilt16(n);
            && Paired(s[..Len32(n)]) && !Paired(s)
            && To8(s[..Len32(n)]) != To8(s)
  {
    hide Len32;
    hide To8;
    var s, m := Spoilt16(n), Len32(n);
    var good, rest := s[..m], s[m..];
    assert s == good + rest && rest[0] == 0xDC00;
    assert IsTrail16(s[m]) && (m > 0 ==> s[m - 1] == 0x41);
    assert Paired(good);
    PairedIffNoError(good);
    Decode16AfterClean(good, rest);
    To8Join(good, rest);
    To8Step(rest);
  }

  /** The same for texts of n 16-bit units. */
  lemma ConversionRightIff16(n: nat)
    ensures (forall s: seq<unit> | |s| == n :: To8(s[..Len32(n)]) == To8(s)) <==> n < INT_LIMIT
    ensures (forall s: seq<unit> | |s| == n :: Paired(s[..Len32(n)]) == Paired(s)) <==> n < INT_LIMIT
  {
    hide Len32;
    hide To8;
    hide Paired;
    if n < INT_LIMIT {
      forall s: seq<unit> | |s| == n ensures s[..Len32(n)] == s {
      }
    } else {
      Spoilt16IsMisread(n);
      assert |Spoilt16(n)| == n;
    }
  }

  // ----- the two conversions of the program, one after the other -----

  lemma {:induction false} To16NotLonger(s: seq<byte>)
    ensures |To16(s)| <= |s|
  {
    hide Next;
    hide To16;
    if s == [] {
      To16Ends();
    } else {
      To16Step(s);
      if Next(s).c != -1 {
        NextIsEncode(s);
      }
      To16NotLonger(s[Next(s).used..]);
    }
  }

  lemma {:induction false} To8AtMostThreefold(s: seq<unit>)
    ensures |s| <= |To8(s)| <= 3 * |s|
  {
    hide Next16;
    hide To8;
    if s == [] {
      To8Ends();
    } else {
      To8Step(s);
      var r := Next16(s);
      if r.c != -1 {
        Next16IsEncode(s);
      }
      To8AtMostThreefold(s[r.used..]);
    }
  }

  lemma WellFormedEnd(s: seq<byte>)
    requires WellFormed(s)
    ensures !LeadAtLimit(s)
  {
    if LeadAtLimit(s) {
      WellFormedIffNoError(s);
      LastLeadIsError(s);
    }
  }

  lemma {:induction false} LastLeadIsError(s: seq<byte>)
    requires s != [] && 0xE0 <= s[|s| - 1] < 0xF0
    ensures -1 in DecodeAll(s)
  {
    if |s| == 1 {
      assert DecodeAll(s)[0] == Next(s).c == -1;
    } else {
      assert s[0..] == s;
      SkipsNoLead(s, 0);
      hide Next;
      var rest := s[Next(s).used..];
      LastLeadIsError(rest);
      var k :| 0 <= k < |DecodeAll(rest)| && DecodeAll(rest)[k] == -1;
      assert DecodeAll(s)[k + 1] == -1;
    }
  }

  /** Repairing the front of well-formed text makes it little longer. */
  lemma {:induction false} RepairedFront(s: seq<byte>, m: nat)
    requires -1 !in DecodeAll(s) && m <= |s|
    ensures |To8(To16(s[..m]))| <= m + 6
  {
    hide Next;
    hide To16;
    hide To8;
    if m < 4 {
      To16NotLonger(s[..m]);
      To8AtMostThreefold(To16(s[..m]));
    } else {
      var n := Next(s).used;
      assert DecodeAll(s)[0] == Next(s).c && DecodeAll(s)[1..] == DecodeAll(s[n..]);
      NextIsEncode(s);
      RepairedFront(s[n..], m - n);
      assert s[..m] == s[..n] + s[n..][..m - n];
      OneRepaired(Next(s).c, s[n..][..m - n]);
    }
  }

  lemma OneRepaired(c: int, rest: seq<byte>)
    requires IsScalar(c)
    ensures To8(To16(Encode(c) + rest)) == Encode(c) + To8(To16(rest))
  {
    hide Next;
    hide Next16;
    hide To16;
    hide To8;
    var e := Encode(c);
    NextInvertsEncode(c, rest);
    To16Step(e + rest);
    assert (e + rest)[|e|..] == rest;
    var f, u := Encode16(c), To16(rest);
    Next16InvertsEncode(c, u);
    To8Step(f + u);
    assert (f + u)[|f|..] == u;
  }

  /** Bytes to 16-bit units and back, as the program does it. */
  function ThereAndBack8(s: seq<byte>): (r: seq<byte>) {
    var u := To16(s[..Len32(|s|)]);
    To8(u[..Len32(|u|)])
  }

  /** The identity exactly on well-formed text of fewer than 2^31 bytes, and there everything is defined. */
  lemma ProgramRoundTrip8(s: seq<byte>)
    ensures ThereAndBack8(s) == s <==> WellFormed(s) && |s| < INT_LIMIT
    ensures WellFormed(s) && |s| < INT_LIMIT ==> !LeadAtLimit(s[..Len32(|s|)])
  {
    hide To16;
    hide To8;
    hide WellFormed;
    var m := Len32(|s|);
    To16NotLonger(s[..m]);
    var u := To16(s[..m]);
    assert u[..Len32(|u|)] == u;
    if |s| < INT_LIMIT {
      assert s[..m] == s;
      RoundTrip8(s);
      if WellFormed(s) {
        WellFormedEnd(s);
      }
    } else if To8(u) == s {
      OutputWellFormed8(u);
      WellFormedIffNoError(s);
      RepairedFront(s, m);
    }
  }

  /** 16-bit units to bytes and back, as the program does it. */
  function ThereAndBack16(s: seq<unit>): (r: seq<unit>) {
    var u := To8(s[..Len32(|s|)]);
    To16(u[..Len32(|u|)])
  }

  /** The identity exactly on paired text whose bytes are fewer than 2^31, and there everything is defined. */
  lemma ProgramRoundTrip16(s: seq<unit>)
    ensures ThereAndBack16(s) == s <==> Paired(s) && |To8(s)| < INT_LIMIT
    ensures |To8(s)| < INT_LIMIT ==> !LeadAtLimit(To8(s[..Len32(|s|)]))
  {
    hide To16;
    hide To8;
    hide Paired;
    hide LeadAtLimit;
    To8AtMostThreefold(s);
    var m := Len32(|s|);
    var u := To8(s[..m]);
    To8AtMostThreefold(s[..m]);
    To16NotLonger(u[..Len32(|u|)]);
    OutputWellFormed8(s[..m]);
    WellFormedEnd(u);
    if |s| < INT_LIMIT {
      assert s[..m] == s;
      if |u| < INT_LIMIT {
        assert u[..Len32(|u|)] == u;
        RoundTrip16(s);
      } else {
        FarApart(|s|, |u|);
      }
    }
  }

  lemma FarApart(n: nat, k: nat)
    requires n < INT_LIMIT <= k <= 3 * n
    ensures Len32(k) < n
  {
  }

  /** Paired text that does not come back: 2^30 units, each a character of three bytes. */
  lemma LongTextIsCut()
    ensures var s: seq<unit> := seq(0x4000_0000, _ => 0x800);
            Paired(s) && ThereAndBack16(s) != s
  {
    var s: seq<unit> := seq(0x4000_0000, _ => 0x800);
    hide To8;
    hide ThereAndBack16;
    ThreeBytesEach(0x4000_0000);
    ProgramRoundTrip16(s);
    assert Paired(s);
  }

  lemma {:induction false} ThreeBytesEach(n: nat)
    ensures var s: seq<unit> := seq(n, _ => 0x800); |To8(s)| == 3 * n
  {
    hide To8;
    var s: seq<unit> := seq(n, _ => 0x800);
    if n == 0 {
      assert s == [];
      To8Ends();
    } else {
      var t: seq<unit> := seq(n - 1, _ => 0x800);
      ThreeBytesEach(n - 1);
      To8Step(s);
      assert s[1..] == t;
    }
  }
}
