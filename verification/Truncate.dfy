/**
 Validation and truncation of UTF-8 text (IsStringUTF8 and TruncateUTF8ToByteSize in
 string_util.cpp): the backward search for the last whole character that fits.
 */
module Truncate {
  import opened Words
  import opened Utf8

  /** `IsValidCharacter`: a scalar value that is not one of the noncharacters. */
  predicate IsCharacter(c: int) {
    || 0 <= c < 0xD800
    || 0xE000 <= c < 0xFDD0
    || (0xFDEF < c <= 0x10FFFF && c % 0x1_0000 / 2 * 2 != 0xFFFE)
  }

  lemma CharacterIsScalar(c: int)
    ensures IsCharacter(c) ==> IsScalar(c)
  {
  }

  /** The scalar values left out are the noncharacters: 32 in a row, and the last two of each plane. */
  lemma Noncharacters(c: int)
    ensures IsScalar(c) && !IsCharacter(c) <==>
            || 0xFDD0 <= c <= 0xFDEF
            || exists plane | 0 <= plane <= 16 :: plane * 0x1_0000 + 0xFFFE <= c <= plane * 0x1_0000 + 0xFFFF
  {
    if IsScalar(c) && !IsCharacter(c) && !(0xFDD0 <= c <= 0xFDEF) {
      var plane := c / 0x1_0000;
      assert plane * 0x1_0000 + 0xFFFE <= c <= plane * 0x1_0000 + 0xFFFF;
    }
  }

  /** What `IsStringUTF8` accepts. */
  predicate Accepted(s: seq<byte>) {
    forall k | 0 <= k < |DecodeAll(s)| :: IsCharacter(DecodeAll(s)[k])
  }

  /** The reader gets to a lead byte at the very end, with nothing to refuse before it. */
  predicate Overruns(s: seq<byte>) {
    LeadAtLimit(s) && Accepted(s[..|s| - 1])
  }

  /** `IsStringUTF8`; the length is cast to 32 bits. */
  method IsStringUtf8(s: seq<byte>) returns (defined: bool, ok: bool)
    ensures defined <==> !Overruns(s[..Len32(|s|)])
    ensures defined ==> (ok <==> Accepted(s[..Len32(|s|)]))
  {
    hide Next;
    hide IsCharacter;
    hide Accepted;
    var length := Int32(|s|);
    ghost var text := s[..Len32(|s|)];
    var i := 0;
    AcceptedEmpty();
    assert text[0..] == text && text[..0] == [];
    while i < length
      invariant i <= |text| && Accepted(text[..i])
      invariant LeadAtLimit(text) ==> i < |text|
    {
      var c, next;
      defined, c, next := NextChar(s, i, length);
      if !defined {
        assert text[..|text| - 1] == text[..i];
        return defined, false;
      }
      assert s[i..length] == text[i..];
      if !IsCharacter(c) {
        RefusedHere(text, i);
        return true, false;
      }
      AcceptedHere(text, i);
      i := next;
    }
    assert text[..i] == text;
    return true, true;
  }

  /** A character read after accepted text, and what is left for the lead byte at the end. */
  lemma AcceptedHere(s: seq<byte>, at: nat)
    requires at < |s| && Accepted(s[..at]) && IsCharacter(Next(s[at..]).c)
    ensures var next := at + Next(s[at..]).used;
            Accepted(s[..next]) && (at + 1 < |s| && LeadAtLimit(s) ==> next < |s|)
  {
    hide Next;
    hide Encode;
    hide IsCharacter;
    hide Accepted;
    var t := s[at..];
    var r := Next(t);
    CharacterIsScalar(-1);
    NextIsEncode(t);
    NextInvertsEncode(r.c, []);
    assert t[..r.used] == Encode(r.c) + [];
    AcceptedStep(t[..r.used]);
    assert t[..r.used][r.used..] == [];
    AcceptedEmpty();
    AcceptedConcat(s[..at], t[..r.used]);
    assert s[..at + r.used] == s[..at] + t[..r.used];
    SkipsNoLead(s, at);
  }

  /** What is no character after accepted text makes the text refused, and so it is without its last lead byte. */
  lemma RefusedHere(s: seq<byte>, at: nat)
    requires at < |s| && Accepted(s[..at]) && !IsCharacter(Next(s[at..]).c)
    ensures !Accepted(s)
    ensures at + 1 < |s| && LeadAtLimit(s) ==> !Accepted(s[..|s| - 1])
  {
    hide Next;
    hide IsCharacter;
    hide Accepted;
    AcceptedStep(s[at..]);
    AcceptedConcat(s[..at], s[at..]);
    assert s == s[..at] + s[at..];
    if at + 1 < |s| && LeadAtLimit(s) {
      var front, last := s[at..|s| - 1], s[|s| - 1..];
      assert s[at..] == front + last && last[0] == s[|s| - 1];
      NextStopsAtLead(front, last);
      AcceptedStep(front);
      AcceptedConcat(s[..at], front);
      assert s[..|s| - 1] == s[..at] + front;
    }
  }

  lemma AcceptedEmpty()
    ensures Accepted([])
  {
  }

  lemma AcceptedStep(s: seq<byte>)
    requires s != []
    ensures Accepted(s) <==> IsCharacter(Next(s).c) && Accepted(s[Next(s).used..])
  {
    hide Next;
    hide IsCharacter;
    var cs, rest := DecodeAll(s), DecodeAll(s[Next(s).used..]);
    assert cs[0] == Next(s).c && cs[1..] == rest;
    assert forall k | 0 <= k < |rest| :: rest[k] == cs[k + 1];
    assert forall k | 0 < k < |cs| :: cs[k] == rest[k - 1];
  }

  predicate Characters(cs: seq<int>) {
    Scalars(cs) && forall k | 0 <= k < |cs| :: IsCharacter(cs[k])
  }

  /** Accepted text is the encoding of scalar values that are not noncharacters. */
  lemma AcceptedIsEncoding(s: seq<byte>)
    ensures Accepted(s) <==> exists cs | Characters(cs) :: s == EncodeAll(cs)
  {
    WellFormedIffNoError(s);
    CharacterIsScalar(-1);
    if Accepted(s) {
      assert WellFormed(s) && Characters(DecodeAll(s));
    }
    if cs :| Characters(cs) && s == EncodeAll(cs) {
      DecodeInvertsEncode(cs);
    }
  }

  /** Accepted text followed by more: accepted exactly when the rest is. */
  lemma AcceptedConcat(a: seq<byte>, b: seq<byte>)
    requires Accepted(a)
    ensures Accepted(a + b) <==> Accepted(b)
  {
    hide IsCharacter;
    CharacterIsScalar(-1);
    DecodeAfterClean(a, b);
    var x, y, z := DecodeAll(a), DecodeAll(b), DecodeAll(a + b);
    assert forall k | 0 <= k < |y| :: y[k] == z[|x| + k];
  }

  /** In accepted text a prefix is accepted wherever the next byte is not a trail byte. */
  lemma AcceptedCut(a: seq<byte>, b: seq<byte>)
    requires Accepted(a + b) && (b == [] || !IsTrail(b[0]))
    ensures Accepted(a)
  {
    hide IsCharacter;
    DecodeConcat(a, b);
    var x, z := DecodeAll(a), DecodeAll(a + b);
    assert forall k | 0 <= k < |x| :: x[k] == z[k];
  }

  // ----- truncation -----

  /** A character that ends by the limit can be read at position p. */
  predicate Readable(s: seq<byte>, p: nat, limit: nat)
    requires p < limit <= |s|
  {
    IsCharacter(Next(s[p..limit]).c)
  }

  /** A character can be read from p up to `end`, and none starts later. */
  ghost predicate LastCharacter(s: seq<byte>, p: nat, limit: nat, end: nat)
    requires p < limit <= |s|
  {
    && Readable(s, p, limit)
    && end == p + Next(s[p..limit]).used
    && forall q | p < q < limit :: !Readable(s, q, limit)
  }

  /** Text cut after the last character that fits the limit, or to nothing. */
  ghost predicate TruncatedTo(s: seq<byte>, limit: nat, end: nat)
    requires limit <= |s|
  {
    || (end == 0 && forall q | 0 <= q < limit :: !Readable(s, q, limit))
    || exists p | 0 <= p < limit :: LastCharacter(s, p, limit, end)
  }

  /** After an accepted prefix, a longer accepted prefix shows a readable character. */
  lemma LongerIsReadable(s: seq<byte>, e: nat, n: nat, limit: nat)
    requires e < n <= limit <= |s| && Accepted(s[..e]) && Accepted(s[..n])
    ensures Readable(s, e, limit)
  {
    hide IsCharacter;
    hide Accepted;
    hide Next;
    hide Encode;
    var t := s[e..n];
    assert s[..n] == s[..e] + t;
    AcceptedConcat(s[..e], t);
    AcceptedStep(t);
    CharacterIsScalar(-1);
    NextIsEncode(t);
    var c, rest := Next(t).c, s[e + Next(t).used..limit];
    NextInvertsEncode(c, rest);
    assert s[e..limit] == Encode(c) + rest;
  }

  lemma ReadableStartsCharacter(s: seq<byte>, p: nat, limit: nat)
    requires p < limit <= |s| && Readable(s, p, limit)
    ensures !IsTrail(s[p])
  {
    assert s[p..limit][0] == s[p];
  }

  /** A readable character after an accepted prefix makes a longer accepted prefix. */
  lemma ReadableExtends(s: seq<byte>, p: nat, limit: nat)
    requires p < limit <= |s| && Readable(s, p, limit) && Accepted(s[..p])
    ensures Accepted(s[..p + Next(s[p..limit]).used])
  {
    hide IsCharacter;
    var t := s[p..limit];
    CharacterIsScalar(-1);
    NextIsEncode(t);
    hide Next;
    hide Encode;
    var r := Next(t);
    NextInvertsEncode(r.c, []);
    assert t[..r.used] == Encode(r.c) + [];
    AcceptedStep(t[..r.used]);
    assert t[..r.used][r.used..] == [];
    AcceptedEmpty();
    AcceptedConcat(s[..p], t[..r.used]);
    assert s[..p + r.used] == s[..p] + t[..r.used];
  }

  /** The result is at least as long as every accepted prefix within the limit, on any input. */
  lemma NoAcceptedPrefixIsLonger(s: seq<byte>, limit: nat, end: nat, n: nat)
    requires limit <= |s| && TruncatedTo(s, limit, end)
    requires n <= limit && Accepted(s[..n])
    ensures n <= end
  {
    hide IsCharacter;
    hide Readable;
    hide Accepted;
    if end < n {
      if p :| 0 <= p < limit && LastCharacter(s, p, limit, end) {
        ReadableStartsCharacter(s, p, limit);
        assert s[..n] == s[..p] + s[p..n];
        assert s[p..n][0] == s[p];
        AcceptedCut(s[..p], s[p..n]);
        ReadableExtends(s, p, limit);
        LongerIsReadable(s, end, n, limit);
      } else {
        AcceptedEmpty();
        assert s[..0] == [];
        LongerIsReadable(s, 0, n, limit);
      }
    }
  }

  /** The longest accepted prefix within the limit ends here. */
  ghost predicate Longest(s: seq<byte>, limit: nat, end: nat)
    requires limit <= |s|
  {
    && end <= limit
    && Accepted(s[..end])
    && forall n | 0 <= n <= limit && Accepted(s[..n]) :: n <= end
  }

  /** Of accepted text, truncation keeps the longest accepted prefix within the limit. */
  lemma TruncationIsLongestPrefix(s: seq<byte>, limit: nat, end: nat)
    requires limit <= |s| && TruncatedTo(s, limit, end) && Accepted(s)
    ensures Longest(s, limit, end)
  {
    hide IsCharacter;
    hide Readable;
    hide Accepted;
    forall n | 0 <= n <= limit && Accepted(s[..n]) ensures n <= end {
      NoAcceptedPrefixIsLonger(s, limit, end, n);
    }
    if p :| 0 <= p < limit && LastCharacter(s, p, limit, end) {
      ReadableStartsCharacter(s, p, limit);
      assert s == s[..p] + s[p..];
      AcceptedCut(s[..p], s[p..]);
      ReadableExtends(s, p, limit);
    } else {
      AcceptedEmpty();
      assert s[..0] == [];
    }
  }

  /** Where a limit is cast to -2^31, or to 2^31 - 1 with a lead byte before it, an index overflows. */
  predicate Overflows(input: seq<byte>, byteSize: nat)
    requires byteSize <= |input|
  {
    || Int32(byteSize) == -INT_LIMIT
    || (Int32(byteSize) == INT_LIMIT - 1 && 0xE0 <= input[INT_LIMIT - 2] < 0xF0)
  }

  /**
   `TruncateUTF8ToByteSize`; the limit is cast to 32 bits. With `checks` on, a limit that does not
   fit ends the program.
   */
  method TruncateToByteSize(input: seq<byte>, byteSize: nat, checks: bool)
    returns (defined: bool, output: seq<byte>)
    ensures defined <==> || byteSize > |input|
                         || ((checks ==> byteSize < INT_LIMIT) && !Overflows(input, byteSize))
    ensures defined ==> output <= input && (byteSize > |input| ==> output == input)
    ensures defined && byteSize <= |input| ==> TruncatedTo(input, Len32(byteSize), |output|)
    ensures defined && Accepted(input) ==> Accepted(output)
    ensures defined && Accepted(input) && byteSize <= |input| ==> Longest(input, Len32(byteSize), |output|)
  {
    defined := true;
    if byteSize > |input| {
      return defined, input;
    }
    hide Next;
    hide IsCharacter;
    hide Accepted;
    if checks && byteSize >= INT_LIMIT {
      return false, [];
    }
    var limit := Int32(byteSize);
    if limit == -INT_LIMIT {
      return false, [];
    }
    ghost var bound := Len32(byteSize);
    var i := limit - 1;
    ghost var top := bound - 1;
    while i >= 0
      invariant -1 <= top < bound && (i == top || (bound == 0 && i < 0 && top == -1))
      invariant i < limit - 1 ==> !Overflows(input, byteSize)
      invariant forall q | top < q < bound :: !Readable(input, q, bound)
      decreases i
    {
      var prev := i;
      var c;
      defined, c, i := NextChar(input, i, limit);
      if !defined {
        return defined, [];
      }
      if !IsCharacter(c) || !IsScalar(c) {
        CharacterIsScalar(c);
        i := prev - 1;
        top := i;
      } else {
        assert LastCharacter(input, prev, bound, i);
        break;
      }
    }
    defined := true;
    if i >= 0 {
      output := input[..i];
    } else {
      output := [];
    }
    assert TruncatedTo(input, bound, |output|);
    if Accepted(input) {
      TruncationIsLongestPrefix(input, bound, |output|);
      assert output == input[..|output|];
    }
  }

  // ----- what the 32-bit length does -----

  lemma {:induction false} AsciiAccepted(s: seq<byte>)
    requires forall k | 0 <= k < |s| :: s[k] < 0x80
    ensures Accepted(s)
  {
    if s != [] {
      AcceptedStep(s);
      AsciiAccepted(s[1..]);
    }
  }

  ghost predicate VerdictRight(s: seq<byte>) {
    !Overruns(s[..Len32(|s|)]) && (Accepted(s[..Len32(|s|)]) <==> Accepted(s))
  }

  /** The verdict on texts of n bytes is defined and right if and only if n is below 2^31 - 1. */
  lemma AcceptanceRightIff(n: nat)
    ensures (forall s: seq<byte> | |s| == n :: VerdictRight(s)) <==> n < INT_LIMIT - 1
  {
    hide Len32;
    hide Accepted;
    if n < INT_LIMIT - 1 {
      forall s: seq<byte> | |s| == n ensures VerdictRight(s) {
        assert s[..Len32(n)] == s;
      }
    } else if n == INT_LIMIT - 1 {
      var good: seq<byte> := seq(n - 1, _ => 0x41);
      var s := good + [0xE0];
      AsciiAccepted(good);
      assert s[..Len32(n)] == s && s[..n - 1] == good;
      assert !VerdictRight(s);
    } else {
      var s, m := Spoilt(n), Len32(n);
      var good, rest := s[..m], s[m..];
      assert s == good + rest && rest[0] == 0xFF;
      AsciiAccepted(good);
      AcceptedConcat(good, rest);
      AcceptedStep(rest);
      assert Next(rest).c == -1;
      assert !VerdictRight(s);
    }
  }

  /** Every accepted text of at least `limit` bytes is cut, and to its longest accepted prefix. */
  ghost predicate CutsRight(limit: nat) {
    forall s: seq<byte>, end: nat | |s| >= limit && Accepted(s) && TruncatedTo(s, Len32(limit), end) ::
      !Overflows(s, limit) && Longest(s, limit, end)
  }

  /** Truncation is defined and right if and only if the limit is below 2^31 - 1. */
  lemma TruncationRightIff(limit: nat)
    ensures CutsRight(limit) <==> limit < INT_LIMIT - 1
  {
    if limit < INT_LIMIT - 1 {
      hide Accepted;
      forall s: seq<byte>, end: nat | |s| >= limit && Accepted(s) && TruncatedTo(s, Len32(limit), end)
        ensures !Overflows(s, limit) && Longest(s, limit, end)
      {
        TruncationIsLongestPrefix(s, limit, end);
      }
    } else if limit == INT_LIMIT - 1 {
      LeadBeforeLimit();
    } else {
      LimitIsCast(limit);
    }
  }

  lemma LimitIsCast(limit: nat)
    requires limit >= INT_LIMIT
    ensures !CutsRight(limit)
  {
    hide Len32;
    hide Accepted;
    hide Overflows;
    var s: seq<byte>, m := seq(limit, _ => 0x41), Len32(limit);
    AsciiAccepted(s);
    assert s[..limit] == s;
    if m > 0 {
      assert s[m - 1..m] == [0x41];
      assert LastCharacter(s, m - 1, m, m);
    }
    assert TruncatedTo(s, m, m);
    assert !Longest(s, limit, m);
  }

  /** Accepted text with a three-byte character across the limit. */
  lemma LeadBeforeLimit()
    ensures !CutsRight(INT_LIMIT - 1)
  {
    hide Accepted;
    var limit := INT_LIMIT - 1;
    var front: seq<byte>, back: seq<byte> := seq(limit - 1, _ => 0x41), [0xE0, 0xA0, 0x80];
    var s := front + back;
    AsciiAccepted(front);
    AcceptedConcat(front, back);
    AcceptedStep(back);
    assert back[3..] == [];
    AcceptedEmpty();
    assert Next(back) == Read(0x800, 3);
    assert s[limit - 1] == 0xE0;
    assert Overflows(s, limit);
    var end := EndFrom(s, limit, limit);
    assert TruncatedTo(s, Len32(limit), end);
  }

  /** The search always ends somewhere. */
  lemma {:induction false} EndFrom(s: seq<byte>, limit: nat, top: nat) returns (end: nat)
    requires top <= limit <= |s| && forall q | top <= q < limit :: !Readable(s, q, limit)
    ensures TruncatedTo(s, limit, end)
  {
    hide Readable;
    if top == 0 {
      end := 0;
    } else if Readable(s, top - 1, limit) {
      end := top - 1 + Next(s[top - 1..limit]).used;
      assert LastCharacter(s, top - 1, limit, end);
    } else {
      end := EndFrom(s, limit, top - 1);
    }
  }
}
