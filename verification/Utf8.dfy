/**
 UTF-8 one character at a time (icu_utf.h, icu_utf.cpp): the bit-table driven reader with its
 error recovery, and the writer, against the encoding itself (section 4 of RFC 3629).
 Shifts and masks are written as division, remainder and sums of disjoint bits.
 */
module Utf8 {
  import opened Words

  predicate IsScalar(c: int) {
    0 <= c < 0xD800 || 0xE000 <= c <= 0x10FFFF
  }

  predicate IsTrail(b: byte) {
    0x80 <= b < 0xC0
  }

  /** `CBU8_APPEND_UNSAFE`. */
  function Encode(c: int): (s: seq<byte>)
    requires IsScalar(c)
    ensures 1 <= |s| <= 4
  {
    if c <= 0x7F then [c]
    else if c <= 0x7FF then [0xC0 + c / 64, 0x80 + c % 64]
    else if c <= 0xFFFF then [0xE0 + c / 4096, 0x80 + c / 64 % 64, 0x80 + c % 64]
    else [0xF0 + c / 0x4_0000, 0x80 + c / 4096 % 64, 0x80 + c / 64 % 64, 0x80 + c % 64]
  }

  // ----- the validity tables -----

  /** `CBU8_LEAD3_T1_BITS`, indexed by the low bits of the lead byte. */
  function Lead3Bits(i: nat): (x: byte)
    requires i < 16
  {
    if i == 0 then 0x20 else if i == 13 then 0x10 else 0x30
  }

  /** `CBU8_LEAD4_T1_BITS`, indexed by the high bits of the first trail byte. */
  function Lead4Bits(i: nat): (x: byte)
    requires i < 16
  {
    if i == 8 then 0x1E else if 9 <= i <= 11 then 0x0F else 0
  }

  /** `x & (1 << k)` is not zero. */
  predicate Bit(x: byte, k: nat)
    requires k < 8
  {
    match k
    case 0 => x % 2 == 1
    case 1 => x / 2 % 2 == 1
    case 2 => x / 4 % 2 == 1
    case 3 => x / 8 % 2 == 1
    case 4 => x / 16 % 2 == 1
    case 5 => x / 32 % 2 == 1
    case 6 => x / 64 % 2 == 1
    case _ => x / 128 % 2 == 1
  }

  predicate ValidLead3(lead: byte, t1: byte) {
    Bit(Lead3Bits(lead % 16), t1 / 32)
  }

  predicate ValidLead4(lead: byte, t1: byte) {
    Bit(Lead4Bits(t1 / 16), lead % 8)
  }

  lemma TableBits(k: nat)
    requires k < 8
    ensures Bit(0x20, k) <==> k == 5
    ensures Bit(0x10, k) <==> k == 4
    ensures Bit(0x30, k) <==> 4 <= k <= 5
    ensures Bit(0x1E, k) <==> 1 <= k <= 4
    ensures Bit(0x0F, k) <==> k <= 3
    ensures !Bit(0, k)
  {
  }

  /** The second byte allowed after each lead byte (table 3-7 of the Unicode Standard). */
  predicate SecondOk(lead: byte, t1: byte) {
    && IsTrail(t1)
    && (lead == 0xE0 ==> 0xA0 <= t1)
    && (lead == 0xED ==> t1 <= 0x9F)
    && (lead == 0xF0 ==> 0x90 <= t1)
    && (lead == 0xF4 ==> t1 <= 0x8F)
  }

  lemma Lead3Table(lead: byte, t1: byte)
    requires 0xE0 <= lead < 0xF0
    ensures ValidLead3(lead, t1) <==> SecondOk(lead, t1)
  {
    TableBits(t1 / 32);
    hide Bit;
  }

  lemma Lead4Table(lead: byte, t1: byte)
    requires 0xF0 <= lead <= 0xF4
    ensures ValidLead4(lead, t1) <==> SecondOk(lead, t1)
  {
    TableBits(lead % 8);
    hide Bit;
  }

  // ----- the reader -----

  /** A code point, or -1 for an error, and the number of bytes consumed. */
  datatype Read = Read(c: int, used: nat)

  function Join2(b0: byte, b1: byte): (c: int) {
    b0 % 32 * 64 + b1 % 64
  }

  function Join3(b0: byte, b1: byte, b2: byte): (c: int) {
    b0 % 16 * 4096 + b1 % 64 * 64 + b2 % 64
  }

  function Join4(b0: byte, b1: byte, b2: byte, b3: byte): (c: int) {
    b0 % 8 * 0x4_0000 + b1 % 64 * 4096 + b2 % 64 * 64 + b3 % 64
  }

  /** One character from the front of the text, stated by table 3-7. */
  function Next(s: seq<byte>): (r: Read)
    requires s != []
    ensures 1 <= r.used <= |s| && r.used <= 4
  {
    var b := s[0];
    if b < 0x80 then Read(b, 1)
    else if b < 0xC2 || b > 0xF4 || |s| == 1 || !SecondOk(b, s[1]) then Read(-1, 1)
    else if b < 0xE0 then Read(Join2(b, s[1]), 2)
    else if |s| == 2 || !IsTrail(s[2]) then Read(-1, 2)
    else if b < 0xF0 then Read(Join3(b, s[1], s[2]), 3)
    else if |s| == 3 || !IsTrail(s[3]) then Read(-1, 3)
    else Read(Join4(b, s[1], s[2], s[3]), 4)
  }

  /**
   `utf8_nextCharSafeBody` with strict -1: the index is one after the lead byte `lead`. A length
   that the index has passed, such as a negative one, is never met.
   */
  method NextCharSafeBody(s: seq<byte>, pi: nat, length: int, lead: byte) returns (c: int, i: nat)
    requires 1 <= pi <= |s| && s[pi - 1] == lead >= 0x80
    requires if length < pi then pi + 3 <= |s| else length <= |s|
    ensures var end := if length < pi then |s| else length;
            pi <= i <= end && Read(c, i - pi + 1) == Next(s[pi - 1..end])
  {
    i := pi;
    ghost var t := s[pi - 1..if length < pi then |s| else length];
    assert t[0] == lead && forall k :: 0 <= k < |t| ==> t[k] == s[pi - 1 + k];
    if i == length || lead > 0xF4 {
    } else if lead >= 0xF0 {
      Lead4Table(lead, s[i]);
      var t1 := s[i];
      if ValidLead4(lead, t1) {
        i := i + 1;
        if i != length && IsTrail(s[i]) {
          var t2 := s[i];
          i := i + 1;
          if i != length && IsTrail(s[i]) {
            var t3 := s[i];
            i := i + 1;
            return Join4(lead, t1, t2, t3), i;
          }
        }
      }
    } else if lead >= 0xE0 {
      Lead3Table(lead, s[i]);
      var t1 := s[i];
      if ValidLead3(lead, t1) {
        i := i + 1;
        if i != length && IsTrail(s[i]) {
          var t2 := s[i];
          i := i + 1;
          return Join3(lead, t1, t2), i;
        }
      }
    } else if lead >= 0xC2 {
      if IsTrail(s[i]) {
        return Join2(lead, s[i]), i + 1;
      }
    }
    c := -1;
  }

  /**
   `CBU8_NEXT` with a 32-bit index: short sequences inline, the rest in the function above. At
   the last index there is, looking one further for a three-byte sequence overflows.
   */
  method NextChar(s: seq<byte>, at: nat, length: nat) returns (defined: bool, c: int, i: nat)
    requires at < length <= |s| && length < INT_LIMIT
    ensures defined <==> !(at + 2 == INT_LIMIT && 0xE0 <= s[at] < 0xF0)
    ensures defined ==> at < i <= length && Read(c, i - at) == Next(s[at..length])
  {
    hide ValidLead3;
    hide Join2;
    hide Join3;
    defined, c, i := true, s[at], at + 1;
    ghost var t := s[at..length];
    assert t[0] == c && forall k :: 0 <= k < |t| ==> t[k] == s[at + k];
    if c >= 0x80 {
      var lead := s[at];
      if 0xE0 <= lead < 0xF0 && i + 1 == INT_LIMIT {
        return false, c, i;
      }
      if 0xE0 <= lead < 0xF0 && i + 1 < length {
        Lead3Table(lead, s[i]);
      }
      if 0xE0 <= lead < 0xF0 && i + 1 < length && ValidLead3(lead, s[i]) && IsTrail(s[i + 1]) {
        c, i := Join3(lead, s[i], s[i + 1]), i + 2;
      } else if 0xC2 <= lead < 0xE0 && i != length && IsTrail(s[i]) {
        c, i := Join2(lead, s[i]), i + 1;
      } else {
        c, i := NextCharSafeBody(s, i, length, lead);
      }
    }
  }

  /** A text as long as a 32-bit index can count, with the lead byte of a three-byte sequence at its end. */
  predicate LeadAtLimit(s: seq<byte>) {
    |s| == INT_LIMIT - 1 && 0xE0 <= s[|s| - 1] < 0xF0
  }

  /** Behind its first byte a read takes only trail bytes. */
  lemma ReadsTrails(s: seq<byte>)
    requires s != []
    ensures forall k | 1 <= k < Next(s).used :: IsTrail(s[k])
  {
    hide Join2;
    hide Join3;
    hide Join4;
  }

  /** A read that does not begin at the last byte does not pass it when it is a lead byte. */
  lemma SkipsNoLead(s: seq<byte>, at: nat)
    requires at < |s|
    ensures at + 1 < |s| && !IsTrail(s[|s| - 1]) ==> at + Next(s[at..]).used < |s|
  {
    hide Next;
    var t := s[at..];
    ReadsTrails(t);
    if at + 1 < |s| && Next(t).used == |t| {
      assert t[|t| - 1] == s[|s| - 1];
    }
  }

  // ----- reading and writing -----

  /** The bytes of an encoding obey table 3-7. */
  lemma EncodeShape(c: int)
    requires IsScalar(c)
    ensures var e := Encode(c);
            && (|e| == 1 <==> e[0] < 0x80)
            && (|e| == 2 ==> 0xC2 <= e[0] < 0xE0)
            && (|e| == 3 ==> 0xE0 <= e[0] < 0xF0)
            && (|e| == 4 ==> 0xF0 <= e[0] <= 0xF4)
            && (|e| >= 2 ==> SecondOk(e[0], e[1]))
            && (|e| >= 3 ==> IsTrail(e[2]))
            && (|e| >= 4 ==> IsTrail(e[3]))
  {
  }

  /** Shifting by twelve and eighteen, six bits at a time. */
  lemma SixAtATime(c: nat)
    ensures c / 4096 == c / 64 / 64
    ensures c / 0x4_0000 == c / 64 / 64 / 64
  {
  }

  lemma LowSix(x: nat)
    requires x < 64
    ensures (0x80 + x) % 64 == x
  {
  }

  lemma Join3Encode(c: int)
    requires IsScalar(c) && 0x7FF < c <= 0xFFFF
    ensures var e := Encode(c); Join3(e[0], e[1], e[2]) == c
  {
    SixAtATime(c);
    LowSix(c / 64 % 64);
    LowSix(c % 64);
    assert (0xE0 + c / 4096) % 16 == c / 4096;
  }

  lemma Join4Encode(c: int)
    requires IsScalar(c) && 0xFFFF < c
    ensures var e := Encode(c); Join4(e[0], e[1], e[2], e[3]) == c
  {
    SixAtATime(c);
    LowSix(c / 4096 % 64);
    LowSix(c / 64 % 64);
    LowSix(c % 64);
    var top := c / 0x4_0000;
    assert top <= 4;
    assert (0xF0 + top) % 8 == top;
  }

  /** What was written is read back, whatever follows. */
  lemma NextInvertsEncode(c: int, rest: seq<byte>)
    requires IsScalar(c)
    ensures Next(Encode(c) + rest) == Read(c, |Encode(c)|)
  {
    EncodeShape(c);
    var e := Encode(c);
    if c <= 0x7F {
    } else if c <= 0x7FF {
      assert Join2(e[0], e[1]) == c;
    } else if c <= 0xFFFF {
      Join3Encode(c);
    } else {
      Join4Encode(c);
    }
    hide Encode;
    hide Join2;
    hide Join3;
    hide Join4;
    var t := e + rest;
    assert forall k :: 0 <= k < |e| ==> t[k] == e[k];
  }

  lemma EncodeJoin2(b0: byte, b1: byte)
    requires 0xC2 <= b0 < 0xE0 && IsTrail(b1)
    ensures var c := Join2(b0, b1); IsScalar(c) && Encode(c) == [b0, b1]
  {
    var c := Join2(b0, b1);
    assert c / 64 == b0 % 32 && c % 64 == b1 % 64;
  }

  lemma SixBitDigits(x: nat, y: nat, z: nat, w: nat)
    requires y < 64 && z < 64 && w < 64
    ensures var c := x * 0x4_0000 + y * 4096 + z * 64 + w;
            c / 0x4_0000 == x && c / 4096 % 64 == y && c / 64 % 64 == z && c % 64 == w
  {
    var c := x * 0x4_0000 + y * 4096 + z * 64 + w;
    SixAtATime(c);
    assert c / 64 == (x * 64 + y) * 64 + z;
    assert c / 64 / 64 == x * 64 + y;
  }

  lemma Join3Value(b0: byte, b1: byte, b2: byte)
    requires 0xE0 <= b0 < 0xF0 && IsTrail(b1) && IsTrail(b2)
    ensures Join3(b0, b1, b2) == (b0 - 0xE0) * 4096 + (b1 - 0x80) * 64 + (b2 - 0x80)
  {
    assert b1 % 64 == b1 - 0x80;
    assert b2 % 64 == b2 - 0x80;
  }

  lemma EncodeJoin3(b0: byte, b1: byte, b2: byte)
    requires 0xE0 <= b0 < 0xF0 && SecondOk(b0, b1) && IsTrail(b2)
    ensures var c := Join3(b0, b1, b2); IsScalar(c) && Encode(c) == [b0, b1, b2]
  {
    Join3Value(b0, b1, b2);
    hide Join3;
    assert 0x800 <= Join3(b0, b1, b2) <= 0xFFFF;
    SixBitDigits(0, b0 - 0xE0, b1 - 0x80, b2 - 0x80);
  }

  lemma Join4Value(b0: byte, b1: byte, b2: byte, b3: byte)
    requires 0xF0 <= b0 <= 0xF4 && IsTrail(b1) && IsTrail(b2) && IsTrail(b3)
    ensures Join4(b0, b1, b2, b3) == (b0 - 0xF0) * 0x4_0000 + (b1 - 0x80) * 4096 + (b2 - 0x80) * 64 + (b3 - 0x80)
  {
    assert b1 % 64 == b1 - 0x80;
    assert b2 % 64 == b2 - 0x80;
    assert b3 % 64 == b3 - 0x80;
  }

  lemma EncodeFromDigits(x: nat, y: nat, z: nat, w: nat)
    requires x < 5 && y < 64 && z < 64 && w < 64
    requires 0x1_0000 <= x * 0x4_0000 + y * 4096 + z * 64 + w <= 0x10_FFFF
    ensures Encode(x * 0x4_0000 + y * 4096 + z * 64 + w) == [0xF0 + x, 0x80 + y, 0x80 + z, 0x80 + w]
  {
    SixBitDigits(x, y, z, w);
  }

  lemma EncodeJoin4(b0: byte, b1: byte, b2: byte, b3: byte)
    requires 0xF0 <= b0 <= 0xF4 && SecondOk(b0, b1) && IsTrail(b2) && IsTrail(b3)
    ensures var c := Join4(b0, b1, b2, b3); IsScalar(c) && Encode(c) == [b0, b1, b2, b3]
  {
    Join4Value(b0, b1, b2, b3);
    hide Join4;
    hide Encode;
    var x, y, z, w := b0 - 0xF0, b1 - 0x80, b2 - 0x80, b3 - 0x80;
    assert x * 64 + y >= 16 && x * 64 + y <= 4 * 64 + 15;
    EncodeFromDigits(x, y, z, w);
  }

  /** What is read without error is the encoding of a scalar value. */
  lemma NextIsEncode(s: seq<byte>)
    requires s != [] && Next(s).c != -1
    ensures var r := Next(s); IsScalar(r.c) && s[..r.used] == Encode(r.c)
  {
    var b := s[0];
    if 0xC2 <= b < 0xE0 {
      EncodeJoin2(b, s[1]);
    } else if 0xE0 <= b < 0xF0 {
      EncodeJoin3(b, s[1], s[2]);
    } else if b >= 0xF0 {
      EncodeJoin4(b, s[1], s[2], s[3]);
    }
    hide Join2;
    hide Join3;
    hide Join4;
  }

  // ----- error recovery -----

  /** Bytes that start the encoding of some character and stop short of its end. */
  ghost predicate Unfinished(p: seq<byte>) {
    exists c | IsScalar(c) :: p < Encode(c)
  }

  /**
   An error consumes the longest beginning of a character that the text holds, or one byte
   when the first byte begins none: no longer prefix begins or completes any character.
   */
  lemma ErrorIsMaximalSubpart(s: seq<byte>)
    requires s != [] && Next(s).c == -1
    ensures Next(s).used == 1 || Unfinished(s[..Next(s).used])
    ensures forall n, c | Next(s).used < n <= |s| && IsScalar(c) :: !(s[..n] <= Encode(c))
    ensures forall c | IsScalar(c) :: !(Encode(c) <= s)
    ensures forall k | 1 <= k < Next(s).used :: IsTrail(s[k])
  {
    var used := Next(s).used;
    forall n, c | used < n <= |s| && IsScalar(c) ensures !(s[..n] <= Encode(c)) {
      NotLonger(s, n, c);
    }
    forall c | IsScalar(c) ensures !(Encode(c) <= s) {
      if Encode(c) <= s {
        assert s == Encode(c) + s[|Encode(c)|..];
        NextInvertsEncode(c, s[|Encode(c)|..]);
      }
    }
    if used > 1 {
      Unfinished2(s);
    }
  }

  lemma NotLonger(s: seq<byte>, n: nat, c: int)
    requires s != [] && Next(s).c == -1 && Next(s).used < n <= |s| && IsScalar(c)
    ensures !(s[..n] <= Encode(c))
  {
    EncodeShape(c);
    hide Encode;
    var e, p := Encode(c), s[..n];
    if p <= e {
      assert forall k | 0 <= k < n :: s[k] == p[k] == e[k];
    }
  }

  lemma Unfinished2(s: seq<byte>)
    requires s != [] && Next(s).c == -1 && Next(s).used > 1
    ensures Unfinished(s[..Next(s).used])
  {
    var b, p := s[0], s[..Next(s).used];
    var c;
    if b < 0xF0 {
      EncodeJoin3(b, s[1], 0x80);
      c := Join3(b, s[1], 0x80);
      assert p == [b, s[1]];
    } else {
      var t := if |p| == 2 then 0x80 else s[2];
      EncodeJoin4(b, s[1], t, 0x80);
      c := Join4(b, s[1], t, 0x80);
      assert p == [b, s[1], t][..|p|];
    }
    hide Join3;
    hide Join4;
    hide Encode;
    assert p < Encode(c);
  }

  // ----- whole texts -----

  predicate Scalars(cs: seq<int>) {
    forall k | 0 <= k < |cs| :: IsScalar(cs[k])
  }

  function EncodeAll(cs: seq<int>): (s: seq<byte>)
    requires Scalars(cs)
  {
    if cs == [] then [] else Encode(cs[0]) + EncodeAll(cs[1..])
  }

  /** The characters read one after another, -1 for each error. */
  function DecodeAll(s: seq<byte>): (cs: seq<int>) {
    if s == [] then [] else [Next(s).c] + DecodeAll(s[Next(s).used..])
  }

  /** Well-formed UTF-8: the encoding of some scalar values. */
  ghost predicate WellFormed(s: seq<byte>) {
    exists cs | Scalars(cs) :: s == EncodeAll(cs)
  }

  lemma {:induction false} DecodeInvertsEncode(cs: seq<int>)
    requires Scalars(cs)
    ensures DecodeAll(EncodeAll(cs)) == cs
  {
    if cs != [] {
      var e, rest := Encode(cs[0]), EncodeAll(cs[1..]);
      NextInvertsEncode(cs[0], rest);
      assert (e + rest)[|e|..] == rest;
      DecodeInvertsEncode(cs[1..]);
    }
  }

  lemma {:induction false} DecodedScalars(s: seq<byte>)
    ensures forall k | 0 <= k < |DecodeAll(s)| :: DecodeAll(s)[k] == -1 || IsScalar(DecodeAll(s)[k])
  {
    hide Next;
    if s != [] {
      if Next(s).c != -1 {
        NextIsEncode(s);
      }
      DecodedScalars(s[Next(s).used..]);
    }
  }

  lemma {:induction false} EncodeInvertsDecode(s: seq<byte>)
    requires Scalars(DecodeAll(s))
    ensures EncodeAll(DecodeAll(s)) == s
  {
    hide Next;
    hide Encode;
    if s != [] {
      var cs, rest := DecodeAll(s), s[Next(s).used..];
      assert cs[0] == Next(s).c && cs[1..] == DecodeAll(rest);
      NextIsEncode(s);
      EncodeInvertsDecode(rest);
      assert s == s[..Next(s).used] + rest;
    }
  }

  /** A text reads without error exactly when it is well formed. */
  lemma WellFormedIffNoError(s: seq<byte>)
    ensures WellFormed(s) <==> -1 !in DecodeAll(s)
    ensures WellFormed(s) ==> Scalars(DecodeAll(s)) && EncodeAll(DecodeAll(s)) == s
  {
    DecodedScalars(s);
    if -1 !in DecodeAll(s) {
      EncodeInvertsDecode(s);
    }
    if WellFormed(s) {
      var cs :| Scalars(cs) && s == EncodeAll(cs);
      DecodeInvertsEncode(cs);
    }
  }

  lemma NextStopsAtLead(a: seq<byte>, b: seq<byte>)
    requires a != [] && (b == [] || !IsTrail(b[0]))
    ensures Next(a + b) == Next(a)
  {
    hide Join2;
    hide Join3;
    hide Join4;
    assert forall k | 0 <= k < |a| :: (a + b)[k] == a[k];
    assert b != [] ==> (a + b)[|a|] == b[0];
  }

  /** The reader recovers at every byte that is not a trail byte, whatever damage precedes it. */
  lemma {:induction false} DecodeConcat(a: seq<byte>, b: seq<byte>)
    requires b == [] || !IsTrail(b[0])
    ensures DecodeAll(a + b) == DecodeAll(a) + DecodeAll(b)
  {
    hide Next;
    if a == [] {
      assert a + b == b;
    } else {
      NextStopsAtLead(a, b);
      var rest := a[Next(a).used..];
      DecodeConcat(rest, b);
      assert (a + b)[Next(a).used..] == rest + b;
    }
  }

  /** A text read without error reads the same whatever follows it. */
  lemma {:induction false} DecodeAfterClean(a: seq<byte>, b: seq<byte>)
    requires -1 !in DecodeAll(a)
    ensures DecodeAll(a + b) == DecodeAll(a) + DecodeAll(b)
  {
    hide Next;
    hide Encode;
    if a == [] {
      assert a + b == b;
    } else {
      var n := Next(a).used;
      assert DecodeAll(a)[0] == Next(a).c && DecodeAll(a)[1..] == DecodeAll(a[n..]);
      NextIsEncode(a);
      NextInvertsEncode(Next(a).c, a[n..] + b);
      assert a + b == Encode(Next(a).c) + (a[n..] + b);
      DecodeAfterClean(a[n..], b);
      assert (a + b)[n..] == a[n..] + b;
    }
  }

  lemma {:induction false} AsciiDecodes(s: seq<byte>)
    requires forall k | 0 <= k < |s| :: s[k] < 0x80
    ensures -1 !in DecodeAll(s)
  {
    if s != [] {
      AsciiDecodes(s[1..]);
    }
  }

  /** A text that is well formed as far as the cast length reaches, and not beyond. */
  function Spoilt(n: nat): (s: seq<byte>)
    ensures |s| == n
  {
    seq(Len32(n), _ => 0x41) + seq(n - Len32(n), _ => 0xFF)
  }

  // ----- the order of characters -----

  /** The first byte in which two encodings differ is smaller in the first of them. */
  ghost predicate Sooner(a: seq<int>, b: seq<int>) {
    exists k | 0 <= k < |a| && k < |b| :: a[..k] == b[..k] && a[k] < b[k]
  }

  lemma DiffersAt(a: seq<int>, b: seq<int>, k: nat)
    requires k < |a| && k < |b| && a[k] < b[k] && forall i | 0 <= i < k :: a[i] == b[i]
    ensures Sooner(a, b)
  {
    assert a[..k] == b[..k];
  }

  /**
   Texts sort by their bytes as they do by their characters (section 1 of RFC 3629). Together with
   the table of well-formed sequences this leaves no choice for the encoding.
   */
  lemma EncodeKeepsOrder(c: int, d: int)
    requires IsScalar(c) && IsScalar(d) && c < d
    ensures Sooner(Encode(c), Encode(d))
  {
    hide Sooner;
    var a, b := Encode(c), Encode(d);
    if a[0] != b[0] {
      LeadKeepsOrder(c, d);
      DiffersAt(a, b, 0);
    } else {
      SameLength(c, d);
      TrailsKeepOrder(c, d);
      DiffersAt(a, b, if a[1] != b[1] then 1 else if a[2] != b[2] then 2 else 3);
    }
  }

  lemma LeadKeepsOrder(c: int, d: int)
    requires IsScalar(c) && IsScalar(d) && c < d
    ensures Encode(c)[0] <= Encode(d)[0]
  {
  }

  lemma SameLength(c: int, d: int)
    requires IsScalar(c) && IsScalar(d) && c < d && Encode(c)[0] == Encode(d)[0]
    ensures |Encode(c)| == |Encode(d)| > 1
  {
  }

  lemma ByLastDigit(c: nat, d: nat)
    requires c < d
    ensures c / 64 < d / 64 || (c / 64 == d / 64 && c % 64 < d % 64)
  {
  }

  lemma DividedTwice(c: nat)
    ensures c / 64 / 64 == c / 4096 && c / 4096 / 64 == c / 0x4_0000
  {
  }

  lemma DigitsKeepOrder(c: nat, d: nat)
    requires c < d && c / 0x4_0000 == d / 0x4_0000
    ensures || c / 4096 % 64 < d / 4096 % 64
            || (&& c / 4096 == d / 4096
                && (c / 64 % 64 < d / 64 % 64 || (c / 64 == d / 64 && c % 64 < d % 64)))
  {
    DividedTwice(c);
    DividedTwice(d);
    ByLastDigit(c, d);
    var c1, d1 := c / 64, d / 64;
    if c1 < d1 {
      ByLastDigit(c1, d1);
      var c2, d2 := c / 4096, d / 4096;
      if c2 < d2 {
        ByLastDigit(c2, d2);
      }
    }
  }

  lemma TrailsKeepOrder(c: int, d: int)
    requires IsScalar(c) && IsScalar(d) && c < d
    requires Encode(c)[0] == Encode(d)[0] && |Encode(c)| == |Encode(d)| > 1
    ensures var a, b := Encode(c), Encode(d);
            || a[1] < b[1]
            || (a[1] == b[1] && |a| > 2 && (a[2] < b[2] || (a[2] == b[2] && |a| > 3 && a[3] < b[3])))
  {
    DigitsKeepOrder(c, d);
  }
}
