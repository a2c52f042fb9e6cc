/**
 UTF-16 one character at a time (icu_utf.h, utf_string_conversion_utils.cpp): surrogate pairs,
 with an error for each unpaired surrogate, against the encoding itself (section 2 of RFC 2781).
 */
module Utf16 {
  import opened Utf8

  type unit = x: int | 0 <= x < 0x1_0000

  const SURROGATE_OFFSET := 0xD800 * 1024 + 0xDC00 - 0x1_0000

  predicate IsLead16(u: unit) {
    0xD800 <= u < 0xDC00
  }

  predicate IsTrail16(u: unit) {
    0xDC00 <= u < 0xE000
  }

  /** `CBU16_APPEND_UNSAFE`. */
  function Encode16(c: int): (s: seq<unit>)
    requires IsScalar(c)
    ensures 1 <= |s| <= 2
  {
    if c <= 0xFFFF then [c] else [c / 1024 + 0xD7C0, 0xDC00 + c % 1024]
  }

  /** One character from the front of the text; an unpaired surrogate is an error of one unit. */
  function Next16(s: seq<unit>): (r: Read)
    requires s != []
    ensures 1 <= r.used <= |s| && r.used <= 2
  {
    if !(IsLead16(s[0]) || IsTrail16(s[0])) then Read(s[0], 1)
    else if !IsLead16(s[0]) || |s| == 1 || !IsTrail16(s[1]) then Read(-1, 1)
    else Read(s[0] * 1024 + s[1] - SURROGATE_OFFSET, 2)
  }

  lemma Next16InvertsEncode(c: int, rest: seq<unit>)
    requires IsScalar(c)
    ensures Next16(Encode16(c) + rest) == Read(c, |Encode16(c)|)
  {
    var e := Encode16(c);
    assert forall k | 0 <= k < |e| :: (e + rest)[k] == e[k];
    assert c == c / 1024 * 1024 + c % 1024;
  }

  lemma Next16IsEncode(s: seq<unit>)
    requires s != [] && Next16(s).c != -1
    ensures var r := Next16(s); IsScalar(r.c) && s[..r.used] == Encode16(r.c)
  {
    var r := Next16(s);
    if r.used == 2 {
      var high: int, low: int := s[0] - 0xD7C0, s[1] - 0xDC00;
      assert r.c == high * 1024 + low;
      assert r.c / 1024 == high && r.c % 1024 == low;
    }
  }

  // ----- whole texts -----

  function EncodeAll16(cs: seq<int>): (s: seq<unit>)
    requires Scalars(cs)
  {
    if cs == [] then [] else Encode16(cs[0]) + EncodeAll16(cs[1..])
  }

  /** The characters read one after another, -1 for each error. */
  function DecodeAll16(s: seq<unit>): (cs: seq<int>) {
    if s == [] then [] else [Next16(s).c] + DecodeAll16(s[Next16(s).used..])
  }

  /** Well-formed UTF-16: every surrogate is paired. */
  predicate Paired(s: seq<unit>) {
    && (forall k | 0 <= k < |s| :: IsLead16(s[k]) ==> k + 1 < |s| && IsTrail16(s[k + 1]))
    && (forall k | 0 <= k < |s| :: IsTrail16(s[k]) ==> k > 0 && IsLead16(s[k - 1]))
  }

  lemma {:induction false} Decode16InvertsEncode(cs: seq<int>)
    requires Scalars(cs)
    ensures DecodeAll16(EncodeAll16(cs)) == cs
  {
    if cs != [] {
      var e, rest := Encode16(cs[0]), EncodeAll16(cs[1..]);
      Next16InvertsEncode(cs[0], rest);
      assert (e + rest)[|e|..] == rest;
      Decode16InvertsEncode(cs[1..]);
    }
  }

  lemma {:induction false} Decoded16Scalars(s: seq<unit>)
    ensures forall k | 0 <= k < |DecodeAll16(s)| :: DecodeAll16(s)[k] == -1 || IsScalar(DecodeAll16(s)[k])
  {
    hide Next16;
    if s != [] {
      if Next16(s).c != -1 {
        Next16IsEncode(s);
      }
      Decoded16Scalars(s[Next16(s).used..]);
    }
  }

  lemma {:induction false} Encode16InvertsDecode(s: seq<unit>)
    requires Scalars(DecodeAll16(s))
    ensures EncodeAll16(DecodeAll16(s)) == s
  {
    hide Next16;
    hide Encode16;
    if s != [] {
      var cs, rest := DecodeAll16(s), s[Next16(s).used..];
      assert cs[0] == Next16(s).c && cs[1..] == DecodeAll16(rest);
      Next16IsEncode(s);
      Encode16InvertsDecode(rest);
      assert s == s[..Next16(s).used] + rest;
    }
  }

  lemma PairedStep(s: seq<unit>)
    requires s != []
    ensures Paired(s) <==> Next16(s).c != -1 && Paired(s[Next16(s).used..])
  {
    var n := Next16(s).used;
    var rest := s[n..];
    assert forall k | 0 <= k < |rest| :: rest[k] == s[n + k];
    if Paired(s) {
      assert IsTrail16(s[0]) ==> false;
      assert n < |s| && IsTrail16(s[n]) ==> IsLead16(s[n - 1]);
    }
    if Next16(s).c != -1 && Paired(rest) {
      assert forall k | n <= k < |s| :: s[k] == rest[k - n];
    }
  }

  /** A text reads without error exactly when every surrogate is paired. */
  lemma {:induction false} PairedIffNoError(s: seq<unit>)
    ensures Paired(s) <==> -1 !in DecodeAll16(s)
  {
    hide Next16;
    if s != [] {
      PairedStep(s);
      PairedIffNoError(s[Next16(s).used..]);
    }
    hide Paired;
  }

  /** The characters in pairs sort as their pairs do. */
  lemma PairsKeepOrder(c: int, d: int)
    requires 0x1_0000 <= c < d <= 0x10_FFFF
    ensures var a, b := Encode16(c), Encode16(d);
            && |a| == |b| == 2 && IsLead16(a[0]) && IsTrail16(a[1]) && IsLead16(b[0]) && IsTrail16(b[1])
            && Sooner(a, b)
  {
    hide Sooner;
    var a, b := Encode16(c), Encode16(d);
    DiffersAt(a, b, if a[0] != b[0] then 0 else 1);
  }
}
