/**
 The SHA-1 block function (sha1_hashBlock in sha1.cpp): 80 rounds over a 16-word buffer that
 is overwritten as the schedule rolls on, against section 6.1.2 of FIPS 180-4 with its 80
 separate schedule words.
 */
module Sha1Block {

  datatype Regs = Regs(a: bv32, b: bv32, c: bv32, d: bv32, e: bv32)

  /** Rotation to the left. */
  function Rotl(x: bv32, n: nat): (r: bv32)
    requires 0 < n < 32
  {
    (x << n) | (x >> (32 - n))
  }

  /** Rotation by one is doubling with the carry added back. */
  lemma RotlDoubles(x: bv32)
    ensures Rotl(x, 1) == x + x + if x >= 0x8000_0000 then 1 else 0
  {
    assert x >> 31 == if x >= 0x8000_0000 then 1 else 0;
  }

  // ----- the standard -----

  /** The message schedule. */
  function Schedule(w: seq<bv32>, t: nat): (r: bv32)
    requires |w| == 16
  {
    if t < 16 then w[t]
    else Rotl(Schedule(w, t - 3) ^ Schedule(w, t - 8) ^ Schedule(w, t - 14) ^ Schedule(w, t - 16), 1)
  }

  function Ch(x: bv32, y: bv32, z: bv32): (r: bv32) {
    (x & y) ^ (!x & z)
  }

  function Parity(x: bv32, y: bv32, z: bv32): (r: bv32) {
    x ^ y ^ z
  }

  function Maj(x: bv32, y: bv32, z: bv32): (r: bv32) {
    (x & y) ^ (x & z) ^ (y & z)
  }

  function RoundFunction(t: nat, x: bv32, y: bv32, z: bv32): (r: bv32) {
    if t < 20 then Ch(x, y, z)
    else if t < 40 then Parity(x, y, z)
    else if t < 60 then Maj(x, y, z)
    else Parity(x, y, z)
  }

  function RoundConstant(t: nat): (k: bv32) {
    if t < 20 then 0x5a827999
    else if t < 40 then 0x6ed9eba1
    else if t < 60 then 0x8f1bbcdc
    else 0xca62c1d6
  }

  /** The constants are the square roots of 2, 3, 5 and 10, times 2^30, rounded down. */
  lemma ConstantsAreRoots(t: nat)
    requires t < 80
    ensures var n := if t < 20 then 2 else if t < 40 then 3 else if t < 60 then 5 else 10;
            var k := RoundConstant(t) as int;
            k * k <= n * 0x1000_0000_0000_0000 < (k + 1) * (k + 1)
  {
  }

  /** The sum of a round, in the standard's order. */
  function Sum(a: bv32, f: bv32, e: bv32, k: bv32, w: bv32): (r: bv32) {
    a + f + e + k + w
  }

  function Round(r: Regs, t: nat, w: bv32): (r': Regs) {
    var sum := Sum(Rotl(r.a, 5), RoundFunction(t, r.b, r.c, r.d), r.e, RoundConstant(t), w);
    Regs(sum, r.a, Rotl(r.b, 30), r.c, r.d)
  }

  /** The registers after `t` rounds. */
  function Rounds(w: seq<bv32>, h: Regs, t: nat): (r: Regs)
    requires |w| == 16
  {
    if t == 0 then h else Round(Rounds(w, h, t - 1), t - 1, Schedule(w, t - 1))
  }

  function Plus(h: Regs, r: Regs): (s: Regs) {
    Regs(h.a + r.a, h.b + r.b, h.c + r.c, h.d + r.d, h.e + r.e)
  }

  function Compress(h: Regs, w: seq<bv32>): (h': Regs)
    requires |w| == 16
  {
    Plus(h, Rounds(w, h, 80))
  }

  // ----- the code -----

  /** The cheaper forms of Ch and Maj. */
  lemma CheaperForms(b: bv32, c: bv32, d: bv32)
    ensures d ^ (b & (c ^ d)) == Ch(b, c, d)
    ensures (b & c) | (d & (b | c)) == Maj(b, c, d)
  {
  }

  /** The sum of a round, in the code's order. */
  function CodeSum(f: bv32, k: bv32, a: bv32, e: bv32, w: bv32): (r: bv32) {
    f + k + (a + e + w)
  }

  lemma SumsAgree(f: bv32, k: bv32, a: bv32, e: bv32, w: bv32)
    ensures CodeSum(f, k, a, e, w) == Sum(a, f, e, k, w)
  {
  }

  /** The function of a round, as the code writes it. */
  function CodeFunction(t: nat, b: bv32, c: bv32, d: bv32): (r: bv32) {
    if t < 20 then d ^ (b & (c ^ d))
    else if t < 40 then b ^ c ^ d
    else if t < 60 then (b & c) | (d & (b | c))
    else b ^ c ^ d
  }

  lemma FunctionsAgree(t: nat, b: bv32, c: bv32, d: bv32)
    ensures CodeFunction(t, b, c, d) == RoundFunction(t, b, c, d)
  {
    CheaperForms(b, c, d);
    hide Ch;
    hide Maj;
  }

  const SHA1_K0: bv32 := 0x5a827999
  const SHA1_K20: bv32 := 0x6ed9eba1
  const SHA1_K40: bv32 := 0x8f1bbcdc
  const SHA1_K60: bv32 := 0xca62c1d6

  function CodeConstant(t: nat): (k: bv32) {
    if t < 20 then SHA1_K0 else if t < 40 then SHA1_K20 else if t < 60 then SHA1_K40 else SHA1_K60
  }

  /** One round of the code, with its own order of additions. */
  function CodeRound(r: Regs, t: nat, w: bv32): (r': Regs) {
    var sum := CodeSum(CodeFunction(t, r.b, r.c, r.d), CodeConstant(t), Rotl(r.a, 5), r.e, w);
    Regs(sum, r.a, Rotl(r.b, 30), r.c, r.d)
  }

  lemma RoundsAgree(r: Regs, t: nat, w: bv32)
    ensures CodeRound(r, t, w) == Round(r, t, w)
  {
    FunctionsAgree(t, r.b, r.c, r.d);
    assert CodeConstant(t) == RoundConstant(t);
    hide CodeConstant;
    hide CodeFunction;
    hide RoundFunction;
    hide RoundConstant;
    hide Rotl;
    SumsAgree(RoundFunction(t, r.b, r.c, r.d), RoundConstant(t), Rotl(r.a, 5), r.e, w);
    hide CodeSum;
    hide Sum;
  }

  /** The buffer holds the sixteen newest schedule words, each in the slot of its index. */
  ghost predicate Rolling(buf: seq<bv32>, w: seq<bv32>, hi: nat) {
    && |buf| == 16 && |w| == 16 && hi >= 16
    && forall t :: hi - 16 <= t < hi ==> buf[t % 16] == Schedule(w, t)
  }

  lemma RollStart(w: seq<bv32>)
    requires |w| == 16
    ensures Rolling(w, w, 16)
  {
  }

  lemma ScheduleIs(w: seq<bv32>, t: nat)
    requires |w| == 16 && t >= 16
    ensures Schedule(w, t)
         == Rotl(Schedule(w, t - 3) ^ Schedule(w, t - 8) ^ Schedule(w, t - 14) ^ Schedule(w, t - 16), 1)
  {
  }

  lemma NewestWord(buf: seq<bv32>, w: seq<bv32>, i: nat)
    requires Rolling(buf, w, i) && i >= 16
    ensures Rotl(buf[(i + 13) % 16] ^ buf[(i + 8) % 16] ^ buf[(i + 2) % 16] ^ buf[i % 16], 1) == Schedule(w, i)
  {
    hide Rotl;
    hide Schedule;
    ScheduleIs(w, i);
    assert (i + 13) % 16 == (i - 3) % 16 && (i + 8) % 16 == (i - 8) % 16;
    assert (i + 2) % 16 == (i - 14) % 16 && i % 16 == (i - 16) % 16;
  }

  lemma RollOn(buf: seq<bv32>, w: seq<bv32>, i: nat)
    requires Rolling(buf, w, i) && i >= 16
    ensures var x := buf[(i + 13) % 16] ^ buf[(i + 8) % 16] ^ buf[(i + 2) % 16] ^ buf[i % 16];
            Rolling(buf[i % 16 := Rotl(x, 1)], w, i + 1)
  {
    hide Rotl;
    hide Schedule;
    NewestWord(buf, w, i);
    var x := buf[(i + 13) % 16] ^ buf[(i + 8) % 16] ^ buf[(i + 2) % 16] ^ buf[i % 16];
    var buf' := buf[i % 16 := Rotl(x, 1)];
    forall t | i + 1 - 16 <= t < i + 1
      ensures buf'[t % 16] == Schedule(w, t)
    {
      if t < i {
        assert t % 16 != i % 16;
      }
    }
  }

  /** `sha1_hashBlock`: the result is the standard's compression of the sixteen words. */
  method HashBlock(buffer: array<bv32>, h: Regs) returns (h': Regs)
    requires buffer.Length == 16
    modifies buffer
    ensures h' == Compress(h, old(buffer[..]))
  {
    hide Rotl;
    hide Round;
    hide CodeRound;
    hide Schedule;
    ghost var w := buffer[..];
    RollStart(w);
    var r := h;
    var i := 0;
    while i < 80
      invariant 0 <= i <= 80
      invariant Rolling(buffer[..], w, if i < 16 then 16 else i)
      invariant r == Rounds(w, h, i)
    {
      if i >= 16 {
        RollOn(buffer[..], w, i);
        var t := buffer[(i + 13) % 16] ^ buffer[(i + 8) % 16] ^ buffer[(i + 2) % 16] ^ buffer[i % 16];
        ghost var rolled := buffer[..][i % 16 := Rotl(t, 1)];
        buffer[i % 16] := Rotl(t, 1);
        assert buffer[..] == rolled;
      }
      assert buffer[..][i % 16] == Schedule(w, i);
      RoundsAgree(r, i, buffer[i % 16]);
      r := CodeRound(r, i, buffer[i % 16]);
      i := i + 1;
    }
    h' := Plus(h, r);
  }
}
