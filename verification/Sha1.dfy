/**
 The streaming part of SHA-1 (sha1.cpp): bytes go straight into the lanes of sixteen
 little-endian words, and the length is counted in 32 bits.
 */
module Sha1 {
  import opened Words
  import opened BlockHash
  import opened Sha1Block

  // ----- bytes in words -----

  function Low8(b: byte): (x: bv32) {
    (b as bv32) & 0xff
  }

  /** The bits of byte `k` of a word, counted from the least significant. */
  function LaneMask(k: nat): (m: bv32)
    requires k < 4
  {
    match k
    case 0 => 0x0000_00ff
    case 1 => 0x0000_ff00
    case 2 => 0x00ff_0000
    case _ => 0xff00_0000
  }

  /** A byte moved to lane `k`. */
  function Placed(b: byte, k: nat): (x: bv32)
    requires k < 4
  {
    match k
    case 0 => Low8(b)
    case 1 => Low8(b) << 8
    case 2 => Low8(b) << 16
    case _ => Low8(b) << 24
  }

  function And(w: bv32, m: bv32): (r: bv32) {
    w & m
  }

  /** Replacing the bits under a mask. */
  function Store(w: bv32, m: bv32, p: bv32): (r: bv32) {
    (w & !m) | p
  }

  /** Storing a byte into lane `k` of a word in memory. */
  function SetLane(w: bv32, k: nat, b: byte): (r: bv32)
    requires k < 4
  {
    Store(w, LaneMask(k), Placed(b, k))
  }

  /** What a word has in lane `k`. */
  function InLane(w: bv32, k: nat): (x: bv32)
    requires k < 4
  {
    And(w, LaneMask(k))
  }

  lemma PlacedInLane(b: byte, k: nat)
    requires k < 4
    ensures And(Placed(b, k), LaneMask(k)) == Placed(b, k)
  {
    ShiftedByte(b as bv32);
  }

  lemma ShiftedByte(x: bv32)
    ensures (x & 0xff) & 0xff == x & 0xff
    ensures ((x & 0xff) << 8) & 0xff00 == (x & 0xff) << 8
    ensures ((x & 0xff) << 16) & 0xff_0000 == (x & 0xff) << 16
    ensures ((x & 0xff) << 24) & 0xff00_0000 == (x & 0xff) << 24
  {
  }

  lemma StoreReads(w: bv32, m: bv32, p: bv32)
    requires And(p, m) == p
    ensures And(Store(w, m, p), m) == p
  {
  }

  lemma StoreKeeps(w: bv32, m: bv32, p: bv32, other: bv32)
    requires And(p, m) == p && And(m, other) == 0
    ensures And(Store(w, m, p), other) == And(w, other)
  {
  }

  lemma MasksDisjoint(k: nat, j: nat)
    requires k < 4 && j < 4 && j != k
    ensures And(LaneMask(k), LaneMask(j)) == 0
  {
  }

  lemma SetLaneReads(w: bv32, k: nat, b: byte)
    requires k < 4
    ensures InLane(SetLane(w, k, b), k) == Placed(b, k)
  {
    hide And;
    hide Store;
    hide LaneMask;
    hide Placed;
    PlacedInLane(b, k);
    StoreReads(w, LaneMask(k), Placed(b, k));
  }

  lemma SetLaneKeeps(w: bv32, k: nat, b: byte, j: nat)
    requires k < 4 && j < 4 && j != k
    ensures InLane(SetLane(w, k, b), j) == InLane(w, j)
  {
    hide And;
    hide Store;
    hide LaneMask;
    hide Placed;
    PlacedInLane(b, k);
    MasksDisjoint(k, j);
    StoreKeeps(w, LaneMask(k), Placed(b, k), LaneMask(j));
  }

  /** Four bytes, most significant first. */
  function Word(b3: byte, b2: byte, b1: byte, b0: byte): (w: bv32) {
    Placed(b3, 3) | Placed(b2, 2) | Placed(b1, 1) | Placed(b0, 0)
  }

  lemma WordFromLanes(w: bv32)
    ensures w == (w & 0xff00_0000) | (w & 0xff_0000) | (w & 0xff00) | (w & 0xff)
  {
  }

  function WordAt(m: seq<byte>, i: nat): (w: bv32)
    requires 4 * i + 4 <= |m|
  {
    Word(m[4 * i], m[4 * i + 1], m[4 * i + 2], m[4 * i + 3])
  }

  /** The standard's block function, from the bytes of a block. */
  function Block(h: Regs, m: seq<byte>): (h': Regs) {
    if |m| == 64 then Compress(h, seq(16, i requires 0 <= i < 16 => WordAt(m, i))) else h
  }

  /** The lane of byte `i` of a block. */
  function LaneOf(i: nat): (k: nat)
    ensures k < 4
  {
    3 - i % 4
  }

  /** The words hold the given bytes, in the standard's order. */
  ghost predicate Holds(buf: seq<bv32>, m: seq<byte>) {
    && |buf| == 16 && |m| <= 64
    && forall i :: 0 <= i < |m| ==> InLane(buf[i / 4], LaneOf(i)) == Placed(m[i], LaneOf(i))
  }

  lemma HoldsAppend(buf: seq<bv32>, m: seq<byte>, b: byte)
    requires Holds(buf, m) && |m| < 64
    ensures var n := |m|;
            Holds(buf[n / 4 := SetLane(buf[n / 4], LaneOf(n), b)], m + [b])
  {
    hide InLane;
    hide SetLane;
    hide Placed;
    var n := |m|;
    var buf' := buf[n / 4 := SetLane(buf[n / 4], LaneOf(n), b)];
    SetLaneReads(buf[n / 4], LaneOf(n), b);
    forall i | 0 <= i < n
      ensures InLane(buf'[i / 4], LaneOf(i)) == Placed((m + [b])[i], LaneOf(i))
    {
      if i / 4 == n / 4 {
        SetLaneKeeps(buf[n / 4], LaneOf(n), b, LaneOf(i));
      }
    }
  }

  lemma HoldsWord(buf: seq<bv32>, m: seq<byte>, i: nat)
    requires Holds(buf, m) && |m| == 64 && i < 16
    ensures buf[i] == WordAt(m, i)
  {
    hide Placed;
    WordFromLanes(buf[i]);
    assert (4 * i) / 4 == i && LaneOf(4 * i) == 3;
    assert (4 * i + 1) / 4 == i && LaneOf(4 * i + 1) == 2;
    assert (4 * i + 2) / 4 == i && LaneOf(4 * i + 2) == 1;
    assert (4 * i + 3) / 4 == i && LaneOf(4 * i + 3) == 0;
  }

  lemma HoldsBlock(buf: seq<bv32>, m: seq<byte>, h: Regs)
    requires Holds(buf, m) && |m| == 64
    ensures Compress(h, buf) == Block(h, m)
  {
    hide Compress;
    hide WordAt;
    forall i | 0 <= i < 16
      ensures buf[i] == WordAt(m, i)
    {
      HoldsWord(buf, m, i);
    }
    assert buf == seq(16, i requires 0 <= i < 16 => WordAt(m, i));
  }

  // ----- the padded message -----

  /** The length as the code writes it: 32 bits of bytes, times eight. */
  function CountField(len: nat): (r: seq<byte>)
    ensures |r| == 8
  {
    BigEndian(8 * (len % U32), 8)
  }

  function Pad(m: seq<byte>): (r: seq<byte>) {
    Padded(m, CountField(|m|))
  }

  /** The padded message of section 5.1.1 of FIPS 180-4, for messages of less than 2^64 bits. */
  function StandardPad(m: seq<byte>): (r: seq<byte>) {
    Padded(m, BigEndian(8 * |m|, 8))
  }

  /** The 32-bit count gives the standard's padding exactly for messages below 4 GiB. */
  lemma PadIsStandardIff(m: seq<byte>)
    requires 8 * |m| < U64
    ensures Pad(m) == StandardPad(m) <==> |m| < U32
  {
    hide BigEndian;
    hide Gap;
    hide Pow256;
    if Pad(m) == StandardPad(m) {
      var front := m + [0x80] + Zeros(Gap(|m|));
      assert Pad(m)[|front|..] == CountField(|m|);
      assert StandardPad(m)[|front|..] == BigEndian(8 * |m|, 8);
      Pow256Eight();
      BigEndianInjective(8 * (|m| % U32), 8 * |m|, 8);
    }
  }

  /** The eight bytes that the padding appends one by one. */
  function CountShifts(c: u32): (r: seq<byte>)
    ensures |r| == 8
  {
    [0, 0, 0, c / 0x2000_0000, c / 0x20_0000 % 256, c / 0x2000 % 256, c / 32 % 256, 8 * c % 256]
  }

  lemma CountBytes(c: u32)
    ensures BigEndian(8 * c, 8) == CountShifts(c)
  {
    var v0 := 8 * c;
    var v1, v2 := v0 / 256, v0 / 256 / 256;
    var v3, v4 := v2 / 256, v2 / 256 / 256;
    assert v1 == c / 32 && v2 == c / 0x2000 && v3 == c / 0x20_0000 && v4 == c / 0x2000_0000;
    assert v4 / 256 == 0;
    BigEndianZero(3);
    assert BigEndian(v4, 4) == BigEndian(0, 3) + [v4];
    assert BigEndian(v3, 5) == BigEndian(v4, 4) + [v3 % 256];
    assert BigEndian(v2, 6) == BigEndian(v3, 5) + [v2 % 256];
    assert BigEndian(v1, 7) == BigEndian(v2, 6) + [v1 % 256];
    assert BigEndian(v0, 8) == BigEndian(v1, 7) + [v0 % 256];
  }

  lemma BigEndianZero(n: nat)
    ensures BigEndian(0, n) == Zeros(n)
  {
  }

  // ----- the context -----

  /** The start value, which in little-endian memory is the digits up and down, and then a second pattern. */
  lemma StartValue()
    ensures InMemory(IV.a) + InMemory(IV.b) + InMemory(IV.c) + InMemory(IV.d) + InMemory(IV.e) ==
            [0x01, 0x23, 0x45, 0x67, 0x89, 0xab, 0xcd, 0xef, 0xfe, 0xdc, 0xba, 0x98, 0x76, 0x54, 0x32, 0x10,
             0xf0, 0xe1, 0xd2, 0xc3]
  {
  }

  const IV := Regs(0x67452301, 0xefcdab89, 0x98badcfe, 0x10325476, 0xc3d2e1f0)

  class Context {
    const buffer: array<bv32>
    var h: Regs
    var byteCount: u32
    var offset: nat
    ghost var fed: seq<byte>

    /** The context has been fed exactly the bytes `fed`, padding included. */
    ghost predicate Valid()
      reads this, buffer
    {
      && buffer.Length == 16
      && h == Fold(Block, IV, Whole(fed))
      && offset == |fed| % 64
      && Holds(buffer[..], Rest(fed))
    }

    constructor ()
      ensures Valid() && fed == [] && byteCount == 0 && fresh(buffer)
    {
      buffer := new bv32[16](_ => 0);
      h, byteCount, offset, fed := IV, 0, 0, [];
    }

    /** `sha1_addUncounted`: one byte into its lane; a full buffer is hashed. */
    method AddUncounted(b: byte)
      requires Valid()
      modifies this`h, this`offset, this`fed, buffer
      ensures Valid() && fed == old(fed) + [b]
    {
      AppendByte(Block, IV, fed, b);
      hide Fold;
      hide Whole;
      hide Rest;
      hide Block;
      hide SetLane;
      ghost var rest := Rest(fed);
      HoldsAppend(buffer[..], rest, b);
      ghost var stored := buffer[..][offset / 4 := SetLane(buffer[offset / 4], LaneOf(offset), b)];
      buffer[offset / 4] := SetLane(buffer[offset / 4], LaneOf(offset), b);
      assert buffer[..] == stored;
      offset := offset + 1;
      fed := fed + [b];
      if offset == 64 {
        HoldsBlock(buffer[..], rest + [b], h);
        h := HashBlock(buffer, h);
        offset := 0;
      }
    }

    /** `sha1_updatebyte`. */
    method UpdateByte(b: byte)
      requires Valid() && byteCount == |fed| % U32
      modifies this, buffer
      ensures Valid() && fed == old(fed) + [b] && byteCount == |fed| % U32
    {
      hide Fold;
      hide Whole;
      hide Rest;
      hide Block;
      hide Holds;
      hide Add32;
      WrapAdd(|fed|, 1);
      byteCount := Add32(byteCount, 1);
      AddUncounted(b);
    }

    method Update(data: seq<byte>)
      requires Valid() && byteCount == |fed| % U32
      modifies this, buffer
      ensures Valid() && fed == old(fed) + data && byteCount == |fed| % U32
    {
      hide Fold;
      hide Whole;
      hide Rest;
      hide Block;
      hide Holds;
      var i := 0;
      while i < |data|
        invariant 0 <= i <= |data| && Valid() && fed == old(fed) + data[..i] && byteCount == |fed| % U32
      {
        UpdateByte(data[i]);
        i := i + 1;
      }
      assert data[..i] == data;
    }

    method AddAll(data: seq<byte>)
      requires Valid()
      modifies this`h, this`offset, this`fed, buffer
      ensures Valid() && fed == old(fed) + data
    {
      hide Fold;
      hide Whole;
      hide Rest;
      hide Block;
      hide Holds;
      var i := 0;
      while i < |data|
        invariant 0 <= i <= |data| && Valid() && fed == old(fed) + data[..i]
      {
        AddUncounted(data[i]);
        i := i + 1;
      }
      assert data[..i] == data;
    }

    /** The marker and the zeros of `sha1_pad`. */
    method AddMarker(ghost m: seq<byte>)
      requires Valid() && fed == m
      modifies this`h, this`offset, this`fed, buffer
      ensures Valid() && fed == m + [0x80] + Zeros(Gap(|m|))
    {
      hide Fold;
      hide Whole;
      hide Rest;
      hide Block;
      hide Holds;
      hide Gap;
      ghost var k := 0;
      AddUncounted(0x80);
      assert fed == m + [0x80] + Zeros(0);
      while offset != 56
        invariant Valid() && 0 <= k <= Gap(|m|)
        invariant fed == m + [0x80] + Zeros(k)
        decreases Gap(|m|) - k
      {
        GapNotYet(|m|, k);
        AddUncounted(0);
        assert Zeros(k) + [0] == Zeros(k + 1);
        k := k + 1;
      }
      GapReached(|m|, k);
    }

    /** `sha1_pad` and the end of `SHA1_Final`: the registers after the padded message. */
    method Final() returns (digest: Regs)
      requires Valid() && byteCount == |fed| % U32
      modifies this, buffer
      ensures digest == Fold(Block, IV, Pad(old(fed)))
    {
      ghost var m := fed;
      WholeOfPad(m);
      hide Fold;
      hide Whole;
      hide Rest;
      hide Block;
      hide Holds;
      hide Gap;
      hide CountShifts;
      hide BigEndian;
      CountBytes(byteCount);
      AddMarker(m);
      AddAll(CountShifts(byteCount));
      digest := h;
    }
  }

  lemma WholeOfPad(m: seq<byte>)
    ensures Whole(Pad(m)) == Pad(m)
  {
  }

  lemma GapNotYet(len: nat, k: nat)
    requires k <= Gap(len) && (len + 1 + k) % 64 != 56
    ensures k < Gap(len)
  {
  }

  lemma GapReached(len: nat, k: nat)
    requires k <= Gap(len) && (len + 1 + k) % 64 == 56
    ensures k == Gap(len)
  {
  }

  // ----- the digest in memory -----

  /** The bytes of a word, most significant first. */
  function Bytes(w: bv32): (r: seq<bv32>) {
    [(w >> 24) & 0xff, (w >> 16) & 0xff, (w >> 8) & 0xff, w & 0xff]
  }

  function DigestBytes(h: Regs): (r: seq<bv32>) {
    Bytes(h.a) + Bytes(h.b) + Bytes(h.c) + Bytes(h.d) + Bytes(h.e)
  }

  /** The byte swap of `SHA1_Final`. */
  function Swapped(w: bv32): (r: bv32) {
    ((w << 24) & 0xff00_0000) | ((w << 8) & 0xff_0000) | ((w >> 8) & 0xff00) | ((w >> 24) & 0xff)
  }

  /** What a word looks like in little-endian memory. */
  function InMemory(w: bv32): (r: seq<bv32>) {
    [w & 0xff, (w >> 8) & 0xff, (w >> 16) & 0xff, (w >> 24) & 0xff]
  }

  /** The swap makes little-endian memory hold the word most significant byte first. */
  lemma SwapReverses(w: bv32)
    ensures InMemory(Swapped(w)) == Bytes(w)
  {
  }

  /** The end of `SHA1_Final`: swap each register, then copy the memory. */
  method WriteOut(h: Regs) returns (result: seq<bv32>)
    ensures result == DigestBytes(h)
  {
    hide InMemory;
    hide Swapped;
    hide Bytes;
    var state := [h.a, h.b, h.c, h.d, h.e];
    for i := 0 to 5
      invariant |state| == 5
      invariant forall k | 0 <= k < i :: InMemory(state[k]) == Bytes([h.a, h.b, h.c, h.d, h.e][k])
      invariant forall k | i <= k < 5 :: state[k] == [h.a, h.b, h.c, h.d, h.e][k]
    {
      SwapReverses(state[i]);
      state := state[i := Swapped(state[i])];
    }
    result := InMemory(state[0]) + InMemory(state[1]) + InMemory(state[2]) + InMemory(state[3]) + InMemory(state[4]);
  }

  /** However a message is cut into `Update` calls, the digest is that of the whole message. */
  method Digest(parts: seq<seq<byte>>) returns (digest: seq<bv32>)
    ensures digest == DigestBytes(Fold(Block, IV, Pad(Concat(parts))))
    ensures |Concat(parts)| < U32 ==> digest == DigestBytes(Fold(Block, IV, StandardPad(Concat(parts))))
  {
    hide Fold;
    hide Whole;
    hide Rest;
    hide Block;
    hide Holds;
    hide Pad;
    hide StandardPad;
    var ctx := new Context();
    var i := 0;
    assert [] + Concat(parts[0..]) == Concat(parts) by { assert parts[0..] == parts; }
    while i < |parts|
      invariant 0 <= i <= |parts| && ctx.Valid() && fresh(ctx) && fresh(ctx.buffer)
      invariant ctx.fed + Concat(parts[i..]) == Concat(parts) && ctx.byteCount == |ctx.fed| % U32
    {
      assert parts[i..][1..] == parts[i + 1..];
      ctx.Update(parts[i]);
      i := i + 1;
    }
    assert ctx.fed + [] == ctx.fed;
    var h := ctx.Final();
    digest := WriteOut(h);
    hide DigestBytes;
    if |Concat(parts)| < U32 {
      PadIsStandardIff(Concat(parts));
    }
  }
}
