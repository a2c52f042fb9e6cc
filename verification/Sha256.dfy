/**
 The streaming part of SHA-256 (sha256.cpp; section 5.1.1 of FIPS 180-4) around an arbitrary
 block function: a byte buffer, a 64-bit count of bits, padding.
 */
module Sha256 {
  import opened Words
  import opened BlockHash

  /** FIPS 180-4's padded message, with the length taken modulo 2^64. */
  function Pad(m: seq<byte>): (r: seq<byte>) {
    Padded(m, BigEndian(8 * |m| % U64, 8))
  }

  lemma BitsAdd(whole: nat, rest: nat)
    ensures (8 * whole % U64 + 512) % U64 == 8 * (whole + 64) % U64
    ensures (8 * whole % U64 + 8 * rest) % U64 == 8 * (whole + rest) % U64
  {
  }

  /** What the first n turns of the update loop read. */
  function Taken(bytes: seq<byte>, n: nat): (r: seq<byte>)
    requires |bytes| < U32 ==> n <= |bytes|
    ensures |r| == n && forall k | 0 <= k < n :: r[k] == bytes[k % U32]
  {
    seq(n, k requires 0 <= k < n => bytes[k % U32])
  }

  lemma TakenOneMore(bytes: seq<byte>, n: nat)
    requires |bytes| < U32 ==> n < |bytes|
    ensures Taken(bytes, n + 1) == Taken(bytes, n) + [bytes[n % U32]]
  {
  }

  /** The loop index after n turns. */
  function IndexAfter(n: nat): (i: u32) {
    if n == 0 then 0 else Add32(IndexAfter(n - 1), 1)
  }

  lemma {:induction false} IndexWraps(n: nat)
    ensures IndexAfter(n) == n % U32
  {
    if n > 0 {
      IndexWraps(n - 1);
      WrapAdd(n - 1, 1);
    }
  }

  /** The index reaches a length after some number of turns if and only if the length is below 2^32. */
  lemma UpdateEndsIff(len: nat)
    ensures (exists n: nat :: IndexAfter(n) >= len) <==> len < U32
  {
    if len < U32 {
      IndexWraps(len);
      assert IndexAfter(len) >= len;
    }
  }

  class Context<S> {
    const block: (S, seq<byte>) -> S
    const iv: S
    var st: S
    const data: array<byte>
    var datalen: nat
    var bitlen: nat
    ghost var msg: seq<byte>

    /** The context has absorbed exactly `msg`; only whole blocks are counted so far. */
    ghost predicate Valid()
      reads this, data
    {
      && data.Length == 64
      && st == Fold(block, iv, Whole(msg))
      && datalen == |msg| % 64 && data[..datalen] == Rest(msg)
      && bitlen == 8 * |Whole(msg)| % U64
    }

    constructor (block: (S, seq<byte>) -> S, iv: S)
      ensures Valid() && msg == [] && this.block == block && this.iv == iv && fresh(data)
    {
      hide Fold;
      hide Whole;
      hide Rest;
      this.block, this.iv, st := block, iv, iv;
      datalen, bitlen, msg := 0, 0, [];
      data := new byte[64];
      FoldNothing(block, iv, []);
      assert Whole([]) + Rest([]) == [];
    }

    method UpdateByte(b: byte)
      requires Valid()
      modifies this, data
      ensures Valid() && msg == old(msg) + [b]
    {
      hide Fold;
      hide Whole;
      hide Rest;
      AppendByte(block, iv, msg, b);
      BitsAdd(|Whole(msg)|, 0);
      ghost var before := data[..datalen];
      data[datalen] := b;
      datalen := datalen + 1;
      assert data[..datalen] == before + [b];
      if datalen == 64 {
        assert data[..] == data[..datalen];
        st := block(st, data[..]);
        bitlen := (bitlen + 512) % U64;
        datalen := 0;
      }
      msg := msg + [b];
    }

    /**
     The first `turns` turns of `SHA256_Update`. The loop index is 32 bits wide: a piece of 4 GiB or
     more is read over and over, and no number of turns ends the loop.
     */
    method Update(bytes: seq<byte>, turns: nat) returns (ended: bool)
      requires Valid()
      modifies this, data
      ensures Valid()
      ensures ended <==> |bytes| < U32 && |bytes| <= turns
      ensures ended ==> msg == old(msg) + bytes
      ensures !ended ==> msg == old(msg) + Taken(bytes, turns)
    {
      hide Fold;
      hide Whole;
      hide Rest;
      var i: u32, t := 0, 0;
      while i < |bytes| && t < turns
        invariant t <= turns && i == t % U32 && (|bytes| < U32 ==> t <= |bytes|)
        invariant Valid() && msg == old(msg) + Taken(bytes, t)
        decreases turns - t
      {
        UpdateByte(bytes[i]);
        TakenOneMore(bytes, t);
        WrapAdd(t, 1);
        i, t := Add32(i, 1), t + 1;
      }
      ended := i >= |bytes|;
      if ended {
        assert Taken(bytes, t) == bytes;
      }
    }

    /** One update for each piece. */
    method UpdateAll(parts: seq<seq<byte>>) returns (ended: bool)
      requires Valid()
      modifies this, data
      ensures ended <==> forall k | 0 <= k < |parts| :: |parts[k]| < U32
      ensures ended ==> Valid() && msg == old(msg) + Concat(parts)
    {
      hide Fold;
      hide Whole;
      hide Rest;
      hide Taken;
      ended := true;
      assert old(msg) + [] == old(msg);
      ConcatEnds(parts, 0);
      for i := 0 to |parts|
        invariant Valid() && msg == old(msg) + Concat(parts[..i])
        invariant forall k | 0 <= k < i :: |parts[k]| < U32
      {
        ended := Update(parts[i], |parts[i]|);
        if !ended {
          return;
        }
        ConcatEnds(parts, i + 1);
        assert old(msg) + Concat(parts[..i]) + parts[i] == old(msg) + (Concat(parts[..i]) + parts[i]);
      }
      assert parts[..|parts|] == parts;
      ended := true;
    }

    /** Marker and zeros up to the length field; `front` is what the last block starts with. */
    method Mark(ghost rest: seq<byte>)
      requires data.Length == 64 && datalen == |rest| < 64 && data[..datalen] == rest
      modifies this`st, data
      ensures datalen < 56 ==> st == old(st) && data[..56] == rest + [0x80] + Zeros(55 - datalen)
      ensures datalen >= 56 ==>
                st == block(old(st), rest + [0x80] + Zeros(63 - datalen)) && data[..56] == Zeros(56)
    {
      var i := datalen;
      var end := if datalen < 56 then 56 else 64;
      data[i] := 0x80;
      i := i + 1;
      assert data[..i] == rest + [0x80];
      while i < end
        invariant datalen < i <= end && st == old(st)
        invariant data[..i] == rest + [0x80] + Zeros(i - 1 - datalen)
      {
        ghost var before := data[..i];
        data[i] := 0;
        assert data[..i + 1] == before + [0];
        i := i + 1;
      }
      if end == 64 {
        assert data[..] == data[..64];
        st := block(st, data[..]);
        CopyIn(data, 0, Zeros(56));
        assert data[0..56] == data[..56];
      }
    }

    /** The digest state is the fold over the padded message. */
    method Final() returns (digest: S)
      requires Valid()
      modifies this, data
      ensures digest == Fold(block, iv, Pad(old(msg)))
    {
      ghost var rest, length, st0 := Rest(msg), BigEndian(8 * |msg| % U64, 8), st;
      assert |msg| == |Whole(msg)| + |rest|;
      PaddedTail(block, iv, msg, length);
      if datalen < 56 {
        PaddedShort(block, st, rest, length);
      } else {
        PaddedLong(block, st, rest, length);
      }
      BitsAdd(|Whole(msg)|, datalen);
      hide Fold;
      hide Padded;
      hide BigEndian;
      Mark(rest);
      bitlen := (bitlen + 8 * datalen) % U64;
      CopyIn(data, 56, BigEndian(bitlen, 8));
      assert data[..] == data[..56] + data[56..64];
      st := block(st, data[..]);
      digest := st;
    }
  }

  /** The last part of `SHA256_Final`: each register byte by byte, most significant first. */
  method WriteOut(registers: seq<u32>) returns (hash: array<byte>)
    ensures fresh(hash) && hash[..] == WordsBigEndian(registers)
  {
    hash := new byte[4 * |registers|];
    for i := 0 to |registers|
      invariant hash[..4 * i] == WordsBigEndian(registers[..i])
    {
      hide BigEndian;
      var w := registers[i];
      FourBytes(w);
      ghost var before := hash[..4 * i];
      hash[4 * i], hash[4 * i + 1] := w / 0x100_0000 % 256, w / 0x1_0000 % 256;
      hash[4 * i + 2], hash[4 * i + 3] := w / 256 % 256, w % 256;
      assert hash[..4 * i + 4] == before + BigEndian(w, 4);
      assert registers[..i + 1][..i] == registers[..i];
    }
    assert registers[..|registers|] == registers && hash[..] == hash[..4 * |registers|];
  }

  /**
   However a message is cut into `Update` calls, if they all end the digest is that of the whole
   message; they all end if and only if every piece is shorter than 4 GiB.
   */
  method Digest<S>(block: (S, seq<byte>) -> S, iv: S, registers: S -> seq<u32>, parts: seq<seq<byte>>)
    returns (ended: bool, digest: seq<byte>)
    ensures ended <==> forall k | 0 <= k < |parts| :: |parts[k]| < U32
    ensures ended ==> digest == WordsBigEndian(registers(Fold(block, iv, Pad(Concat(parts)))))
  {
    hide Fold;
    hide Whole;
    hide Rest;
    hide Pad;
    hide WordsBigEndian;
    var ctx := new Context(block, iv);
    ended := ctx.UpdateAll(parts);
    digest := [];
    if ended {
      assert [] + Concat(parts) == Concat(parts);
      var st := ctx.Final();
      var hash := WriteOut(registers(st));
      digest := hash[..];
    }
  }

  lemma {:induction false} ConcatEnds(parts: seq<seq<byte>>, n: nat)
    requires n <= |parts|
    ensures Concat(parts[..n]) == if n == 0 then [] else Concat(parts[..n - 1]) + parts[n - 1]
    decreases |parts|
  {
    if n == 1 {
      assert parts[..1][0] == parts[0] && parts[..1][1..] == [];
      assert parts[0] + [] == [] + parts[0];
    } else if n > 1 {
      var rest := parts[1..];
      ConcatEnds(rest, n - 1);
      assert parts[..n][1..] == rest[..n - 1] && parts[..n - 1][1..] == rest[..n - 2];
      assert rest[n - 2] == parts[n - 1];
    }
  }
}
