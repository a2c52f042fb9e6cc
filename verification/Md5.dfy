/**
 The streaming part of MD5 (md5.cpp; sections 3.1 and 3.2 of RFC 1321) around an arbitrary
 block function: a byte counter split into 29 and 32 bits, buffering, padding.
 */
module Md5 {
  import opened Words
  import opened BlockHash

  const LOW_MOD: int := 0x2000_0000

  /** The low 64 bits of the length in bits, least significant byte first. */
  function LengthField(len: nat): (r: seq<byte>)
    ensures |r| == 8
  {
    LittleEndian(8 * len % U64, 8)
  }

  /** RFC 1321's padded message. */
  function Pad(m: seq<byte>): (r: seq<byte>) {
    Padded(m, LengthField(|m|))
  }

  /** The split counter with its carry is addition of the length. */
  lemma CounterAdds(len: nat, size: nat)
    ensures var lo, hi := len % LOW_MOD, len / LOW_MOD % U32;
            var lo' := (lo + size) % LOW_MOD;
            var carry := if lo' < lo then 1 else 0;
            && lo' == (len + size) % LOW_MOD
            && Add32(Add32(hi, carry), size / LOW_MOD) == (len + size) / LOW_MOD % U32
  {
    var lo, q := len % LOW_MOD, len / LOW_MOD;
    var lo' := (lo + size) % LOW_MOD;
    var carry := if lo' < lo then 1 else 0;
    assert lo + size % LOW_MOD < LOW_MOD ==> lo' == lo + size % LOW_MOD;
    assert lo + size % LOW_MOD >= LOW_MOD ==> lo' == lo + size % LOW_MOD - LOW_MOD;
    assert (len + size) / LOW_MOD == q + carry + size / LOW_MOD;
    WrapAdd(q, carry);
    WrapAdd(q + carry, size / LOW_MOD);
  }

  lemma CounterArithmetic(len: nat)
    ensures 8 * len % U64 == 8 * (len % LOW_MOD) + U32 * (len / LOW_MOD % U32)
  {
    var lo, q := len % LOW_MOD, len / LOW_MOD;
    var hi, k := q % U32, q / U32;
    assert len == LOW_MOD * q + lo && q == U32 * k + hi;
    var v := 8 * lo + U32 * hi;
    assert 8 * len == v + U64 * k;
    assert 0 <= v < U64;
  }

  /** The two counter words, written little-endian, are the length field. */
  lemma CounterIsLength(len: nat)
    ensures var lo, hi := len % LOW_MOD, len / LOW_MOD % U32;
            LittleEndian(8 * lo, 4) + LittleEndian(hi, 4) == LengthField(len)
  {
    var lo, hi := len % LOW_MOD, len / LOW_MOD % U32;
    CounterArithmetic(len);
    Pow256Four();
    hide LittleEndian;
    LittleEndianSplit(8 * lo, hi, 4, 4);
  }

  lemma LowBits(len: nat)
    ensures len % LOW_MOD % 64 == len % 64
  {
  }

  class Context<S> {
    const block: (S, seq<byte>) -> S
    const iv: S
    var st: S
    var lo: u32
    var hi: u32
    const buffer: array<byte>
    ghost var msg: seq<byte>

    /** The context has absorbed exactly `msg`. */
    ghost predicate Valid()
      reads this, buffer
    {
      && buffer.Length == 64
      && st == Fold(block, iv, Whole(msg))
      && buffer[..|msg| % 64] == Rest(msg)
      && lo == |msg| % LOW_MOD
      && hi == |msg| / LOW_MOD % U32
    }

    constructor (block: (S, seq<byte>) -> S, iv: S)
      ensures Valid() && msg == [] && this.block == block && this.iv == iv && fresh(buffer)
    {
      hide Fold;
      hide Whole;
      hide Rest;
      this.block, this.iv, st := block, iv, iv;
      lo, hi, msg := 0, 0, [];
      buffer := new byte[64];
      FoldNothing(block, iv, []);
    }

    /** `body`: one or more blocks. */
    method Body(data: seq<byte>)
      requires |data| >= 64 && |data| % 64 == 0
      modifies this`st
      ensures st == Fold(block, old(st), data)
    {
      var i := 0;
      assert data[0..] == data;
      while i < |data|
        invariant 0 <= i <= |data| && i % 64 == 0
        invariant Fold(block, st, data[i..]) == Fold(block, old(st), data)
      {
        assert data[i..][..64] == data[i..i + 64] && data[i..][64..] == data[i + 64..];
        st := block(st, data[i..i + 64]);
        i := i + 64;
      }
    }

    method Update(data: seq<byte>)
      requires Valid()
      modifies this, buffer
      ensures Valid() && msg == old(msg) + data
    {
      hide Fold;
      hide Whole;
      hide Rest;
      CounterAdds(|msg|, |data|);
      FoldAppend(block, iv, msg, data);
      var savedLo := lo;
      LowBits(|msg|);
      lo := (savedLo + |data|) % LOW_MOD;
      if lo < savedLo {
        hi := Add32(hi, 1);
      }
      hi := Add32(hi, |data| / LOW_MOD);
      var used := savedLo % 64;
      Absorb(data, used, Rest(msg));
      msg := msg + data;
    }

    /** The buffering of `MD5_Update`. */
    method Absorb(data: seq<byte>, used: nat, ghost rest: seq<byte>)
      requires buffer.Length == 64 && used == |rest| < 64 && buffer[..used] == rest
      modifies this`st, buffer
      ensures st == Fold(block, old(st), Whole(rest + data))
      ensures buffer[..|rest + data| % 64] == Rest(rest + data)
    {
      hide Fold;
      hide Whole;
      hide Rest;
      if |rest| + |data| < 64 {
        FoldNothing(block, st, rest + data);
      } else {
        CompleteBlock(block, st, rest, data);
      }
      var more := data;
      if used > 0 {
        var available := 64 - used;
        if |data| < available {
          CopyIn(buffer, used, data);
          assert buffer[..used + |data|] == buffer[..used] + buffer[used..used + |data|];
          return;
        }
        CopyIn(buffer, used, data[..available]);
        more := data[available..];
        assert buffer[..] == buffer[..used] + buffer[used..64] == rest + data[..available];
        FoldOne(block, st, buffer[..]);
        Body(buffer[..]);
      } else {
        assert rest + data == data;
      }
      FoldNothingOr(more);
      if |more| >= 64 {
        Body(Whole(more));
      }
      CopyIn(buffer, 0, Rest(more));
      assert buffer[0..|Rest(more)|] == buffer[..|Rest(more)|];
    }

    lemma FoldNothingOr(more: seq<byte>)
      ensures |more| < 64 ==> Fold(block, st, Whole(more)) == st
      ensures |more| >= 64 ==> |Whole(more)| >= 64
    {
    }

    /** Zeros up to the length field, the two counter words, and the block goes through. */
    method Close(used: nat, ghost front: seq<byte>)
      requires buffer.Length == 64 && used <= 56 && buffer[..used] == front && 8 * lo < U32
      modifies this`st, buffer
      ensures var last := front + Zeros(56 - used) + (LittleEndian(8 * lo, 4) + LittleEndian(hi, 4));
              st == block(old(st), last)
    {
      CopyIn(buffer, used, Zeros(56 - used));
      assert buffer[..56] == buffer[..used] + buffer[used..56];
      ghost var before := buffer[..56];
      CopyIn(buffer, 56, LittleEndian(8 * lo, 4));
      assert buffer[..60] == buffer[..56] + buffer[56..60];
      CopyIn(buffer, 60, LittleEndian(hi, 4));
      assert buffer[..] == buffer[..60] + buffer[60..64];
      ghost var last := front + Zeros(56 - used) + (LittleEndian(8 * lo, 4) + LittleEndian(hi, 4));
      assert buffer[..] == last;
      FoldOne(block, st, buffer[..]);
      Body(buffer[..]);
    }

    /** The marker; when it leaves no room for the length, the block goes through. */
    method Mark(used: nat, ghost rest: seq<byte>) returns (used': nat)
      requires buffer.Length == 64 && used == |rest| < 64 && buffer[..used] == rest
      modifies this`st, buffer
      ensures used < 56 ==> used' == used + 1 && st == old(st) && buffer[..used'] == rest + [0x80]
      ensures used >= 56 ==> used' == 0 && st == block(old(st), rest + [0x80] + Zeros(63 - used))
    {
      buffer[used] := 0x80;
      used' := used + 1;
      assert buffer[..used'] == rest + [0x80];
      var available := 64 - used';
      if available < 8 {
        CopyIn(buffer, used', Zeros(available));
        assert buffer[..] == buffer[..used'] + buffer[used'..64];
        assert buffer[..] == rest + [0x80] + Zeros(63 - used);
        FoldOne(block, st, buffer[..]);
        Body(buffer[..]);
        used' := 0;
      }
    }

    /** The digest state is the fold over the padded message. */
    method Final() returns (digest: S)
      requires Valid()
      modifies this, buffer
      ensures digest == Fold(block, iv, Pad(old(msg)))
    {
      ghost var rest, length := Rest(msg), LengthField(|msg|);
      PaddedTail(block, iv, msg, length);
      CounterIsLength(|msg|);
      LowBits(|msg|);
      hide Fold;
      hide Padded;
      hide LittleEndian;
      ghost var st0 := st;
      var used := Mark(lo % 64, rest);
      ghost var front := if |rest| < 56 then rest + [0x80] else [];
      if |rest| < 56 {
        PaddedShort(block, st0, rest, length);
      } else {
        PaddedLong(block, st0, rest, length);
        assert [] + Zeros(56) == Zeros(56);
      }
      Close(used, front);
      digest := st;
    }
  }

  /** The last part of `MD5_Final`: each register byte by byte, least significant first. */
  method WriteOut(registers: seq<u32>) returns (result: seq<byte>)
    ensures result == WordsLittleEndian(registers)
  {
    hide LittleEndian;
    result := [];
    for i := 0 to |registers|
      invariant result == WordsLittleEndian(registers[..i])
    {
      var w := registers[i];
      FourBytes(w);
      result := result + [w % 256, w / 256 % 256, w / 0x1_0000 % 256, w / 0x100_0000 % 256];
      assert registers[..i + 1][..i] == registers[..i];
    }
    assert registers[..|registers|] == registers;
  }

  /** However a message is cut into `Update` calls, the digest is that of the whole message. */
  method Digest<S>(block: (S, seq<byte>) -> S, iv: S, registers: S -> seq<u32>, parts: seq<seq<byte>>)
    returns (digest: seq<byte>)
    ensures digest == WordsLittleEndian(registers(Fold(block, iv, Pad(Concat(parts)))))
  {
    hide Fold;
    hide Whole;
    hide Rest;
    hide Pad;
    var ctx := new Context(block, iv);
    var i := 0;
    assert [] + Concat(parts[0..]) == Concat(parts) by { assert parts[0..] == parts; }
    while i < |parts|
      invariant 0 <= i <= |parts| && ctx.Valid() && fresh(ctx) && fresh(ctx.buffer)
      invariant ctx.block == block && ctx.iv == iv
      invariant ctx.msg + Concat(parts[i..]) == Concat(parts)
    {
      assert parts[i..][1..] == parts[i + 1..];
      ctx.Update(parts[i]);
      i := i + 1;
    }
    assert ctx.msg + [] == ctx.msg;
    var st := ctx.Final();
    digest := WriteOut(registers(st));
  }
}
