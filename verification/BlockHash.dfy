/** What the streaming hashes have in common: folding 64-byte blocks, and padding. */
module BlockHash {
  import opened Words

  /** Folds a block function over the whole 64-byte blocks of a message. */
  function Fold<S>(block: (S, seq<byte>) -> S, st: S, m: seq<byte>): (r: S)
    decreases |m|
  {
    if |m| < 64 then st else Fold(block, block(st, m[..64]), m[64..])
  }

  /** The part of a message made of whole blocks, and the rest. */
  function Whole(m: seq<byte>): (r: seq<byte>)
    ensures |r| % 64 == 0
  {
    m[..|m| - |m| % 64]
  }

  function Rest(m: seq<byte>): (r: seq<byte>)
    ensures |r| == |m| % 64 && Whole(m) + r == m
  {
    m[|m| - |m| % 64..]
  }

  lemma {:induction false} FoldConcat<S>(block: (S, seq<byte>) -> S, st: S, a: seq<byte>, b: seq<byte>)
    requires |a| % 64 == 0
    ensures Fold(block, st, a + b) == Fold(block, Fold(block, st, a), b)
    decreases |a|
  {
    if a == [] {
      assert a + b == b;
    } else {
      assert |a| >= 64;
      assert (a + b)[..64] == a[..64] && (a + b)[64..] == a[64..] + b;
      FoldConcat(block, block(st, a[..64]), a[64..], b);
    }
  }

  lemma FoldOne<S>(block: (S, seq<byte>) -> S, st: S, m: seq<byte>)
    requires |m| == 64
    ensures Fold(block, st, m) == block(st, m)
  {
    assert m[..64] == m;
  }

  /** Appending to a message: the buffered rest and the new data are what is left to fold. */
  lemma FoldAppend<S>(block: (S, seq<byte>) -> S, st: S, m: seq<byte>, data: seq<byte>)
    ensures Fold(block, st, Whole(m + data)) ==
            Fold(block, Fold(block, st, Whole(m)), Whole(Rest(m) + data))
    ensures Rest(m + data) == Rest(Rest(m) + data)
  {
    var n, k := |Whole(m)|, |Whole(Rest(m) + data)|;
    assert m + data == Whole(m) + (Rest(m) + data);
    assert |m + data| == n + |Rest(m) + data|;
    assert |m + data| % 64 == |Rest(m) + data| % 64;
    assert Whole(m + data) == Whole(m) + Whole(Rest(m) + data);
    FoldConcat(block, st, Whole(m), Whole(Rest(m) + data));
  }

  /** Completing a buffered rest to a block, then going on with the remaining data. */
  lemma CompleteBlock<S>(block: (S, seq<byte>) -> S, st: S, rest: seq<byte>, data: seq<byte>)
    requires |rest| < 64 <= |rest| + |data|
    ensures var k := 64 - |rest|;
            && Fold(block, st, Whole(rest + data)) == Fold(block, block(st, rest + data[..k]), Whole(data[k..]))
            && Rest(rest + data) == Rest(data[k..])
  {
    var k := 64 - |rest|;
    var first, more := rest + data[..k], data[k..];
    assert rest + data == first + more;
    assert |rest + data| == 64 + |more|;
    assert Whole(rest + data) == first + Whole(more);
    FoldConcat(block, st, first, Whole(more));
    FoldOne(block, st, first);
  }

  /** One more byte either joins the rest or completes a block. */
  lemma AppendByte<S>(block: (S, seq<byte>) -> S, st: S, m: seq<byte>, b: byte)
    ensures var rest := Rest(m) + [b];
            if |rest| < 64 then
              Whole(m + [b]) == Whole(m) && Rest(m + [b]) == rest
            else
              && Fold(block, st, Whole(m + [b])) == block(Fold(block, st, Whole(m)), rest)
              && |Whole(m + [b])| == |Whole(m)| + 64 && Rest(m + [b]) == []
  {
    var rest := Rest(m) + [b];
    assert m + [b] == Whole(m) + rest;
    if |rest| == 64 {
      assert Whole(m + [b]) == Whole(m) + rest;
      FoldConcat(block, st, Whole(m), rest);
      FoldOne(block, Fold(block, st, Whole(m)), rest);
    }
  }

  lemma FoldNothing<S>(block: (S, seq<byte>) -> S, st: S, m: seq<byte>)
    requires |m| < 64
    ensures Fold(block, st, Whole(m)) == st && Rest(m) == m
  {
  }

  /** `memcpy` into a buffer. */
  method CopyIn(buf: array<byte>, at: nat, data: seq<byte>)
    requires at + |data| <= buf.Length
    modifies buf
    ensures buf[..at] == old(buf[..at])
    ensures buf[at..at + |data|] == data
    ensures buf[at + |data|..] == old(buf[at + |data|..])
  {
    var i := 0;
    while i < |data|
      invariant 0 <= i <= |data|
      invariant buf[..at] == old(buf[..at]) && buf[at..at + i] == data[..i]
      invariant buf[at + |data|..] == old(buf[at + |data|..])
    {
      ghost var done := buf[at..at + i];
      buf[at + i] := data[i];
      assert buf[at..at + i + 1] == done + [data[i]];
      i := i + 1;
    }
  }

  function Zeros(n: nat): (r: seq<byte>)
    ensures |r| == n
  {
    seq(n, _ => 0)
  }

  /** How many zero bytes follow the marker so that eight bytes of length end a block. */
  function Gap(len: nat): (n: nat)
    ensures n < 64 && (len + 1 + n + 8) % 64 == 0
  {
    (119 - len % 64) % 64
  }

  /** The padded message: marker, zeros, length field. */
  function Padded(m: seq<byte>, length: seq<byte>): (r: seq<byte>)
    requires |length| == 8
    ensures |r| % 64 == 0
  {
    m + [0x80] + Zeros(Gap(|m|)) + length
  }

  /** The last one or two blocks: what `Final` has to fold after the buffered rest. */
  lemma PaddedTail<S>(block: (S, seq<byte>) -> S, st: S, m: seq<byte>, length: seq<byte>)
    requires |length| == 8
    ensures Fold(block, st, Padded(m, length)) ==
            Fold(block, Fold(block, st, Whole(m)), Padded(Rest(m), length))
  {
    assert Gap(|m|) == Gap(|Rest(m)|);
    assert Padded(m, length) == Whole(m) + Padded(Rest(m), length);
    FoldConcat(block, st, Whole(m), Padded(Rest(m), length));
  }

  /** A rest of up to 55 bytes leaves room for the length in the same block. */
  lemma PaddedShort<S>(block: (S, seq<byte>) -> S, st: S, rest: seq<byte>, length: seq<byte>)
    requires |length| == 8 && |rest| <= 55
    ensures var last := rest + [0x80] + Zeros(55 - |rest|) + length;
            |last| == 64 && Fold(block, st, Padded(rest, length)) == block(st, last)
  {
    FoldOne(block, st, Padded(rest, length));
  }

  /** A longer rest pushes the length into a block of its own. */
  lemma PaddedLong<S>(block: (S, seq<byte>) -> S, st: S, rest: seq<byte>, length: seq<byte>)
    requires |length| == 8 && 56 <= |rest| < 64
    ensures var first := rest + [0x80] + Zeros(63 - |rest|);
            var last := Zeros(56) + length;
            && |first| == 64 && |last| == 64
            && Fold(block, st, Padded(rest, length)) == block(block(st, first), last)
  {
    var first, last := rest + [0x80] + Zeros(63 - |rest|), Zeros(56) + length;
    assert Padded(rest, length) == first + last;
    FoldConcat(block, st, first, last);
    FoldOne(block, st, first);
    FoldOne(block, block(st, first), last);
  }

  // ----- length fields -----

  /** The low `n` bytes of a number, least significant first. */
  function LittleEndian(v: nat, n: nat): (r: seq<byte>)
    ensures |r| == n
  {
    if n == 0 then [] else [v % 256] + LittleEndian(v / 256, n - 1)
  }

  /** The low `n` bytes of a number, most significant first. */
  function BigEndian(v: nat, n: nat): (r: seq<byte>)
    ensures |r| == n
  {
    if n == 0 then [] else BigEndian(v / 256, n - 1) + [v % 256]
  }

  /** Words written out, each in four bytes. */
  function WordsLittleEndian(ws: seq<u32>): (r: seq<byte>) {
    if ws == [] then [] else WordsLittleEndian(ws[..|ws| - 1]) + LittleEndian(ws[|ws| - 1], 4)
  }

  function WordsBigEndian(ws: seq<u32>): (r: seq<byte>)
    ensures |r| == 4 * |ws|
  {
    if ws == [] then [] else WordsBigEndian(ws[..|ws| - 1]) + BigEndian(ws[|ws| - 1], 4)
  }

  lemma FourBytes(w: u32)
    ensures LittleEndian(w, 4) == [w % 256, w / 256 % 256, w / 0x1_0000 % 256, w / 0x100_0000 % 256]
    ensures BigEndian(w, 4) == [w / 0x100_0000 % 256, w / 0x1_0000 % 256, w / 256 % 256, w % 256]
  {
    var a, b, c := w / 256, w / 256 / 256, w / 256 / 256 / 256;
    assert b == w / 0x1_0000 && c == w / 0x100_0000;
    assert LittleEndian(w, 4) == [w % 256] + LittleEndian(a, 3);
    assert LittleEndian(a, 3) == [a % 256] + LittleEndian(b, 2);
    assert LittleEndian(b, 2) == [b % 256] + LittleEndian(c, 1);
    assert LittleEndian(c, 1) == [c % 256] + LittleEndian(c / 256, 0);
    assert BigEndian(w, 4) == BigEndian(a, 3) + [w % 256];
    assert BigEndian(a, 3) == BigEndian(b, 2) + [a % 256];
    assert BigEndian(b, 2) == BigEndian(c, 1) + [b % 256];
    assert BigEndian(c, 1) == BigEndian(c / 256, 0) + [c % 256];
  }

  /** Word i takes bytes 4 * i to 4 * i + 3, in the order of the words, least significant byte first. */
  lemma {:induction false} WordInPlaceLittle(ws: seq<u32>, i: nat)
    requires i < |ws|
    ensures var r, w := WordsLittleEndian(ws), ws[i];
            && |r| == 4 * |ws|
            && r[4 * i..4 * i + 4] == [w % 256, w / 256 % 256, w / 0x1_0000 % 256, w / 0x100_0000 % 256]
  {
    hide LittleEndian;
    var n := |ws| - 1;
    var front := ws[..n];
    FourBytes(ws[n]);
    if n > 0 {
      WordInPlaceLittle(front, if i < n then i else 0);
    }
    var r, f := WordsLittleEndian(ws), WordsLittleEndian(front);
    assert r == f + LittleEndian(ws[n], 4);
    if i < n {
      assert r[4 * i..4 * i + 4] == f[4 * i..4 * i + 4];
    } else {
      assert r[4 * i..4 * i + 4] == LittleEndian(ws[n], 4);
    }
  }

  /** The same, most significant byte first. */
  lemma {:induction false} WordInPlaceBig(ws: seq<u32>, i: nat)
    requires i < |ws|
    ensures var r, w := WordsBigEndian(ws), ws[i];
            r[4 * i..4 * i + 4] == [w / 0x100_0000 % 256, w / 0x1_0000 % 256, w / 256 % 256, w % 256]
  {
    hide BigEndian;
    var n := |ws| - 1;
    var front := ws[..n];
    FourBytes(ws[n]);
    var r, f := WordsBigEndian(ws), WordsBigEndian(front);
    assert r == f + BigEndian(ws[n], 4);
    if i < n {
      WordInPlaceBig(front, i);
      assert r[4 * i..4 * i + 4] == f[4 * i..4 * i + 4];
    } else {
      assert r[4 * i..4 * i + 4] == BigEndian(ws[n], 4);
    }
  }

  /** The number in a big-endian field. */
  function BigValue(s: seq<byte>): (v: nat) {
    if s == [] then 0 else 256 * BigValue(s[..|s| - 1]) + s[|s| - 1]
  }

  lemma {:induction false} BigEndianHolds(v: nat, n: nat)
    requires v < Pow256(n)
    ensures BigValue(BigEndian(v, n)) == v
  {
    if n > 0 {
      var r, q := BigEndian(v, n), v / 256;
      assert q < Pow256(n - 1);
      BigEndianHolds(q, n - 1);
      assert r[..n - 1] == BigEndian(q, n - 1) && r[n - 1] == v % 256;
      hide BigEndian;
      hide Pow256;
      assert BigValue(r) == 256 * q + v % 256;
    }
  }

  /** A little-endian field is a big-endian one backwards. */
  lemma {:induction false} EndiansMirror(v: nat, n: nat, i: nat)
    requires i < n
    ensures LittleEndian(v, n)[i] == BigEndian(v, n)[n - 1 - i]
  {
    if i > 0 {
      EndiansMirror(v / 256, n - 1, i - 1);
    }
  }

  lemma {:induction false} LittleEndianSplit(low: nat, high: nat, n: nat, m: nat)
    requires low < Pow256(n)
    ensures LittleEndian(low + Pow256(n) * high, n + m) == LittleEndian(low, n) + LittleEndian(high, m)
  {
    if n > 0 {
      var x := Pow256(n - 1) * high;
      assert Pow256(n) * high == 256 * x;
      assert (low + 256 * x) / 256 == low / 256 + x && (low + 256 * x) % 256 == low % 256;
      LittleEndianSplit(low / 256, high, n - 1, m);
    }
  }

  /** Equal big-endian fields of `n` bytes mean equal numbers below `256^n`. */
  lemma BigEndianInjective(v: nat, w: nat, n: nat)
    requires v < Pow256(n) && w < Pow256(n) && BigEndian(v, n) == BigEndian(w, n)
    ensures v == w
  {
    BigEndianHolds(v, n);
    BigEndianHolds(w, n);
  }
}
