/**
 The prefix-coded integers of HPACK (section 5.1 of RFC 7541): the writer, its length
 counter, and the resumable reader.

 Masks are written as arithmetic: `High` clears the low bits of a byte by shifting right and
 back left, `Low` is what that takes away, and `|` of values with disjoint bits is `+`.
 */
module HpackInteger {
  import opened Words

  /** The all-ones prefix `k`. */
  function Mask(prefix: nat): (k: nat)
    requires 1 <= prefix <= 8
    ensures 1 <= k <= 255
  {
    ShlGrows(1, 1, prefix);
    ShlGrows(1, prefix, 8);
    Shl7(1);
    Shl(1, prefix) - 1
  }

  /** `b & ~k`. */
  function High(b: byte, prefix: nat): (r: nat) {
    Shl(Shr(b, prefix), prefix)
  }

  /** `b & k`. */
  function Low(b: byte, prefix: nat): (r: nat)
    ensures r < Shl(1, prefix)
    ensures r == b - High(b, prefix)
  {
    ShrRemainder(b, prefix);
    b - High(b, prefix)
  }

  /** `(b & ~k) | low`. */
  function Merge(b: byte, low: nat, prefix: nat): (r: byte)
    requires 1 <= prefix <= 8 && low <= Mask(prefix)
    ensures Low(r, prefix) == low
    ensures High(r, prefix) == High(b, prefix)
  {
    ShrRemainder(b, prefix);
    MergeIsByte(b, low, prefix);
    ShrAddLow(Shr(b, prefix), low, prefix);
    High(b, prefix) + low
  }

  lemma MergeIsByte(b: byte, low: nat, prefix: nat)
    requires prefix <= 8 && low < Shl(1, prefix)
    ensures High(b, prefix) + low < 256
  {
    var q := Shr(b, prefix);
    Shl7(1);
    ShrRemainder(b, prefix);
    // 256 is a multiple of the span, so the next multiple after a byte's is at most 256
    ShrShl(255, q + 1, prefix);
    ShlAdd(q, 1, prefix);
    if High(b, prefix) + Shl(1, prefix) > 256 {
      ShlShl(1, 8 - prefix, prefix);
      assert Shl(Shl(1, 8 - prefix), prefix) == 256;
      if Shl(1, 8 - prefix) <= q {
        ShlMono(Shl(1, 8 - prefix), q, prefix);
      } else {
        ShlMono(q + 1, Shl(1, 8 - prefix), prefix);
      }
    }
  }

  // ----- writing -----

  /** Base-128 groups, least significant first, each but the last with its top bit set. */
  function Groups(v: nat): (s: seq<byte>)
    ensures |s| >= 1
  {
    if v < 128 then [v] else [128 + v % 128] + Groups(v / 128)
  }

  /** The representation of `n` in a byte whose bits above the prefix are those of `flags`. */
  function Encoded(flags: byte, n: nat, prefix: nat): (s: seq<byte>)
    requires 1 <= prefix <= 8
  {
    var k := Mask(prefix);
    if n < k then [Merge(flags, n, prefix)] else [Merge(flags, k, prefix)] + Groups(n - k)
  }

  lemma EncodedIs(flags: byte, n: nat, prefix: nat)
    requires 1 <= prefix <= 8
    ensures var k := Mask(prefix);
            Encoded(flags, n, prefix) ==
            if n < k then [Merge(flags, n, prefix)] else [Merge(flags, k, prefix)] + Groups(n - k)
  {
  }

  lemma {:induction false} GroupsShort(v: nat, len: nat)
    requires v < Shl(1, 7 * len) && len >= 1
    ensures |Groups(v)| <= len
  {
    Shl7(1);
    if v >= 128 && len > 1 {
      ShlShl(1, 7 * (len - 1), 7);
      Shl7(Shl(1, 7 * (len - 1)));
      GroupsShort(v / 128, len - 1);
    }
  }

  /** Every 32-bit value takes at most six bytes, so the 16-byte scratch buffers suffice. */
  lemma EncodedFitsScratch(flags: byte, n: u32, prefix: nat)
    requires 1 <= prefix <= 8
    ensures 1 <= |Encoded(flags, n, prefix)| <= 6
  {
    if n >= Mask(prefix) {
      Shl35();
      GroupsShort(n - Mask(prefix), 5);
    }
  }

  method CountEncodedLength(n: u32, prefix: nat) returns (len: nat)
    requires 1 <= prefix <= 8
    ensures forall flags: byte :: len == |Encoded(flags, n, prefix)|
    ensures 1 <= len <= 6
  {
    EncodedFitsScratch(0, n, prefix);
    var k := Mask(prefix);
    if n < k {
      return 1;
    }
    var v := n - k;
    len := 1;
    while v >= 128
      invariant v >= 0
      invariant len + |Groups(v)| == 1 + |Groups(n - k)|
    {
      v := v / 128;
      len := len + 1;
    }
    len := len + 1;
  }

  lemma MergeTwice(b: byte, first: nat, second: nat, prefix: nat)
    requires 1 <= prefix <= 8 && first <= Mask(prefix) && second <= Mask(prefix)
    ensures Merge(Merge(b, first, prefix), second, prefix) == Merge(b, second, prefix)
  {
  }

  /** Writes in place at `at`; the flag bits above the prefix of `buf[at]` survive. */
  method EncodeLength(buf: array<byte>, at: nat, n: u32, prefix: nat) returns (len: nat)
    requires 1 <= prefix <= 8
    requires at + |Encoded(0, n, prefix)| <= buf.Length
    modifies buf
    ensures at + len <= buf.Length
    ensures buf[at..at + len] == old(Encoded(buf[at], n, prefix))
    ensures forall i :: 0 <= i < buf.Length && !(at <= i < at + len) ==> buf[i] == old(buf[i])
  {
    hide Merge;
    hide Groups;
    hide Encoded;
    hide Mask;
    var k := Mask(prefix);
    EncodedIs(0, n, prefix);
    ghost var flags := buf[at];
    EncodedIs(flags, n, prefix);
    var first := Merge(buf[at], 0, prefix);
    buf[at] := first;
    if n < k {
      MergeTwice(flags, 0, n, prefix);
      first := Merge(buf[at], n, prefix);
      buf[at] := first;
      assert buf[at..at + 1] == [first] == Encoded(flags, n, prefix);
      return 1;
    }
    MergeTwice(flags, 0, k, prefix);
    first := Merge(buf[at], k, prefix);
    buf[at] := first;
    ghost var goal := Encoded(flags, n, prefix);
    assert goal == [first] + Groups(n - k);
    len := WriteGroups(buf, at + 1, n - k);
    assert buf[at] == first;
    len := len + 1;
    assert buf[at..at + len] == [buf[at]] + buf[at + 1..at + len] == goal;
  }

  /** The loop of `EncodeLength` that writes the groups. */
  method WriteGroups(buf: array<byte>, at: nat, n: nat) returns (len: nat)
    requires at + |Groups(n)| <= buf.Length
    modifies buf
    ensures at + len <= buf.Length
    ensures buf[at..at + len] == Groups(n)
    ensures forall i :: 0 <= i < buf.Length && !(at <= i < at + len) ==> buf[i] == old(buf[i])
  {
    var i, v := at, n;
    while v >= 128
      invariant at <= i && v >= 0
      invariant i - at + |Groups(v)| == |Groups(n)|
      invariant buf[at..i] + Groups(v) == Groups(n)
      invariant forall j :: 0 <= j < buf.Length && !(at <= j < i) ==> buf[j] == old(buf[j])
    {
      ghost var before := buf[at..i];
      buf[i] := 128 + v % 128;
      assert buf[at..i + 1] == before + [buf[i]];
      assert before + Groups(v) == before + [buf[i]] + Groups(v / 128);
      v := v / 128;
      i := i + 1;
    }
    ghost var before := buf[at..i];
    buf[i] := v;
    assert buf[at..i + 1] == before + Groups(v);
    len := i + 1 - at;
  }

  // ----- reading -----

  /**
   What a reader call ends with. `Undefined` stands for a shift by 32 or more, which the
   language leaves undefined; every other outcome also says how many bytes were used.
   */
  datatype Scan =
    | Fail
    | Undefined
    | More(n: nat, shift: nat, used: nat)
    | Done(n: nat, shift: nat, used: nat)

  function Bump(r: Scan, more: nat): Scan {
    match r
    case More(n, shift, used) => More(n, shift, used + more)
    case Done(n, shift, used) => Done(n, shift, used + more)
    case _ => r
  }

  /** One continuation byte: none when the sum leaves 32 bits. */
  function AddGroup(n: u32, shift: nat, b: byte): (r: int)
    ensures r == -1 || n <= r <= UINT32_MAX
  {
    var low := b % 128;
    if Shr(UINT32_MAX, shift) < low then -1
    else if UINT32_MAX - Shl(low, shift) < n then -1
    else n + Shl(low, shift)
  }

  /** The continuation bytes. */
  function ScanTail(n: u32, shift: nat, s: seq<byte>): (r: Scan)
    ensures r.More? ==> n <= r.n <= UINT32_MAX && r.used == |s|
    ensures r.Done? ==> n <= r.n <= UINT32_MAX && 1 <= r.used <= |s|
    decreases |s|
  {
    if s == [] then More(n, shift, 0)
    else if shift >= 32 then Undefined
    else
      var sum := AddGroup(n, shift, s[0]);
      if sum == -1 then Fail
      else if s[0] < 128 then Done(sum, shift, 1)
      else Bump(ScanTail(sum, shift + 7, s[1..]), 1)
  }

  /** One call of the reader; `initial == 0` marks the start of an integer. */
  function Decoded(initial: u32, shift: nat, s: seq<byte>, prefix: nat): (r: Scan)
    requires 1 <= prefix <= 8 && |s| > 0
    ensures r.More? ==> 0 < r.n <= UINT32_MAX && initial <= r.n && r.used == |s|
    ensures r.Done? ==> r.n <= UINT32_MAX && initial <= r.n && 1 <= r.used <= |s|
  {
    var k := Mask(prefix);
    if initial != 0 then ScanTail(initial, shift, s)
    else if Low(s[0], prefix) != k then Done(Low(s[0], prefix), 0, 1)
    else if |s| == 1 then More(k, 0, 1)
    else Bump(ScanTail(k, shift, s[1..]), 1)
  }

  method DecodeLength(initial: u32, shift: nat, s: seq<byte>, prefix: nat) returns (r: Scan)
    requires 1 <= prefix <= 8 && |s| > 0
    ensures r == Decoded(initial, shift, s, prefix)
  {
    var k := Mask(prefix);
    if initial != 0 {
      r := ReadGroups(initial, shift, s);
      return;
    }
    if Low(s[0], prefix) != k {
      return Done(Low(s[0], prefix), 0, 1);
    }
    if |s| == 1 {
      return More(k, 0, 1);
    }
    r := ReadGroups(k, shift, s[1..]);
    r := Bump(r, 1);
  }

  /** The loop of `DecodeLength` over the continuation bytes. */
  method ReadGroups(initial: u32, shift: nat, s: seq<byte>) returns (r: Scan)
    ensures r == ScanTail(initial, shift, s)
  {
    var n: u32 := initial;
    var sh, i := shift, 0;
    assert s[0..] == s;
    while i != |s|
      invariant 0 <= i <= |s|
      invariant ScanTail(initial, shift, s) == Bump(ScanTail(n, sh, s[i..]), i)
    {
      ghost var rest := s[i..];
      assert rest[0] == s[i] && rest[1..] == s[i + 1..];
      if sh >= 32 {
        return Undefined;
      }
      var sum := AddGroup(n, sh, s[i]);
      if sum == -1 {
        return Fail;
      }
      n := sum;
      if s[i] < 128 {
        return Done(n, sh, i + 1);
      }
      i := i + 1;
      sh := sh + 7;
    }
    return More(n, sh, i);
  }

  // ----- the reader inverts the writer -----

  /** Reading the groups of `v`, whatever follows them, adds `v` shifted into place. */
  lemma {:induction false} ScanGroups(n: u32, shift: nat, v: nat, rest: seq<byte>)
    requires shift < 32
    requires n + Shl(v, shift) <= UINT32_MAX
    ensures ScanTail(n, shift, Groups(v) + rest)
         == Done(n + Shl(v, shift), shift + 7 * (|Groups(v)| - 1), |Groups(v)|)
    decreases v
  {
    var low, q := v % 128, v / 128;
    var s := Groups(v) + rest;
    assert s[0] % 128 == low;
    SplitShifted(v, shift);
    ShrShl(UINT32_MAX, low, shift);
    if v < 128 {
      assert q == 0 && low == v;
    } else {
      assert s[1..] == Groups(q) + rest;
      if shift + 7 >= 32 {
        Shl35();
        ShlGrows(1, 32, shift + 7);
        ShlMono(1, q, shift + 7);
      }
      ScanGroups(n + Shl(low, shift), shift + 7, q, rest);
    }
  }

  lemma SplitShifted(v: nat, shift: nat)
    ensures Shl(v, shift) == Shl(v % 128, shift) + Shl(v / 128, shift + 7)
  {
    Shl7(v / 128);
    ShlShl(v / 128, 7, shift);
    ShlAdd(v % 128, 128 * (v / 128), shift);
  }

  /**
   For every 32-bit value and prefix, the reader returns what the writer was given and uses
   what it wrote; the bits above the prefix are those that were there before.
   */
  lemma RoundTrip(flags: byte, n: u32, prefix: nat, rest: seq<byte>)
    requires 1 <= prefix <= 8
    ensures var e := Encoded(flags, n, prefix);
            var r := Decoded(0, 0, e + rest, prefix);
            && r.Done? && r.n == n && r.used == |e|
            && High(e[0], prefix) == High(flags, prefix)
  {
    hide Merge;
    hide Groups;
    hide ScanTail;
    var k := Mask(prefix);
    var e := Encoded(flags, n, prefix);
    if n >= k {
      assert (e + rest)[1..] == Groups(n - k) + rest;
      ScanGroups(k, 0, n - k, rest);
    }
  }

  // ----- stopping and resuming -----

  lemma {:induction false} ScanSplit(n: u32, shift: nat, a: seq<byte>, b: seq<byte>)
    ensures var first := ScanTail(n, shift, a);
            ScanTail(n, shift, a + b) ==
            if first.More? then Bump(ScanTail(first.n, first.shift, b), |a|) else first
    decreases |a|
  {
    var ab := a + b;
    if a == [] {
      assert ab == b;
      var r := ScanTail(n, shift, b);
      assert Bump(r, 0) == r;
    } else if shift < 32 {
      assert ab[0] == a[0] && ab[1..] == a[1..] + b;
      var sum := AddGroup(n, shift, a[0]);
      if sum != -1 && a[0] >= 128 {
        var rest := ScanTail(sum, shift + 7, a[1..]);
        ScanSplit(sum, shift + 7, a[1..], b);
        assert ScanTail(n, shift, a) == Bump(rest, 1);
      }
    }
  }

  lemma DecodedSplit(initial: u32, shift: nat, a: seq<byte>, b: seq<byte>, prefix: nat)
    requires 1 <= prefix <= 8 && |a| > 0 && |b| > 0
    requires initial == 0 ==> shift == 0
    ensures var first := Decoded(initial, shift, a, prefix);
            Decoded(initial, shift, a + b, prefix) ==
            if first.More? then Bump(Decoded(first.n, first.shift, b, prefix), |a|) else first
  {
    var k := Mask(prefix);
    if initial != 0 {
      ScanSplit(initial, shift, a, b);
    } else if Low(a[0], prefix) == k {
      assert (a + b)[1..] == a[1..] + b;
      ScanSplit(k, shift, a[1..], b);
    }
  }

  /** `hd_inflate_read_len`: a value above `maxlen` is refused, even an unfinished one. */
  function ReadLen(left: u32, shift: nat, s: seq<byte>, prefix: nat, maxlen: nat): (r: Scan)
    requires 1 <= prefix <= 8 && |s| > 0
    ensures r.More? ==> 0 < r.n <= UINT32_MAX && r.n <= maxlen && r.used == |s|
    ensures r.Done? ==> r.n <= UINT32_MAX && r.n <= maxlen && 1 <= r.used <= |s|
  {
    var d := Decoded(left, shift, s, prefix);
    if (d.More? || d.Done?) && d.n > maxlen then Fail else d
  }

  method ReadLength(left: u32, shift: nat, s: seq<byte>, prefix: nat, maxlen: nat) returns (r: Scan)
    requires 1 <= prefix <= 8 && |s| > 0
    ensures r == ReadLen(left, shift, s, prefix, maxlen)
  {
    r := DecodeLength(left, shift, s, prefix);
    if (r.More? || r.Done?) && r.n > maxlen {
      return Fail;
    }
  }

  /** The same integer offered as a list of fragments, one reader call per fragment. */
  function ReadFragments(left: u32, shift: nat, frags: seq<seq<byte>>, prefix: nat, maxlen: nat): (r: Scan)
    requires 1 <= prefix <= 8 && |frags| > 0
    requires forall f :: f in frags ==> |f| > 0
    decreases |frags|
  {
    var first := ReadLen(left, shift, frags[0], prefix, maxlen);
    if first.More? && |frags| > 1 then
      Bump(ReadFragments(first.n, first.shift, frags[1..], prefix, maxlen), |frags[0]|)
    else first
  }

  /**
   Fragmentation does not change value, consumption or verdict: unless one pass runs into
   the undefined shift, the fragmented read ends exactly as one pass over the whole input.
   */
  lemma {:induction false} FragmentsAgree(left: u32, shift: nat, frags: seq<seq<byte>>, prefix: nat, maxlen: nat)
    requires 1 <= prefix <= 8 && |frags| > 0
    requires forall f :: f in frags ==> |f| > 0
    requires left == 0 ==> shift == 0
    ensures |Concat(frags)| > 0
    ensures var whole := ReadLen(left, shift, Concat(frags), prefix, maxlen);
            whole.Undefined? || ReadFragments(left, shift, frags, prefix, maxlen) == whole
    decreases |frags|
  {
    var a := frags[0];
    if |frags| == 1 {
      assert Concat(frags) == a + Concat([]) == a;
    } else {
      var b := Concat(frags[1..]);
      var first := ReadLen(left, shift, a, prefix, maxlen);
      var d := Decoded(left, shift, a, prefix);
      if first.More? {
        FragmentsAgree(first.n, first.shift, frags[1..], prefix, maxlen);
        DecodedSplit(left, shift, a, b, prefix);
      } else {
        assert |frags[1]| > 0;
        assert b == frags[1] + Concat(frags[1..][1..]);
        DecodedSplit(left, shift, a, b, prefix);
      }
    }
  }

  /** With at most five continuation bytes the undefined shift cannot be reached. */
  lemma DefinedWithinFive(s: seq<byte>, prefix: nat)
    requires 1 <= prefix <= 8 && |s| > 0
    requires |s| <= 6 || exists i :: 1 <= i <= 5 && s[i] < 128
    ensures !Decoded(0, 0, s, prefix).Undefined?
  {
    var k := Mask(prefix);
    if Low(s[0], prefix) == k && |s| > 1 {
      TailDefined(k, 0, s[1..]);
    }
  }

  lemma {:induction false} TailDefined(n: u32, groups: nat, s: seq<byte>)
    requires groups <= 5
    requires |s| + groups <= 5 || exists i :: 0 <= i < 5 - groups && i < |s| && s[i] < 128
    ensures !ScanTail(n, 7 * groups, s).Undefined?
    decreases |s|
  {
    if s != [] && s[0] >= 128 {
      var sum := AddGroup(n, 7 * groups, s[0]);
      if sum != -1 {
        if |s| + groups > 5 {
          var i :| 0 <= i < 5 - groups && i < |s| && s[i] < 128;
          assert s[1..][i - 1] == s[i];
        }
        TailDefined(sum, groups + 1, s[1..]);
      }
    }
  }

  // ----- the representation of section 5.1 -----

  /** The prefix bits of a byte are its remainder. */
  lemma LowIsRemainder(b: byte, prefix: nat)
    ensures Shl(1, prefix) > 0 && Low(b, prefix) == b % Shl(1, prefix)
  {
    hide Shr;
    hide Shl;
    var q, span := Shr(b, prefix), Shl(1, prefix);
    ShrRemainder(b, prefix);
    ShlTimes(q, prefix);
    RemainderIs(q, span, Low(b, prefix));
  }

  lemma {:induction false} ShlTimes(q: nat, n: nat)
    ensures Shl(q, n) == q * Shl(1, n)
  {
    if n > 0 {
      ShlTimes(q, n - 1);
    }
  }

  lemma RemainderIs(q: nat, span: nat, r: nat)
    requires r < span
    ensures (q * span + r) % span == r
  {
    var x := q * span + r;
    var d, m := x / span, x % span;
    assert x == d * span + m;
    if d < q {
      TimesGap(d, q, span);
    } else if d > q {
      TimesGap(q, d, span);
    }
  }

  lemma TimesGap(a: nat, b: nat, span: nat)
    requires a < b
    ensures a * span + span <= b * span
  {
    assert (a + 1) * span <= b * span;
  }

  /** The number that bytes hold, seven bits each, the least significant first. */
  function SevenBits(s: seq<byte>): (v: nat) {
    if s == [] then 0 else s[0] % 128 + 128 * SevenBits(s[1..])
  }

  /** Continuation bytes: the top bit says that another one follows. */
  predicate Continued(s: seq<byte>) {
    forall i | 0 <= i < |s| :: s[i] >= 128
  }

  predicate Terminated(s: seq<byte>) {
    s != [] && s[|s| - 1] < 128 && Continued(s[..|s| - 1])
  }

  lemma {:induction false} GroupsHold(v: nat)
    ensures SevenBits(Groups(v)) == v && Terminated(Groups(v))
  {
    if v < 128 {
      assert [v][1..] == [] && [v][..0] == [];
    } else {
      var g, rest := Groups(v), Groups(v / 128);
      GroupsHold(v / 128);
      assert g[1..] == rest;
      assert forall i | 0 < i < |g| - 1 :: g[i] == rest[..|rest| - 1][i - 1];
    }
  }

  /**
   What is written: one byte for a number below 2^N - 1, which is then in its low bits; otherwise
   ones in the low bits, and the excess in seven-bit groups, each but the last with its top bit set.
   */
  lemma EncodedForm(flags: byte, n: nat, prefix: nat)
    requires 1 <= prefix <= 8
    ensures var e, span := Encoded(flags, n, prefix), Shl(1, prefix);
            && e != [] && High(e[0], prefix) == High(flags, prefix)
            && (|e| == 1 <==> n + 1 < span)
            && (|e| == 1 ==> Low(e[0], prefix) == n)
            && (|e| > 1 ==>
                  && Low(e[0], prefix) == span - 1
                  && span - 1 + SevenBits(e[1..]) == n && Terminated(e[1..]))
  {
    hide Merge;
    hide Groups;
    var e, k := Encoded(flags, n, prefix), Mask(prefix);
    if n >= k {
      GroupsHold(n - k);
      assert e[1..] == Groups(n - k);
    }
  }

  lemma SevenBitsPrepend(b: byte, s: seq<byte>)
    ensures SevenBits([b] + s) == b % 128 + 128 * SevenBits(s)
  {
    assert ([b] + s)[1..] == s;
  }

  /** A number above 32 bits is met, before the last of the bytes or at it. */
  ghost predicate TooLarge(n: nat, shift: nat, s: seq<byte>) {
    exists k | 0 <= k < |s| :: Continued(s[..k]) && n + Shl(SevenBits(s[..k + 1]), shift) > UINT32_MAX
  }

  /** What the reader ends with says what number the bytes hold. */
  ghost predicate Holds(n: nat, shift: nat, s: seq<byte>, r: Scan) {
    match r
    case Done(v, _, used) =>
      used <= |s| && v == n + Shl(SevenBits(s[..used]), shift) && Terminated(s[..used])
    case More(v, _, _) => v == n + Shl(SevenBits(s), shift) && Continued(s)
    case Fail => TooLarge(n, shift, s)
    case Undefined => true
  }

  lemma HoldsAfter(n: u32, shift: nat, s: seq<byte>, r: Scan)
    requires s != [] && s[0] >= 128 && Holds(n + Shl(s[0] % 128, shift), shift + 7, s[1..], r)
    ensures Holds(n, shift, s, Bump(r, 1))
  {
    hide Shl;
    hide SevenBits;
    hide Terminated;
    hide Continued;
    var t := s[1..];
    match r {
      case Done(_, _, used) => JoinGroup(s, used, shift);
      case More(_, _, _) =>
        JoinGroup(s, |t|, shift);
        assert t[..|t|] == t && s[..|t| + 1] == s;
      case Fail =>
        var sum := n + Shl(s[0] % 128, shift);
        var k :| 0 <= k < |t| && Continued(t[..k]) && sum + Shl(SevenBits(t[..k + 1]), shift + 7) > UINT32_MAX;
        JoinGroup(s, k, shift);
        JoinGroup(s, k + 1, shift);
        assert Continued(s[..k + 1]);
      case Undefined =>
    }
  }

  /** The continuation bytes add their number, shifted into place, and stop right after the last of them. */
  lemma {:induction false} ScanTailValue(n: u32, shift: nat, s: seq<byte>)
    ensures Holds(n, shift, s, ScanTail(n, shift, s))
    decreases |s|
  {
    if s == [] {
      ShlZero(shift);
    } else if shift < 32 {
      ShrShl(UINT32_MAX, s[0] % 128, shift);
      OneByte(s[0]);
      assert s[..1] == [s[0]] && s[..0] == [];
      hide Shl;
      hide Shr;
      hide SevenBits;
      var sum := AddGroup(n, shift, s[0]);
      if sum == -1 {
        assert Continued(s[..0]) && n + Shl(SevenBits(s[..0 + 1]), shift) > UINT32_MAX;
      } else if s[0] >= 128 {
        ScanTailValue(sum, shift + 7, s[1..]);
        HoldsAfter(n, shift, s, ScanTail(sum, shift + 7, s[1..]));
      }
    }
  }

  lemma {:induction false} ShlZero(n: nat)
    ensures Shl(0, n) == 0
  {
    if n > 0 {
      ShlZero(n - 1);
    }
  }

  lemma OneByte(b: byte)
    ensures SevenBits([b]) == b % 128
  {
    assert [b][1..] == [];
  }

  lemma JoinGroup(s: seq<byte>, k: nat, shift: nat)
    requires 0 <= k < |s|
    ensures Shl(SevenBits(s[..k + 1]), shift) == Shl(s[0] % 128, shift) + Shl(SevenBits(s[1..][..k]), shift + 7)
    ensures s[0] >= 128 && Continued(s[1..][..k]) ==> Continued(s[..k + 1])
    ensures s[0] >= 128 && Terminated(s[1..][..k]) ==> Terminated(s[..k + 1])
  {
    var t := s[1..][..k];
    assert s[..k + 1] == [s[0]] + t;
    SevenBitsPrepend(s[0], t);
    var v := SevenBits(s[..k + 1]);
    assert v % 128 == s[0] % 128 && v / 128 == SevenBits(t);
    SplitShifted(v, shift);
    if Terminated(t) {
      assert s[..k + 1][..k] == [s[0]] + t[..k - 1];
    }
  }

  /**
   What is read, from any bytes: the low bits alone, after one byte, exactly unless they are all
   ones; otherwise ones plus the seven-bit groups up to the first byte without its top bit. The
   reader fails only at a number above 32 bits.
   */
  lemma DecodedValue(s: seq<byte>, prefix: nat)
    requires 1 <= prefix <= 8 && |s| > 0
    ensures Shl(1, prefix) > 0
    ensures var r, low, ones := Decoded(0, 0, s, prefix), s[0] % Shl(1, prefix), Shl(1, prefix) - 1;
            && (low != ones ==> r == Done(low, 0, 1))
            && (low == ones && r.Done? ==>
                  && 1 < r.used <= |s| && Terminated(s[1..r.used]) && r.n == ones + SevenBits(s[1..r.used]))
            && (r.More? ==> low == ones && Continued(s[1..]) && r.n == ones + SevenBits(s[1..]))
            && (r.Fail? ==> low == ones && TooLarge(ones, 0, s[1..]))
  {
    hide ScanTail;
    hide SevenBits;
    hide Terminated;
    hide TooLarge;
    LowIsRemainder(s[0], prefix);
    var k, t := Mask(prefix), s[1..];
    if Low(s[0], prefix) == k && |s| > 1 {
      ScanTailValue(k, 0, t);
      var r := ScanTail(k, 0, t);
      if r.Done? {
        assert s[1..r.used + 1] == t[..r.used];
      }
    } else if |s| == 1 {
      assert SevenBits([]) == 0 by { NoBits(); }
    }
  }

  lemma NoBits()
    ensures SevenBits([]) == 0
  {
  }
}
