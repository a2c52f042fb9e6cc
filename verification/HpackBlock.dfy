/**
 The decoder's side of HPACK (section 6.1 of RFC 7541): the resumable reader of indexed
 fields, the commit of literals, and the way of a field from encoder to decoder.
 */
module HpackBlock {
  import opened Words
  import opened HpackInteger
  import opened HpackRing
  import opened HpackMap
  import opened HpackStatic
  import opened HpackTable
  import opened HpackIndex

  // ----- one call -----

  /** Where the decoder stands: at the start, before an opcode, or inside the index of an indexed field. */
  datatype Phase = Start | Opcode | ReadIndex(left: u32, shift: nat)

  /**
   What a call ends with. `Other` stands for the opcodes that are not indexed fields,
   `BadShift` for the undefined shift of the integer reader.
   */
  datatype Reading =
    | Wait(phase: Phase)
    | Emit(index: nat, used: nat)
    | Reject
    | Other
    | BadShift

  /** The READ_INDEX state. The largest index allowed is the last one in the table. */
  function ReadIndexed(left: u32, shift: nat, size: nat, s: seq<byte>): (r: Reading)
    requires |s| > 0
    ensures r.Emit? ==> r.index < STATIC_TABLE_LENGTH + size && 1 <= r.used <= |s|
  {
    match ReadLen(left, shift, s, 7, STATIC_TABLE_LENGTH + size)
    case Fail => Reject
    case Undefined => BadShift
    case More(n, sh, _) => Wait(ReadIndex(n, sh))
    case Done(n, _, used) => if n == 0 then Reject else Emit(n - 1, used)
  }

  /** One call of the decoder, for a dynamic table of the given size. */
  function Feed(phase: Phase, size: nat, s: seq<byte>): (r: Reading)
    ensures r.Emit? ==> r.index < STATIC_TABLE_LENGTH + size && 1 <= r.used <= |s|
  {
    if s == [] then Wait(phase)
    else if phase.ReadIndex? then ReadIndexed(phase.left, phase.shift, size, s)
    else if 0x20 <= s[0] < 0x40 then (if phase == Start then Other else Reject)
    else if s[0] >= 0x80 then ReadIndexed(0, 0, size, s)
    else Other
  }

  /** The last call of a header block must not end inside a field. */
  function Ended(r: Reading, last: bool): (r': Reading) {
    if r.Wait? && last && r.phase != Opcode then Reject else r
  }

  datatype Commit = Delivered(f: Field) | Abort

  /** The fields of the decoder that indexed fields and the commit of literals work with. */
  class Decoder {
    const table: Table
    var left: u32
    var shift: nat
    var started: bool
    var reading: bool
    var bad: bool

    ghost predicate Valid()
      reads table, table.ring, table.ring.buffer, table.map', table.MapRepr()
    {
      table.Valid()
    }

    ghost function Fields(): (r: seq<Field>)
      reads table, table.ring
    {
      table.View().fields
    }

    ghost function CurrentPhase(): (p: Phase)
      reads this
    {
      if reading then ReadIndex(left, shift) else if started then Opcode else Start
    }

    constructor ()
      ensures Valid() && table.View() == State([], 4096) && CurrentPhase() == Start && !bad
      ensures fresh(table) && fresh(table.ring) && fresh(table.ring.buffer) && table.map' == null
    {
      table := new Table(4096, false);
      left, shift, started, reading, bad := 0, 0, false, false, false;
    }

    /** `http2_inflate_hd2` along the indexed path: one state per turn of the loop. */
    method Inflate(input: seq<byte>, last: bool) returns (r: Reading, f: Option<Field>)
      requires Valid()
      modifies this
      ensures old(bad) ==> r == Reject && bad && CurrentPhase() == old(CurrentPhase())
      ensures !old(bad) ==> r == Ended(Feed(old(CurrentPhase()), |Fields()|, input), last)
      ensures r.Wait? ==> CurrentPhase() == r.phase && !bad
      ensures r.Emit? ==> CurrentPhase() == Opcode && f == Some(Indexed(Fields(), r.index)) && !bad
      ensures r == Reject ==> bad
    {
      hide StaticRow;
      hide ReadLen;
      hide Mirrors;
      hide Books;
      r, f := Reject, None;
      if bad {
        return;
      }
      if input != [] {
        r := Other;
        if !reading && 0x20 <= input[0] < 0x40 {
          if started {
            r, bad := Reject, true;
          }
          return;
        }
        if !reading && input[0] < 0x80 {
          return;
        }
        if !reading {
          reading, left, shift := true, 0, 0;
        }
        r, f := ReadIndexState(input);
        if !r.Wait? {
          return;
        }
      }
      r := Wait(if reading then ReadIndex(left, shift) else if started then Opcode else Start);
      if last && r.phase != Opcode {
        r, bad := Reject, true;
      }
    }

    /** The READ_INDEX state of the loop, and the commit of an indexed field. */
    method ReadIndexState(input: seq<byte>) returns (r: Reading, f: Option<Field>)
      requires Valid() && reading && !bad && input != []
      modifies this
      ensures r == ReadIndexed(old(left), old(shift), |Fields()|, input)
      ensures r.Wait? ==> CurrentPhase() == r.phase && reading && !bad
      ensures r.Emit? ==> CurrentPhase() == Opcode && f == Some(Indexed(Fields(), r.index)) && !bad
      ensures r == Reject ==> bad
    {
      hide StaticRow;
      hide ReadLen;
      hide Mirrors;
      hide Books;
      f := None;
      var maxIndex := table.ring.len + STATIC_TABLE_LENGTH - 1;
      var out := ReadLength(left, shift, input, 7, maxIndex + 1);
      match out {
        case Fail =>
          r, bad := Reject, true;
        case Undefined =>
          r := BadShift;
        case More(n, sh, _) =>
          left, shift := n, sh;
          r := Wait(ReadIndex(left, shift));
        case Done(n, sh, used) =>
          left, shift := n, sh;
          if left == 0 {
            r, bad := Reject, true;
          } else {
            started, reading := true, false;
            var got := Get(left - 1);
            r, f := Emit(left - 1, used), Some(got);
          }
      }
    }

    method Get(index: nat) returns (f: Field)
      requires Valid() && index < STATIC_TABLE_LENGTH + |Fields()|
      ensures f == Indexed(Fields(), index)
    {
      if index >= STATIC_TABLE_LENGTH {
        var e := table.ring.Get(index - STATIC_TABLE_LENGTH);
        f := e.field;
      } else {
        f := StaticRow(index).field;
      }
    }

    /**
     `hd_inflate_commit_newname` on the name and value read into one buffer: the code takes the
     whole buffer for the name and nothing for the value, and only the indexed case returns.
     */
    method CommitNewName(name: string, value: string, mode: Mode, memory: bool) returns (r: Commit)
      requires Valid() && table.map' == null && table.ring.len < 0x8000_0000
      modifies table, table.ring, table.ring.buffer
      ensures Valid()
      ensures var c := Committed(old(table.View()), Field(name, value), -1, mode);
              if r.Delivered? then c == Some((r.f, table.View())) else c == None || !memory
    {
      hide Mirrors;
      hide Books;
      hide Step;
      var buf := name + value;
      var nv := Field(buf, buf[|buf|..]);
      assert nv == Field(name + value, "");
      if mode != WithIndexing {
        return Abort;
      }
      r := AddLiteral(nv, LookupToken(nv.name), memory);
    }

    /** `hd_inflate_commit_indname`: only a static name to be indexed is handled. */
    method CommitIndexedName(index: nat, value: string, mode: Mode, memory: bool) returns (r: Commit)
      requires Valid() && table.map' == null && table.ring.len < 0x8000_0000
      requires index < STATIC_TABLE_LENGTH + |Fields()|
      modifies table, table.ring, table.ring.buffer
      ensures Valid()
      ensures forall name :: var c := Committed(old(table.View()), Field(name, value), index, mode);
              if r.Delivered? then c == Some((r.f, table.View())) else c == None || !memory
    {
      hide Mirrors;
      hide Books;
      hide Step;
      hide StaticRow;
      if mode != WithIndexing || index >= STATIC_TABLE_LENGTH {
        return Abort;
      }
      var row := StaticRow(index);
      r := AddLiteral(Field(row.field.name, value), row.token, memory);
    }

    /** The insertion shared by both commits; without memory the program ends. */
    method AddLiteral(nv: Field, token: int, memory: bool) returns (r: Commit)
      requires Valid() && table.map' == null && table.ring.len < 0x8000_0000
      modifies table, table.ring, table.ring.buffer
      ensures Valid() && (r == Abort ==> !memory)
      ensures r.Delivered? ==> r.f == nv && table.View() == Step(old(table.View()), Op.Insert(nv))
    {
      hide Mirrors;
      hide Books;
      hide Step;
      var e := table.Insert(nv, token, 0, memory);
      r := if e == null then Abort else Delivered(e.field);
    }

    /** One piece of a header block: calls until it is used up or the decoder stops. */
    method InflatePiece(piece: seq<byte>) returns (fields: seq<Field>, end: Option<Phase>)
      requires Valid() && !bad
      modifies this
      ensures var r := Parse(old(CurrentPhase()), |Fields()|, piece);
              && fields == Looked(Fields(), r.indices)
              && end == r.end
              && (end.Some? ==> CurrentPhase() == end.value && !bad)
    {
      hide Mirrors;
      hide Books;
      hide Feed;
      hide Indexed;
      hide Parse;
      ghost var size := |Fields()|;
      ghost var whole := Parse(CurrentPhase(), size, piece);
      ghost var done: seq<nat> := [];
      var input := piece;
      fields := [];
      while input != []
        invariant !bad && InTable(done, size) && fields == Looked(Fields(), done)
        invariant whole == Prepend(done, Parse(CurrentPhase(), size, input))
        decreases |input|
      {
        ParseIs(CurrentPhase(), size, input);
        ghost var before := CurrentPhase();
        var r, f := Inflate(input, false);
        match r {
          case Emit(index, used) =>
            fields, input := fields + [f.value], input[used..];
            done := done + [index];
          case Wait(_) =>
            return fields, Some(if reading then ReadIndex(left, shift) else if started then Opcode else Start);
          case _ =>
            return fields, None;
        }
      }
      ParseNothing(CurrentPhase(), size);
      end := Some(if reading then ReadIndex(left, shift) else if started then Opcode else Start);
    }

    /** A header block offered in pieces. */
    method InflateAll(frags: seq<seq<byte>>) returns (fields: seq<Field>, end: Option<Phase>)
      requires Valid() && !bad
      modifies this
      ensures var r := Stream(old(CurrentPhase()), |Fields()|, frags);
              && fields == Looked(Fields(), r.indices)
              && end == r.end
              && (end.Some? ==> CurrentPhase() == end.value && !bad)
    {
      hide Mirrors;
      hide Books;
      hide Indexed;
      hide Parse;
      hide Stream;
      ghost var size := |Fields()|;
      ghost var whole := Stream(CurrentPhase(), size, frags);
      ghost var done: seq<nat> := [];
      fields := [];
      assert frags[0..] == frags;
      for i := 0 to |frags|
        invariant !bad && InTable(done, size) && fields == Looked(Fields(), done)
        invariant whole == Prepend(done, Stream(CurrentPhase(), size, frags[i..]))
      {
        StreamIs(CurrentPhase(), size, frags[i..]);
        assert frags[i..][1..] == frags[i + 1..];
        ghost var p := Parse(CurrentPhase(), size, frags[i]);
        var more, next := InflatePiece(frags[i]);
        fields := fields + more;
        done := done + p.indices;
        if next == None {
          return fields, None;
        }
      }
      StreamIs(CurrentPhase(), size, frags[|frags|..]);
      end := Some(if reading then ReadIndex(left, shift) else if started then Opcode else Start);
    }
  }

  // ----- a header block in pieces -----

  /** The indices read so far, and where the decoder then stands; `None` when it has stopped. */
  datatype Progress = Progress(indices: seq<nat>, end: Option<Phase>)

  predicate InTable(indices: seq<nat>, size: nat) {
    forall k | 0 <= k < |indices| :: indices[k] < STATIC_TABLE_LENGTH + size
  }

  function Looked(fields: seq<Field>, indices: seq<nat>): (r: seq<Field>)
    requires InTable(indices, |fields|)
    ensures |r| == |indices| && forall k | 0 <= k < |r| :: r[k] == Indexed(fields, indices[k])
  {
    seq(|indices|, k requires 0 <= k < |indices| => Indexed(fields, indices[k]))
  }

  function Prepend(indices: seq<nat>, p: Progress): (r: Progress) {
    Progress(indices + p.indices, p.end)
  }

  /** The decoder's calls on one piece, each going on where the last one emitted a field. */
  function Parse(phase: Phase, size: nat, s: seq<byte>): (r: Progress)
    ensures InTable(r.indices, size)
    decreases |s|
  {
    match Feed(phase, size, s)
    case Wait(p) => Progress([], Some(p))
    case Emit(i, used) => Prepend([i], Parse(Opcode, size, s[used..]))
    case _ => Progress([], None)
  }

  /** The decoder's calls on all pieces, up to the first at which it stops. */
  function Stream(phase: Phase, size: nat, frags: seq<seq<byte>>): (r: Progress)
    ensures InTable(r.indices, size)
    decreases |frags|
  {
    if frags == [] then Progress([], Some(phase))
    else
      var p := Parse(phase, size, frags[0]);
      if p.end == None then p else Prepend(p.indices, Stream(p.end.value, size, frags[1..]))
  }

  lemma ParseIs(phase: Phase, size: nat, s: seq<byte>)
    ensures Parse(phase, size, s) ==
            match Feed(phase, size, s)
            case Wait(p) => Progress([], Some(p))
            case Emit(i, used) => Prepend([i], Parse(Opcode, size, s[used..]))
            case _ => Progress([], None)
  {
  }

  lemma ParseNothing(phase: Phase, size: nat)
    ensures Parse(phase, size, []) == Progress([], Some(phase))
  {
  }

  lemma StreamIs(phase: Phase, size: nat, frags: seq<seq<byte>>)
    ensures Stream(phase, size, frags) ==
            if frags == [] then Progress([], Some(phase))
            else
              var p := Parse(phase, size, frags[0]);
              if p.end == None then p else Prepend(p.indices, Stream(p.end.value, size, frags[1..]))
  {
  }

  predicate Resumable(phase: Phase) {
    phase.ReadIndex? ==> phase.left > 0
  }

  function Bumped(r: Reading, more: nat): (r': Reading) {
    if r.Emit? then Emit(r.index, r.used + more) else r
  }

  lemma ReadIndexedCut(left: u32, shift: nat, size: nat, a: seq<byte>, b: seq<byte>)
    requires a != [] && b != [] && (left == 0 ==> shift == 0)
    ensures var first := ReadIndexed(left, shift, size, a);
            || ReadIndexed(left, shift, size, a + b) == BadShift
            || ReadIndexed(left, shift, size, a + b)
               == if first.Wait? then Bumped(ReadIndexed(first.phase.left, first.phase.shift, size, b), |a|) else first
    ensures var first := ReadIndexed(left, shift, size, a);
            first.Wait? ==> Resumable(first.phase) && first.phase.ReadIndex?
  {
    hide Decoded;
    var max := STATIC_TABLE_LENGTH + size;
    assert Concat([a, b]) == a + b by {
      assert [a, b][1..] == [b] && [b][1..] == [];
      assert Concat([b]) == b + [] == b;
    }
    FragmentsAgree(left, shift, [a, b], 7, max);
    hide ReadLen;
    assert [a, b][1..] == [b];
    var first := ReadLen(left, shift, a, 7, max);
    if first.More? {
      assert ReadFragments(first.n, first.shift, [b], 7, max) == ReadLen(first.n, first.shift, b, 7, max);
    }
  }

  /** Unless it meets the undefined shift, a call on the whole ends as calls on its parts. */
  lemma FeedCut(phase: Phase, size: nat, a: seq<byte>, b: seq<byte>)
    requires Resumable(phase) && a != []
    ensures var first := Feed(phase, size, a);
            || Feed(phase, size, a + b) == BadShift
            || Feed(phase, size, a + b) == if first.Wait? then Bumped(Feed(first.phase, size, b), |a|) else first
    ensures var first := Feed(phase, size, a); first.Wait? ==> Resumable(first.phase)
  {
    assert (a + b)[0] == a[0];
    if b == [] {
      assert a + b == a;
      if phase.ReadIndex? {
        ReadIndexedCut(phase.left, phase.shift, size, a, [0]);
      } else {
        ReadIndexedCut(0, 0, size, a, [0]);
      }
    } else if phase.ReadIndex? {
      ReadIndexedCut(phase.left, phase.shift, size, a, b);
    } else {
      ReadIndexedCut(0, 0, size, a, b);
    }
    hide ReadIndexed;
  }

  function Then(p: Progress, size: nat, s: seq<byte>): (r: Progress) {
    if p.end == None then p else Prepend(p.indices, Parse(p.end.value, size, s))
  }

  /** No call on the way meets the undefined shift. */
  predicate Defined(phase: Phase, size: nat, s: seq<byte>)
    decreases |s|
  {
    match Feed(phase, size, s)
    case BadShift => false
    case Emit(_, used) => Defined(Opcode, size, s[used..])
    case _ => true
  }

  lemma DefinedIs(phase: Phase, size: nat, s: seq<byte>)
    ensures Defined(phase, size, s) ==
            match Feed(phase, size, s)
            case BadShift => false
            case Emit(_, used) => Defined(Opcode, size, s[used..])
            case _ => true
  {
  }

  /** A decoder that has not stopped has met no undefined shift. */
  lemma {:induction false} OpenIsDefined(phase: Phase, size: nat, s: seq<byte>)
    ensures Parse(phase, size, s).end.Some? ==> Defined(phase, size, s)
    decreases |s|
  {
    hide Feed;
    var r := Feed(phase, size, s);
    if r.Emit? {
      OpenIsDefined(Opcode, size, s[r.used..]);
    }
  }

  /** Cutting a piece in two loses no field, and changes nothing when the piece is defined. */
  lemma {:induction false} ParseCut(phase: Phase, size: nat, a: seq<byte>, b: seq<byte>)
    requires Resumable(phase)
    ensures var whole, cut := Parse(phase, size, a + b), Then(Parse(phase, size, a), size, b);
            whole.indices <= cut.indices && (Defined(phase, size, a + b) ==> whole == cut)
    ensures var p := Parse(phase, size, a);
            p.end.Some? ==>
              Resumable(p.end.value) && (Defined(phase, size, a + b) ==> Defined(p.end.value, size, b))
    decreases |a|
  {
    hide Feed;
    hide Parse;
    hide Defined;
    if a == [] {
      assert a + b == b;
      ParseNothing(phase, size);
    } else {
      FeedCut(phase, size, a, b);
      ParseIs(phase, size, a + b);
      ParseIs(phase, size, a);
      DefinedIs(phase, size, a + b);
      var first := Feed(phase, size, a);
      if first.Emit? {
        assert (a + b)[first.used..] == a[first.used..] + b;
        ParseCut(Opcode, size, a[first.used..], b);
      } else if first.Wait? {
        ParseIs(first.phase, size, b);
        DefinedIs(first.phase, size, b);
        var second := Feed(first.phase, size, b);
        if second.Emit? {
          assert (a + b)[second.used + |a|..] == b[second.used..];
        }
      }
    }
  }

  /**
   However a header block is cut, it reads as the whole does, whether the decoder stops or not;
   and no field is lost even where the whole meets the undefined shift.
   */
  lemma {:induction false} StreamCut(phase: Phase, size: nat, frags: seq<seq<byte>>)
    requires Resumable(phase)
    ensures var whole, cut := Parse(phase, size, Concat(frags)), Stream(phase, size, frags);
            whole.indices <= cut.indices && (Defined(phase, size, Concat(frags)) ==> whole == cut)
    decreases |frags|
  {
    hide Parse;
    hide Defined;
    if frags == [] {
      ParseNothing(phase, size);
    } else {
      ParseCut(phase, size, frags[0], Concat(frags[1..]));
      var p := Parse(phase, size, frags[0]);
      if p.end.Some? {
        StreamCut(p.end.value, size, frags[1..]);
      }
    }
  }

  // ----- from encoder to decoder -----

  /** The bytes of indexed fields, one after another. */
  function Blocks(indices: seq<nat>): (s: seq<byte>) {
    if indices == [] then [] else Encoded(0x80, indices[0] + 1, 7) + Blocks(indices[1..])
  }

  lemma FirstByteIsIndexed(n: u32)
    ensures Encoded(0x80, n, 7)[0] >= 0x80
  {
    Shl7(1);
    ShrAddLow(1, 0, 7);
  }

  /** An indexed block, whatever follows it, is read as the index it was written for. */
  lemma BlockReadsBack(phase: Phase, size: nat, index: nat, rest: seq<byte>)
    requires !phase.ReadIndex? && index < STATIC_TABLE_LENGTH + size && index + 1 < U32
    ensures var e := Encoded(0x80, index + 1, 7); Feed(phase, size, e + rest) == Emit(index, |e|)
  {
    FirstByteIsIndexed(index + 1);
    hide Encoded;
    hide Decoded;
    var e := Encoded(0x80, index + 1, 7);
    EncodedFitsScratch(0x80, index + 1, 7);
    assert (e + rest)[0] == e[0];
    RoundTrip(0x80, index + 1, 7, rest);
  }

  lemma {:induction false} BlocksReadBack(phase: Phase, size: nat, indices: seq<nat>, rest: seq<byte>)
    requires !phase.ReadIndex? && InTable(indices, size) && STATIC_TABLE_LENGTH + size < U32
    ensures Parse(phase, size, Blocks(indices) + rest)
         == Prepend(indices, Parse(if indices == [] then phase else Opcode, size, rest))
    decreases |indices|
  {
    hide Encoded;
    hide Feed;
    hide Parse;
    if indices == [] {
      assert Blocks(indices) + rest == rest;
    } else {
      var e, more := Encoded(0x80, indices[0] + 1, 7), Blocks(indices[1..]);
      assert Blocks(indices) + rest == e + (more + rest);
      BlockReadsBack(phase, size, indices[0], more + rest);
      ParseIs(phase, size, e + (more + rest));
      assert (e + (more + rest))[|e|..] == more + rest;
      BlocksReadBack(Opcode, size, indices[1..], rest);
      assert [indices[0]] + indices[1..] == indices;
    }
  }

  /**
   The blocks of indexed fields, cut into pieces in any way and whatever follows them, are read
   back as their indices, in order; with nothing behind them, as nothing else.
   */
  lemma BlocksSurviveCutting(phase: Phase, size: nat, indices: seq<nat>, frags: seq<seq<byte>>, rest: seq<byte>)
    requires !phase.ReadIndex? && InTable(indices, size) && STATIC_TABLE_LENGTH + size < U32
    requires Concat(frags) == Blocks(indices) + rest
    ensures indices <= Stream(phase, size, frags).indices
    ensures rest == [] ==> Stream(phase, size, frags).indices == indices && Stream(phase, size, frags).end.Some?
  {
    hide Parse;
    hide Stream;
    hide Blocks;
    BlocksReadBack(phase, size, indices, rest);
    StreamCut(phase, size, frags);
    OpenIsDefined(phase, size, Concat(frags));
    hide Defined;
    ParseNothing(if indices == [] then phase else Opcode, size);
  }

  // ----- the end of a header block -----

  /** What the last call on a piece ends with: each field emitted is followed by another call. */
  function LastReading(phase: Phase, size: nat, s: seq<byte>): (r: Reading)
    decreases |s|
  {
    match Feed(phase, size, s)
    case Emit(_, used) => LastReading(Opcode, size, s[used..])
    case r => r
  }

  lemma LastIs(phase: Phase, size: nat, s: seq<byte>)
    ensures LastReading(phase, size, s) ==
            match Feed(phase, size, s)
            case Emit(_, used) => LastReading(Opcode, size, s[used..])
            case r => r
  {
  }

  lemma {:induction false} BlocksLeadTo(phase: Phase, size: nat, indices: seq<nat>, rest: seq<byte>)
    requires !phase.ReadIndex? && InTable(indices, size) && STATIC_TABLE_LENGTH + size < U32
    ensures LastReading(phase, size, Blocks(indices) + rest)
         == LastReading(if indices == [] then phase else Opcode, size, rest)
    decreases |indices|
  {
    hide Encoded;
    hide Feed;
    hide LastReading;
    if indices == [] {
      assert Blocks(indices) + rest == rest;
    } else {
      var e, more := Encoded(0x80, indices[0] + 1, 7), Blocks(indices[1..]);
      assert Blocks(indices) + rest == e + (more + rest);
      BlockReadsBack(phase, size, indices[0], more + rest);
      LastIs(phase, size, e + (more + rest));
      assert (e + (more + rest))[|e|..] == more + rest;
      BlocksLeadTo(Opcode, size, indices[1..], rest);
    }
  }

  /** A table size update, 001 in the top bits, is refused behind any field of the block, and only there. */
  lemma SizeUpdateComesFirst(size: nat, indices: seq<nat>, rest: seq<byte>)
    requires InTable(indices, size) && STATIC_TABLE_LENGTH + size < U32
    requires rest != [] && rest[0] / 32 == 1
    ensures LastReading(Start, size, Blocks(indices) + rest) == if indices == [] then Other else Reject
  {
    hide Blocks;
    BlocksLeadTo(Start, size, indices, rest);
  }

  /** The wire index of a field is one more than its place: the byte 0x80 + n stands for place n - 1. */
  lemma OneByteField(phase: Phase, size: nat, n: nat, rest: seq<byte>)
    requires !phase.ReadIndex? && 0 <= n < 127
    ensures Feed(phase, size, [0x80 + n] + rest) == if 1 <= n <= 61 + size then Emit(n - 1, 1) else Reject
  {
    hide Decoded;
    hide SevenBits;
    hide Terminated;
    hide TooLarge;
    hide Shl;
    var s := [0x80 + n] + rest;
    DecodedValue(s, 7);
    Shl7(1);
  }

  /** A part of an index leaves the decoder waiting inside it. */
  lemma PartWaits(phase: Phase, size: nat, index: nat, part: seq<byte>, more: seq<byte>)
    requires !phase.ReadIndex? && index < STATIC_TABLE_LENGTH + size && index + 1 < U32
    requires part != [] && more != [] && part + more == Encoded(0x80, index + 1, 7)
    ensures Feed(phase, size, part).Wait? && Feed(phase, size, part).phase.ReadIndex?
  {
    hide Encoded;
    hide Decoded;
    hide Shl;
    var e := part + more;
    FirstByteIsIndexed(index + 1);
    RoundTrip(0x80, index + 1, 7, []);
    assert e + [] == e && e[0] == part[0];
    DecodedSplit(0, 0, part, more, 7);
  }

  /**
   The bytes of indexed fields, stopped anywhere, may be the end of a header block exactly behind
   one of the fields: not inside one, and not before the first.
   */
  lemma EndsBetweenFields(size: nat, indices: seq<nat>, index: nat, part: seq<byte>, more: seq<byte>)
    requires InTable(indices + [index], size) && STATIC_TABLE_LENGTH + size < U32
    requires more != [] && part + more == Encoded(0x80, index + 1, 7)
    ensures Ended(LastReading(Start, size, Blocks(indices) + part), true)
         == if part == [] && indices != [] then Wait(Opcode) else Reject
  {
    hide Blocks;
    hide Encoded;
    assert (indices + [index])[..|indices|] == indices && (indices + [index])[|indices|] == index;
    BlocksLeadTo(Start, size, indices, part);
    if part != [] {
      PartWaits(if indices == [] then Start else Opcode, size, index, part, more);
    }
    hide ReadIndexed;
  }

  /** The fields can all be sent as indices. */
  ghost predicate AllMatch(fields: seq<Field>, fs: seq<(Field, Mode)>) {
    forall k | 0 <= k < |fs| :: fs[k].0 in fields || (fs[k].1 != NeverIndexing && InStatic(fs[k].0))
  }

  function Names(fs: seq<(Field, Mode)>): (r: seq<Field>)
    ensures |r| == |fs| && forall k | 0 <= k < |r| :: r[k] == fs[k].0
  {
    seq(|fs|, k requires 0 <= k < |fs| => fs[k].0)
  }

  /** The encoder's indices for a list of fields that all match, and the bytes it emits. */
  method EmitAll(enc: Encoder, fs: seq<(Field, Mode)>) returns (bytes: seq<byte>, indices: seq<nat>)
    requires enc.Valid() && enc.table.ring.len + STATIC_TABLE_LENGTH < 0x8000_0000
    requires AllMatch(enc.Fields(), fs)
    ensures bytes == Blocks(indices) && InTable(indices, |enc.Fields()|)
    ensures Looked(enc.Fields(), indices) == Names(fs)
  {
    hide Indexed;
    hide ExactIndex;
    hide InStatic;
    hide Blocks;
    hide Encoded;
    hide Consistent;
    hide Mirrors;
    bytes, indices := [], [];
    BlocksNothing();
    for k := 0 to |fs|
      invariant bytes == Blocks(indices) && InTable(indices, |enc.Fields()|) && |indices| == k
      invariant forall j | 0 <= j < k :: Indexed(enc.Fields(), indices[j]) == fs[j].0
    {
      var index, found := enc.Search(fs[k].0, fs[k].1);
      var block := EmitIndexed(index);
      BlocksSnoc(indices, index);
      bytes, indices := bytes + block, indices + [index];
    }
  }

  lemma BlocksNothing()
    ensures Blocks([]) == []
  {
  }

  lemma {:induction false} BlocksSnoc(indices: seq<nat>, index: nat)
    ensures Blocks(indices + [index]) == Blocks(indices) + Encoded(0x80, index + 1, 7)
  {
    hide Encoded;
    if indices == [] {
      assert indices + [index] == [index] && [index][1..] == [];
    } else {
      BlocksSnoc(indices[1..], index);
      assert (indices + [index])[1..] == indices[1..] + [index];
    }
  }

  /** Bytes cut into pieces of the given lengths, as far as they go, and the rest. */
  function Cut(s: seq<byte>, lengths: seq<nat>): (frags: seq<seq<byte>>) {
    if lengths == [] then [s]
    else
      var n := if lengths[0] < |s| then lengths[0] else |s|;
      [s[..n]] + Cut(s[n..], lengths[1..])
  }

  lemma {:induction false} CutLosesNothing(s: seq<byte>, lengths: seq<nat>)
    ensures Concat(Cut(s, lengths)) == s
  {
    if lengths == [] {
      assert [s][1..] == [];
    } else {
      var n := if lengths[0] < |s| then lengths[0] else |s|;
      var rest := Cut(s[n..], lengths[1..]);
      assert ([s[..n]] + rest)[1..] == rest;
      CutLosesNothing(s[n..], lengths[1..]);
    }
  }

  /** Every way to cut bytes into pieces is one of these. */
  lemma {:induction false} EveryCut(frags: seq<seq<byte>>) returns (lengths: seq<nat>)
    requires frags != []
    ensures Cut(Concat(frags), lengths) == frags
  {
    if |frags| == 1 {
      lengths := [];
      assert frags[1..] == [] && frags == [frags[0]];
      assert Concat(frags) == frags[0] + [] == frags[0];
    } else {
      var more := EveryCut(frags[1..]);
      lengths := [|frags[0]|] + more;
      var whole, rest := Concat(frags), Concat(frags[1..]);
      assert whole == frags[0] + rest;
      assert whole[..|frags[0]|] == frags[0] && whole[|frags[0]|..] == rest && lengths[1..] == more;
      assert frags == [frags[0]] + frags[1..];
    }
  }

  /**
   With equal tables on both sides, any fields that the encoder finds there reach the other
   side, in order and nothing else, whatever pieces their bytes are cut into on the way.
   */
  method Exchange(enc: Encoder, dec: Decoder, fs: seq<(Field, Mode)>, lengths: seq<nat>)
    returns (delivered: seq<Field>)
    requires enc.Valid() && dec.Valid() && enc.Fields() == dec.Fields()
    requires enc.table.ring.len + STATIC_TABLE_LENGTH < 0x8000_0000
    requires !dec.bad && !dec.reading
    requires AllMatch(enc.Fields(), fs)
    modifies dec
    ensures delivered == Names(fs) && !dec.bad && dec.Fields() == old(dec.Fields())
  {
    hide Blocks;
    hide Stream;
    hide Mirrors;
    hide Books;
    hide Consistent;
    hide InStatic;
    hide Cut;
    var bytes, indices := EmitAll(enc, fs);
    assert bytes + [] == bytes;
    var frags := Cut(bytes, lengths);
    CutLosesNothing(bytes, lengths);
    BlocksSurviveCutting(dec.CurrentPhase(), |dec.Fields()|, indices, frags, []);
    var end;
    delivered, end := dec.InflateAll(frags);
  }

  // ----- literals -----

  /** What the decoder makes of a literal once its strings are read: the field and the new table. */
  function Committed(t: State, f: Field, index: int, mode: Mode): (r: Option<(Field, State)>) {
    if mode != WithIndexing || index >= STATIC_TABLE_LENGTH then None
    else
      var g := if index < 0 then Field(f.name + f.value, "") else Field(StaticRow(index).field.name, f.value);
      Some((g, Step(t, Op.Insert(g))))
  }
}
