/**
 The HPACK dynamic table (section 4 of RFC 7541): byte accounting, oldest-first eviction,
 sequence numbers, and the hash map kept in step with the ring.
 */
module HpackTable {
  import opened Words
  import opened HpackRing
  import opened HpackMap

  const ENTRY_OVERHEAD: int := 32

  // ----- what the table holds, as a value -----

  /** The room a field takes, in unsigned 32-bit arithmetic. */
  function Room(f: Field): (r: u32) {
    (ENTRY_OVERHEAD + |f.name| + |f.value|) % U32
  }

  function Rooms(s: seq<Field>): (r: nat) {
    if s == [] then 0 else Rooms(s[..|s| - 1]) + Room(s[|s| - 1])
  }

  /** How many of the newest fields the eviction loop keeps. */
  function Kept(s: seq<Field>, extra: nat, max: nat): (k: nat)
    ensures k <= |s|
  {
    if |s| > 0 && (Rooms(s) + extra) % U32 > max then Kept(s[..|s| - 1], extra, max) else |s|
  }

  lemma {:induction false} RoomsPrepend(f: Field, s: seq<Field>)
    ensures Rooms([f] + s) == Room(f) + Rooms(s)
  {
    var t := [f] + s;
    if s == [] {
      assert t[..0] == [];
    } else {
      assert t[..|t| - 1] == [f] + s[..|s| - 1];
      RoomsPrepend(f, s[..|s| - 1]);
    }
  }

  lemma {:induction false} RoomsPrefix(s: seq<Field>, k: nat)
    requires k <= |s|
    ensures Rooms(s[..k]) <= Rooms(s)
  {
    if k == |s| {
      assert s[..k] == s;
    } else {
      assert s[..|s| - 1][..k] == s[..k];
      RoomsPrefix(s[..|s| - 1], k);
    }
  }

  function Wanted(s: seq<Field>, extra: nat, j: nat): (n: nat)
    requires j <= |s|
  {
    Rooms(s[..j]) + extra
  }

  /** The loop stops at the first size that passes its own, wrapping, test. */
  lemma {:induction false} KeptPassesTest(s: seq<Field>, extra: nat, max: nat)
    ensures var k := Kept(s, extra, max);
            && (k > 0 ==> Wanted(s, extra, k) % U32 <= max)
            && forall j | k < j <= |s| :: Wanted(s, extra, j) % U32 > max
  {
    assert s[..|s|] == s;
    if |s| > 0 && (Rooms(s) + extra) % U32 > max {
      var t := s[..|s| - 1];
      KeptPassesTest(t, extra, max);
      assert forall j | 0 <= j < |s| :: t[..j] == s[..j];
      assert forall j | 0 <= j < |s| :: Wanted(t, extra, j) == Wanted(s, extra, j);
    }
  }

  /** The k newest fields fit beside `extra` (or k is zero), and no longer run of newest fields does. */
  ghost predicate LongestFit(s: seq<Field>, extra: nat, max: nat, k: nat) {
    && k <= |s|
    && (k > 0 ==> Wanted(s, extra, k) <= max)
    && forall j | k < j <= |s| :: Wanted(s, extra, j) > max
  }

  /** No sum of 4 GB or more wraps to one that passes for fitting. */
  ghost predicate WrapNeverFits(s: seq<Field>, extra: nat, max: nat) {
    forall j | 0 < j <= |s| && Wanted(s, extra, j) >= U32 :: Wanted(s, extra, j) % U32 > max
  }

  lemma WantedGrows(s: seq<Field>, extra: nat, j: nat, k: nat)
    requires j <= k <= |s|
    ensures Wanted(s, extra, j) <= Wanted(s, extra, k)
  {
    RoomsPrefix(s[..k], j);
    assert s[..k][..j] == s[..j];
  }

  /** Eviction drops exactly the shortest oldest run that is needed, if and only if no sum wraps to a fit. */
  lemma EvictsExactlyIff(s: seq<Field>, extra: nat, max: u32)
    ensures LongestFit(s, extra, max, Kept(s, extra, max)) <==> WrapNeverFits(s, extra, max)
  {
    hide Kept;
    hide Rooms;
    KeptPassesTest(s, extra, max);
    var k := Kept(s, extra, max);
    if LongestFit(s, extra, max, k) {
      forall j | 0 < j <= |s| && Wanted(s, extra, j) >= U32 ensures Wanted(s, extra, j) % U32 > max {
        if j <= k {
          WantedGrows(s, extra, j, k);
        }
      }
    }
  }

  /** Below 4 GB in all, the eviction is exact. */
  lemma KeptIsLongestFit(s: seq<Field>, extra: nat, max: u32)
    requires Rooms(s) + extra < U32
    ensures LongestFit(s, extra, max, Kept(s, extra, max))
  {
    forall j | 0 < j <= |s| ensures Wanted(s, extra, j) < U32 {
      WantedGrows(s, extra, j, |s|);
      assert s[..|s|] == s;
    }
    EvictsExactlyIff(s, extra, max);
  }

  // ----- runs of the table -----

  datatype Op = Insert(f: Field) | Resize(newMax: u32)

  datatype State = State(fields: seq<Field>, max: u32)

  function Step(t: State, op: Op): (t': State) {
    match op
    case Insert(f) => State([f] + t.fields[..Kept(t.fields, Room(f), t.max)], t.max)
    case Resize(m) => State(t.fields[..Kept(t.fields, 0, m)], m)
  }

  function Run(t: State, ops: seq<Op>): (t': State) {
    if ops == [] then t else Step(Run(t, ops[..|ops| - 1]), ops[|ops| - 1])
  }

  /** The fields that a run inserts, the last one first. */
  function NewestFirst(ops: seq<Op>): (r: seq<Field>) {
    if ops == [] then []
    else
      var before := NewestFirst(ops[..|ops| - 1]);
      if ops[|ops| - 1].Insert? then [ops[|ops| - 1].f] + before else before
  }

  /** The last bound that a run sets. */
  function LastBound(max: u32, ops: seq<Op>): (m: u32) {
    if ops == [] then max
    else if ops[|ops| - 1].Resize? then ops[|ops| - 1].newMax
    else LastBound(max, ops[..|ops| - 1])
  }

  /**
   After every run the table holds the newest of the fields inserted, newest first, and the last
   one for sure when the run ends with it; its bound is the last one set.
   */
  lemma {:induction false} TableIsNewest(t: State, ops: seq<Op>)
    requires t.fields == []
    ensures Run(t, ops).fields <= NewestFirst(ops) && Run(t, ops).max == LastBound(t.max, ops)
    ensures ops != [] && ops[|ops| - 1].Insert? ==> ops[|ops| - 1].f in Run(t, ops).fields[..1]
  {
    hide Kept;
    if ops != [] {
      TableIsNewest(t, ops[..|ops| - 1]);
    }
  }

  /** Fields that take no more than `big`, and bounds of no more than `limit`. */
  predicate Allowed(op: Op, limit: nat, big: nat) {
    match op
    case Insert(f) => ENTRY_OVERHEAD + |f.name| + |f.value| <= big
    case Resize(m) => m <= limit
  }

  ghost predicate AllAllowed(ops: seq<Op>, limit: nat, big: nat) {
    forall k | 0 <= k < |ops| :: Allowed(ops[k], limit, big)
  }

  /** The table fits its bound, or holds one field that is too large for it. */
  predicate Bounded(t: State) {
    Rooms(t.fields) <= t.max || |t.fields| == 1
  }

  ghost predicate WithinBound(t: State, limit: nat, big: nat) {
    && t.max <= limit
    && Bounded(t)
    && (|t.fields| == 1 ==> Rooms(t.fields) <= big || Rooms(t.fields) <= t.max)
    && (forall f :: f in t.fields ==> Room(f) >= ENTRY_OVERHEAD)
  }

  lemma InsertKeepsBound(t: State, f: Field, limit: nat, big: nat)
    requires limit + big < U32 && 2 * big < U32
    requires WithinBound(t, limit, big) && Allowed(Insert(f), limit, big)
    ensures WithinBound(Step(t, Insert(f)), limit, big)
    ensures Room(f) <= t.max ==> Rooms(Step(t, Insert(f)).fields) <= t.max
  {
    hide Kept;
    var room := Room(f);
    assert ENTRY_OVERHEAD <= room <= big;
    var kept := t.fields[..Kept(t.fields, room, t.max)];
    assert Rooms(t.fields) + room < U32;
    KeptIsLongestFit(t.fields, room, t.max);
    assert kept == [] || Rooms(kept) + room <= t.max;
    var fields := [f] + kept;
    assert Rooms(fields) == room + Rooms(kept) by { RoomsPrepend(f, kept); }
    assert Step(t, Insert(f)) == State(fields, t.max);
    if kept == [] {
      assert Rooms(fields) == room;
    }
    forall g | g in fields
      ensures Room(g) >= ENTRY_OVERHEAD
    {
      assert g == f || g in t.fields;
    }
  }

  lemma ResizeKeepsBound(t: State, m: u32, limit: nat, big: nat)
    requires limit + big < U32 && 2 * big < U32
    requires WithinBound(t, limit, big) && m <= limit
    ensures WithinBound(Step(t, Resize(m)), limit, big)
    ensures Rooms(Step(t, Resize(m)).fields) <= m
  {
    hide Kept;
    KeptIsLongestFit(t.fields, 0, m);
  }

  lemma {:induction false} RoomsCount(s: seq<Field>)
    requires forall f :: f in s ==> Room(f) >= ENTRY_OVERHEAD
    ensures ENTRY_OVERHEAD * |s| <= Rooms(s)
  {
    if s != [] {
      RoomsCount(s[..|s| - 1]);
    }
  }

  lemma {:induction false} RunWithinBound(t: State, ops: seq<Op>, limit: nat, big: nat)
    requires limit + big < U32 && 2 * big < U32
    requires WithinBound(t, limit, big) && AllAllowed(ops, limit, big)
    ensures WithinBound(Run(t, ops), limit, big)
  {
    hide WithinBound;
    hide Step;
    if ops != [] {
      var init := ops[..|ops| - 1];
      assert AllAllowed(init, limit, big);
      RunWithinBound(t, init, limit, big);
      assert Allowed(ops[|ops| - 1], limit, big);
      match ops[|ops| - 1] {
        case Insert(f) => InsertKeepsBound(Run(t, init), f, limit, big);
        case Resize(m) => ResizeKeepsBound(Run(t, init), m, limit, big);
      }
    }
  }

  /** Over every run from the empty table the bound is kept, and there are never more than 2^27 fields. */
  lemma RunKeepsBound(max: u32, ops: seq<Op>, limit: nat, big: nat)
    requires limit + big < U32 && 2 * big < U32
    requires max <= limit && AllAllowed(ops, limit, big)
    ensures var t := Run(State([], max), ops); Bounded(t) && |t.fields| <= 0x800_0000
  {
    RunWithinBound(State([], max), ops, limit, big);
    RoomsCount(Run(State([], max), ops).fields);
  }

  // ----- where the bound is lost -----

  function Size(f: Field): (n: nat) {
    ENTRY_OVERHEAD + |f.name| + |f.value|
  }

  /** A supply of fields, one of each size up to `big`. */
  ghost predicate Supplies(fill: nat -> Field, big: nat) {
    forall r | ENTRY_OVERHEAD <= r <= big :: Size(fill(r)) == r
  }

  /** A run that only inserts fields of the supply. */
  ghost predicate DrawnFrom(ops: seq<Op>, fill: nat -> Field, big: nat) {
    forall k | 0 <= k < |ops| ::
      ops[k].Insert? && exists r | ENTRY_OVERHEAD <= r <= big :: ops[k].f == fill(r)
  }

  /** An insert whose sum passes the test, or that meets an empty table, evicts nothing. */
  lemma InsertWithoutEviction(t: State, f: Field)
    requires (Rooms(t.fields) + Room(f)) % U32 <= t.max || t.fields == []
    ensures Step(t, Insert(f)) == State([f] + t.fields, t.max)
    ensures Rooms(Step(t, Insert(f)).fields) == Room(f) + Rooms(t.fields)
  {
    RoomsPrepend(f, t.fields);
    assert t.fields[..|t.fields|] == t.fields;
  }

  lemma RunSnoc(t: State, ops: seq<Op>, op: Op)
    ensures Run(t, ops + [op]) == Step(Run(t, ops), op)
  {
    assert (ops + [op])[..|ops|] == ops;
  }

  /** One more field of the supply at the end of a run. */
  lemma Draw(t: State, ops: seq<Op>, fill: nat -> Field, big: nat, r: nat)
    requires big < U32 && Supplies(fill, big) && ENTRY_OVERHEAD <= r <= big
    requires DrawnFrom(ops, fill, big)
    requires var u := Run(t, ops); (Rooms(u.fields) + r) % U32 <= u.max || u.fields == []
    ensures var u, v := Run(t, ops), Run(t, ops + [Insert(fill(r))]);
            v.fields == [fill(r)] + u.fields && v.max == u.max && Rooms(v.fields) == r + Rooms(u.fields)
    ensures DrawnFrom(ops + [Insert(fill(r))], fill, big)
  {
    hide Kept;
    hide Step;
    hide Run;
    hide Rooms;
    RunSnoc(t, ops, Insert(fill(r)));
    InsertWithoutEviction(Run(t, ops), fill(r));
  }

  /** A run that fills the table with `a` fields of 32 bytes and `b` of 33. */
  lemma {:induction false} FillTo(max: u32, fill: nat -> Field, big: nat, a: nat, b: nat) returns (ops: seq<Op>)
    requires big < U32 && Supplies(fill, big) && ENTRY_OVERHEAD <= big && (b > 0 ==> ENTRY_OVERHEAD < big)
    requires 32 * a + 33 * b <= max
    ensures DrawnFrom(ops, fill, big)
    ensures var t := Run(State([], max), ops); Rooms(t.fields) == 32 * a + 33 * b && t.max == max
    decreases a + b
  {
    hide Run;
    if a + b == 0 {
      ops := [];
      RunNothing(State([], max));
    } else {
      var a', b' := if a > 0 then a - 1 else a, if a > 0 then b else b - 1;
      var before := FillTo(max, fill, big, a', b');
      var r := if a > 0 then 32 else 33;
      Draw(State([], max), before, fill, big, r);
      ops := before + [Insert(fill(r))];
    }
  }

  lemma RunNothing(t: State)
    ensures Run(t, []) == t
  {
  }

  /** One more insert, to a sum of exactly 2^32: the sum wraps to zero and nothing is evicted. */
  lemma WrapLosesBound(max: u32, big: nat, fill: nat -> Field) returns (ops: seq<Op>)
    requires ENTRY_OVERHEAD <= big <= U32 - ENTRY_OVERHEAD && Supplies(fill, big)
    requires max + big >= U32 || 2 * big >= U32
    ensures DrawnFrom(ops, fill, big) && !Bounded(Run(State([], max), ops))
  {
    hide Run;
    var t := State([], max);
    RunNothing(t);
    if 2 * big >= U32 {
      Draw(t, [], fill, big, 0x8000_0000);
      var before := [] + [Insert(fill(0x8000_0000))];
      Draw(t, before, fill, big, 0x8000_0000);
      ops := before + [Insert(fill(0x8000_0000))];
    } else {
      var rest := U32 - big;
      var before := FillTo(max, fill, big, rest / 32 - rest % 32, rest % 32);
      Draw(t, before, fill, big, big);
      ops := before + [Insert(fill(big))];
    }
  }

  /**
   The bound is kept over every run if and only if the bound and the largest field, and two such
   fields, stay below 4 GB together.
   */
  lemma BoundKeptIff(max: u32, big: nat)
    requires ENTRY_OVERHEAD <= big
    ensures (forall ops | AllAllowed(ops, max, big) :: Bounded(Run(State([], max), ops)))
       <==> max + big < U32 && 2 * big < U32
  {
    if max + big < U32 && 2 * big < U32 {
      forall ops | AllAllowed(ops, max, big) ensures Bounded(Run(State([], max), ops)) {
        RunKeepsBound(max, ops, max, big);
      }
    } else {
      var most := if big <= U32 - ENTRY_OVERHEAD then big else U32 - ENTRY_OVERHEAD;
      var fill: nat -> Field := r => Field("", if r < ENTRY_OVERHEAD then "" else seq(r - ENTRY_OVERHEAD, _ => 'x'));
      var ops := WrapLosesBound(max, most, fill);
      assert AllAllowed(ops, max, big);
    }
  }

  // ----- the table object -----

  function FieldsOf(s: seq<Entry>): (r: seq<Field>) {
    seq(|s|, i requires 0 <= i < |s| => s[i].field)
  }

  /** The entries of one bucket, in table order. */
  function Bucket(s: seq<Entry>, b: nat): (r: seq<Entry>) {
    if s == [] then []
    else if BucketOf(s[0].hash) == b then [s[0]] + Bucket(s[1..], b)
    else Bucket(s[1..], b)
  }

  lemma {:induction false} BucketAppend(s: seq<Entry>, e: Entry, b: nat)
    ensures Bucket(s + [e], b) == Bucket(s, b) + (if BucketOf(e.hash) == b then [e] else [])
  {
    var t := s + [e];
    var last := if BucketOf(e.hash) == b then [e] else [];
    if s == [] {
      assert t[1..] == [];
      assert Bucket(t, b) == last;
    } else {
      var rest := s[1..];
      assert t[0] == s[0] && t[1..] == rest + [e];
      BucketAppend(rest, e, b);
      if BucketOf(s[0].hash) == b {
        assert [s[0]] + (Bucket(rest, b) + last) == ([s[0]] + Bucket(rest, b)) + last;
      }
    }
  }

  /** Looking only in the query's bucket finds what looking everywhere finds. */
  lemma {:induction false} NewestInBucket(s: seq<Entry>, q: Query, exact: bool)
    ensures Newest(Bucket(s, BucketOf(q.hash)), q, exact) == Newest(s, q, exact)
  {
    var b := BucketOf(q.hash);
    if s != [] {
      NewestInBucket(s[1..], q, exact);
      if BucketOf(s[0].hash) == b {
        assert Bucket(s, b)[1..] == Bucket(s[1..], b);
      } else {
        assert Bucket(s, b) == Bucket(s[1..], b);
      }
    }
  }

  lemma FieldsOfPrefix(s: seq<Entry>, k: nat)
    requires k <= |s|
    ensures FieldsOf(s[..k]) == FieldsOf(s)[..k]
  {
  }

  lemma FieldsAfterInsert(s: seq<Entry>, k: nat, e: Entry)
    requires k <= |s|
    ensures FieldsOf([e] + s[..k]) == [e.field] + FieldsOf(s)[..k]
  {
  }

  /** Place `i` holds the sequence number `next - 1 - i`. */
  ghost predicate Numbered(s: seq<Entry>, next: u32) {
    forall i :: 0 <= i < |s| ==> s[i].serial == Sub32(next, 1 + i)
  }

  /** The books of a table: no entry twice, `size` is the sum of the rooms, serials in order. */
  ghost predicate Books(s: seq<Entry>, size: u32, next: u32) {
    NoDup(s) && size == Rooms(FieldsOf(s)) % U32 && Numbered(s, next)
  }

  lemma RoomsAfterPop(s: seq<Entry>)
    requires s != []
    ensures Rooms(FieldsOf(s)) == Rooms(FieldsOf(s[..|s| - 1])) + Room(s[|s| - 1].field)
  {
    assert FieldsOf(s)[..|s| - 1] == FieldsOf(s[..|s| - 1]);
  }

  lemma BooksAfterPop(s: seq<Entry>, size: u32, next: u32)
    requires Books(s, size, next) && s != []
    ensures Books(s[..|s| - 1], Sub32(size, Room(s[|s| - 1].field)), next)
  {
    var init := s[..|s| - 1];
    assert NoDup(init) && Numbered(init, next) by {
      assert forall i :: 0 <= i < |init| ==> init[i] == s[i];
    }
    RoomsAfterPop(s);
    WrapAdd(Rooms(FieldsOf(s)), Room(s[|s| - 1].field));
  }

  lemma NumberedAfterPush(s: seq<Entry>, next: u32, e: Entry)
    requires Numbered(s, next) && e.serial == next
    ensures Numbered([e] + s, Add32(next, 1))
  {
    var t, next' := [e] + s, Add32(next, 1);
    forall i | 0 <= i < |t|
      ensures t[i].serial == Sub32(next', 1 + i)
    {
      assert Sub32(next', 1 + i) == Sub32(next, i);
      if i > 0 {
        assert t[i] == s[i - 1];
      }
    }
  }

  lemma BooksAfterPush(s: seq<Entry>, size: u32, next: u32, e: Entry)
    requires Books(s, size, next) && e !in s && e.serial == next
    ensures Books([e] + s, Add32(size, Room(e.field)), Add32(next, 1))
  {
    NumberedAfterPush(s, next, e);
    assert NoDup([e] + s);
    assert FieldsOf([e] + s) == [e.field] + FieldsOf(s);
    RoomsPrepend(e.field, FieldsOf(s));
    WrapAdd(Rooms(FieldsOf(s)), Room(e.field));
  }

  /** The map's chains are the table's buckets. */
  ghost predicate Mirrors(chains: seq<seq<Entry>>, members: set<Entry>, s: seq<Entry>) {
    && |chains| == MAP_SIZE
    && members == (set e | e in s)
    && forall b :: 0 <= b < MAP_SIZE ==> chains[b] == Bucket(s, b)
  }

  lemma BucketOfAll(s: seq<Entry>, b: nat)
    requires s != []
    ensures var e := s[|s| - 1];
            Bucket(s, b) == Bucket(s[..|s| - 1], b) + (if BucketOf(e.hash) == b then [e] else [])
  {
    assert s == s[..|s| - 1] + [s[|s| - 1]];
    BucketAppend(s[..|s| - 1], s[|s| - 1], b);
  }

  lemma SetAfterPop(s: seq<Entry>)
    requires s != [] && NoDup(s)
    ensures var init := s[..|s| - 1]; (set x | x in s) - {s[|s| - 1]} == set x | x in init
  {
    var init := s[..|s| - 1];
    forall x | x in s && x != s[|s| - 1]
      ensures x in init
    {
      var k :| 0 <= k < |s| && s[k] == x;
      assert init[k] == x;
    }
  }

  /** Taking the oldest entry off its chain is taking it off the table. */
  lemma MirrorsAfterPop(chains: seq<seq<Entry>>, members: set<Entry>, s: seq<Entry>)
    requires Mirrors(chains, members, s) && s != [] && NoDup(s)
    ensures var e, b := s[|s| - 1], BucketOf(s[|s| - 1].hash);
            && |chains[b]| > 0 && chains[b][|chains[b]| - 1] == e
            && Mirrors(chains[b := DropAt(chains[b], |chains[b]| - 1)], members - {e}, s[..|s| - 1])
  {
    var e, b := s[|s| - 1], BucketOf(s[|s| - 1].hash);
    BucketOfAll(s, b);
    var rest := chains[b := DropAt(chains[b], |chains[b]| - 1)];
    forall c | 0 <= c < MAP_SIZE
      ensures rest[c] == Bucket(s[..|s| - 1], c)
    {
      BucketOfAll(s, c);
    }
    SetAfterPop(s);
  }

  lemma MirrorsAfterPush(chains: seq<seq<Entry>>, members: set<Entry>, s: seq<Entry>, e: Entry)
    requires Mirrors(chains, members, s)
    ensures var b := BucketOf(e.hash); Mirrors(chains[b := [e] + chains[b]], members + {e}, [e] + s)
  {
    var t := [e] + s;
    assert t[1..] == s;
    assert members + {e} == set x | x in t;
  }

  /** One turn of the eviction loop, in terms of the fields alone. */
  lemma KeptUnfolds(s: seq<Entry>, size: u32, extra: u32, max: u32)
    requires size == Rooms(FieldsOf(s)) % U32
    ensures Kept(FieldsOf(s), extra, max) ==
            if Add32(size, extra) > max && s != [] then Kept(FieldsOf(s[..|s| - 1]), extra, max) else |s|
  {
    WrapAdd(Rooms(FieldsOf(s)), extra);
    if s != [] {
      FieldsOfPrefix(s, |s| - 1);
    }
  }

  lemma StepInserts(s: seq<Entry>, max: u32, e: Entry, t: seq<Entry>)
    requires t == [e] + s[..Kept(FieldsOf(s), Room(e.field), max)]
    ensures State(FieldsOf(t), max) == Step(State(FieldsOf(s), max), Insert(e.field))
  {
    FieldsAfterInsert(s, Kept(FieldsOf(s), Room(e.field), max), e);
  }

  lemma StepResizes(s: seq<Entry>, max: u32, newMax: u32, t: seq<Entry>)
    requires t == s[..Kept(FieldsOf(s), 0, newMax)]
    ensures State(FieldsOf(t), newMax) == Step(State(FieldsOf(s), max), Resize(newMax))
  {
    FieldsOfPrefix(s, Kept(FieldsOf(s), 0, newMax));
  }

  class Table {
    var bufsizeMax: u32
    var bufsize: u32
    var nextSeq: u32
    const ring: Ring
    const map': BucketMap?

    /** The map, its buckets and its entries. */
    ghost function MapRepr(): (r: set<object>)
      reads map'
    {
      if map' == null then {} else {map', map'.table} + map'.members
    }

    ghost predicate RingValid()
      reads this, ring, ring.buffer
    {
      ring.Valid() && Books(ring.contents, bufsize, nextSeq)
    }

    ghost predicate Valid()
      reads this, ring, ring.buffer, map', MapRepr()
    {
      && RingValid()
      && (map' != null ==>
            && map'.Valid()
            && map'.table != ring.buffer
            && Mirrors(map'.chains, map'.members, ring.contents))
    }

    constructor (max: u32, withMap: bool)
      ensures Valid() && ring.contents == [] && bufsizeMax == max && nextSeq == 0
      ensures fresh(ring) && fresh(ring.buffer) && (map' != null <==> withMap)
      ensures map' != null ==> fresh(map') && fresh(map'.table) && map'.members == {}
    {
      bufsizeMax, bufsize, nextSeq := max, 0, 0;
      ring := new Ring(4096 / ENTRY_OVERHEAD);
      if withMap {
        map' := new BucketMap();
      } else {
        map' := null;
      }
    }

    method TakeOldest() returns (e: Entry)
      requires RingValid() && ring.len > 0
      modifies this`bufsize, ring
      ensures RingValid() && ring.buffer == old(ring.buffer)
      ensures e == old(ring.contents[|ring.contents| - 1])
      ensures ring.contents == old(ring.contents[..|ring.contents| - 1])
    {
      var idx := ring.len - 1;
      e := ring.Get(idx);
      BooksAfterPop(ring.contents, bufsize, nextSeq);
      bufsize := Sub32(bufsize, Room(e.field));
      ring.PopBack();
    }

    /** The body of both eviction loops. */
    method EvictOldest()
      requires Valid() && ring.len > 0
      modifies this`bufsize, ring, MapRepr()
      ensures Valid() && ring.buffer == old(ring.buffer)
      ensures ring.contents == old(ring.contents[..|ring.contents| - 1])
      ensures MapRepr() <= old(MapRepr())
    {
      ghost var s := ring.contents;
      var e := TakeOldest();
      if map' != null {
        ghost var chains, b := map'.chains, BucketOf(e.hash);
        MirrorsAfterPop(chains, map'.members, s);
        ghost var j := |chains[b]| - 1;
        map'.Remove(e);
        assert map'.chains == chains[b := DropAt(chains[b], j)];
      }
    }

    /** How many of the newest entries stay when `extra` more bytes are wanted. */
    ghost function Keep(extra: u32): (k: nat)
      reads this, ring
      ensures k <= |ring.contents|
    {
      Kept(FieldsOf(ring.contents), extra, bufsizeMax)
    }

    ghost function View(): (t: State)
      reads this, ring
    {
      State(FieldsOf(ring.contents), bufsizeMax)
    }

    /** One turn of an eviction loop, test and body. */
    method EvictStep(extra: u32) returns (more: bool)
      requires Valid()
      modifies this`bufsize, ring, MapRepr()
      ensures Valid() && ring.buffer == old(ring.buffer)
      ensures !more ==> ring.contents == old(ring.contents) && |ring.contents| == Keep(extra)
      ensures more ==> |ring.contents| < old(|ring.contents|) && ring.contents <= old(ring.contents)
      ensures Keep(extra) == old(Keep(extra))
      ensures MapRepr() <= old(MapRepr())
    {
      hide Kept;
      hide FieldsOf;
      hide Rooms;
      hide Mirrors;
      KeptUnfolds(ring.contents, bufsize, extra, bufsizeMax);
      more := Add32(bufsize, extra) > bufsizeMax && ring.len > 0;
      if more {
        EvictOldest();
      }
    }

    /** Evicts oldest entries until `extra` more bytes fit, or none is left. */
    method MakeRoom(extra: u32)
      requires Valid()
      modifies this`bufsize, ring, MapRepr()
      ensures Valid() && ring.buffer == old(ring.buffer)
      ensures ring.contents == old(ring.contents[..Keep(extra)])
      ensures MapRepr() <= old(MapRepr())
    {
      ghost var s, k := ring.contents, Keep(extra);
      var more := true;
      while more
        invariant Valid() && ring.buffer == old(ring.buffer)
        invariant ring.contents <= s && k == Keep(extra)
        invariant !more ==> |ring.contents| == k
        invariant MapRepr() <= old(MapRepr())
        decreases if more then 1 + |ring.contents| else 0
      {
        more := EvictStep(extra);
      }
    }

    method PushEntry(e: Entry, memory: bool) returns (ok: bool)
      requires RingValid() && ring.len < 0x8000_0000
      requires e !in ring.contents && e.serial == nextSeq
      modifies this`bufsize, this`nextSeq, ring, ring.buffer
      ensures RingValid() && (ok || !memory)
      ensures ok ==> ring.contents == [e] + old(ring.contents) && nextSeq == Add32(old(nextSeq), 1)
      ensures !ok ==> ring.contents == old(ring.contents) && nextSeq == old(nextSeq)
      ensures ring.buffer == old(ring.buffer) || fresh(ring.buffer)
    {
      BooksAfterPush(ring.contents, bufsize, nextSeq, e);
      ok := ring.PushFront(e, memory);
      if ok {
        nextSeq := Add32(nextSeq, 1);
        bufsize := Add32(bufsize, Room(e.field));
      }
    }

    /** Puts a new entry in front; without memory for a larger ring nothing happens. */
    method AddNewest(e: Entry, memory: bool) returns (ok: bool)
      requires Valid() && ring.len < 0x8000_0000
      requires e !in ring.contents && e.serial == nextSeq && e.next == null
      modifies this`bufsize, this`nextSeq, ring, ring.buffer, MapRepr(), e
      ensures Valid() && (ok || !memory)
      ensures ok ==> ring.contents == [e] + old(ring.contents) && nextSeq == Add32(old(nextSeq), 1)
      ensures !ok ==> ring.contents == old(ring.contents) && nextSeq == old(nextSeq)
      ensures ring.buffer == old(ring.buffer) || fresh(ring.buffer)
      ensures MapRepr() <= old(MapRepr()) + {e}
    {
      ghost var s := ring.contents;
      ok := PushEntry(e, memory);
      if ok && map' != null {
        MirrorsAfterPush(map'.chains, map'.members, s, e);
        map'.Insert(e);
      }
    }

    /**
     Adds a field: the table becomes the bounded FIFO with the shortest oldest run evicted
     and the field in front. On a memory failure the evictions stay.
     */
    method Insert(field: Field, token: int, hash: u32, memory: bool) returns (e: Entry?)
      requires Valid() && ring.len < 0x8000_0000
      modifies this`bufsize, this`nextSeq, ring, ring.buffer, MapRepr()
      ensures Valid() && (e == null ==> !memory)
      ensures e != null ==> fresh(e) && e.field == field && e.token == token && e.hash == hash
      ensures ring.contents == (if e == null then [] else [e]) + old(ring.contents[..Keep(Room(field))])
      ensures e != null ==> View() == Step(old(View()), Op.Insert(field))
      ensures ring.buffer == old(ring.buffer) || fresh(ring.buffer)
      ensures fresh(MapRepr() - old(MapRepr()))
    {
      hide FieldsOf;
      hide Kept;
      hide Step;
      hide Room;
      hide Books;
      hide Mirrors;
      ghost var s := ring.contents;
      MakeRoom(Room(field));
      var ent := new Entry(field, token, hash, nextSeq);
      var ok := AddNewest(ent, memory);
      e := if ok then ent else null;
      if ok {
        StepInserts(s, bufsizeMax, ent, ring.contents);
      }
    }

    /** Lowers or raises the bound, then shrinks to it. */
    method Resize(max: u32)
      requires Valid()
      modifies this`bufsize, this`bufsizeMax, ring, MapRepr()
      ensures Valid() && ring.buffer == old(ring.buffer) && bufsizeMax == max
      ensures ring.contents <= old(ring.contents)
      ensures View() == Step(old(View()), Op.Resize(max))
      ensures MapRepr() <= old(MapRepr())
    {
      hide FieldsOf;
      hide Kept;
      hide Step;
      hide Books;
      hide Mirrors;
      ghost var s := ring.contents;
      bufsizeMax := max;
      MakeRoom(0);
      StepResizes(s, old(bufsizeMax), max, ring.contents);
    }

    /** The search through one bucket is a newest-first search of the whole table. */
    method Find(q: Query) returns (e: Entry?, exact: bool)
      requires Valid() && map' != null
      ensures (e, exact) == Best(ring.contents, q)
    {
      NewestInBucket(ring.contents, q, true);
      NewestInBucket(ring.contents, q, false);
      e, exact := map'.Find(q);
    }
  }
}
