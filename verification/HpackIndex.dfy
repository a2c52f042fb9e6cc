/**
 The encoder's side of HPACK (section 6 of RFC 7541): the search in the static and dynamic
 tables, the choice of a representation, and the bytes of an indexed field.
 */
module HpackIndex {
  import opened Words
  import opened HpackInteger
  import opened HpackRing
  import opened HpackMap
  import opened HpackStatic
  import opened HpackTable

  datatype Mode = WithIndexing | WithoutIndexing | NeverIndexing

  // ----- the search, as a value -----

  /** The newest place that holds the field, or -1. */
  function DynamicIndex(fields: seq<Field>, f: Field): (r: int)
    ensures -1 <= r < |fields|
    ensures r >= 0 ==> fields[r] == f && f !in fields[..r]
    ensures r == -1 ==> f !in fields
  {
    if fields == [] then -1
    else if fields[0] == f then 0
    else
      var r := DynamicIndex(fields[1..], f);
      if r < 0 then -1 else r + 1
  }

  /** The index an exact match is reported at, or -1. */
  function ExactIndex(fields: seq<Field>, f: Field, mode: Mode): (r: int)
    ensures -1 <= r < STATIC_TABLE_LENGTH + |fields|
  {
    if mode != NeverIndexing && StaticIndex(f) >= 0 then StaticIndex(f)
    else if DynamicIndex(fields, f) >= 0 then STATIC_TABLE_LENGTH + DynamicIndex(fields, f)
    else -1
  }

  /** `http2_hd_table_get`: static rows first, then the dynamic table, newest first. */
  function Indexed(fields: seq<Field>, i: nat): (f: Field)
    requires i < STATIC_TABLE_LENGTH + |fields|
  {
    if i < STATIC_TABLE_LENGTH then StaticRow(i).field else fields[i - STATIC_TABLE_LENGTH]
  }

  /** An exact match is found exactly when there is one, except in the static table when never indexing. */
  lemma ExactIndexResolves(fields: seq<Field>, f: Field, mode: Mode)
    ensures var i := ExactIndex(fields, f, mode); i >= 0 ==> Indexed(fields, i) == f
    ensures ExactIndex(fields, f, mode) >= 0 <==> f in fields || (mode != NeverIndexing && InStatic(f))
  {
    hide StaticRow;
    hide InStatic;
  }

  // ----- the search, as the code performs it -----

  /** Every entry carries the token and the hash of its own name. */
  ghost predicate Consistent(s: seq<Entry>, hashOf: string -> u32) {
    forall i :: 0 <= i < |s| ==>
                  && s[i].token == LookupToken(s[i].field.name)
                  && s[i].hash == hashOf(s[i].field.name)
  }

  lemma ConsistentAfterInsert(s: seq<Entry>, t: seq<Entry>, head: seq<Entry>, hashOf: string -> u32)
    requires Consistent(s, hashOf) && Consistent(head, hashOf)
    requires exists k :: 0 <= k <= |s| && t == head + s[..k]
    ensures Consistent(t, hashOf)
  {
    hide LookupToken;
  }

  function QueryFor(f: Field, hashOf: string -> u32): (q: Query) {
    Query(f, LookupToken(f.name), hashOf(f.name))
  }

  lemma HitComparesNames(e: Entry, f: Field, hashOf: string -> u32)
    requires Consistent([e], hashOf)
    ensures Hit(e, QueryFor(f, hashOf), false) <==> e.field.name == f.name
    ensures Hit(e, QueryFor(f, hashOf), true) <==> e.field == f
  {
    assert [e][0] == e;
    if LookupToken(e.field.name) == LookupToken(f.name) != -1 {
      TokenDeterminesName(e.field.name, f.name);
    }
  }

  /** The map's exact search and the field search stop at the same place. */
  lemma {:induction false} NewestIsDynamicIndex(s: seq<Entry>, f: Field, hashOf: string -> u32)
    requires Consistent(s, hashOf)
    ensures var i := DynamicIndex(FieldsOf(s), f);
            Newest(s, QueryFor(f, hashOf), true) == if i >= 0 then s[i] else null
  {
    if s != [] {
      var rest := s[1..];
      assert FieldsOf(s)[1..] == FieldsOf(rest);
      HitComparesNames(s[0], f, hashOf);
      NewestIsDynamicIndex(rest, f, hashOf);
    }
  }

  /** The distance in sequence numbers, in unsigned arithmetic, is the place in the table. */
  lemma SerialGivesPlace(s: seq<Entry>, next: u32, i: nat)
    requires Numbered(s, next) && i < |s| && i + STATIC_TABLE_LENGTH < U32
    ensures (next - 1 - s[i].serial + STATIC_TABLE_LENGTH) % U32 == i + STATIC_TABLE_LENGTH
  {
    assert s[i].serial == Sub32(next, 1 + i);
  }

  lemma NothingNamed(s: seq<Entry>, f: Field, hashOf: string -> u32)
    requires Consistent(s, hashOf) && Newest(s, QueryFor(f, hashOf), false) == null
    ensures forall k | 0 <= k < |s| :: s[k].field.name != f.name
  {
    hide LookupToken;
    forall k | 0 <= k < |s| ensures s[k].field.name != f.name {
      assert Consistent([s[k]], hashOf);
      HitComparesNames(s[k], f, hashOf);
    }
  }

  /** What the best entry of a search is worth: its place, and what it shares with the field. */
  lemma BestPlace(s: seq<Entry>, next: u32, f: Field, hashOf: string -> u32) returns (i: int)
    requires Consistent(s, hashOf) && Numbered(s, next) && |s| + STATIC_TABLE_LENGTH < U32
    ensures -1 <= i < |s|
    ensures var (e, exact) := Best(s, QueryFor(f, hashOf));
            && (exact <==> DynamicIndex(FieldsOf(s), f) >= 0)
            && (exact ==> i == DynamicIndex(FieldsOf(s), f))
            && (e == null <==> i == -1)
            && (e == null ==> forall k | 0 <= k < |s| :: s[k].field.name != f.name)
            && (e != null ==>
                  && e.field.name == f.name && FieldsOf(s)[i] == e.field
                  && (next - 1 - e.serial + STATIC_TABLE_LENGTH) % U32 == i + STATIC_TABLE_LENGTH)
  {
    hide LookupToken;
    hide DynamicIndex;
    hide Hit;
    var (e, exact) := Best(s, QueryFor(f, hashOf));
    NewestIsDynamicIndex(s, f, hashOf);
    if e == null {
      i := -1;
      NothingNamed(s, f, hashOf);
    } else {
      if exact {
        i := DynamicIndex(FieldsOf(s), f);
      } else {
        i :| 0 <= i < |s| && s[i] == e;
      }
      assert Consistent([s[i]], hashOf);
      HitComparesNames(e, f, hashOf);
      SerialGivesPlace(s, next, i);
    }
  }

  /**
   What a search answers. An exact match is reported exactly when there is one, at an index
   where it is, except that a never-indexed field is not looked up in the static table.
   Otherwise the index is that of an entry with the same name, a static one if there is one,
   or -1 when there is none.
   */
  ghost predicate Answers(fields: seq<Field>, f: Field, mode: Mode, index: int, found: bool) {
    && (found <==> f in fields || (mode != NeverIndexing && InStatic(f)))
    && (found ==> index == ExactIndex(fields, f, mode) && index >= 0 && Indexed(fields, index) == f)
    && (!found ==> -1 <= index < STATIC_TABLE_LENGTH + |fields|)
    && (!found && index >= 0 ==> Indexed(fields, index).name == f.name)
    && (!found && StaticName(f.name) ==> 0 <= index < STATIC_TABLE_LENGTH)
    && (!found && index == -1 ==>
          forall k | 0 <= k < STATIC_TABLE_LENGTH + |fields| :: Indexed(fields, k).name != f.name)
  }

  /** The index reported for a field found at a place of the dynamic table, or by name only. */
  function Combined(token: int, place: int, exact: bool): (index: int) {
    if place == -1 || (0 <= token < STATIC_TABLE_LENGTH && !exact) then
      if 0 <= token < STATIC_TABLE_LENGTH then token else -1
    else place + STATIC_TABLE_LENGTH
  }

  lemma CombinedAnswers(fields: seq<Field>, f: Field, mode: Mode, place: int, exact: bool)
    requires mode == NeverIndexing || !InStatic(f)
    requires -1 <= place < |fields|
    requires exact <==> DynamicIndex(fields, f) >= 0
    requires exact ==> place == DynamicIndex(fields, f)
    requires !exact && place >= 0 ==> fields[place].name == f.name
    requires place == -1 ==> forall k | 0 <= k < |fields| :: fields[k].name != f.name
    ensures Answers(fields, f, mode, Combined(LookupToken(f.name), place, exact), exact)
  {
    hide DynamicIndex;
    hide StaticRow;
    hide TokenName;
    hide LookupToken;
    hide InStatic;
    hide StaticIndex;
    ExactIndexResolves(fields, f, mode);
    var token := LookupToken(f.name);
    if 0 <= token < STATIC_TABLE_LENGTH {
      StaticTokenName(token);
    } else {
      forall i | 0 <= i < STATIC_TABLE_LENGTH ensures StaticRow(i).field.name != f.name {
        TokenOfRow(i);
        RowTokens(i);
      }
    }
  }

  method SearchStatic(value: string, token: nat, mode: Mode) returns (index: int, found: bool)
    requires token < STATIC_TABLE_LENGTH
    ensures found <==> mode != NeverIndexing && ScanRows(token, value, token) >= 0
    ensures index == if found then ScanRows(token, value, token) else token
  {
    hide StaticRow;
    if mode == NeverIndexing {
      return token, false;
    }
    var i := token;
    while i < STATIC_TABLE_LENGTH && StaticRow(i).token == token
      invariant token <= i <= STATIC_TABLE_LENGTH
      invariant ScanRows(token, value, token) == ScanRows(token, value, i)
      decreases STATIC_TABLE_LENGTH - i
    {
      if StaticRow(i).field.value == value {
        return i, true;
      }
      i := i + 1;
    }
    return token, false;
  }

  datatype Option<T> = None | Some(value: T)

  // ----- writing an indexed field -----

  lemma IndexedForm(index: nat)
    ensures var e := Encoded(0x80, index + 1, 7);
            if index < 126 then e == [0x81 + index]
            else |e| > 1 && e[0] == 0xFF && Terminated(e[1..]) && SevenBits(e[1..]) == index - 126
  {
    hide Encoded;
    hide Terminated;
    hide SevenBits;
    EncodedForm(0x80, index + 1, 7);
    Shl7(1);
    ShrAddLow(1, 0, 7);
  }

  /** `emit_indexed_block`: the integer goes through a 16-byte scratch buffer. */
  method EmitIndexed(index: nat) returns (bytes: seq<byte>)
    requires index + 1 < U32
    ensures bytes == Encoded(0x80, index + 1, 7)
    ensures index < 126 ==> bytes == [0x81 + index]
    ensures index >= 126 ==>
              && |bytes| > 1 && bytes[0] == 0xFF
              && Terminated(bytes[1..]) && SevenBits(bytes[1..]) == index - 126
  {
    hide Encoded;
    hide SevenBits;
    hide Terminated;
    IndexedForm(index);
    var len := CountEncodedLength(index + 1, 7);
    var scratch := new byte[16](_ => 0);
    scratch[0] := 0x80;
    var written := EncodeLength(scratch, 0, index + 1, 7);
    assert written == len;
    bytes := scratch[..len];
  }

  /** What the encoder sends: an indexed field, or a literal with its name's index, or -1, and its mode. */
  datatype Item = Block(bytes: seq<byte>) | Literal(index: int, mode: Mode)

  const TOKEN_PATH := 3
  const TOKEN_AGE := 20
  const TOKEN_AUTHORIZATION := 22
  const TOKEN_CONTENT_LENGTH := 27
  const TOKEN_COOKIE := 31
  const TOKEN_ETAG := 33
  const TOKEN_IF_MODIFIED_SINCE := 39
  const TOKEN_IF_NONE_MATCH := 40
  const TOKEN_LOCATION := 45
  const TOKEN_SET_COOKIE := 54

  /** Which fields the encoder indexes: not secrets, not one-off values, not bulky ones. */
  function ModeFor(f: Field, noIndex: bool, max: u32): (m: Mode)
  {
    var t := LookupToken(f.name);
    if t == TOKEN_AUTHORIZATION || (t == TOKEN_COOKIE && |f.value| < 20) || noIndex then NeverIndexing
    else if t in {TOKEN_PATH, TOKEN_AGE, TOKEN_CONTENT_LENGTH, TOKEN_ETAG, TOKEN_IF_MODIFIED_SINCE,
                  TOKEN_IF_NONE_MATCH, TOKEN_LOCATION, TOKEN_SET_COOKIE}
         || Room(f) > 3 * max % U32 / 4 then WithoutIndexing
    else WithIndexing
  }

  /** A token is found for its name, and for no other. */
  lemma TokenIff(name: string, t: nat)
    requires t < TOKENS && TokenName(t) != ""
    ensures LookupToken(name) == t <==> name == TokenName(t)
  {
    hide Branch;
    TreeIsComplete(t);
  }

  /** Fields whose value may be a secret that is easy to guess. */
  predicate Secret(f: Field) {
    f.name == "authorization" || (f.name == "cookie" && |f.value| < 20)
  }

  /** Names whose value seldom comes twice. */
  predicate OneOff(name: string) {
    name in {":path", "age", "content-length", "etag", "if-modified-since", "if-none-match", "location", "set-cookie"}
  }

  lemma SecretTokens(f: Field)
    ensures LookupToken(f.name) == TOKEN_AUTHORIZATION <==> f.name == "authorization"
    ensures LookupToken(f.name) == TOKEN_COOKIE <==> f.name == "cookie"
  {
    hide LookupToken;
    TokenIff(f.name, TOKEN_AUTHORIZATION);
    TokenIff(f.name, TOKEN_COOKIE);
  }

  lemma OneOffTokens1(name: string)
    ensures LookupToken(name) == TOKEN_PATH <==> name == ":path"
    ensures LookupToken(name) == TOKEN_AGE <==> name == "age"
    ensures LookupToken(name) == TOKEN_CONTENT_LENGTH <==> name == "content-length"
    ensures LookupToken(name) == TOKEN_ETAG <==> name == "etag"
  {
    hide LookupToken;
    TokenIff(name, TOKEN_PATH);
    TokenIff(name, TOKEN_AGE);
    TokenIff(name, TOKEN_CONTENT_LENGTH);
    TokenIff(name, TOKEN_ETAG);
  }

  lemma OneOffTokens2(name: string)
    ensures LookupToken(name) == TOKEN_IF_MODIFIED_SINCE <==> name == "if-modified-since"
    ensures LookupToken(name) == TOKEN_IF_NONE_MATCH <==> name == "if-none-match"
    ensures LookupToken(name) == TOKEN_LOCATION <==> name == "location"
    ensures LookupToken(name) == TOKEN_SET_COOKIE <==> name == "set-cookie"
  {
    hide LookupToken;
    TokenIff(name, TOKEN_IF_MODIFIED_SINCE);
    TokenIff(name, TOKEN_IF_NONE_MATCH);
    TokenIff(name, TOKEN_LOCATION);
    TokenIff(name, TOKEN_SET_COOKIE);
  }

  /**
   The choice by name: secrets and flagged fields are never indexed; one-off names, and fields that
   take more than three quarters of the bound, are sent without indexing; all others are indexed.
   */
  lemma ModeByName(f: Field, noIndex: bool, max: u32)
    ensures ModeFor(f, noIndex, max) == NeverIndexing <==>
            noIndex || f.name == "authorization" || (f.name == "cookie" && |f.value| < 20)
    ensures ModeFor(f, noIndex, max) == WithoutIndexing <==>
            && !(noIndex || Secret(f))
            && (OneOff(f.name) || (32 + |f.name| + |f.value|) % 0x1_0000_0000 > 3 * max % 0x1_0000_0000 / 4)
  {
    hide LookupToken;
    SecretTokens(f);
    OneOffTokens1(f.name);
    OneOffTokens2(f.name);
  }

  /** A field that is indexed fits the table, so the encoder never stores an oversized entry. */
  lemma IndexedFieldsFit(f: Field, noIndex: bool, max: u32)
    requires ModeFor(f, noIndex, max) == WithIndexing
    ensures Room(f) <= max
  {
    hide LookupToken;
  }

  class Encoder {
    const table: Table
    const hashOf: string -> u32

    ghost predicate Valid()
      reads table, table.ring, table.ring.buffer, table.map', table.MapRepr()
    {
      && table.Valid()
      && table.map' != null
      && Consistent(table.ring.contents, hashOf)
    }

    ghost function Fields(): (r: seq<Field>)
      reads table, table.ring
    {
      table.View().fields
    }

    /** The bound is 0 until the owner of the table raises it. */
    constructor (hashOf: string -> u32)
      ensures Valid() && table.View() == State([], 0)
      ensures fresh(table) && fresh(table.ring) && fresh(table.ring.buffer) && fresh(table.MapRepr())
    {
      table := new Table(0, true);
      this.hashOf := hashOf;
    }

    /** `search_hd_table`. */
    method Search(f: Field, mode: Mode) returns (index: int, found: bool)
      requires Valid() && table.ring.len + STATIC_TABLE_LENGTH < 0x8000_0000
      ensures Answers(Fields(), f, mode, index, found)
    {
      hide StaticRow;
      hide TokenName;
      hide Branch;
      hide DynamicIndex;
      hide Consistent;
      hide InStatic;
      hide ScanRows;
      StaticSearch(f);
      var token := LookupToken(f.name);
      index, found := -1, false;
      if 0 <= token < STATIC_TABLE_LENGTH {
        index, found := SearchStatic(f.value, token, mode);
        if found {
          return;
        }
      }
      var place, exact := SearchDynamic(f);
      CombinedAnswers(Fields(), f, mode, place, exact);
      if place != -1 && (index == -1 || exact) {
        index := place + STATIC_TABLE_LENGTH;
        found := exact;
      }
      assert index == Combined(token, place, exact) && found == exact;
    }

    /** The part of `search_hd_table` behind the map; the result is a place in the table. */
    method SearchDynamic(f: Field) returns (place: int, exact: bool)
      requires Valid() && table.ring.len + STATIC_TABLE_LENGTH < 0x8000_0000
      ensures -1 <= place < |Fields()|
      ensures exact <==> DynamicIndex(Fields(), f) >= 0
      ensures exact ==> place == DynamicIndex(Fields(), f)
      ensures !exact && place >= 0 ==> Fields()[place].name == f.name
      ensures place == -1 ==> forall k | 0 <= k < |Fields()| :: Fields()[k].name != f.name
    {
      hide StaticRow;
      hide LookupToken;
      hide Mirrors;
      hide DynamicIndex;
      var e;
      e, exact := table.Find(QueryFor(f, hashOf));
      ghost var i := BestPlace(table.ring.contents, table.nextSeq, f, hashOf);
      if e == null {
        assert forall k | 0 <= k < |Fields()| :: Fields()[k] == table.ring.contents[k].field;
        return -1, false;
      }
      place := (table.nextSeq - 1 - e.serial + STATIC_TABLE_LENGTH) % U32 - STATIC_TABLE_LENGTH;
    }

    /** Inserts a field under the token and hash of its name. */
    method Add(f: Field, memory: bool) returns (ok: bool)
      requires Valid() && table.ring.len < 0x8000_0000
      modifies table, table.ring, table.ring.buffer, table.MapRepr()
      ensures Valid() && (ok || !memory)
      ensures ok ==> table.View() == Step(old(table.View()), Op.Insert(f))
      ensures !ok ==> Fields() <= old(Fields())
    {
      hide Mirrors;
      hide LookupToken;
      ghost var s := table.ring.contents;
      var e := table.Insert(f, LookupToken(f.name), hashOf(f.name), memory);
      ok := e != null;
      ghost var head := if e == null then [] else [e];
      ConsistentAfterInsert(s, table.ring.contents, head, hashOf);
    }

    /**
     `deflate_nv` up to the literal bytes: an exact match becomes an indexed block and leaves
     the table alone; otherwise the field is inserted when it is to be indexed.
     */
    method Deflate(f: Field, noIndex: bool, memory: bool) returns (item: Option<Item>)
      requires Valid() && table.ring.len + STATIC_TABLE_LENGTH < 0x8000_0000
      modifies table, table.ring, table.ring.buffer, table.MapRepr()
      ensures item == None ==> !memory && Valid() && Fields() <= old(Fields())
      ensures item.Some? ==> Valid() && Sent(old(table.View()), f, noIndex, item.value, table.View())
      ensures EncoderStep(old(table.View()), table.View())
    {
      hide StaticRow;
      hide LookupToken;
      hide ModeFor;
      hide ExactIndex;
      hide Indexed;
      hide InStatic;
      hide Encoded;
      hide Consistent;
      hide Mirrors;
      hide Books;
      hide Step;
      var mode := ModeFor(f, noIndex, table.bufsizeMax);
      var index, found := Search(f, mode);
      if found {
        var bytes := EmitIndexed(index);
        item := Some(Block(bytes));
      } else if mode == WithIndexing {
        var ok := Add(f, memory);
        item := if ok then Some(Literal(index, mode)) else None;
      } else {
        item := Some(Literal(index, mode));
      }
    }
  }

  /** What a field turns into, and the table with it. */
  ghost predicate Sent(t: State, f: Field, noIndex: bool, item: Item, t': State) {
    var mode := ModeFor(f, noIndex, t.max);
    match item
    case Block(bytes) =>
      && Answers(t.fields, f, mode, ExactIndex(t.fields, f, mode), true)
      && bytes == Encoded(0x80, ExactIndex(t.fields, f, mode) + 1, 7)
      && t' == t
    case Literal(index, m) =>
      && Answers(t.fields, f, mode, index, false)
      && m == mode
      && t' == if mode == WithIndexing then Step(t, Op.Insert(f)) else t
  }

  // ----- runs of the encoder -----

  /** One step of an encoder: a field is sent, flagged or not, or sending fails, or the bound changes. */
  ghost predicate EncoderStep(t: State, t': State) {
    || (exists f, noIndex, item :: Sent(t, f, noIndex, item, t'))
    || t'.fields <= t.fields
    || (exists m :: t' == Step(t, Op.Resize(m)))
  }

  ghost predicate EncoderRun(ts: seq<State>) {
    && ts != [] && ts[0].fields == []
    && forall k | 0 <= k < |ts| - 1 :: EncoderStep(ts[k], ts[k + 1])
  }

  predicate Storable(f: Field) {
    !Secret(f) && !OneOff(f.name)
  }

  lemma StepKeepsSecrets(t: State, t': State)
    requires EncoderStep(t, t') && forall f | f in t.fields :: Storable(f)
    ensures forall f | f in t'.fields :: Storable(f)
  {
    hide Answers;
    hide ModeFor;
    hide ExactIndex;
    hide Encoded;
    if f, noIndex, item :| Sent(t, f, noIndex, item, t') {
      ModeByName(f, noIndex, t.max);
      forall g | g in t'.fields ensures Storable(g) {
        assert g == f || g in t.fields;
      }
    }
  }

  /** Whatever is sent, and however the bound changes, no secret and no one-off field is ever in the table. */
  lemma SecretsNeverStored(ts: seq<State>)
    requires EncoderRun(ts)
    ensures forall f | f in ts[|ts| - 1].fields ::
              && f.name != "authorization" && (f.name == "cookie" ==> |f.value| >= 20)
              && !OneOff(f.name)
  {
    NeverStored(ts);
    forall f | f in ts[|ts| - 1].fields
      ensures f.name != "authorization" && (f.name == "cookie" ==> |f.value| >= 20) && !OneOff(f.name)
    {
      assert Storable(f);
    }
  }

  lemma {:induction false} NeverStored(ts: seq<State>)
    requires EncoderRun(ts)
    ensures forall f | f in ts[|ts| - 1].fields :: Storable(f)
  {
    hide EncoderStep;
    hide Storable;
    if |ts| > 1 {
      var init := ts[..|ts| - 1];
      NeverStored(init);
      assert EncoderStep(ts[|ts| - 2], ts[|ts| - 2 + 1]);
      StepKeepsSecrets(ts[|ts| - 2], ts[|ts| - 1]);
    }
  }
}
