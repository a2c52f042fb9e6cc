/**
 Literal header fields (section 6.2 of RFC 7541): the choice between the plain and the
 Huffman-coded form of a string, which literals reach the other side, and how large a field
 the decoder can be made to store. Characters are bytes; of the Huffman code only the lengths
 of its codes matter here.
 */
module HpackLiteral {
  import opened Words
  import opened HpackRing
  import opened HpackStatic
  import opened HpackTable
  import opened HpackIndex
  import opened HpackBlock

  /** HTTP2_MAX_NV: the longest form of a string that the decoder reads. */
  const MAX_NV: nat := 65536

  // ----- the form of a string -----

  /** The length in bits of the code of a character. */
  function CodeBits(c: char): (n: nat)
    ensures 5 <= n <= 30
  {
    var i := c as int;
    if 48 <= i <= 50 || i in {97, 99, 101, 105, 111, 115, 116} then 5
    else if 45 <= i <= 47 || 51 <= i <= 57 || 102 <= i <= 104 || 108 <= i <= 110 || i in {32, 37, 61, 65, 95, 98,
      100, 112, 114, 117} then 6
    else if 66 <= i <= 87 || 118 <= i <= 122 || i in {58, 89, 106, 107, 113} then 7
    else if i in {38, 42, 44, 59, 88, 90} then 8
    else if i in {33, 34, 40, 41, 63} then 10
    else if i in {39, 43, 124} then 11
    else if i in {35, 62} then 12
    else if i in {0, 36, 64, 91, 93, 126} then 13
    else if i in {94, 125} then 14
    else if i in {60, 96, 123} then 15
    else if i in {92, 195, 208} then 19
    else if i in {128, 130, 131, 162, 184, 194, 224, 226} then 20
    else if i in {153, 161, 167, 172, 176, 177, 179, 209, 216, 217, 227, 229, 230} then 21
    else if 132 <= i <= 134 || 185 <= i <= 187 || i in {129, 136, 146, 154, 156, 160, 163, 164, 169, 170, 173,
      178, 181, 189, 190, 196, 198, 228, 232, 233} then 22
    else if 137 <= i <= 141 || 149 <= i <= 152 || i in {1, 135, 143, 147, 155, 157, 158, 165, 166, 168, 174, 175,
      180, 182, 183, 188, 191, 197, 231, 239} then 23
    else if i in {9, 142, 144, 145, 148, 159, 171, 206, 215, 225, 236, 237} then 24
    else if i in {199, 207, 234, 235} then 25
    else if 200 <= i <= 202 || i in {192, 193, 205, 210, 213, 218, 219, 238, 240, 242, 243, 255} then 26
    else if 221 <= i <= 223 || 244 <= i <= 248 || 250 <= i <= 254 || i in {203, 204, 211, 212, 214, 241} then 27
    else if 2 <= i <= 8 || 14 <= i <= 21 || 23 <= i <= 31 || i in {11, 12, 127, 220, 249} then 28
    else 30
  }

  function Bits(s: string): (n: nat)
    ensures 5 * |s| <= n <= 30 * |s|
  {
    if s == [] then 0 else Bits(s[..|s| - 1]) + CodeBits(s[|s| - 1])
  }

  /** `http2_huffman_encode_count`: the bytes of the Huffman form, counted in 32 bits. */
  function CodedLength(s: string): (n: nat) {
    Add32(Bits(s) % U32, 7) / 8
  }

  method CountCoded(s: string) returns (n: nat)
    ensures n == CodedLength(s)
  {
    var nbits: u32 := 0;
    for i := 0 to |s|
      invariant nbits == Bits(s[..i]) % U32
    {
      WrapAdd(Bits(s[..i]), CodeBits(s[i]));
      nbits := Add32(nbits, CodeBits(s[i]));
      assert s[..i + 1][..i] == s[..i];
    }
    assert s[..|s|] == s;
    n := Add32(nbits, 7) / 8;
  }

  /** `emit_string` sends the Huffman form when it is shorter. */
  predicate SentCoded(s: string) {
    CodedLength(s) < |s| % U32
  }

  method ChooseForm(s: string) returns (huffman: bool, length: nat)
    ensures huffman == SentCoded(s)
    ensures length == if SentCoded(s) then CodedLength(s) else |s| % U32
  {
    length := CountCoded(s);
    huffman := length < |s| % U32;
    if !huffman {
      length := |s| % U32;
    }
  }

  /** The form that is sent holds the whole string, and the decoder does not refuse its length. */
  predicate Carried(s: string) {
    if SentCoded(s) then Bits(s) <= 8 * MAX_NV else |s| <= MAX_NV
  }

  /** A string is carried exactly when one of its two forms has at most 65536 bytes. */
  lemma CarriedIff(s: string)
    ensures Carried(s) <==> |s| <= MAX_NV || (Bits(s) + 7) / 8 <= MAX_NV
  {
    hide Bits;
  }

  // ----- which literals arrive -----

  /**
   What the decoder makes of a literal that the encoder sends: the field it delivers and the table
   it then has. `None` stands for a string that is refused or cut short, and for the ends of the
   program: at a new name in Huffman form, and in the commits.
   */
  function Received(t: State, f: Field, index: int, mode: Mode): (r: Option<(Field, State)>) {
    if !Carried(f.value) || (index < 0 && (SentCoded(f.name) || !Carried(f.name))) then None
    else Committed(t, f, index, mode)
  }

  ghost predicate NewName(fields: seq<Field>, name: string) {
    !StaticName(name) && forall k | 0 <= k < |fields| :: fields[k].name != name
  }

  /**
   A literal is delivered as it was sent, and leaves equal tables, if and only if it is to be
   indexed and either its name is static and its value short enough, or its name is in no table,
   short enough and no shorter in Huffman form, and its value is empty.
   */
  lemma LiteralSurvivesIff(t: State, f: Field, mode: Mode, index: int)
    requires Answers(t.fields, f, mode, index, false)
    ensures Received(t, f, index, mode) == Some((f, Step(t, Op.Insert(f))))
       <==> && mode == WithIndexing
            && if StaticName(f.name) then Carried(f.value)
               else NewName(t.fields, f.name) && f.value == "" && !SentCoded(f.name) && |f.name| <= MAX_NV
  {
    hide StaticRow;
    hide InStatic;
    hide ExactIndex;
    hide Step;
    hide Bits;
    hide CodedLength;
    IndexTellsName(t.fields, f, mode, index);
    hide Answers;
    hide StaticName;
    hide NewName;
    if f.value == "" {
      EmptyIsCarried();
      assert Field(f.name + f.value, "") == f;
    }
  }

  lemma EmptyIsCarried()
    ensures Carried("")
  {
  }

  /** The index that a search ends with says whether the name is static, new, or neither. */
  lemma IndexTellsName(fields: seq<Field>, f: Field, mode: Mode, index: int)
    requires Answers(fields, f, mode, index, false)
    ensures StaticName(f.name) <==> 0 <= index < STATIC_TABLE_LENGTH
    ensures NewName(fields, f.name) <==> index == -1
    ensures index >= -1
    ensures 0 <= index < STATIC_TABLE_LENGTH ==> StaticRow(index).field.name == f.name
  {
    hide StaticRow;
    hide InStatic;
    hide ExactIndex;
    if index == -1 {
      forall i | 0 <= i < STATIC_TABLE_LENGTH ensures StaticRow(i).field.name != f.name {
        assert Indexed(fields, i).name != f.name;
      }
      forall k | 0 <= k < |fields| ensures fields[k].name != f.name {
        assert Indexed(fields, k + STATIC_TABLE_LENGTH).name != f.name;
      }
    }
  }

  lemma CatBits()
    ensures Bits("cat") == 15
  {
    assert "cat"[..2] == "ca" && "ca"[..1] == "c" && "c"[..0] == "";
    assert Bits("c") == 5 && Bits("ca") == 10;
  }

  lemma UnknownName(f: Field, mode: Mode)
    requires LookupToken(f.name) == -1
    ensures Answers([], f, mode, -1, false)
  {
    hide StaticRow;
    hide LookupToken;
    hide Answers;
    StaticSearch(f);
    CombinedAnswers([], f, mode, -1, false);
  }

  /** A new name that is lost: two bytes in Huffman form against three, with the default bound. */
  lemma HuffmanNameIsLost()
    ensures var f := Field("cat", "");
            && ModeFor(f, false, 4096) == WithIndexing
            && Answers([], f, WithIndexing, -1, false)
            && Received(State([], 4096), f, -1, WithIndexing) == None
  {
    hide TokenName;
    hide Answers;
    hide Bits;
    hide Committed;
    CatBits();
    assert LookupToken("cat") == -1;
    UnknownName(Field("cat", ""), WithIndexing);
  }

  /** Header names as they are in use: lower-case letters, digits and hyphens. */
  predicate Ordinary(name: string) {
    forall i | 0 <= i < |name| :: 'a' <= name[i] <= 'z' || '0' <= name[i] <= '9' || name[i] == '-'
  }

  lemma {:induction false} OrdinaryBits(s: string)
    requires Ordinary(s)
    ensures Bits(s) <= 7 * |s|
  {
    if s != [] {
      OrdinaryBits(s[..|s| - 1]);
    }
  }

  /** Every ordinary new name of eight characters or more, below 2^28, is sent Huffman-coded and lost. */
  lemma OrdinaryNameIsLost(t: State, f: Field, mode: Mode)
    requires Ordinary(f.name) && 8 <= |f.name| < 0x1000_0000
    ensures Received(t, f, -1, mode) == None
  {
    hide Committed;
    hide SentCoded;
    hide Carried;
    OrdinaryIsCoded(f.name);
  }

  lemma OrdinaryIsCoded(name: string)
    requires Ordinary(name) && 8 <= |name| < 0x1000_0000
    ensures SentCoded(name)
  {
    hide Bits;
    hide Ordinary;
    OrdinaryBits(name);
    SevenEighths(Bits(name), |name|);
  }

  lemma SevenEighths(b: nat, n: nat)
    requires 8 <= n < 0x1000_0000 && b <= 7 * n
    ensures Add32(b % U32, 7) / 8 < n % U32
  {
  }

  // ----- how large a field the decoder can store -----

  /** A string that some sender can get through in the form the decoder accepts for values. */
  predicate ValueReadable(s: string) {
    |s| <= MAX_NV || Bits(s) <= 8 * MAX_NV
  }

  /** What the decoder inserts for a literal: a name and value run together, or a static name and a value. */
  ghost predicate Stored(g: Field) {
    exists name: string, value: string | |name| <= MAX_NV && ValueReadable(value) ::
      StoredFrom(g, name, value)
  }

  ghost predicate StoredFrom(g: Field, name: string, value: string) {
    g == Field(name + value, "") || (StaticName(name) && g == Field(name, value))
  }

  /** A new name of 65536 bytes, and a value of as many bytes, each code of five bits. */
  const LARGEST_FIELD: nat := ENTRY_OVERHEAD + MAX_NV + 8 * MAX_NV / 5

  lemma StoredSize(g: Field)
    requires Stored(g)
    ensures 32 <= Size(g) <= 170425
  {
    hide Bits;
    var name: string, value: string :| |name| <= MAX_NV && ValueReadable(value) && StoredFrom(g, name, value);
    hide StaticName;
  }

  function Zeros(n: nat): (s: string)
    ensures |s| == n
  {
    seq(n, _ => '0')
  }

  /** A field of each size that the decoder can be sent. */
  function ZeroField(size: nat): (f: Field)
    ensures size >= ENTRY_OVERHEAD ==> Size(f) == size
  {
    Field(Zeros(if size < ENTRY_OVERHEAD then 0 else size - ENTRY_OVERHEAD), "")
  }

  lemma {:induction false} ZeroBits(n: nat)
    ensures Bits(Zeros(n)) == 5 * n
  {
    if n > 0 {
      ZeroBits(n - 1);
      assert Zeros(n)[..n - 1] == Zeros(n - 1);
    }
  }

  lemma ZeroFieldStored(size: nat)
    requires ENTRY_OVERHEAD <= size <= LARGEST_FIELD
    ensures Stored(ZeroField(size))
  {
    var n := size - ENTRY_OVERHEAD;
    var k := if n <= MAX_NV then n else MAX_NV;
    ZeroBits(n - k);
    hide Bits;
    assert Zeros(n) == Zeros(k) + Zeros(n - k);
    assert ValueReadable(Zeros(n - k)) && StoredFrom(ZeroField(size), Zeros(k), Zeros(n - k));
  }

  /** The insertions a sender can bring about, and bounds up to the one agreed on. */
  ghost predicate Sendable(ops: seq<Op>, max: nat) {
    forall k | 0 <= k < |ops| ::
      match ops[k]
      case Insert(g) => Stored(g)
      case Resize(m) => m <= max
  }

  /** Whatever is sent, the decoder keeps its bound if and only if the bound leaves room below 4 GB for one field. */
  lemma DecoderKeepsBoundIff(max: u32)
    ensures (forall ops | Sendable(ops, max) :: Bounded(Run(State([], max), ops)))
       <==> max < 0x1_0000_0000 - 170425
  {
    hide Run;
    hide Bounded;
    if max < U32 - LARGEST_FIELD {
      forall ops | Sendable(ops, max) ensures Bounded(Run(State([], max), ops)) {
        SendableAllowed(ops, max);
        RunKeepsBound(max, ops, max, LARGEST_FIELD);
      }
    } else {
      var ops := WrapLosesBound(max, LARGEST_FIELD, ZeroField);
      forall k | 0 <= k < |ops| ensures ops[k].Insert? && Stored(ops[k].f) {
        var r :| ENTRY_OVERHEAD <= r <= LARGEST_FIELD && ops[k].f == ZeroField(r);
        ZeroFieldStored(r);
      }
      hide Stored;
      assert Sendable(ops, max);
    }
  }

  lemma SendableAllowed(ops: seq<Op>, max: nat)
    requires Sendable(ops, max)
    ensures AllAllowed(ops, max, LARGEST_FIELD)
  {
    hide Stored;
    forall k | 0 <= k < |ops| ensures Allowed(ops[k], max, LARGEST_FIELD) {
      if ops[k].Insert? {
        StoredSize(ops[k].f);
      }
    }
  }
}
