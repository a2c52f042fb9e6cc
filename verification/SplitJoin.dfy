/**
 Splitting and joining text (string_split.cpp, JoinStringT in string_util.cpp): the two
 splitters with their trim and result modes, the joiner, and when one undoes the other.
 */
module SplitJoin {
  import opened Words
  import opened StringPiece

  /** `kWhitespaceASCII`. */
  const WHITESPACE: text := [0x09, 0x0A, 0x0B, 0x0C, 0x0D, 0x20]

  // ----- what the splitters compute -----

  /** The first position from i on that holds one of the delimiters, or the length. */
  function FirstOf(s: text, d: text, i: nat): (r: nat)
    requires i <= |s|
    ensures i <= r <= |s| && (r < |s| ==> s[r] in d)
    ensures forall k | i <= k < r :: s[k] !in d
    decreases |s| - i
  {
    if i == |s| || s[i] in d then i else FirstOf(s, d, i + 1)
  }

  /** The first position from i on where the delimiter occurs, or one more than the length. */
  function FirstMatch(s: text, d: text, i: nat): (r: nat)
    requires i <= |s| + 1
    ensures i <= r <= |s| + 1 && (r <= |s| ==> OccursAt(s, d, r))
    ensures forall k | i <= k < r :: !OccursAt(s, d, k)
    decreases |s| + 1 - i
  {
    if i == |s| + 1 || OccursAt(s, d, i) then i else FirstMatch(s, d, i + 1)
  }

  /** The pieces of s[i..] between single delimiter characters. */
  function Pieces(s: text, d: text, i: nat): (ps: seq<text>)
    requires i <= |s|
    decreases |s| - i
  {
    var e := FirstOf(s, d, i);
    if e == |s| then [s[i..]] else [s[i..e]] + Pieces(s, d, e + 1)
  }

  /** The pieces of s[i..] between whole delimiters. */
  function SubPieces(s: text, d: text, i: nat): (ps: seq<text>)
    requires i <= |s| && d != []
    decreases |s| - i
  {
    var e := FirstMatch(s, d, i);
    if e > |s| then [s[i..]] else [s[i..e]] + SubPieces(s, d, e + |d|)
  }

  lemma PiecesIs(s: text, d: text, i: nat)
    requires i <= |s|
    ensures var e := FirstOf(s, d, i);
            Pieces(s, d, i) == if e == |s| then [s[i..]] else [s[i..e]] + Pieces(s, d, e + 1)
  {
  }

  lemma SubPiecesIs(s: text, d: text, i: nat)
    requires i <= |s| && d != []
    ensures var e := FirstMatch(s, d, i);
            && (e <= |s| ==> e + |d| <= |s| && s[e..e + |d|] == d)
            && SubPieces(s, d, i) == if e > |s| then [s[i..]] else [s[i..e]] + SubPieces(s, d, e + |d|)
  {
  }

  /** The pieces as asked for: trimmed or not, with or without the empty ones. */
  function Kept(ps: seq<text>, trim: bool, all: bool): (r: seq<text>) {
    if ps == [] then [] else
      var p := if trim then Trimmed(ps[0], WHITESPACE) else ps[0];
      (if all || p != [] then [p] else []) + Kept(ps[1..], trim, all)
  }

  /** ASCII white space: tab to carriage return, and the space. */
  lemma WhitespaceIs(c: int)
    ensures c in WHITESPACE <==> 9 <= c <= 13 || c == 32
  {
  }

  /** With the empty ones, each piece is there, trimmed if asked for. */
  lemma {:induction false} KeptAll(ps: seq<text>, trim: bool)
    ensures |Kept(ps, trim, true)| == |ps|
    ensures forall i | 0 <= i < |ps| :: Kept(ps, trim, true)[i] == if trim then Trimmed(ps[i], WHITESPACE) else ps[i]
    ensures !trim ==> Kept(ps, trim, true) == ps
  {
    hide Trimmed;
    if ps != [] {
      KeptAll(ps[1..], trim);
    }
  }

  /** Without them, what is left is not empty and joins to the same text. */
  lemma {:induction false} KeptNonEmpty(ps: seq<text>, trim: bool)
    ensures [] !in Kept(ps, trim, false)
    ensures Concat(Kept(ps, trim, false)) == Concat(Kept(ps, trim, true))
  {
    hide Trimmed;
    if ps != [] {
      KeptNonEmpty(ps[1..], trim);
      var p := if trim then Trimmed(ps[0], WHITESPACE) else ps[0];
      var less, more := Kept(ps[1..], trim, false), Kept(ps[1..], trim, true);
      assert ([p] + more)[1..] == more && ([p] + less)[1..] == less && [] + less == less;
    }
  }

  function Split(s: text, d: text, trim: bool, all: bool): (r: seq<text>) {
    if s == [] then [] else Kept(Pieces(s, d, 0), trim, all)
  }

  function SplitSubstr(s: text, d: text, trim: bool, all: bool): (r: seq<text>) {
    if d == [] then [s] else Kept(SubPieces(s, d, 0), trim, all)
  }

  function Join(parts: seq<text>, sep: text): (s: text) {
    if parts == [] then []
    else if |parts| == 1 then parts[0]
    else parts[0] + sep + Join(parts[1..], sep)
  }

  function TotalLength(parts: seq<text>): (n: nat) {
    if parts == [] then 0 else |parts[0]| + TotalLength(parts[1..])
  }

  // ----- the program -----

  lemma KeptFirst(p: text, ps: seq<text>, trim: bool, all: bool)
    ensures var t := if trim then Trimmed(p, WHITESPACE) else p;
            Kept([p] + ps, trim, all) == (if all || t != [] then [t] else []) + Kept(ps, trim, all)
  {
    assert ([p] + ps)[1..] == ps;
  }

  /** One round of either splitter: trim a piece and append it if it is wanted. */
  method Emit(piece: text, trim: bool, all: bool, result: seq<text>) returns (r: seq<text>)
    requires |piece| < NPOS
    ensures r == result + Kept([piece], trim, all)
  {
    hide Trimmed;
    var p := piece;
    if trim {
      p := Trim(p, WHITESPACE, true, true);
      assert p == Trimmed(piece, WHITESPACE) by {
        TrimmedUnfolds(piece, WHITESPACE);
      }
    }
    r := if all || p != [] then result + [p] else result;
    KeptFirst(piece, [], trim, all);
    assert [piece] + [] == [piece];
  }

  lemma TrimmedUnfolds(s: text, ws: text)
    ensures Trimmed(s, ws) == DropBack(DropFront(s, ws), ws)
  {
  }

  lemma KeptPrepend(p: text, ps: seq<text>, trim: bool, all: bool)
    ensures Kept([p] + ps, trim, all) == Kept([p], trim, all) + Kept(ps, trim, all)
  {
    KeptFirst(p, ps, trim, all);
    KeptFirst(p, [], trim, all);
    assert [p] + [] == [p];
  }

  /** `SplitStringT`. */
  method SplitString(str: text, delimiter: text, trim: bool, all: bool) returns (result: seq<text>)
    requires |str| < NPOS
    ensures result == Split(str, delimiter, trim, all)
  {
    hide Kept;
    hide Pieces;
    hide Substr;
    result := [];
    if |str| == 0 {
      return;
    }
    var start := 0;
    while start != NPOS
      invariant start != NPOS ==> start <= |str|
      invariant Kept(Pieces(str, delimiter, 0), trim, all)
             == result + (if start == NPOS then [] else Kept(Pieces(str, delimiter, start), trim, all))
      decreases if start == NPOS then 0 else |str| + 1 - start
    {
      var end := FindFirstOf(str, delimiter, start);
      ghost var before := start;
      var piece;
      if end == NPOS {
        piece := Substr(str, start, NPOS);
        start := NPOS;
      } else {
        piece := Substr(str, start, end - start);
        start := end + 1;
        KeptPrepend(piece, Pieces(str, delimiter, start), trim, all);
      }
      PiecesStep(str, delimiter, before, end);
      result := Emit(piece, trim, all, result);
    }
  }

  lemma PiecesStep(s: text, d: text, i: nat, end: nat)
    requires i <= |s| < NPOS
    requires end == NPOS ==> forall k | i <= k < |s| :: s[k] !in d
    requires end != NPOS ==> i <= end < |s| && s[end] in d && forall k | i <= k < end :: s[k] !in d
    ensures Pieces(s, d, i) == if end == NPOS then [Substr(s, i, NPOS)]
                               else [Substr(s, i, end - i)] + Pieces(s, d, end + 1)
  {
    var e := FirstOf(s, d, i);
    assert e == if end == NPOS then |s| else end;
    SubstrIs(s, i, e);
    PiecesIs(s, d, i);
    hide Pieces;
    hide Substr;
  }

  lemma SubstrIs(s: text, i: nat, e: nat)
    requires i <= e && i <= |s| < NPOS
    ensures Substr(s, i, NPOS) == s[i..]
    ensures e <= |s| ==> Substr(s, i, e - i) == s[i..e]
  {
  }

  /** `SplitStringUsingSubstrT`. */
  method SplitStringUsingSubstr(input: text, delimiter: text, trim: bool, all: bool) returns (result: seq<text>)
    requires |input| < NPOS
    ensures result == SplitSubstr(input, delimiter, trim, all)
  {
    hide Kept;
    hide SubPieces;
    hide Substr;
    hide OccursAt;
    result := [];
    if |delimiter| == 0 {
      return [input];
    }
    var begin, end := 0, 0;
    while end != NPOS
      invariant end != NPOS ==> begin <= |input|
      invariant Kept(SubPieces(input, delimiter, 0), trim, all)
             == result + (if end == NPOS then [] else Kept(SubPieces(input, delimiter, begin), trim, all))
      decreases if end == NPOS then 0 else |input| + 1 - begin
    {
      end := Find(input, delimiter, begin);
      var term := if end == NPOS then Substr(input, begin, NPOS) else Substr(input, begin, end - begin);
      SubPiecesStep(input, delimiter, begin, end);
      result := Emit(term, trim, all, result);
      begin := (end + |delimiter|) % U64;
      if end != NPOS {
        KeptPrepend(term, SubPieces(input, delimiter, begin), trim, all);
      }
    }
  }

  lemma SubPiecesStep(s: text, d: text, i: nat, end: nat)
    requires i <= |s| < NPOS && d != []
    requires end == NPOS ==> forall k | i <= k <= |s| :: !OccursAt(s, d, k)
    requires end != NPOS ==> i <= end <= |s| && OccursAt(s, d, end) && forall k | i <= k < end :: !OccursAt(s, d, k)
    ensures SubPieces(s, d, i) == if end == NPOS then [Substr(s, i, NPOS)]
                                  else [Substr(s, i, end - i)] + SubPieces(s, d, end + |d|)
  {
    hide OccursAt;
    SubPiecesIs(s, d, i);
    hide SubPieces;
    var e := FirstMatch(s, d, i);
    assert e == if end == NPOS then |s| + 1 else end;
    SubstrIs(s, i, e);
    hide Substr;
  }

  /** `JoinStringT`: the size reserved beforehand is the size of the result. */
  method JoinStrings(parts: seq<text>, sep: text) returns (result: text)
    ensures result == Join(parts, sep)
  {
    if |parts| == 0 {
      return [];
    }
    var totalSize := (|parts| - 1) * |sep|;
    for i := 0 to |parts|
      invariant totalSize == (|parts| - 1) * |sep| + TotalLength(parts[..i])
    {
      totalSize := totalSize + |parts[i]|;
      TotalLengthSnoc(parts[..i], parts[i]);
      assert parts[..i + 1] == parts[..i] + [parts[i]];
    }
    result := parts[0];
    assert parts[..1] == [parts[0]];
    for i := 1 to |parts|
      invariant result == Join(parts[..i], sep)
    {
      result := result + sep;
      result := result + parts[i];
      JoinSnoc(parts[..i], parts[i], sep);
      assert parts[..i + 1] == parts[..i] + [parts[i]];
    }
    assert parts[..|parts|] == parts;
    JoinLength(parts, sep);
    assert totalSize == |result|;
  }

  lemma {:induction false} TotalLengthSnoc(parts: seq<text>, p: text)
    ensures TotalLength(parts + [p]) == TotalLength(parts) + |p|
  {
    if parts == [] {
      assert parts + [p] == [p];
    } else {
      TotalLengthSnoc(parts[1..], p);
      assert (parts + [p])[1..] == parts[1..] + [p];
    }
  }

  lemma {:induction false} JoinSnoc(parts: seq<text>, p: text, sep: text)
    requires parts != []
    ensures Join(parts + [p], sep) == Join(parts, sep) + sep + p
  {
    assert (parts + [p])[1..] == parts[1..] + [p];
    if |parts| == 1 {
      assert parts[1..] + [p] == [p];
    } else {
      JoinSnoc(parts[1..], p, sep);
    }
  }

  lemma {:induction false} JoinLength(parts: seq<text>, sep: text)
    requires parts != []
    ensures |Join(parts, sep)| == (|parts| - 1) * |sep| + TotalLength(parts)
  {
    if |parts| > 1 {
      JoinLength(parts[1..], sep);
      assert (|parts| - 1) * |sep| == |sep| + (|parts| - 2) * |sep|;
    }
  }

  // ----- joining what was split -----

  lemma {:induction false} JoinSubPieces(s: text, d: text, i: nat)
    requires i <= |s| && d != []
    ensures SubPieces(s, d, i) != [] && Join(SubPieces(s, d, i), d) == s[i..]
    decreases |s| - i
  {
    hide SubPieces;
    hide FirstMatch;
    hide OccursAt;
    var e := FirstMatch(s, d, i);
    SubPiecesIs(s, d, i);
    if e <= |s| {
      var rest := SubPieces(s, d, e + |d|);
      JoinSubPieces(s, d, e + |d|);
      assert ([s[i..e]] + rest)[1..] == rest;
      assert s[i..] == s[i..e] + s[e..e + |d|] + s[e + |d|..];
    }
  }

  /** Joining the pieces restores the text, for every text and every delimiter. */
  lemma JoinUndoesSplit(s: text, d: text)
    ensures Join(SplitSubstr(s, d, false, true), d) == s
  {
    if d != [] {
      KeptAll(SubPieces(s, d, 0), false);
      JoinSubPieces(s, d, 0);
    }
  }

  lemma OneCharacter(s: text, c: byte, i: nat)
    ensures OccursAt(s, [c], i) <==> i < |s| && s[i] == c
  {
    if i < |s| {
      assert s[i..i + 1] == [s[i]];
    }
  }

  lemma {:induction false} FirstAgree(s: text, c: byte, i: nat)
    requires i <= |s|
    ensures var e := FirstOf(s, [c], i); FirstMatch(s, [c], i) == if e == |s| then |s| + 1 else e
    decreases |s| - i
  {
    OneCharacter(s, c, i);
    hide OccursAt;
    if i < |s| && s[i] != c {
      FirstAgree(s, c, i + 1);
    }
  }

  lemma {:induction false} PiecesAgree(s: text, c: byte, i: nat)
    requires i <= |s|
    ensures Pieces(s, [c], i) == SubPieces(s, [c], i)
    decreases |s| - i
  {
    hide Pieces;
    hide SubPieces;
    hide OccursAt;
    hide FirstOf;
    hide FirstMatch;
    FirstAgree(s, c, i);
    PiecesIs(s, [c], i);
    SubPiecesIs(s, [c], i);
    var e := FirstOf(s, [c], i);
    if e < |s| {
      PiecesAgree(s, c, e + 1);
    }
  }

  /** The two splitters agree on one delimiter character, in every mode, but for empty text. */
  lemma SplittersAgree(s: text, c: byte, trim: bool, all: bool)
    ensures s != [] ==> Split(s, [c], trim, all) == SplitSubstr(s, [c], trim, all)
    ensures s == [] ==> Split(s, [c], trim, all) == []
    ensures s == [] ==> SplitSubstr(s, [c], trim, all) == if all then [[]] else []
  {
    PiecesAgree(s, c, 0);
    if s == [] {
      assert FirstMatch(s, [c], 0) == 1;
      assert SubPieces(s, [c], 0) == [[]];
      var none: seq<text> := [];
      KeptFirst([], none, trim, all);
      assert [[]] + none == [[]];
    }
  }

  lemma JoinUndoesSplitString(s: text, c: byte)
    ensures Join(Split(s, [c], false, true), [c]) == s
  {
    SplittersAgree(s, c, false, true);
    JoinUndoesSplit(s, [c]);
  }

  // ----- splitting what was joined -----

  /** The delimiter does not occur in the part. */
  ghost predicate Free(p: text, d: text) {
    forall i: nat | i <= |p| :: !OccursAt(p, d, i)
  }

  /** Nor does an occurrence begin inside the part that the delimiter after it completes. */
  ghost predicate Clear(p: text, d: text) {
    forall i: nat | i < |p| :: !OccursAt(p + d, d, i)
  }

  /** No delimiter begins inside a part. */
  ghost predicate Separable(parts: seq<text>, d: text) {
    && parts != []
    && Free(parts[|parts| - 1], d)
    && forall k | 0 <= k < |parts| - 1 :: Clear(parts[k], d)
  }

  lemma OccursInFront(a: text, b: text, d: text, i: nat)
    requires i + |d| <= |a|
    ensures OccursAt(a + b, d, i) <==> OccursAt(a, d, i)
  {
    assert (a + b)[i..i + |d|] == a[i..i + |d|];
  }

  lemma OccursBehind(a: text, b: text, d: text, i: nat)
    ensures OccursAt(a + b, d, |a| + i) <==> OccursAt(b, d, i)
  {
    if i + |d| <= |b| {
      assert (a + b)[|a| + i..|a| + i + |d|] == b[i..i + |d|];
    }
  }

  lemma {:induction false} FirstMatchBehind(a: text, b: text, d: text, i: nat)
    requires i <= |b| + 1
    ensures FirstMatch(a + b, d, |a| + i) == |a| + FirstMatch(b, d, i)
    decreases |b| + 1 - i
  {
    OccursBehind(a, b, d, i);
    if i <= |b| && !OccursAt(b, d, i) {
      FirstMatchBehind(a, b, d, i + 1);
    }
  }

  lemma {:induction false} SubPiecesBehind(a: text, b: text, d: text, i: nat)
    requires i <= |b| && d != []
    ensures SubPieces(a + b, d, |a| + i) == SubPieces(b, d, i)
    decreases |b| - i
  {
    hide SubPieces;
    hide FirstMatch;
    hide OccursAt;
    var e := FirstMatch(b, d, i);
    FirstMatchBehind(a, b, d, i);
    SubPiecesIs(a + b, d, |a| + i);
    SubPiecesIs(b, d, i);
    if e > |b| {
      SliceBehind(a, b, i, |b|);
    } else {
      SliceBehind(a, b, i, e);
      SubPiecesBehind(a, b, d, e + |d|);
    }
  }

  lemma SliceBehind(a: text, b: text, i: nat, j: nat)
    requires i <= j <= |b|
    ensures (a + b)[|a| + i..|a| + j] == b[i..j]
    ensures (a + b)[|a| + i..] == b[i..]
  {
  }

  lemma FirstPart(p: text, d: text, rest: text)
    requires d != []
    ensures FirstMatch(p + d + rest, d, 0) <= |p|
    ensures FirstMatch(p + d + rest, d, 0) == |p| <==> Clear(p, d)
  {
    var s, e := p + d + rest, FirstMatch(p + d + rest, d, 0);
    assert s == p + (d + rest);
    OccursBehind(p, d + rest, d, 0);
    assert (d + rest)[0..0 + |d|] == d;
    assert OccursAt(s, d, |p|);
    forall i | 0 <= i < |p| ensures OccursAt(s, d, i) <==> OccursAt(p + d, d, i) {
      OccursInFront(p + d, rest, d, i);
    }
  }

  lemma SeparableStep(parts: seq<text>, d: text)
    requires |parts| > 1
    ensures Separable(parts, d) <==> Clear(parts[0], d) && Separable(parts[1..], d)
  {
    hide Clear;
    hide Free;
    var rest := parts[1..];
    assert rest[|rest| - 1] == parts[|parts| - 1];
    assert forall k | 0 <= k < |rest| :: rest[k] == parts[k + 1];
    assert forall k | 0 < k < |parts| :: parts[k] == rest[k - 1];
  }

  lemma {:induction false} SubPiecesOfJoin(parts: seq<text>, d: text)
    requires parts != [] && d != []
    ensures SubPieces(Join(parts, d), d, 0) == parts <==> Separable(parts, d)
  {
    if |parts| == 1 {
      OnePart(parts[0], d);
      assert parts == [parts[0]];
    } else {
      var p, rest := parts[0], Join(parts[1..], d);
      SeparableStep(parts, d);
      SubPiecesOfJoin(parts[1..], d);
      FirstPieceOfJoin(p, d, rest, parts[1..]);
      hide Separable;
      hide SubPieces;
      hide Clear;
      assert parts == [p] + parts[1..];
    }
  }

  lemma FirstPieceOfJoin(p: text, d: text, rest: text, ps: seq<text>)
    requires d != []
    ensures SubPieces(p + d + rest, d, 0) == [p] + ps <==> Clear(p, d) && SubPieces(rest, d, 0) == ps
  {
    hide SubPieces;
    hide Clear;
    hide OccursAt;
    hide FirstMatch;
    var s := p + d + rest;
    var e := FirstMatch(s, d, 0);
    FirstPart(p, d, rest);
    SubPiecesIs(s, d, 0);
    SubPiecesBehind(p + d, rest, d, 0);
    SameHead(s[..e], SubPieces(s, d, e + |d|), p, ps);
    assert s[..|p|] == p;
  }

  lemma SameHead(p: text, ps: seq<text>, q: text, qs: seq<text>)
    ensures [p] + ps == [q] + qs <==> p == q && ps == qs
  {
    assert ([p] + ps)[0] == p && ([p] + ps)[1..] == ps;
    assert ([q] + qs)[0] == q && ([q] + qs)[1..] == qs;
  }

  lemma OnePart(p: text, d: text)
    requires d != []
    ensures SubPieces(p, d, 0) == [p] <==> Separable([p], d)
  {
    var e := FirstMatch(p, d, 0);
    SubPiecesIs(p, d, 0);
    if e <= |p| {
      JoinSubPieces(p, d, e + |d|);
      hide SubPieces;
      assert |SubPieces(p, d, 0)| > 1;
      assert !Free(p, d);
    } else {
      assert Free(p, d);
    }
  }

  /**
   Splitting a join restores the parts exactly when no delimiter begins inside a part, or,
   with an empty delimiter, when there is one part.
   */
  lemma SplitUndoesJoin(parts: seq<text>, d: text)
    ensures SplitSubstr(Join(parts, d), d, false, true) == parts
       <==> if d == [] then |parts| == 1 else Separable(parts, d)
  {
    if d == [] {
      if |parts| == 1 {
        assert parts == [parts[0]];
      }
      return;
    }
    KeptAll(SubPieces(Join(parts, d), d, 0), false);
    if parts == [] {
      JoinSubPieces([], d, 0);
    } else {
      SubPiecesOfJoin(parts, d);
    }
  }

  /** With one delimiter character: exactly when there are parts and none contains it. */
  lemma SeparableByCharacter(parts: seq<text>, c: byte)
    ensures Separable(parts, [c]) <==> parts != [] && forall k | 0 <= k < |parts| :: c !in parts[k]
  {
    forall s: text, i: nat ensures OccursAt(s, [c], i) <==> i < |s| && s[i] == c {
      OneCharacter(s, c, i);
    }
    if Separable(parts, [c]) {
      forall k | 0 <= k < |parts| ensures c !in parts[k] {
        if k < |parts| - 1 {
          assert forall i | 0 <= i < |parts[k]| :: parts[k][i] == (parts[k] + [c])[i];
        }
      }
    }
  }

  /** The character splitter also loses a single empty part, and restores the empty list. */
  lemma SplitStringUndoesJoin(parts: seq<text>, c: byte)
    ensures Split(Join(parts, [c]), [c], false, true) == parts
       <==> parts != [[]] && forall k | 0 <= k < |parts| :: c !in parts[k]
  {
    var s := Join(parts, [c]);
    SplitUndoesJoin(parts, [c]);
    SeparableByCharacter(parts, c);
    SplittersAgree(s, c, false, true);
    if |parts| > 1 {
      assert s[|parts[0]|] == c;
    } else if |parts| == 1 {
      assert parts == [parts[0]];
    }
  }

  /** With longer delimiters, parts that hold no delimiter can still be lost. */
  lemma OverlapLosesParts(c: byte)
    ensures var parts, d := [[c], []], [c, c];
            && (forall k, i: nat | 0 <= k < |parts| :: !OccursAt(parts[k], d, i))
            && SplitSubstr(Join(parts, d), d, false, true) != parts
  {
    var parts: seq<text>, d := [[c], []], [c, c];
    SplitUndoesJoin(parts, d);
    assert OccursAt(parts[0] + d, d, 0);
    assert !Clear(parts[0], d);
  }
}
