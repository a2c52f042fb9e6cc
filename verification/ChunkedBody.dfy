/**
 Chunked bodies: which byte streams they are, that the decoder accepts these and no others, and
 that what is written in chunks is read back however it is cut.
 */
module ChunkedBody {
  import opened ParseNumber
  import opened Words
  import opened Chunked
  import opened ChunkedStream

  // ----- the format -----

  /**
   A line of the format, ended by CRLF or by a bare LF. A clean one, which may come in pieces, has
   no other carriage return and fits the line buffer.
   */
  datatype Line = Line(text: string, crlf: bool) {
    predicate Valid(clean: bool) {
      && FindLF(text) == |text|
      && (!crlf && text != "" ==> text[|text| - 1] != '\r')
      && (clean ==> NoCR(text) && |text| <= MAX_LINE)
    }

    function Bytes(): (s: string) {
      text + (if crlf then "\r\n" else "\n")
    }
  }

  function Blanks(n: nat): (s: string)
    ensures |s| == n
  {
    seq(n, _ => ' ')
  }

  /** A size line: the size in hexadecimal digits, then spaces, then extensions or nothing. */
  ghost predicate SizeLine(text: string, n: nat) {
    exists digits: string, spaces: nat, extensions: string :: SizeParts(text, n, digits, spaces, extensions)
  }

  ghost predicate SizeParts(text: string, n: nat, digits: string, spaces: nat, extensions: string) {
    && text == digits + Blanks(spaces) + extensions
    && Denotes(digits, 16, n)
    && (extensions == "" || extensions[0] == ';')
  }

  /** A chunk: size line, data of a size within 63 bits, line end. */
  datatype Chunk = Chunk(head: Line, data: string, end: Line) {
    ghost predicate Valid(clean: bool) {
      && head.Valid(clean) && SizeLine(head.text, |data|) && 0 < |data| <= 0x7FFF_FFFF_FFFF_FFFF
      && end.Valid(clean) && end.text == ""
    }

    function Bytes(): (s: string) {
      head.Bytes() + (data + end.Bytes())
    }
  }

  /** A chunked body and whatever follows it. */
  datatype Body = Body(chunks: seq<Chunk>, final: Line, trailers: seq<Line>, end: Line, extra: string) {
    ghost predicate Valid(clean: bool) {
      && (forall c :: c in chunks ==> c.Valid(clean))
      && final.Valid(clean) && SizeLine(final.text, 0)
      && (forall t :: t in trailers ==> t.Valid(clean) && t.text != "")
      && end.Valid(clean) && end.text == ""
    }

    function Bytes(): (s: string) {
      ChunkBytes(chunks) + (final.Bytes() + (LineBytes(trailers) + (end.Bytes() + extra)))
    }

    function Data(): (s: string) {
      ChunkData(chunks)
    }
  }

  lemma {:induction false} BlanksTrimmed(n: nat)
    ensures TrimSpaces(Blanks(n)) == [] && BeforeSemicolon(Blanks(n)) == Blanks(n)
  {
    if n > 0 {
      BlanksTrimmed(n - 1);
      assert Blanks(n)[..n - 1] == Blanks(n - 1) && Blanks(n)[1..] == Blanks(n - 1);
      assert [' '] + Blanks(n - 1) == Blanks(n);
    }
  }

  lemma {:induction false} DigitsKept(d: string)
    requires AllDigits(d, 16)
    ensures TrimSpaces(d) == d && BeforeSemicolon(d) == d
  {
    if d != [] {
      assert Digit(d[0], 16) >= 0 && Digit(d[|d| - 1], 16) >= 0;
      DigitsKept(d[1..]);
      assert d == [d[0]] + d[1..];
    }
  }

  lemma {:induction false} TrimmedByBlanks(s: string)
    ensures s == TrimSpaces(s) + Blanks(|s| - |TrimSpaces(s)|)
  {
    if s != [] && s[|s| - 1] == ' ' {
      var t, n := s[..|s| - 1], |s| - |TrimSpaces(s)|;
      TrimmedByBlanks(t);
      assert s == t + [' '] && Blanks(n) == Blanks(n - 1) + [' '];
    }
  }

  lemma {:induction false} CutAtSemicolon(s: string)
    ensures var b := BeforeSemicolon(s);
            |b| <= |s| && b == s[..|b|] && (|b| < |s| ==> s[|b|] == ';')
  {
    if s != [] && s[0] != ';' {
      CutAtSemicolon(s[1..]);
    }
  }

  /** The decoder reads a size from a line exactly if it is a size line for it, within 63 bits. */
  lemma SizeLineIff(text: string, n: nat)
    ensures ChunkSize(BeforeSemicolon(text)) == n <==> SizeLine(text, n) && n <= 0x7FFF_FFFF_FFFF_FFFF
  {
    if ChunkSize(BeforeSemicolon(text)) == n {
      SizeIsWritten(text, n);
    }
    if SizeLine(text, n) && n <= 0x7FFF_FFFF_FFFF_FFFF {
      var d: string, k: nat, e: string :| SizeParts(text, n, d, k, e);
      WrittenIsSize(d, k, e, n);
    }
  }

  lemma SizeIsWritten(text: string, n: nat)
    requires ChunkSize(BeforeSemicolon(text)) == n
    ensures SizeLine(text, n)
  {
    var b := BeforeSemicolon(text);
    var d := TrimSpaces(b);
    CutAtSemicolon(text);
    TrimmedByBlanks(b);
    hide BeforeSemicolon;
    hide TrimSpaces;
    DenotesIff(d, 16, n);
    hide Denotes;
    var k: nat, e := |b| - |d|, text[|b|..];
    assert SizeParts(text, n, d, k, e);
  }

  lemma WrittenIsSize(d: string, k: nat, e: string, n: nat)
    requires Denotes(d, 16, n) && (e == "" || e[0] == ';') && n <= 0x7FFF_FFFF_FFFF_FFFF
    ensures ChunkSize(BeforeSemicolon(d + Blanks(k) + e)) == n
  {
    DenotesIff(d, 16, n);
    DigitsKept(d);
    BlanksTrimmed(k);
    BeforeSemicolonConcat(d, Blanks(k));
    BeforeSemicolonConcat(d + Blanks(k), e);
    assert BeforeSemicolon(e) == [];
    hide BeforeSemicolon;
    TrimSpacesConcat(d, Blanks(k));
    hide TrimSpaces;
    assert d + Blanks(k) + [] == d + Blanks(k);
  }

  lemma SizeLineTaken(text: string, n: nat)
    requires SizeLine(text, n) && n <= 0x7FFF_FFFF_FFFF_FFFF
    ensures TakeLine(START, text) == Ok(START.(remaining := n, last := n == 0), "")
  {
    SizeLineIff(text, n);
    hide SizeLine;
    hide BeforeSemicolon;
    EmptyHasNoSize();
  }

  lemma EmptyHasNoSize()
    ensures ChunkSize(BeforeSemicolon("")) == -1
  {
  }

  function ChunkBytes(cs: seq<Chunk>): (s: string) {
    if cs == [] then [] else cs[0].Bytes() + ChunkBytes(cs[1..])
  }

  function ChunkData(cs: seq<Chunk>): (s: string) {
    if cs == [] then [] else cs[0].data + ChunkData(cs[1..])
  }

  function LineBytes(ls: seq<Line>): (s: string) {
    if ls == [] then [] else ls[0].Bytes() + LineBytes(ls[1..])
  }

  /** What both decoding and cleanliness say about a stream: `data`, and then `rest` from the next state. */
  ghost predicate Leads(clean: bool, st: State, s: string, data: string, st': State, rest: string) {
    && Filter(st, s) == Prepend(data, Filter(st', rest))
    && (clean && Clean(st', rest) ==> Clean(st, s))
  }

  lemma LeadsOn(clean: bool, st: State, s: string, d: string,
                st': State, s': string, d': string, st'': State, s'': string)
    requires Leads(clean, st, s, d, st', s') && Leads(clean, st', s', d', st'', s'')
    ensures Leads(clean, st, s, d + d', st'', s'')
  {
    PrependTwice(d, d', Filter(st'', s''));
  }

  lemma LineText(clean: bool, l: Line, rest: string)
    requires l.Valid(clean)
    ensures var s := l.Bytes() + rest;
            var lf := FindLF(s);
            lf < |s| && Strip(s[..lf]) == l.text && s[lf + 1..] == rest
  {
    var eol := if l.crlf then "\r\n" else "\n";
    var s := l.Bytes() + rest;
    assert s == l.text + (eol + rest);
    FindLFConcat(l.text, eol + rest);
    if l.crlf {
      assert (eol + rest)[1..][0] == '\n';
      assert FindLF(eol + rest) == 1;
      assert s[..|l.text| + 1] == l.text + "\r";
    } else {
      assert FindLF(eol + rest) == 0;
      assert s[..|l.text|] == l.text;
      assert l.text == "" || l.text[|l.text| - 1] != '\r';
    }
  }

  lemma ReadLine(clean: bool, st: State, l: Line, rest: string)
    requires l.Valid(clean) && st.remaining == 0 && !st.eof && st.line == ""
    requires TakeLine(st, l.text).Ok?
    ensures Leads(clean, st, l.Bytes() + rest, "", TakeLine(st, l.text).st, rest)
  {
    hide Filter;
    hide Clean;
    hide TakeLine;
    hide Strip;
    var s := l.Bytes() + rest;
    LineText(clean, l, rest);
    assert st.line + l.text == l.text;
    var lf := FindLF(s);
    hide FindLF;
    LineIs(st, s, lf, l.text, rest);
    CleanClosedLine(st, s, lf, s[..lf], l.text, rest);
    PrependNothing(Filter(TakeLine(st, l.text).st, rest));
  }

  lemma ReadData(clean: bool, st: State, data: string, rest: string)
    requires st.remaining == |data| > 0
    ensures Leads(clean, st, data + rest, data, Consume(st, |data|), rest)
  {
    var s := data + rest;
    assert s[..|data|] == data && s[|data|..] == rest;
    DataIs(st, s, |data|, data, rest);
  }

  lemma ReadChunk(clean: bool, c: Chunk, rest: string)
    requires c.Valid(clean)
    ensures Leads(clean, START, c.Bytes() + rest, c.data, START, rest)
  {
    hide Leads;
    hide SizeLine;
    SizeLineTaken(c.head.text, |c.data|);
    var tail := c.end.Bytes() + rest;
    assert c.Bytes() + rest == c.head.Bytes() + (c.data + tail);
    ReadLine(clean, START, c.head, c.data + tail);
    var st := START.(remaining := |c.data|);
    ReadData(clean, st, c.data, tail);
    LeadsOn(clean, START, c.Bytes() + rest, "", st, c.data + tail, c.data, Consume(st, |c.data|), tail);
    ReadLine(clean, Consume(st, |c.data|), c.end, rest);
    LeadsOn(clean, START, c.Bytes() + rest, "" + c.data, Consume(st, |c.data|), tail, "", START, rest);
    assert "" + c.data + "" == c.data;
  }

  lemma {:induction false} ReadChunks(clean: bool, cs: seq<Chunk>, rest: string)
    requires forall c :: c in cs ==> c.Valid(clean)
    ensures Leads(clean, START, ChunkBytes(cs) + rest, ChunkData(cs), START, rest)
    decreases |cs|
  {
    if cs == [] {
      assert ChunkBytes(cs) + rest == rest;
      PrependNothing(Filter(START, rest));
    } else {
      hide Leads;
      var tail := ChunkBytes(cs[1..]) + rest;
      assert ChunkBytes(cs) + rest == cs[0].Bytes() + tail;
      ReadChunk(clean, cs[0], tail);
      ReadChunks(clean, cs[1..], rest);
      LeadsOn(clean, START, ChunkBytes(cs) + rest, cs[0].data, START, tail, ChunkData(cs[1..]), START, rest);
    }
  }

  lemma {:induction false} ReadTrailers(clean: bool, ls: seq<Line>, rest: string)
    requires forall l :: l in ls ==> l.Valid(clean) && l.text != ""
    ensures Leads(clean, TRAILER, LineBytes(ls) + rest, "", TRAILER, rest)
    decreases |ls|
  {
    if ls == [] {
      assert LineBytes(ls) + rest == rest;
      PrependNothing(Filter(TRAILER, rest));
    } else {
      hide Leads;
      var tail := LineBytes(ls[1..]) + rest;
      assert LineBytes(ls) + rest == ls[0].Bytes() + tail;
      ReadLine(clean, TRAILER, ls[0], tail);
      ReadTrailers(clean, ls[1..], rest);
      LeadsOn(clean, TRAILER, LineBytes(ls) + rest, "", TRAILER, tail, "", TRAILER, rest);
      assert "" + "" == "";
    }
  }

  /** The whole body in one call. */
  lemma ReadBody(clean: bool, b: Body)
    requires b.Valid(clean)
    ensures clean ==> Clean(START, b.Bytes())
    ensures Filter(START, b.Bytes()) == Ok(TRAILER.(eof := true, after := |b.extra|), b.Data())
  {
    hide Leads;
    hide SizeLine;
    SizeLineTaken(b.final.text, 0);
    var s3 := b.end.Bytes() + b.extra;
    var s2 := LineBytes(b.trailers) + s3;
    var s1 := b.final.Bytes() + s2;
    ReadChunks(clean, b.chunks, s1);
    ReadLine(clean, START, b.final, s2);
    ReadTrailers(clean, b.trailers, s3);
    ReadLine(clean, TRAILER, b.end, b.extra);
    var done := TRAILER.(eof := true);
    LeadsOn(clean, START, b.Bytes(), b.Data(), START, s1, "", TRAILER, s2);
    LeadsOn(clean, START, b.Bytes(), b.Data() + "", TRAILER, s2, "", TRAILER, s3);
    LeadsOn(clean, START, b.Bytes(), b.Data() + "" + "", TRAILER, s3, "", done, b.extra);
    Finish(clean, b.Bytes(), b.Data() + "" + "" + "", done, b.extra);
    assert b.Data() + "" + "" + "" == b.Data();
  }

  lemma Finish(clean: bool, s: string, data: string, done: State, extra: string)
    requires Leads(clean, START, s, data, done, extra) && done.remaining == 0 && done.eof && done.after == 0
    ensures clean ==> Clean(START, s)
    ensures Filter(START, s) == Ok(done.(after := |extra|), data)
  {
    assert data + "" == data;
  }

  /**
   The round trip: however a well-formed body is cut into buffers, the decoder's outputs join
   to the chunk data, the end is reached, and the excess bytes are counted.
   */
  lemma BodyDecodes(b: Body, frags: seq<string>)
    requires b.Valid(true) && Concat(frags) == b.Bytes()
    ensures var r := FilterAll(START, frags);
            r.Ok? && r.out == b.Data() && r.st.eof && r.st.after == |b.extra|
  {
    ReadBody(true, b);
    FragmentsAgree(START, frags);
  }

  /** The code decodes a well-formed body so, within its `int` counts, exactly if fewer than 2^31 bytes follow. */
  lemma BodyCounted(b: Body, frags: seq<string>)
    requires b.Valid(true) && Concat(frags) == b.Bytes()
    ensures AllCounted(START, frags) <==> |b.extra| < INT_LIMIT
  {
    ReadBody(true, b);
    CleanCounted(START, frags);
  }

  // ----- what the decoder accepts -----

  lemma {:induction false} NoLFBefore(s: string, k: nat)
    requires k <= FindLF(s)
    ensures FindLF(s[..k]) == k
  {
    if k > 0 {
      NoLFBefore(s[1..], k - 1);
      assert s[..k][1..] == s[1..][..k - 1];
    }
  }

  lemma {:induction false} LFFound(s: string)
    requires FindLF(s) < |s|
    ensures s[FindLF(s)] == '\n'
  {
    if s[0] != '\n' {
      LFFound(s[1..]);
    }
  }

  /** The first line of a stream, as a line of the format. */
  lemma FirstLine(s: string) returns (l: Line, rest: string)
    requires FindLF(s) < |s|
    ensures l.Valid(false) && l.text == Strip(s[..FindLF(s)])
    ensures s == l.Bytes() + rest && rest == s[FindLF(s) + 1..]
  {
    var lf := FindLF(s);
    var t := s[..lf];
    rest := s[lf + 1..];
    LFFound(s);
    l := Line(Strip(t), t != "" && t[|t| - 1] == '\r');
    NoLFBefore(s, |l.text|);
    assert s[..|l.text|] == l.text;
    assert s == t + "\n" + rest;
    if l.crlf {
      assert t == l.text + "\r";
      assert l.text + "\r" + "\n" + rest == l.text + "\r\n" + rest;
    }
  }

  /** Reading to the end of the body is a line, in any state in which a line is due. */
  lemma LineDue(st: State, s: string)
    requires st.remaining == 0 && !st.eof && Filter(st, s).Ok? && Filter(st, s).st.eof
    ensures FindLF(s) < |s|
  {
  }

  lemma LineInFront(l: Line, ls: seq<Line>, tail: string)
    ensures LineBytes([l] + ls) + tail == l.Bytes() + (LineBytes(ls) + tail)
  {
    assert ([l] + ls)[1..] == ls;
  }

  lemma NoLines(tail: string)
    ensures LineBytes([]) + tail == tail
  {
  }

  lemma {:induction false} TrailersAccepted(s: string) returns (ls: seq<Line>, end: Line, extra: string)
    requires Filter(TRAILER, s).Ok? && Filter(TRAILER, s).st.eof
    ensures s == LineBytes(ls) + (end.Bytes() + extra)
    ensures (forall l :: l in ls ==> l.Valid(false) && l.text != "") && end.Valid(false) && end.text == ""
    decreases |s|
  {
    hide Filter;
    hide FindLF;
    hide LineBytes;
    LineDue(TRAILER, s);
    var l, rest := FirstLine(s);
    LineIs(TRAILER, s, FindLF(s), l.text, rest);
    if l.text == "" {
      ls, end, extra := [], l, rest;
      NoLines(s);
    } else {
      ls, end, extra := TrailersAccepted(rest);
      LineInFront(l, ls, end.Bytes() + extra);
      ls := [l] + ls;
    }
  }

  /** The size line and the state after it. */
  lemma SizeAccepted(s: string) returns (l: Line, rest: string, n: nat)
    requires Filter(START, s).Ok? && Filter(START, s).st.eof
    ensures l.Valid(false) && s == l.Bytes() + rest && |rest| < |s|
    ensures SizeLine(l.text, n) && n <= 0x7FFF_FFFF_FFFF_FFFF
    ensures Filter(START, s) == Filter(START.(remaining := n, last := n == 0), rest)
  {
    LineDue(START, s);
    l, rest := FirstLine(s);
    LineIs(START, s, FindLF(s), l.text, rest);
    hide Filter;
    hide FindLF;
    hide BeforeSemicolon;
    hide ChunkSize;
    n := ChunkSize(BeforeSemicolon(l.text));
    SizeLineIff(l.text, n);
  }

  /** A chunk whose data does not end does not let the body end. */
  lemma DataEnds(n: nat, s: string)
    requires n > 0 && Filter(START.(remaining := n), s).Ok? && Filter(START.(remaining := n), s).st.eof
    ensures |s| > n
    ensures Filter(START.(remaining := n), s) == Prepend(s[..n], Filter(START.(term := true), s[n..]))
  {
  }

  /** The data of a chunk and the line end behind it. */
  lemma DataAccepted(n: nat, s: string) returns (data: string, l: Line, rest: string)
    requires n > 0 && Filter(START.(remaining := n), s).Ok? && Filter(START.(remaining := n), s).st.eof
    ensures |data| == n && l.Valid(false) && l.text == "" && s == data + (l.Bytes() + rest)
    ensures Filter(START.(remaining := n), s) == Prepend(data, Filter(START, rest)) && |rest| < |s|
  {
    hide Filter;
    hide FindLF;
    DataEnds(n, s);
    data := s[..n];
    var due, tail := START.(term := true), s[n..];
    LineDue(due, tail);
    l, rest := FirstLine(tail);
    LineIs(due, tail, FindLF(tail), l.text, rest);
    assert s == data + tail;
  }

  /** A chunk in front of a body. */
  function WithChunk(c: Chunk, b: Body): (r: Body) {
    b.(chunks := [c] + b.chunks)
  }

  lemma WithChunkIs(c: Chunk, b: Body)
    ensures WithChunk(c, b).Bytes() == c.Bytes() + b.Bytes()
    ensures c.Valid(false) && b.Valid(false) ==> WithChunk(c, b).Valid(false)
  {
    hide SizeLine;
    assert ([c] + b.chunks)[1..] == b.chunks;
    var tail := b.final.Bytes() + (LineBytes(b.trailers) + (b.end.Bytes() + b.extra));
    assert c.Bytes() + ChunkBytes(b.chunks) + tail == c.Bytes() + (ChunkBytes(b.chunks) + tail);
  }

  lemma WithoutChunk(b: Body)
    requires b.chunks == []
    ensures b.Bytes() == b.final.Bytes() + (LineBytes(b.trailers) + (b.end.Bytes() + b.extra))
  {
  }

  lemma ChunkInFront(l: Line, data: string, e: Line, rest: string)
    ensures Chunk(l, data, e).Bytes() + rest == l.Bytes() + (data + (e.Bytes() + rest))
  {
  }

  lemma {:induction false} BodyAccepted(s: string) returns (b: Body)
    requires Filter(START, s).Ok? && Filter(START, s).st.eof
    ensures b.Valid(false) && b.Bytes() == s
    decreases |s|
  {
    hide Filter;
    hide SizeLine;
    hide WithChunk;
    var l, rest, n := SizeAccepted(s);
    if n == 0 {
      var ls, end, extra := TrailersAccepted(rest);
      b := Body([], l, ls, end, extra);
      WithoutChunk(b);
    } else {
      var data, e, more := DataAccepted(n, rest);
      b := BodyAccepted(more);
      ChunkInFront(l, data, e, more);
      WithChunkIs(Chunk(l, data, e), b);
      b := WithChunk(Chunk(l, data, e), b);
    }
  }

  /** A stream is read to its end in one call exactly if it is a chunked body and whatever follows it. */
  lemma AcceptedIffBody(s: string)
    ensures Filter(START, s).Ok? && Filter(START, s).st.eof <==> exists b: Body :: b.Valid(false) && b.Bytes() == s
  {
    if Filter(START, s).Ok? && Filter(START, s).st.eof {
      var b := BodyAccepted(s);
    }
    if b: Body :| b.Valid(false) && b.Bytes() == s {
      ReadBody(false, b);
    }
  }

  // ----- written bodies -----

  /** The pieces of a body, each behind its size in hexadecimal, and the last chunk. */
  function Encoded(pieces: seq<string>): (s: string) {
    if pieces == [] then "0\r\n\r\n"
    else Written(|pieces[0]|, 16) + "\r\n" + pieces[0] + "\r\n" + Encoded(pieces[1..])
  }

  function Framed(piece: string): (c: Chunk) {
    Chunk(Line(Written(|piece|, 16), true), piece, Line("", true))
  }

  function AllFramed(pieces: seq<string>): (cs: seq<Chunk>)
    ensures |cs| == |pieces| && forall i | 0 <= i < |cs| :: cs[i] == Framed(pieces[i])
  {
    seq(|pieces|, i requires 0 <= i < |pieces| => Framed(pieces[i]))
  }

  lemma {:induction false} SixteenDigits(v: nat, n: nat)
    requires v < Pow256(n) && n >= 1
    ensures |Written(v, 16)| <= 2 * n
  {
    hide Small;
    WrittenIs(v, 16);
    WrittenIs(v / 16, 16);
    hide Written;
    if v >= 256 && n > 1 {
      assert v / 16 / 16 == v / 256;
      SixteenDigits(v / 256, n - 1);
    } else {
      assert Pow256(1) == 256 * Pow256(0) == 256;
      WrittenIs(v / 16 / 16, 16);
    }
  }

  lemma FramedValid(piece: string)
    requires 0 < |piece| <= 0x7FFF_FFFF_FFFF_FFFF
    ensures Framed(piece).Valid(true)
  {
    hide Small;
    hide Written;
    var w := Written(|piece|, 16);
    WrittenDenotes(|piece|, 16);
    DenotesIff(w, 16, |piece|);
    DigitsAreText(w);
    hide Denotes;
    Pow256Eight();
    SixteenDigits(|piece|, 8);
    assert w == w + Blanks(0) + "";
    assert SizeParts(w, |piece|, w, 0, "");
  }

  lemma {:induction false} DigitsAreText(d: string)
    requires AllDigits(d, 16)
    ensures NoCR(d) && FindLF(d) == |d|
  {
    assert forall i | 0 <= i < |d| :: Digit(d[i], 16) >= 0;
    if d != [] {
      DigitsAreText(d[1..]);
    }
  }

  lemma {:induction false} EncodedIsBytes(pieces: seq<string>, last: string)
    requires last == "0\r\n\r\n"
    ensures Encoded(pieces) == ChunkBytes(AllFramed(pieces)) + last
    ensures ChunkData(AllFramed(pieces)) == Concat(pieces)
  {
    hide Written;
    if pieces == [] {
      assert [] + last == last;
    } else {
      var p, cs, rest := pieces[0], AllFramed(pieces), AllFramed(pieces[1..]);
      EncodedIsBytes(pieces[1..], last);
      assert cs[1..] == rest;
      var size := Written(|p|, 16);
      assert cs[0].Bytes() == size + "\r\n" + (p + ("" + "\r\n"));
      assert size + "\r\n" + p + "\r\n" + (ChunkBytes(rest) + last)
          == size + "\r\n" + (p + ("" + "\r\n")) + ChunkBytes(rest) + last;
    }
  }

  lemma ZeroIsSizeLine()
    ensures SizeLine("0", 0) && Line("0", true).Valid(true)
  {
    assert Written(0, 16) == "0";
    WrittenDenotes(0, 16);
    assert "0" == "0" + Blanks(0) + "";
    hide Denotes;
    assert SizeParts("0", 0, "0", 0, "");
    assert "0"[1..] == "";
  }

  /** What is written in chunks, however it is cut on the way, is read back whole, and its end is seen. */
  lemma WrittenBodyDecodes(pieces: seq<string>, frags: seq<string>)
    requires forall p | p in pieces :: 0 < |p| <= 0x7FFF_FFFF_FFFF_FFFF
    requires Concat(frags) == Encoded(pieces)
    ensures var r := FilterAll(START, frags);
            r.Ok? && r.out == Concat(pieces) && r.st.eof && r.st.after == 0
  {
    hide Encoded;
    hide FilterAll;
    hide SizeLine;
    var b := Body(AllFramed(pieces), Line("0", true), [], Line("", true), "");
    ZeroIsSizeLine();
    forall c | c in b.chunks ensures c.Valid(true) {
      var i :| 0 <= i < |pieces| && c == Framed(pieces[i]);
      FramedValid(pieces[i]);
    }
    assert "0" + "\r\n" + ([] + ("" + "\r\n" + "")) == "0\r\n\r\n";
    EncodedIsBytes(pieces, "0\r\n\r\n");
    BodyDecodes(b, frags);
  }
}
