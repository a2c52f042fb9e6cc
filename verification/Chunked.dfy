/**
 The chunked transfer decoder (section 4.1 of RFC 7230): a streaming state machine that
 removes the chunk markers from the caller's buffer in place and carries an unfinished line
 from call to call.
 */
module Chunked {
  import opened ParseNumber
  import opened Words

  const MAX_LINE: int := 16384

  // ----- lines -----

  /** The position of the first line feed, or the length. */
  function FindLF(s: string): (i: nat)
    ensures i <= |s|
  {
    if s == [] || s[0] == '\n' then 0 else 1 + FindLF(s[1..])
  }

  /** The text without one trailing carriage return. */
  function Strip(s: string): (r: string)
    ensures |r| <= |s|
  {
    if s != [] && s[|s| - 1] == '\r' then s[..|s| - 1] else s
  }

  /** The part before the chunk extensions. */
  function BeforeSemicolon(s: string): (r: string) {
    if s == [] || s[0] == ';' then [] else [s[0]] + BeforeSemicolon(s[1..])
  }

  function TrimSpaces(s: string): (r: string)
    ensures |r| <= |s| && r == s[..|r|]
  {
    if s != [] && s[|s| - 1] == ' ' then TrimSpaces(s[..|s| - 1]) else s
  }

  /** The size a chunk line denotes, or -1: hexadecimal digits, then spaces, within 63 bits. */
  function ChunkSize(s: string): (n: int)
    ensures n >= -1
  {
    var d := TrimSpaces(s);
    if d == [] || !AllDigits(d, 16) || Value(d, 16) > HEX_INT64.max then -1 else Value(d, 16)
  }

  method ParseChunkSize(s: string, space: char -> bool) returns (n: int)
    requires forall c :: Digit(c, 16) >= 0 ==> !space(c)
    ensures n == ChunkSize(s)
  {
    var len := |s|;
    assert s[..|s|] == s;
    while len > 0 && s[len - 1] == ' '
      invariant 0 <= len <= |s| && TrimSpaces(s[..len]) == TrimSpaces(s)
    {
      assert s[..len][..len - 1] == s[..len - 1];
      len := len - 1;
    }
    var d := s[..len];
    var k := 0;
    while k < |d|
      invariant 0 <= k <= |d| && AllDigits(d[..k], 16)
    {
      if Digit(d[k], 16) < 0 {
        return -1;
      }
      k := k + 1;
    }
    assert d[..k] == d;
    var ok, out := ToNumber(d, HEX_INT64, space);
    if d != [] {
      HexText(d, space);
    }
    return if ok then out else -1;
  }

  lemma HexText(d: string, space: char -> bool)
    requires d != [] && AllDigits(d, 16) && !space(d[0])
    ensures var v := Value(d, 16);
            Parsed(d, HEX_INT64, space) == (v <= HEX_INT64.max, if v <= HEX_INT64.max then v else HEX_INT64.max)
  {
    var n := Numeral(Bare, "", d);
    assert n.Text() == d;
    NumeralParses(n, HEX_INT64, space);
  }

  // ----- the decoder as a value -----

  datatype State = State(remaining: nat, line: string, term: bool, last: bool, eof: bool, after: nat)

  const START := State(0, "", false, false, false, 0)

  datatype Outcome = Fail | Ok(st: State, out: string)

  /** What a complete line does; `Fail` for a line that is out of place or malformed. */
  function TakeLine(st: State, text: string): (r: Outcome) {
    var st := st.(line := "");
    if st.last then Ok(st.(eof := st.eof || text == ""), "")
    else if st.term then (if text != "" then Fail else Ok(st.(term := false), ""))
    else
      var n := ChunkSize(BeforeSemicolon(text));
      if text == "" || n < 0 then Fail else Ok(st.(remaining := n, last := n == 0), "")
  }

  function Prepend(data: string, r: Outcome): Outcome {
    if r.Ok? then Ok(r.st, data + r.out) else Fail
  }

  /** After a chunk's last byte its line end is due. */
  function Consume(st: State, n: nat): (st': State)
    requires n <= st.remaining
  {
    st.(remaining := st.remaining - n, term := st.term || n == st.remaining)
  }

  /** One call of `FilterBuf`: the new state and the chunk data found. */
  function Filter(st: State, s: string): (r: Outcome)
    decreases |s|
  {
    if s == [] then Ok(st, "")
    else if st.remaining > 0 then
      var n := if st.remaining < |s| then st.remaining else |s|;
      Prepend(s[..n], Filter(Consume(st, n), s[n..]))
    else if st.eof then Ok(st.(after := st.after + |s|), "")
    else
      var lf := FindLF(s);
      if lf == |s| then Partial(st, s)
      else
        var r := TakeLine(st, st.line + Strip(s[..lf]));
        if r.Fail? then Fail else Filter(r.st, s[lf + 1..])
  }

  /** A line without its end yet is kept, less a trailing carriage return. */
  function Partial(st: State, s: string): (r: Outcome) {
    if |st.line| + |Strip(s)| > MAX_LINE then Fail else Ok(st.(line := st.line + Strip(s)), "")
  }

  // ----- where an int is too small -----

  /** A line joined from two calls whose length, cast to `int`, is negative and counts as none. */
  predicate Wraps(st: State, s: string) {
    && st.remaining == 0 && !st.eof && st.line != "" && FindLF(s) < |s|
    && |st.line| + |Strip(s[..FindLF(s)])| >= INT_LIMIT
  }

  /** A call in which the line length and the count of bytes after the end stay within an `int`. */
  predicate Counted(st: State, s: string) {
    !Wraps(st, s) && (Filter(st, s).Ok? ==> Filter(st, s).st.after < INT_LIMIT)
  }

  /** A line that counts as none is misread, unless it is a size line that is refused either way. */
  lemma MisreadIff(st: State, text: string)
    requires text != ""
    ensures TakeLine(st, "") != TakeLine(st, text) <==>
            (if st.last then !st.eof else st.term || TakeLine(st, text).Ok?)
  {
  }

  // ----- the decoder as an object -----

  /** `memmove` toward the front of the buffer. */
  method MoveDown(buf: array<char>, dst: nat, src: nat, n: nat)
    requires dst <= src && src + n <= buf.Length
    modifies buf
    ensures buf[dst..dst + n] == old(buf[src..src + n])
    ensures buf[..dst] == old(buf[..dst]) && buf[src + n..] == old(buf[src + n..])
  {
    var i := 0;
    while i < n
      invariant 0 <= i <= n
      invariant buf[dst..dst + i] == old(buf[src..src + i])
      invariant buf[..dst] == old(buf[..dst]) && buf[src + i..] == old(buf[src + i..])
    {
      assert buf[src + i] == buf[src + i..][0] == old(buf[src + i]);
      assert old(buf[src + i..])[1..] == old(buf[src + i + 1..]);
      assert buf[src + i..][1..] == buf[src + i + 1..];
      ghost var moved := buf[dst..dst + i];
      buf[dst + i] := buf[src + i];
      assert buf[dst..dst + i + 1] == moved + [buf[dst + i]];
      i := i + 1;
    }
  }

  method IndexOfLF(s: string) returns (i: nat)
    ensures i == FindLF(s)
  {
    i := 0;
    assert s[0..] == s;
    while i < |s| && s[i] != '\n'
      invariant 0 <= i <= |s| && FindLF(s) == i + FindLF(s[i..])
    {
      assert s[i..][0] == s[i] && s[i..][1..] == s[i + 1..];
      i := i + 1;
    }
    assert i < |s| ==> s[i..][0] == s[i];
  }

  method CutExtensions(s: string) returns (r: string)
    ensures r == BeforeSemicolon(s)
  {
    var i := 0;
    assert s[0..] == s;
    while i < |s| && s[i] != ';'
      invariant 0 <= i <= |s| && BeforeSemicolon(s) == s[..i] + BeforeSemicolon(s[i..])
    {
      var rest := s[i..];
      assert rest[0] == s[i] && rest[1..] == s[i + 1..];
      assert s[..i] + ([s[i]] + BeforeSemicolon(s[i + 1..])) == s[..i + 1] + BeforeSemicolon(s[i + 1..]);
      i := i + 1;
    }
    assert i < |s| ==> s[i..][0] == s[i];
    assert s[..i] + [] == s[..i];
    r := s[..i];
  }

  lemma SliceJoin(s: string, i: nat, j: nat, k: nat)
    requires i <= j <= k <= |s|
    ensures s[..i] + s[i..k][..j - i] == s[..j] && s[i..k][j - i..] == s[j..k]
  {
  }

  lemma PrependNothing(r: Outcome)
    ensures Prepend([], r) == r
  {
    assert r.Ok? ==> [] + r.out == r.out;
  }

  lemma NothingStep(st: State)
    ensures Filter(st, []) == Ok(st, "")
  {
  }

  lemma EofStep(st: State, s: string)
    requires st.remaining == 0 && st.eof && s != []
    ensures Filter(st, s) == Ok(st.(after := st.after + |s|), "")
  {
  }

  lemma LineStep(st: State, s: string)
    requires st.remaining == 0 && !st.eof && FindLF(s) < |s|
    ensures var lf := FindLF(s);
            var r := TakeLine(st, st.line + Strip(s[..lf]));
            Filter(st, s) == if r.Fail? then Fail else Filter(r.st, s[lf + 1..])
  {
  }

  lemma PartialStep(st: State, s: string)
    requires st.remaining == 0 && !st.eof && s != [] && FindLF(s) == |s|
    ensures Filter(st, s) == Partial(st, s)
  {
  }

  lemma DataStep(st: State, done: string, s: string, n: nat)
    requires st.remaining > 0 && s != [] && n == if st.remaining < |s| then st.remaining else |s|
    ensures Prepend(done, Filter(st, s)) == Prepend(done + s[..n], Filter(Consume(st, n), s[n..]))
  {
    var r := Filter(Consume(st, n), s[n..]);
    if r.Ok? {
      assert done + (s[..n] + r.out) == done + s[..n] + r.out;
    }
  }

  type count = x: int | 0 <= x < INT_LIMIT

  class Decoder {
    var remaining: nat
    var line: string
    var term: bool
    var last: bool
    var eof: bool
    var after: count
    const space: char -> bool

    constructor (space: char -> bool)
      ensures Valid() && View() == START && this.space == space
    {
      remaining, line, term, last, eof, after := 0, "", false, false, false, 0;
      this.space := space;
    }

    predicate Valid()
      reads this
    {
      remaining > 0 ==> line == ""
    }

    function View(): (st: State)
      reads this
    {
      State(remaining, line, term, last, eof, after)
    }

    /** `ScanForChunkRemaining`: one line, complete or not, from the front of the text. */
    method Scan(s: string) returns (exact: bool, ok: bool, used: nat)
      requires s != [] && remaining == 0 && !eof
      requires forall c :: Digit(c, 16) >= 0 ==> !space(c)
      modifies this
      ensures exact <==> !Wraps(old(View()), s)
      ensures exact && ok ==> 1 <= used <= |s| && Filter(old(View()), s) == Filter(View(), s[used..])
      ensures exact && ok ==> Valid() && !Wraps(View(), s[used..]) && after == old(after)
      ensures exact && !ok ==> Filter(old(View()), s) == Fail
    {
      hide Filter;
      hide FindLF;
      hide TakeLine;
      hide Strip;
      exact, ok, used := true, true, 0;
      ghost var st := View();
      var lf := IndexOfLF(s);
      var text := Strip(s[..lf]);
      if lf < |s| {
        LineStep(st, s);
        assert line == "" ==> line + text == text;
        if line != "" {
          line := line + text;
          text := line;
          if |line| >= INT_LIMIT {
            return false, ok, used;
          }
        }
        ok := Complete(text, st);
        used := lf + 1;
      } else {
        PartialStep(st, s);
        assert s[..lf] == s;
        used := |s|;
        ok := |line| + |text| <= MAX_LINE;
        if ok {
          line := line + text;
        }
        NothingStep(View());
        assert s[used..] == [];
        NoLF();
      }
    }

    /** The part of `ScanForChunkRemaining` that acts on a complete line. */
    method Complete(text: string, ghost st: State) returns (ok: bool)
      requires View().(line := st.line) == st && st.remaining == 0
      requires forall c :: Digit(c, 16) >= 0 ==> !space(c)
      modifies this
      ensures var r := TakeLine(st, text); if ok then r == Ok(View(), "") && line == "" else r == Fail
      ensures after == old(after)
    {
      if last {
        eof := eof || text == "";
      } else if term {
        if text != "" {
          return false;
        }
        term := false;
      } else if text != "" {
        var size := CutExtensions(text);
        var n := ParseChunkSize(size, space);
        if n < 0 {
          return false;
        }
        remaining := n;
        last := n == 0;
      } else {
        return false;
      }
      line := "";
      ok := true;
    }

    /** Scans one line at `at` and closes the gap it leaves, keeping `left'` characters. */
    method ScanInPlace(buf: array<char>, at: nat, left: nat) returns (exact: bool, ok: bool, left': nat)
      requires 0 < left && at + left <= buf.Length && remaining == 0 && !eof
      requires forall c :: Digit(c, 16) >= 0 ==> !space(c)
      modifies this, buf
      ensures exact <==> !Wraps(old(View()), old(buf[at..at + left]))
      ensures left' < left
      ensures buf[..at] == old(buf[..at]) && buf[at + left..] == old(buf[at + left..])
      ensures exact && ok ==> Filter(old(View()), old(buf[at..at + left])) == Filter(View(), buf[at..at + left'])
      ensures exact && ok ==> Valid() && !Wraps(View(), buf[at..at + left']) && after == old(after)
      ensures exact && !ok ==> Filter(old(View()), old(buf[at..at + left])) == Fail
    {
      hide Filter;
      hide Wraps;
      ghost var rest := buf[at..at + left];
      var used;
      exact, ok, used := Scan(buf[at..at + left]);
      left' := 0;
      if exact && ok {
        left' := left - used;
        assert rest[used..] == buf[at + used..at + left];
        if left' > 0 {
          MoveDown(buf, at, at + used, left');
        }
        assert buf[at..at + left'] == rest[used..];
      }
    }

    /** One turn of the loop of `FilterBuf`: chunk data, the bytes after the end, or a line. */
    method Turn(buf: array<char>, at: nat, left: nat) returns (exact: bool, ok: bool, at': nat, left': nat)
      requires Valid() && 0 < left && at + left <= buf.Length
      requires forall c :: Digit(c, 16) >= 0 ==> !space(c)
      modifies this, buf
      ensures left' < left && at' + left' <= at + left
      ensures buf[at + left..] == old(buf[at + left..])
      ensures !exact ==> !Counted(old(View()), old(buf[at..at + left]))
      ensures exact && !ok ==> Filter(old(View()), old(buf[at..at + left])) == Fail
      ensures exact && !ok ==> Counted(old(View()), old(buf[at..at + left]))
      ensures exact && ok ==> Valid() && Goes(old(View()), old(buf[..]), at, left, View(), buf[..], at', left')
    {
      hide Filter;
      hide Wraps;
      exact, ok, at', left' := true, true, at, 0;
      ghost var all, end := buf[..], at + left;
      if remaining > 0 {
        var num := if remaining < left then remaining else left;
        DataGoes(View(), all, at, left, num);
        left' := left - num;
        term := term || num == remaining;
        remaining := remaining - num;
        at' := at + num;
      } else if eof {
        EofGoes(View(), all, at, left);
        if after + left >= INT_LIMIT {
          return false, ok, at', left';
        }
        after := after + left;
      } else {
        ghost var rest := buf[at..end];
        exact, ok, left' := ScanInPlace(buf, at, left);
        if exact && ok {
          assert all[..at] == buf[..][..at] && all[at..end] == rest;
          assert buf[..][at..at + left'] == buf[at..at + left'];
        }
      }
    }

    /**
     `FilterBuf`: the first `result` characters of the buffer become the chunk data of its
     first `len` characters; nothing beyond those is touched. The call is exact as long as the
     `int` counts of the code suffice.
     */
    method FilterBuf(buf: array<char>, len: nat) returns (exact: bool, ok: bool, result: nat)
      requires Valid() && len <= buf.Length
      requires forall c :: Digit(c, 16) >= 0 ==> !space(c)
      modifies this, buf
      ensures exact <==> Counted(old(View()), old(buf[..len]))
      ensures result <= len && buf[len..] == old(buf[len..])
      ensures exact && !ok ==> Filter(old(View()), old(buf[..len])) == Fail
      ensures exact && ok ==> Valid() && Filter(old(View()), old(buf[..len])) == Ok(View(), buf[..result])
    {
      hide Filter;
      hide Counted;
      ghost var goal, counted := Filter(View(), buf[..len]), Counted(View(), buf[..len]);
      var left := len;
      exact, ok, result := true, true, 0;
      assert buf[0..left] == buf[..len];
      PrependNothing(goal);
      while left > 0
        invariant exact && ok && Valid() && 0 <= left && result + left <= len
        invariant buf[len..] == old(buf[len..])
        invariant goal == Prepend(buf[..result], Filter(View(), buf[result..result + left]))
        invariant counted == Counted(View(), buf[result..result + left])
        decreases left
      {
        ghost var all, end := buf[..], result + left;
        ghost var at := result;
        assert all[at..end] == buf[at..end] && all[..at] == buf[..at];
        exact, ok, result, left := Turn(buf, result, left);
        assert buf[len..] == buf[end..][len - end..];
        assert all[len..] == all[end..][len - end..];
        assert exact && ok ==> buf[..][..result] == buf[..result];
        assert exact && ok ==> buf[..][result..result + left] == buf[result..result + left];
        if !exact || !ok {
          return;
        }
      }
      NothingStep(View());
      assert buf[result..result + left] == [];
      NothingCounted(View());
      assert buf[..result] + [] == buf[..result];
    }
  }

  /** What is decoded so far and what is left of a buffer go on to the same end. */
  predicate Goes(st: State, all: string, at: nat, left: nat, st': State, all': string, at': nat, left': nat)
    requires at + left <= |all| && at' + left' <= |all'|
  {
    && Prepend(all[..at], Filter(st, all[at..at + left]))
       == Prepend(all'[..at'], Filter(st', all'[at'..at' + left']))
    && Counted(st, all[at..at + left]) == Counted(st', all'[at'..at' + left'])
  }

  lemma DataGoes(st: State, all: string, at: nat, left: nat, n: nat)
    requires at + left <= |all| && st.remaining > 0 && st.line == ""
    requires 0 < left && n == if st.remaining < left then st.remaining else left
    ensures Goes(st, all, at, left, Consume(st, n), all, at + n, left - n)
  {
    hide Filter;
    hide Wraps;
    var rest := all[at..at + left];
    DataStep(st, all[..at], rest, n);
    SliceJoin(all, at, at + n, at + left);
    NoWrapWithoutLine(st, rest);
    NoWrapWithoutLine(Consume(st, n), rest[n..]);
    SameState(st, rest, n);
  }

  lemma SameState(st: State, s: string, n: nat)
    requires st.remaining > 0 && s != [] && n == if st.remaining < |s| then st.remaining else |s|
    ensures var r, r' := Filter(st, s), Filter(Consume(st, n), s[n..]);
            r.Ok? == r'.Ok? && (r.Ok? ==> r.st == r'.st)
  {
  }

  lemma NoWrapWithoutLine(st: State, s: string)
    requires st.line == ""
    ensures !Wraps(st, s)
  {
  }

  lemma EofGoes(st: State, all: string, at: nat, left: nat)
    requires at + left <= |all| && st.remaining == 0 && st.eof && 0 < left
    ensures var st' := st.(after := st.after + left);
            && Counted(st, all[at..at + left]) == (st'.after < INT_LIMIT)
            && (st'.after < INT_LIMIT ==> Goes(st, all, at, left, st', all, at, 0))
  {
    hide Filter;
    EofStep(st, all[at..at + left]);
    NothingStep(st.(after := st.after + left));
    assert all[at..at + 0] == [];
  }

  lemma NothingCounted(st: State)
    requires st.after < INT_LIMIT
    ensures Counted(st, "")
  {
  }

  lemma NoLF()
    ensures FindLF("") == 0
  {
  }
}
