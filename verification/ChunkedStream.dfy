/**
 Chunked streams under any fragmentation: where a cut is harmless, and what a well-formed
 stream decodes to however it is cut.
 */
module ChunkedStream {
  import opened Words
  import opened ParseNumber
  import opened Chunked

  // ----- fragmentation -----

  /** The next call on what one call left behind. */
  function Then(r: Outcome, b: string): (r': Outcome) {
    if r.Fail? then Fail else Prepend(r.out, Filter(r.st, b))
  }

  /** Did this call drop a carriage return at its end, before the line was complete? */
  predicate DropsCR(st: State, a: string)
    decreases |a|
  {
    if a == [] then false
    else if st.remaining > 0 then
      var n := if st.remaining < |a| then st.remaining else |a|;
      DropsCR(Consume(st, n), a[n..])
    else if st.eof then false
    else
      var lf := FindLF(a);
      if lf == |a| then a[|a| - 1] == '\r'
      else
        var r := TakeLine(st, st.line + Strip(a[..lf]));
        r.Ok? && DropsCR(r.st, a[lf + 1..])
  }

  lemma {:induction false} FindLFConcat(a: string, b: string)
    ensures FindLF(a + b) == if FindLF(a) < |a| then FindLF(a) else |a| + FindLF(b)
  {
    if a == [] {
      assert a + b == b;
    } else if a[0] != '\n' {
      assert (a + b)[1..] == a[1..] + b;
      FindLFConcat(a[1..], b);
    }
  }

  /** A cut inside a line leaves the line as it was. */
  lemma LineAcrossCut(line: string, a: string, b: string)
    requires a != []
    requires a[|a| - 1] == '\r' ==> b == []
    ensures line + Strip(a + b) == line + Strip(a) + Strip(b)
  {
    if b == [] {
      assert a + b == a;
    } else {
      assert (a + b)[|a + b| - 1] == b[|b| - 1];
      assert (a + b)[..|a + b| - 1] == a + b[..|b| - 1];
    }
  }

  lemma PrependTwice(x: string, y: string, r: Outcome)
    ensures Prepend(x, Prepend(y, r)) == Prepend(x + y, r)
  {
    if r.Ok? {
      assert x + (y + r.out) == x + y + r.out;
    }
  }

  lemma ThenPrepend(x: string, r: Outcome, b: string)
    ensures Then(Prepend(x, r), b) == Prepend(x, Then(r, b))
  {
    if r.Ok? {
      PrependTwice(x, r.out, Filter(r.st, b));
    }
  }

  lemma ThenNothing(r: Outcome)
    ensures Then(r, []) == r
  {
    if r.Ok? {
      assert r.out + "" == r.out;
    }
  }

  lemma DataIs(st: State, s: string, n: nat, data: string, rest: string)
    requires st.remaining > 0 && s != [] && n == if st.remaining < |s| then st.remaining else |s|
    requires data == s[..n] && rest == s[n..]
    ensures Filter(st, s) == Prepend(data, Filter(Consume(st, n), rest))
  {
  }

  /** A cut inside chunk data. */
  lemma CutInData(st: State, a: string, b: string)
    requires st.remaining > |a| > 0
    ensures Filter(st, a + b) == Then(Filter(st, a), b)
  {
    hide Filter;
    var k := |a|;
    var st' := Consume(st, k);
    assert Filter(st, a) == Ok(st', a) by {
      DataIs(st, a, k, a, []);
      NothingStep(st');
      assert a + "" == a;
    }
    if b == [] {
      assert a + b == a;
      ThenNothing(Filter(st, a));
    } else {
      var n := if st.remaining < k + |b| then st.remaining else k + |b|;
      var data, rest := b[..n - k], b[n - k..];
      assert Consume(st', n - k) == Consume(st, n);
      assert Filter(st', b) == Prepend(data, Filter(Consume(st, n), rest)) by {
        DataIs(st', b, n - k, data, rest);
      }
      assert Filter(st, a + b) == Prepend(a + data, Filter(Consume(st, n), rest)) by {
        assert (a + b)[..n] == a + data && (a + b)[n..] == rest;
        DataIs(st, a + b, n, a + data, rest);
      }
      PrependTwice(a, data, Filter(Consume(st, n), rest));
    }
  }

  lemma NoEarlyLF(b: string)
    ensures b != [] && b[0] == '\n' ==> FindLF(b) == 0
  {
  }

  lemma TakeLineForgets(st: State, line: string, text: string)
    ensures TakeLine(st.(line := line), text) == TakeLine(st, text)
  {
  }

  lemma SplitAcross(a: string, b: string, k: nat)
    requires k < |b|
    ensures (a + b)[..|a| + k] == a + b[..k]
    ensures (a + b)[|a| + k + 1..] == b[k + 1..]
  {
  }

  /** A cut inside a line that stays open. */
  lemma CutInOpenLine(st: State, a: string, b: string)
    requires st.remaining == 0 && !st.eof && a != [] && b != []
    requires FindLF(a) == |a| && FindLF(b) == |b| && a[|a| - 1] != '\r'
    requires |st.line| + |Strip(a)| <= MAX_LINE
    ensures Filter(st, a + b) == Filter(st.(line := st.line + Strip(a)), b)
  {
    FindLFConcat(a, b);
    LineAcrossCut(st.line, a, b);
    PartialStep(st, a + b);
    PartialStep(st.(line := st.line + Strip(a)), b);
  }

  /** The rest of a call once a line is complete. */
  function AfterLine(st: State, text: string, rest: string): (r: Outcome) {
    var r := TakeLine(st, text);
    if r.Fail? then Fail else Filter(r.st, rest)
  }

  lemma LineIs(st: State, s: string, lf: nat, text: string, rest: string)
    requires st.remaining == 0 && !st.eof && lf == FindLF(s) < |s|
    requires text == st.line + Strip(s[..lf]) && rest == s[lf + 1..]
    ensures Filter(st, s) == AfterLine(st, text, rest)
  {
    LineStep(st, s);
  }

  lemma AfterLineForgets(st: State, line: string, text: string, rest: string)
    ensures AfterLine(st.(line := line), text, rest) == AfterLine(st, text, rest)
  {
    TakeLineForgets(st, line, text);
  }

  /** A cut inside a line that the second part completes. */
  lemma CutInClosedLine(st: State, a: string, b: string)
    requires st.remaining == 0 && !st.eof && a != []
    requires FindLF(a) == |a| && FindLF(b) < |b|
    requires a[|a| - 1] == '\r' ==> b[0] == '\n'
    ensures Filter(st, a + b) == Filter(st.(line := st.line + Strip(a)), b)
  {
    hide Filter;
    hide AfterLine;
    hide Strip;
    var k, line := FindLF(b), st.line + Strip(a);
    var t, rest := b[..k], b[k + 1..];
    NoEarlyLF(b);
    FindLFConcat(a, b);
    hide FindLF;
    SplitAcross(a, b, k);
    LineAcrossCut(st.line, a, t);
    LineIs(st, a + b, |a| + k, st.line + Strip(a + t), rest);
    LineIs(st.(line := line), b, k, line + Strip(t), rest);
    AfterLineForgets(st, line, line + Strip(t), rest);
  }

  /** A cut inside a line. */
  lemma CutInLine(st: State, a: string, b: string)
    requires st.remaining == 0 && !st.eof && a != [] && FindLF(a) == |a|
    requires Filter(st, a).Ok?
    requires a[|a| - 1] == '\r' ==> b == [] || b[0] == '\n'
    ensures Filter(st, a + b) == Then(Filter(st, a), b)
  {
    PartialStep(st, a);
    var st' := st.(line := st.line + Strip(a));
    if b == [] {
      assert a + b == a;
      ThenNothing(Filter(st, a));
    } else {
      PrependNothing(Filter(st', b));
      if FindLF(b) == |b| {
        NoEarlyLF(b);
        CutInOpenLine(st, a, b);
      } else {
        CutInClosedLine(st, a, b);
      }
    }
  }

  lemma FilterNothing(st: State)
    ensures Filter(st, "") == Ok(st, "")
  {
  }

  lemma CutAfterData(st: State, a: string, b: string, n: nat)
    requires 0 < st.remaining == n <= |a|
    requires Filter(Consume(st, n), a[n..] + b) == Then(Filter(Consume(st, n), a[n..]), b)
    ensures Filter(st, a + b) == Then(Filter(st, a), b)
  {
    hide Filter;
    var ab := a + b;
    assert ab[..n] == a[..n] && ab[n..] == a[n..] + b;
    DataIs(st, a, n, a[..n], a[n..]);
    DataIs(st, ab, n, a[..n], a[n..] + b);
    ThenPrepend(a[..n], Filter(Consume(st, n), a[n..]), b);
  }

  lemma CutAtEnd(st: State, a: string, b: string)
    requires st.remaining == 0 && st.eof && a != []
    ensures Filter(st, a + b) == Then(Filter(st, a), b)
  {
    EofStep(st, a);
    EofStep(st, a + b);
    PrependNothing(Filter(Filter(st, a).st, b));
    if b == [] {
      assert a + b == a;
    }
  }

  lemma CutAfterLine(st: State, a: string, b: string, lf: nat, text: string)
    requires st.remaining == 0 && !st.eof && lf == FindLF(a) < |a| && text == st.line + Strip(a[..lf])
    requires AfterLine(st, text, a[lf + 1..] + b) == Then(AfterLine(st, text, a[lf + 1..]), b)
    ensures Filter(st, a + b) == Then(Filter(st, a), b)
  {
    hide Filter;
    hide AfterLine;
    var ab := a + b;
    FindLFConcat(a, b);
    hide FindLF;
    assert ab[..lf] == a[..lf] && ab[lf + 1..] == a[lf + 1..] + b;
    LineIs(st, a, lf, text, a[lf + 1..]);
    LineIs(st, ab, lf, text, a[lf + 1..] + b);
  }

  /**
   A stream may be cut anywhere but after a carriage return that does not end its line:
   decoding the two parts one after the other is decoding the whole.
   */
  lemma {:induction false} CutAgrees(st: State, a: string, b: string)
    requires Filter(st, a).Ok?
    requires DropsCR(st, a) ==> b == [] || b[0] == '\n'
    ensures Filter(st, a + b) == Then(Filter(st, a), b)
    decreases |a|
  {
    hide Filter;
    hide Strip;
    hide ChunkSize;
    hide BeforeSemicolon;
    if a == [] {
      assert a + b == b;
      FilterNothing(st);
      PrependNothing(Filter(st, b));
    } else if st.remaining > |a| {
      CutInData(st, a, b);
    } else if st.remaining > 0 {
      var n := st.remaining;
      DataIs(st, a, n, a[..n], a[n..]);
      CutAgrees(Consume(st, n), a[n..], b);
      CutAfterData(st, a, b, n);
    } else if st.eof {
      CutAtEnd(st, a, b);
    } else if FindLF(a) == |a| {
      CutInLine(st, a, b);
    } else {
      var lf := FindLF(a);
      var text := st.line + Strip(a[..lf]);
      LineIs(st, a, lf, text, a[lf + 1..]);
      CutAgrees(TakeLine(st, text).st, a[lf + 1..], b);
      CutAfterLine(st, a, b, lf, text);
    }
  }

  lemma DroppedAtEnd(st: State, a: string)
    requires Filter(st, a).Ok? && st.remaining == 0 && !st.eof
    requires a != [] && FindLF(a) == |a| && a[|a| - 1] == '\r'
    ensures var whole := Filter(st, a + "\r");
            whole.Ok? ==> |whole.st.line| == |Filter(st, a).st.line| + 1
    ensures var cut := Then(Filter(st, a), "\r");
            cut.Ok? && cut.st.line == Filter(st, a).st.line
  {
    hide Filter;
    hide TakeLine;
    FindLFConcat(a, "\r");
    PartialStep(st, a);
    PartialStep(st, a + "\r");
    PartialStep(Filter(st, a).st, "\r");
  }

  /** After a dropped carriage return, a second one tells the two readings apart. */
  lemma {:induction false} DroppedCRShows(st: State, a: string)
    requires Filter(st, a).Ok? && DropsCR(st, a)
    ensures var whole := Filter(st, a + "\r");
            whole.Ok? ==> |whole.st.line| == |Filter(st, a).st.line| + 1
    ensures var cut := Then(Filter(st, a), "\r");
            cut.Ok? && cut.st.line == Filter(st, a).st.line
    decreases |a|
  {
    hide Filter;
    hide TakeLine;
    hide Consume;
    var ab := a + "\r";
    if st.remaining > 0 {
      var n := st.remaining;
      assert n < |a|;
      DataIs(st, a, n, a[..n], a[n..]);
      DataIs(st, ab, n, a[..n], a[n..] + "\r");
      DroppedCRShows(Consume(st, n), a[n..]);
      ThenPrepend(a[..n], Filter(Consume(st, n), a[n..]), "\r");
    } else if FindLF(a) == |a| {
      DroppedAtEnd(st, a);
    } else {
      var lf := FindLF(a);
      FindLFConcat(a, "\r");
      assert ab[..lf] == a[..lf] && ab[lf + 1..] == a[lf + 1..] + "\r";
      LineStep(st, a);
      LineStep(st, ab);
      var r := TakeLine(st, st.line + Strip(a[..lf]));
      DroppedCRShows(r.st, a[lf + 1..]);
    }
  }

  // ----- cuts at which a line is too long -----

  /** Does this call refuse an open line as too long that would be accepted once complete? */
  predicate TooLong(st: State, a: string)
    decreases |a|
  {
    if a == [] then false
    else if st.remaining > 0 then
      var n := if st.remaining < |a| then st.remaining else |a|;
      TooLong(Consume(st, n), a[n..])
    else if st.eof then false
    else
      var lf := FindLF(a);
      if lf == |a| then |st.line| + |Strip(a)| > MAX_LINE && TakeLine(st, st.line + Strip(a)).Ok?
      else
        var r := TakeLine(st, st.line + Strip(a[..lf]));
        r.Ok? && TooLong(r.st, a[lf + 1..])
  }

  lemma {:induction false} TrimSpacesConcat(s: string, t: string)
    ensures TrimSpaces(s + t) == if TrimSpaces(t) == [] then TrimSpaces(s) else s + TrimSpaces(t)
    decreases |t|
  {
    if t == [] {
      assert s + t == s;
    } else if t[|t| - 1] == ' ' {
      assert (s + t)[..|s + t| - 1] == s + t[..|t| - 1];
      TrimSpacesConcat(s, t[..|t| - 1]);
    }
  }

  lemma {:induction false} BeforeSemicolonConcat(s: string, t: string)
    ensures |BeforeSemicolon(s)| <= |s|
    ensures BeforeSemicolon(s + t) ==
            if |BeforeSemicolon(s)| < |s| then BeforeSemicolon(s) else BeforeSemicolon(s) + BeforeSemicolon(t)
    ensures |BeforeSemicolon(s)| == |s| ==> BeforeSemicolon(s) == s
  {
    if s == [] {
      assert s + t == t;
    } else {
      assert (s + t)[0] == s[0] && (s + t)[1..] == s[1..] + t;
      BeforeSemicolonConcat(s[1..], t);
    }
  }

  lemma NotDigits(s: string, t: string)
    requires !AllDigits(s, 16)
    ensures !AllDigits(s + t, 16)
  {
    var i :| 0 <= i < |s| && Digit(s[i], 16) < 0;
    assert (s + t)[i] == s[i];
  }

  lemma TrailingSpace(s: string)
    requires TrimSpaces(s) != s
    ensures !AllDigits(s, 16)
  {
    assert Digit(s[|s| - 1], 16) < 0;
  }

  /** What is no size does not become one when more follows. */
  lemma NoSizeGrows(s: string, t: string)
    requires s != [] && ChunkSize(s) < 0
    ensures ChunkSize(s + t) < 0
  {
    TrimSpacesConcat(s, t);
    if TrimSpaces(t) != [] {
      var more := TrimSpaces(t);
      hide TrimSpaces;
      if TrimSpaces(s) != s {
        TrailingSpace(s);
        NotDigits(s, more);
      } else if !AllDigits(s, 16) {
        NotDigits(s, more);
      } else {
        assert (s + more)[..|s|] == s;
        ValueGrows(s + more, 16, |s|);
      }
    }
  }

  /** A line that is refused, and not empty, is refused however it goes on. */
  lemma RefusedGrows(st: State, text: string, more: string)
    requires text != "" && TakeLine(st, text).Fail?
    ensures TakeLine(st, text + more).Fail?
  {
    if !st.last && !st.term {
      BeforeSemicolonConcat(text, more);
      var size := BeforeSemicolon(text);
      hide BeforeSemicolon;
      if |size| == |text| {
        NoSizeGrows(text, BeforeSemicolon(more));
      }
    }
    hide ChunkSize;
  }

  lemma StripGrows(line: string, a: string, b: string)
    requires a != []
    ensures line + Strip(a) <= line + Strip(a + b) && |Strip(a)| <= |Strip(a + b)|
  {
    if b == [] {
      assert a + b == a;
    } else {
      var ab := a + b;
      assert ab[..|a|] == a && ab[..|ab| - 1][..|a|] == a;
      assert (line + Strip(ab))[..|line| + |a|] == line + a;
      assert (line + a)[..|line| + |Strip(a)|] == line + Strip(a);
    }
  }

  lemma RefusedAtEnd(st: State, a: string, b: string)
    requires st.remaining == 0 && !st.eof && a != [] && FindLF(a) == |a|
    requires |st.line + Strip(a)| > MAX_LINE && TakeLine(st, st.line + Strip(a)).Fail?
    ensures Filter(st, a + b).Fail?
  {
    hide Filter;
    hide TakeLine;
    hide Strip;
    hide FindLF;
    var text := st.line + Strip(a);
    FindLFConcat(a, b);
    var k := FindLF(b);
    if k == |b| {
      StripGrows(st.line, a, b);
      PartialStep(st, a + b);
    } else {
      var t := b[..k];
      StripGrows(st.line, a, t);
      assert (a + b)[..|a| + k] == a + t;
      var whole := st.line + Strip(a + t);
      assert whole == text + whole[|text|..];
      RefusedGrows(st, text, whole[|text|..]);
      LineStep(st, a + b);
    }
  }

  /** A call that fails for any other reason than its length fails whatever follows. */
  lemma {:induction false} StaysRefused(st: State, a: string, b: string)
    requires Filter(st, a).Fail? && !TooLong(st, a)
    ensures Filter(st, a + b).Fail?
    decreases |a|
  {
    hide Filter;
    hide TakeLine;
    hide Consume;
    NothingStep(st);
    var ab := a + b;
    if st.remaining > 0 {
      var n := if st.remaining < |a| then st.remaining else |a|;
      DataIs(st, a, n, a[..n], a[n..]);
      NothingStep(Consume(st, n));
      assert n == st.remaining < |a|;
      DataIs(st, ab, n, a[..n], a[n..] + b);
      StaysRefused(Consume(st, n), a[n..], b);
    } else if st.eof {
      EofStep(st, a);
    } else if FindLF(a) == |a| {
      PartialStep(st, a);
      RefusedAtEnd(st, a, b);
    } else {
      var lf := FindLF(a);
      FindLFConcat(a, b);
      assert ab[..lf] == a[..lf] && ab[lf + 1..] == a[lf + 1..] + b;
      LineStep(st, a);
      LineStep(st, ab);
      var r := TakeLine(st, st.line + Strip(a[..lf]));
      if r.Ok? {
        StaysRefused(r.st, a[lf + 1..], b);
      }
    }
  }

  /** A line that is refused for its length is accepted with its line feed, in one call. */
  lemma {:induction false} TooLongShows(st: State, a: string)
    requires TooLong(st, a)
    ensures Filter(st, a).Fail? && Filter(st, a + "\n").Ok?
    decreases |a|
  {
    hide Filter;
    hide TakeLine;
    hide Consume;
    var ab := a + "\n";
    if st.remaining > 0 {
      var n := st.remaining;
      assert n < |a|;
      DataIs(st, a, n, a[..n], a[n..]);
      DataIs(st, ab, n, a[..n], a[n..] + "\n");
      TooLongShows(Consume(st, n), a[n..]);
    } else {
      var lf := FindLF(a);
      FindLFConcat(a, "\n");
      if lf == |a| {
        NoEarlyLF("\n");
        PartialStep(st, a);
        LineStep(st, ab);
        assert ab[..|a|] == a && ab[|a| + 1..] == "";
        NothingStep(TakeLine(st, st.line + Strip(a)).st);
      } else {
        assert ab[..lf] == a[..lf] && ab[lf + 1..] == a[lf + 1..] + "\n";
        LineStep(st, a);
        LineStep(st, ab);
        TooLongShows(TakeLine(st, st.line + Strip(a[..lf])).st, a[lf + 1..]);
      }
    }
  }

  /**
   A place to cut is harmless for every continuation exactly when no carriage return is lost there
   and no line refused for its length that its end would make acceptable.
   */
  lemma CutIsSafeIff(st: State, a: string)
    ensures (forall b :: Filter(st, a + b) == Then(Filter(st, a), b))
       <==> if Filter(st, a).Ok? then !DropsCR(st, a) else !TooLong(st, a)
  {
    hide Filter;
    if Filter(st, a).Ok? {
      if DropsCR(st, a) {
        DroppedCRShows(st, a);
        assert Filter(st, a + "\r") != Then(Filter(st, a), "\r");
      } else {
        forall b
          ensures Filter(st, a + b) == Then(Filter(st, a), b)
        {
          CutAgrees(st, a, b);
        }
      }
    } else if TooLong(st, a) {
      TooLongShows(st, a);
      assert Filter(st, a + "\n") != Then(Filter(st, a), "\n");
    } else {
      forall b
        ensures Filter(st, a + b) == Then(Filter(st, a), b)
      {
        StaysRefused(st, a, b);
      }
    }
  }

  /** The state after the last chunk. */
  const TRAILER := START.(last := true)

  /** A trailer line is read in one call, and refused before its end exactly if it has more than 16384 characters. */
  lemma LongTrailerIsRefused(n: nat)
    ensures var a := seq(n, _ => 'x');
            (Filter(TRAILER, a).Fail? <==> n > 16384) && Filter(TRAILER, a + "\n").Ok?
  {
    var a: string := seq(n, _ => 'x');
    OneLine(n);
    if n > 16384 {
      TooLongShows(TRAILER, a);
    } else {
      OpenTrailer(a);
      ClosedTrailer(a);
    }
  }

  lemma OpenTrailer(a: string)
    requires FindLF(a) == |a| <= 16384
    ensures Filter(TRAILER, a).Ok?
  {
  }

  lemma ClosedTrailer(a: string)
    requires FindLF(a) == |a|
    ensures Filter(TRAILER, a + "\n").Ok?
  {
    hide Filter;
    var s := a + "\n";
    FindLFConcat(a, "\n");
    assert FindLF("\n") == 0;
    assert s[|a| + 1..] == "";
    LineIs(TRAILER, s, |a|, Strip(s[..|a|]), "");
    FilterNothing(TakeLine(TRAILER, Strip(s[..|a|])).st);
  }

  lemma {:induction false} OneLine(n: nat)
    ensures FindLF(seq(n, _ => 'x')) == n
  {
    if n > 0 {
      var a: string := seq(n, _ => 'x');
      var rest: string := seq(n - 1, _ => 'x');
      assert a[1..] == rest;
      OneLine(n - 1);
    }
  }

  // ----- streams that may be cut anywhere -----

  predicate NoCR(s: string) {
    forall i :: 0 <= i < |s| ==> s[i] != '\r'
  }

  /** A line, so far as seen, has its carriage return at its end and fits the line buffer. */
  predicate CleanText(line: string, t: string) {
    NoCR(Strip(t)) && |line| + |Strip(t)| <= MAX_LINE
  }

  /** Every line of the stream is clean, up to the end of the body. */
  predicate Clean(st: State, s: string)
    decreases |s|, 1
  {
    if s == [] then true
    else if st.remaining > 0 then
      var n := if st.remaining < |s| then st.remaining else |s|;
      Clean(Consume(st, n), s[n..])
    else if st.eof then true
    else
      var lf := FindLF(s);
      && CleanText(st.line, s[..lf])
      && (lf < |s| ==> CleanAfter(st, st.line + Strip(s[..lf]), s[lf + 1..]))
  }

  predicate CleanAfter(st: State, text: string, rest: string)
    decreases |rest| + 1, 0
  {
    var r := TakeLine(st, text);
    r.Ok? && Clean(r.st, rest)
  }

  lemma CleanAfterForgets(st: State, line: string, text: string, rest: string)
    ensures CleanAfter(st.(line := line), text, rest) == CleanAfter(st, text, rest)
  {
    TakeLineForgets(st, line, text);
  }

  /** Any cut of a clean stream is harmless, and what follows it is clean again. */
  lemma {:induction false} CleanCut(st: State, a: string, b: string)
    requires Clean(st, a + b) && b != []
    ensures Filter(st, a).Ok?
    ensures DropsCR(st, a) ==> b[0] == '\n'
    ensures Clean(Filter(st, a).st, b)
    decreases |a|
  {
    hide Filter;
    hide TakeLine;
    hide Strip;
    hide CleanText;
    var ab := a + b;
    if a == [] {
      assert ab == b;
      NothingStep(st);
    } else if st.remaining > 0 {
      var n := if st.remaining < |a| then st.remaining else |a|;
      assert ab[..n] == a[..n] && ab[n..] == a[n..] + b;
      CleanData(st, ab, n);
      CleanCut(Consume(st, n), a[n..], b);
      DataIs(st, a, n, a[..n], a[n..]);
    } else if st.eof {
      EofStep(st, a);
    } else {
      FindLFConcat(a, b);
      var lf := FindLF(a);
      if lf < |a| {
        assert ab[..lf] == a[..lf] && ab[lf + 1..] == a[lf + 1..] + b;
        LineStep(st, a);
        CleanCut(TakeLine(st, st.line + Strip(a[..lf])).st, a[lf + 1..], b);
      } else {
        CleanCutInLine(st, a, b);
      }
    }
  }

  lemma CleanData(st: State, s: string, n: nat)
    requires st.remaining > 0 && Clean(st, s) && 0 < n <= |s| && n <= st.remaining
    ensures Clean(Consume(st, n), s[n..])
  {
    var m := if st.remaining < |s| then st.remaining else |s|;
    if n < m {
      assert Consume(Consume(st, n), m - n) == Consume(st, m);
      assert s[n..][m - n..] == s[m..];
    }
  }

  lemma StrayCR(a: string, b: string)
    requires a != [] && b != [] && a[|a| - 1] == '\r'
    ensures !NoCR(Strip(a + b))
  {
    assert Strip(a + b)[|a| - 1] == '\r';
  }

  /** The text of a line seen up to a cut, and after it. */
  lemma CleanTextAcrossCut(line: string, a: string, b: string)
    requires a != [] && CleanText(line, a + b)
    ensures a[|a| - 1] == '\r' ==> b == []
    ensures line + Strip(a + b) == line + Strip(a) + Strip(b)
    ensures |line| + |Strip(a)| <= MAX_LINE
    ensures CleanText(line + Strip(a), b)
  {
    if b != [] && a[|a| - 1] == '\r' {
      StrayCR(a, b);
    } else {
      LineAcrossCut(line, a, b);
      var t, x, y := Strip(a + b), Strip(a), Strip(b);
      assert |t| == |x| + |y|;
      forall i | 0 <= i < |y|
        ensures y[i] != '\r'
      {
        assert t[|x| + i] == (line + t)[|line| + |x| + i] == (line + x + y)[|line| + |x| + i] == y[i];
      }
    }
  }

  lemma CleanOpenLine(st: State, s: string)
    requires st.remaining == 0 && !st.eof && s != [] && FindLF(s) == |s|
    ensures Clean(st, s) <==> CleanText(st.line, s)
  {
    assert s[..|s|] == s;
  }

  lemma CleanClosedLine(st: State, s: string, lf: nat, t: string, text: string, rest: string)
    requires st.remaining == 0 && !st.eof && lf == FindLF(s) < |s|
    requires t == s[..lf] && text == st.line + Strip(t) && rest == s[lf + 1..]
    ensures Clean(st, s) <==> CleanText(st.line, t) && CleanAfter(st, text, rest)
  {
  }

  lemma CleanCutInLine(st: State, a: string, b: string)
    requires st.remaining == 0 && !st.eof && a != [] && b != [] && FindLF(a) == |a|
    requires Clean(st, a + b)
    ensures Filter(st, a).Ok?
    ensures a[|a| - 1] == '\r' ==> b[0] == '\n'
    ensures Clean(Filter(st, a).st, b)
  {
    hide Clean;
    hide CleanText;
    hide CleanAfter;
    hide Filter;
    hide Strip;
    var k, line := FindLF(b), st.line + Strip(a);
    FindLFConcat(a, b);
    PartialStep(st, a);
    if k == |b| {
      CleanOpenLine(st, a + b);
      CleanTextAcrossCut(st.line, a, b);
      CleanOpenLine(st.(line := line), b);
    } else {
      SplitAcross(a, b, k);
      var t, rest := b[..k], b[k + 1..];
      CleanClosedLine(st, a + b, |a| + k, a + t, st.line + Strip(a + t), rest);
      CleanTextAcrossCut(st.line, a, t);
      CleanAfterForgets(st, line, line + Strip(t), rest);
      CleanClosedLine(st.(line := line), b, k, t, line + Strip(t), rest);
    }
  }

  /** The decoder's calls on a list of fragments, their output joined. */
  function FilterAll(st: State, frags: seq<string>): (r: Outcome)
    decreases |frags|
  {
    if frags == [] then Ok(st, "")
    else
      var first := Filter(st, frags[0]);
      if first.Fail? then Fail else Prepend(first.out, FilterAll(first.st, frags[1..]))
  }

  /** A clean stream decodes the same however it is cut. */
  lemma {:induction false} FragmentsAgree(st: State, frags: seq<string>)
    requires Clean(st, Concat(frags))
    ensures FilterAll(st, frags) == Filter(st, Concat(frags))
    decreases |frags|
  {
    if frags != [] {
      var a, b := frags[0], Concat(frags[1..]);
      if b == [] {
        assert Concat(frags) == a;
        EmptyRest(frags[1..]);
        var first := Filter(st, a);
        if first.Ok? {
          SilentFragments(first.st, frags[1..]);
          assert first.out + "" == first.out;
        }
      } else {
        CleanCut(st, a, b);
        CutAgrees(st, a, b);
        FragmentsAgree(Filter(st, a).st, frags[1..]);
      }
    }
  }

  lemma {:induction false} EmptyRest(frags: seq<string>)
    requires Concat(frags) == []
    ensures forall i :: 0 <= i < |frags| ==> frags[i] == []
    decreases |frags|
  {
    if frags != [] {
      assert |Concat(frags)| == |frags[0]| + |Concat(frags[1..])|;
      EmptyRest(frags[1..]);
      assert forall i :: 0 < i < |frags| ==> frags[i] == frags[1..][i - 1];
    }
  }

  lemma {:induction false} SilentFragments(st: State, frags: seq<string>)
    requires forall i :: 0 <= i < |frags| ==> frags[i] == []
    ensures FilterAll(st, frags) == Ok(st, "")
    decreases |frags|
  {
    if frags != [] {
      assert frags[0] == [];
      assert Filter(st, frags[0]) == Ok(st, "");
      SilentFragments(st, frags[1..]);
      assert "" + "" == "";
    }
  }

  /** Every call on the way stays within the `int` counts of the code. */
  predicate AllCounted(st: State, frags: seq<string>)
    decreases |frags|
  {
    || frags == []
    || (&& Counted(st, frags[0])
        && (Filter(st, frags[0]).Ok? ==> AllCounted(Filter(st, frags[0]).st, frags[1..])))
  }

  /** The lines of a clean stream are never too long for an `int`. */
  lemma CleanNeverWraps(st: State, a: string, b: string)
    requires Clean(st, a + b)
    ensures !Wraps(st, a)
  {
    if st.remaining == 0 && !st.eof && FindLF(a) < |a| {
      var lf, ab := FindLF(a), a + b;
      FindLFConcat(a, b);
      assert ab[..lf] == a[..lf];
      CleanClosedLine(st, ab, lf, a[..lf], st.line + Strip(a[..lf]), ab[lf + 1..]);
    }
  }

  lemma {:induction false} AfterGrows(st: State, s: string)
    ensures Filter(st, s).Ok? ==> st.after <= Filter(st, s).st.after
    decreases |s|
  {
    hide ChunkSize;
    hide BeforeSemicolon;
    if s != [] {
      if st.remaining > 0 {
        var n := if st.remaining < |s| then st.remaining else |s|;
        AfterGrows(Consume(st, n), s[n..]);
      } else if !st.eof && FindLF(s) < |s| {
        var r := TakeLine(st, st.line + Strip(s[..FindLF(s)]));
        if r.Ok? {
          AfterGrows(r.st, s[FindLF(s) + 1..]);
        }
      }
    }
  }

  lemma {:induction false} SilentCounted(st: State, frags: seq<string>)
    requires st.after < INT_LIMIT && forall i :: 0 <= i < |frags| ==> frags[i] == []
    ensures AllCounted(st, frags)
    decreases |frags|
  {
    hide Filter;
    hide Wraps;
    if frags != [] {
      assert frags[0] == [];
      NothingStep(st);
      NothingCounted(st);
      SilentCounted(st, frags[1..]);
    }
  }

  /** Over a clean stream the counts suffice exactly when that of the bytes after the end does. */
  lemma {:induction false} CleanCounted(st: State, frags: seq<string>)
    requires Clean(st, Concat(frags)) && Filter(st, Concat(frags)).Ok? && st.after < INT_LIMIT
    ensures AllCounted(st, frags) <==> Filter(st, Concat(frags)).st.after < INT_LIMIT
    decreases |frags|
  {
    hide Filter;
    hide Wraps;
    hide Clean;
    if frags == [] {
      NothingStep(st);
    } else {
      var a, b := frags[0], Concat(frags[1..]);
      CleanNeverWraps(st, a, b);
      if b == [] {
        assert Concat(frags) == a;
        EmptyRest(frags[1..]);
        if Filter(st, a).st.after < INT_LIMIT {
          SilentCounted(Filter(st, a).st, frags[1..]);
        }
      } else {
        CleanCut(st, a, b);
        CutAgrees(st, a, b);
        var first := Filter(st, a);
        AfterGrows(first.st, b);
        if first.st.after < INT_LIMIT {
          CleanCounted(first.st, frags[1..]);
        }
      }
    }
  }
}
