/**
 Collapsing white space (CollapseWhitespaceT in string_util.cpp): one pass that writes into a
 buffer of the same size and takes a written space back when a line break or the end follows.
 What counts as white space is a parameter.
 */
module Collapse {
  import opened Words

  const SPACE := 0x20
  const LF := 0x0A
  const CR := 0x0D

  type text = seq<int>

  // ----- what the pass computes -----

  /** The length of the white space, and of the word, at the front. */
  function Gap(s: text, ws: int -> bool): (n: nat)
    ensures n <= |s| && (forall k | 0 <= k < n :: ws(s[k])) && (n < |s| ==> !ws(s[n]))
  {
    if s == [] || !ws(s[0]) then 0 else 1 + Gap(s[1..], ws)
  }

  function Word(s: text, ws: int -> bool): (n: nat)
    ensures n <= |s| && (forall k | 0 <= k < n :: !ws(s[k])) && (n < |s| ==> ws(s[n]))
  {
    if s == [] || ws(s[0]) then 0 else 1 + Word(s[1..], ws)
  }

  predicate IsBreak(c: int) {
    c == LF || c == CR
  }

  predicate HasBreak(g: text) {
    exists k | 0 <= k < |g| :: IsBreak(g[k])
  }

  /** What stands for a gap between two words. */
  function Separator(gap: text, trim: bool): (r: text) {
    if trim && HasBreak(gap) then [] else [SPACE]
  }

  /** A word, and then each further word behind what stands for the gap before it. */
  function FromWord(s: text, ws: int -> bool, trim: bool): (r: text)
    decreases |s|
  {
    var w := Word(s, ws);
    var rest := s[w..];
    var g := Gap(rest, ws);
    if g == |rest| then s[..w]
    else s[..w] + Separator(rest[..g], trim) + FromWord(rest[g..], ws, trim)
  }

  /** The same from inside a gap. */
  function FromGap(s: text, ws: int -> bool, trim: bool): (r: text) {
    var g := Gap(s, ws);
    if g == |s| then [] else Separator(s[..g], trim) + FromWord(s[g..], ws, trim)
  }

  /** The maximal runs without white space, separated; nothing for white space at either end. */
  function Collapsed(s: text, ws: int -> bool, trim: bool): (r: text) {
    FromWord(s[Gap(s, ws)..], ws, trim)
  }

  // ----- one character at a time -----

  lemma FromWordIs(s: text, ws: int -> bool, trim: bool)
    ensures var w := Word(s, ws); FromWord(s, ws, trim) == s[..w] + FromGap(s[w..], ws, trim)
  {
  }

  lemma WordStep(s: text, ws: int -> bool, trim: bool)
    requires s != [] && !ws(s[0])
    ensures FromWord(s, ws, trim) == [s[0]] + FromWord(s[1..], ws, trim)
    ensures FromGap(s, ws, trim) == [SPACE] + FromWord(s, ws, trim)
    ensures Collapsed(s, ws, trim) == FromWord(s, ws, trim)
  {
    FirstLetter(s, ws, trim);
    hide FromWord;
    assert s[0..] == s;
    assert Separator(s[..0], trim) == [SPACE];
  }

  lemma FirstLetter(s: text, ws: int -> bool, trim: bool)
    requires s != [] && !ws(s[0])
    ensures FromWord(s, ws, trim) == [s[0]] + FromWord(s[1..], ws, trim)
  {
    hide FromWord;
    hide FromGap;
    FromWordIs(s, ws, trim);
    FromWordIs(s[1..], ws, trim);
    var w := Word(s[1..], ws);
    assert s[1 + w..] == s[1..][w..] && s[..1 + w] == [s[0]] + s[1..][..w];
  }

  lemma GapStep(s: text, ws: int -> bool, trim: bool)
    requires s != [] && ws(s[0])
    ensures FromWord(s, ws, trim) == FromGap(s, ws, trim)
    ensures FromGap(s, ws, trim)
         == if trim && IsBreak(s[0]) then Collapsed(s[1..], ws, trim) else FromGap(s[1..], ws, trim)
    ensures Collapsed(s, ws, trim) == Collapsed(s[1..], ws, trim)
  {
    hide FromWord;
    hide HasBreak;
    FromWordIs(s, ws, trim);
    assert s[0..] == s;
    var r := s[1..];
    var g := Gap(r, ws);
    assert s[1 + g..] == r[g..];
    assert s[..1 + g] == [s[0]] + r[..g];
    BreakStep(s[0], r[..g]);
    if g == |r| {
      NoWord(ws, trim);
      assert r[g..] == [];
    }
  }

  lemma NoWord(ws: int -> bool, trim: bool)
    ensures FromWord([], ws, trim) == []
  {
  }

  lemma BreakStep(c: int, g: text)
    ensures HasBreak([c] + g) <==> IsBreak(c) || HasBreak(g)
  {
    assert ([c] + g)[0] == c && forall k | 0 <= k < |g| :: ([c] + g)[k + 1] == g[k];
    if HasBreak(g) {
      var k :| 0 <= k < |g| && IsBreak(g[k]);
      assert IsBreak(([c] + g)[k + 1]);
    }
  }

  // ----- the program -----

  /** What is still to be written, given the two flags of the pass. */
  function ToCome(s: text, ws: int -> bool, trim: bool, inWhitespace: bool, trimmed: bool): (r: text) {
    if !inWhitespace then FromWord(s, ws, trim)
    else if trimmed then Collapsed(s, ws, trim)
    else FromGap(s, ws, trim)
  }

  lemma NothingToCome(ws: int -> bool, trim: bool, inWhitespace: bool, trimmed: bool)
    ensures ToCome([], ws, trim, inWhitespace, trimmed) == []
  {
  }

  lemma ToComeStep(s: text, ws: int -> bool, trim: bool, inWhitespace: bool, trimmed: bool)
    requires s != [] && (trimmed ==> inWhitespace)
    ensures ToCome(s, ws, trim, inWhitespace, trimmed)
         == if ws(s[0]) then ToCome(s[1..], ws, trim, true, trimmed || (trim && IsBreak(s[0])))
            else Pending(inWhitespace, trimmed) + [s[0]] + ToCome(s[1..], ws, trim, false, false)
  {
    hide FromWord;
    hide FromGap;
    hide Collapsed;
    if ws(s[0]) {
      GapStep(s, ws, trim);
    } else {
      WordStep(s, ws, trim);
    }
  }

  /** A space that is written and may yet be taken back. */
  function Pending(inWhitespace: bool, trimmed: bool): (r: text) {
    if inWhitespace && !trimmed then [SPACE] else []
  }

  method Put(buffer: array<int>, at: nat, c: int)
    requires at < buffer.Length
    modifies buffer
    ensures buffer[..at + 1] == old(buffer[..at]) + [c]
  {
    buffer[at] := c;
  }

  lemma Shorter(buffer: array<int>, n: nat, kept: text)
    requires 0 < n <= buffer.Length && buffer[..n] == kept + [SPACE]
    ensures buffer[..n - 1] == kept
  {
    assert buffer[..n - 1] == buffer[..n][..n - 1];
  }

  lemma Regroup(kept: text, pending: text, c: int, rest: text)
    ensures kept + (pending + [c] + rest) == kept + pending + [c] + rest
  {
  }

  // ----- how far the write index gets -----

  function Max(a: nat, b: nat): (m: nat) {
    if a < b then b else a
  }

  /** The furthest the write index still gets, counted from what is kept. */
  function Peak(s: text, ws: int -> bool, trim: bool, inWhitespace: bool, trimmed: bool): (n: nat) {
    if s == [] then |Pending(inWhitespace, trimmed)|
    else if ws(s[0]) then
      Max(if inWhitespace then |Pending(inWhitespace, trimmed)| else 1,
          Peak(s[1..], ws, trim, true, trimmed || (trim && IsBreak(s[0]))))
    else |Pending(inWhitespace, trimmed)| + 1 + Peak(s[1..], ws, trim, false, false)
  }

  /** The index stays in range exactly if it does at this character and after it. */
  lemma PeakStep(kept: nat, s: text, ws: int -> bool, trim: bool, inWhitespace: bool, trimmed: bool)
    requires s != [] && kept + |Pending(inWhitespace, trimmed)| < INT_LIMIT
    ensures InRange(kept, s, ws, trim, inWhitespace, trimmed) <==>
            if ws(s[0]) then
              && (inWhitespace || kept + 1 < INT_LIMIT)
              && InRange(kept, s[1..], ws, trim, true, trimmed || (trim && IsBreak(s[0])))
            else
              var now := kept + |Pending(inWhitespace, trimmed)| + 1;
              now < INT_LIMIT && InRange(now, s[1..], ws, trim, false, false)
  {
  }

  predicate InRange(kept: nat, s: text, ws: int -> bool, trim: bool, inWhitespace: bool, trimmed: bool) {
    kept + Peak(s, ws, trim, inWhitespace, trimmed) < INT_LIMIT
  }

  lemma PeakEnds(ws: int -> bool, trim: bool, inWhitespace: bool, trimmed: bool)
    ensures forall kept: nat :: InRange(kept, [], ws, trim, inWhitespace, trimmed) <==>
                                kept + |Pending(inWhitespace, trimmed)| < INT_LIMIT
  {
  }

  /** What the pass needs room for: its result, and a space that is taken back at the end. */
  function Needed(s: text, ws: int -> bool, trim: bool): (n: nat) {
    var r := Collapsed(s, ws, trim);
    |r| + if r != [] && s != [] && ws(s[|s| - 1]) then 1 else 0
  }

  lemma {:induction false} PeakIs(s: text, ws: int -> bool, trim: bool, inWhitespace: bool, trimmed: bool)
    requires s != [] && (trimmed ==> inWhitespace)
    ensures var come := ToCome(s, ws, trim, inWhitespace, trimmed);
            && (!ws(s[|s| - 1]) ==> come != [])
            && Peak(s, ws, trim, inWhitespace, trimmed) ==
               if !ws(s[|s| - 1]) then |come|
               else if come != [] then |come| + 1
               else if inWhitespace then |Pending(inWhitespace, trimmed)| else 1
  {
    hide ToCome;
    ToComeStep(s, ws, trim, inWhitespace, trimmed);
    var inside := ws(s[0]);
    var cut := inside && (trimmed || (trim && IsBreak(s[0])));
    if |s| == 1 {
      assert s[1..] == [];
      NothingToCome(ws, trim, inside, cut);
    } else {
      assert s[1..][|s| - 2] == s[|s| - 1];
      PeakIs(s[1..], ws, trim, inside, cut);
    }
  }

  lemma NeededIsPeak(s: text, ws: int -> bool, trim: bool)
    ensures Needed(s, ws, trim) == Peak(s, ws, trim, true, true)
  {
    hide ToCome;
    hide Collapsed;
    StartOfText(s, ws, trim);
    assert s[0..] == s;
    if s == [] {
      NothingToCome(ws, trim, true, true);
    } else {
      PeakIs(s, ws, trim, true, true);
    }
  }

  lemma StartInRange(s: text, ws: int -> bool, trim: bool)
    ensures Needed(s, ws, trim) < INT_LIMIT <==> InRange(0, s, ws, trim, true, true)
  {
    NeededIsPeak(s, ws, trim);
  }

  lemma {:induction false} PeakWithin(s: text, ws: int -> bool, trim: bool, inWhitespace: bool, trimmed: bool)
    ensures Peak(s, ws, trim, inWhitespace, trimmed) <= |s| + |Pending(inWhitespace, trimmed)|
  {
    if s != [] {
      if ws(s[0]) {
        PeakWithin(s[1..], ws, trim, true, trimmed || (trim && IsBreak(s[0])));
      } else {
        PeakWithin(s[1..], ws, trim, false, false);
      }
    }
  }

  /** With `kept` final after i characters: what is still to come, and whether the index stays in range. */
  predicate Ahead(s: text, i: nat, ws: int -> bool, trim: bool, kept: text, inWhitespace: bool, trimmed: bool)
    requires i <= |s|
  {
    && Collapsed(s, ws, trim) == kept + ToCome(s[i..], ws, trim, inWhitespace, trimmed)
    && (Needed(s, ws, trim) < INT_LIMIT <==> InRange(|kept|, s[i..], ws, trim, inWhitespace, trimmed))
  }

  lemma StartOfText(s: text, ws: int -> bool, trim: bool)
    ensures Collapsed(s, ws, trim) == [] + ToCome(s[0..], ws, trim, true, true)
  {
    assert s[0..] == s;
  }

  lemma AllAhead(s: text, ws: int -> bool, trim: bool)
    ensures Ahead(s, 0, ws, trim, [], true, true)
  {
    hide ToCome;
    hide Collapsed;
    hide Needed;
    hide InRange;
    StartOfText(s, ws, trim);
    StartInRange(s, ws, trim);
    assert s[0..] == s;
  }

  lemma BlankAhead(s: text, i: nat, ws: int -> bool, trim: bool, kept: text, inWhitespace: bool, trimmed: bool)
    requires i < |s| && ws(s[i]) && (trimmed ==> inWhitespace)
    requires Ahead(s, i, ws, trim, kept, inWhitespace, trimmed)
    requires |kept| + |Pending(inWhitespace, trimmed)| < INT_LIMIT
    ensures if inWhitespace || |kept| + 1 < INT_LIMIT
            then Ahead(s, i + 1, ws, trim, kept, true, trimmed || (trim && IsBreak(s[i])))
            else Needed(s, ws, trim) >= INT_LIMIT
  {
    hide ToCome;
    hide Collapsed;
    hide Needed;
    hide InRange;
    assert s[i..][0] == s[i] && s[i..][1..] == s[i + 1..];
    ToComeStep(s[i..], ws, trim, inWhitespace, trimmed);
    PeakStep(|kept|, s[i..], ws, trim, inWhitespace, trimmed);
  }

  lemma LetterAhead(s: text, i: nat, ws: int -> bool, trim: bool, kept: text, inWhitespace: bool, trimmed: bool)
    requires i < |s| && !ws(s[i]) && (trimmed ==> inWhitespace)
    requires Ahead(s, i, ws, trim, kept, inWhitespace, trimmed)
    requires |kept| + |Pending(inWhitespace, trimmed)| < INT_LIMIT
    ensures var now := kept + Pending(inWhitespace, trimmed) + [s[i]];
            if |now| < INT_LIMIT then Ahead(s, i + 1, ws, trim, now, false, false)
            else Needed(s, ws, trim) >= INT_LIMIT
  {
    hide ToCome;
    hide Collapsed;
    hide Needed;
    hide InRange;
    assert s[i..][0] == s[i] && s[i..][1..] == s[i + 1..];
    ToComeStep(s[i..], ws, trim, inWhitespace, trimmed);
    PeakStep(|kept|, s[i..], ws, trim, inWhitespace, trimmed);
    Regroup(kept, Pending(inWhitespace, trimmed), s[i], ToCome(s[i + 1..], ws, trim, false, false));
  }

  lemma NothingAhead(s: text, ws: int -> bool, trim: bool, kept: text, inWhitespace: bool, trimmed: bool)
    requires Ahead(s, |s|, ws, trim, kept, inWhitespace, trimmed)
    requires |kept| + |Pending(inWhitespace, trimmed)| < INT_LIMIT
    ensures Collapsed(s, ws, trim) == kept && Needed(s, ws, trim) < INT_LIMIT
  {
    assert s[|s|..] == [];
    NothingToCome(ws, trim, inWhitespace, trimmed);
    PeakEnds(ws, trim, inWhitespace, trimmed);
  }

  /** `CollapseWhitespaceT`; the write index is an `int`, and what happens past its end is not defined. */
  method CollapseWhitespace(text: text, ws: int -> bool, trim: bool) returns (defined: bool, r: text)
    ensures defined <==> Needed(text, ws, trim) < INT_LIMIT
    ensures defined ==> r == Collapsed(text, ws, trim)
  {
    hide Collapsed;
    hide Needed;
    hide Ahead;
    var result := new int[|text|];
    var inWhitespace, trimmed := true, true;
    var written := 0;
    ghost var kept: seq<int> := [];
    defined, r := true, [];
    AllAhead(text, ws, trim);
    for i := 0 to |text|
      invariant 0 <= written <= i && written < INT_LIMIT
      invariant trimmed ==> inWhitespace
      invariant result[..written] == kept + Pending(inWhitespace, trimmed)
      invariant Ahead(text, i, ws, trim, kept, inWhitespace, trimmed)
    {
      var c := text[i];
      assert written == |kept| + |Pending(inWhitespace, trimmed)|;
      if ws(c) {
        BlankAhead(text, i, ws, trim, kept, inWhitespace, trimmed);
        if !inWhitespace {
          if written + 1 == INT_LIMIT {
            return false, r;
          }
          inWhitespace := true;
          Put(result, written, SPACE);
          written := written + 1;
        }
        if trim && !trimmed && (c == LF || c == CR) {
          Shorter(result, written, kept);
          trimmed := true;
          written := written - 1;
        }
      } else {
        LetterAhead(text, i, ws, trim, kept, inWhitespace, trimmed);
        if written + 1 == INT_LIMIT {
          return false, r;
        }
        kept := kept + Pending(inWhitespace, trimmed) + [c];
        inWhitespace := false;
        trimmed := false;
        Put(result, written, c);
        written := written + 1;
      }
    }
    NothingAhead(text, ws, trim, kept, inWhitespace, trimmed);
    if inWhitespace && !trimmed {
      Shorter(result, written, kept);
      written := written - 1;
    }
    r := result[..written];
  }

  // ----- words and gaps -----

  predicate AllBlank(g: text, ws: int -> bool) {
    forall k | 0 <= k < |g| :: ws(g[k])
  }

  predicate NoBlank(w: text, ws: int -> bool) {
    forall k | 0 <= k < |w| :: !ws(w[k])
  }

  lemma {:induction false} GapIs(g: text, rest: text, ws: int -> bool)
    requires AllBlank(g, ws) && (rest == [] || !ws(rest[0]))
    ensures Gap(g + rest, ws) == |g|
  {
    if g != [] {
      assert (g + rest)[1..] == g[1..] + rest;
      GapIs(g[1..], rest, ws);
    } else {
      assert g + rest == rest;
    }
  }

  lemma {:induction false} WordIs(w: text, rest: text, ws: int -> bool)
    requires NoBlank(w, ws) && (rest == [] || ws(rest[0]))
    ensures Word(w + rest, ws) == |w|
  {
    if w != [] {
      assert (w + rest)[1..] == w[1..] + rest;
      WordIs(w[1..], rest, ws);
    } else {
      assert w + rest == rest;
    }
  }

  /** White space in front and behind is dropped. */
  lemma EndsAreDropped(g: text, w: text, h: text, ws: int -> bool, trim: bool)
    requires AllBlank(g, ws) && NoBlank(w, ws) && w != [] && AllBlank(h, ws)
    ensures Collapsed(g + w + h, ws, trim) == w
  {
    var s := w + h;
    assert g + w + h == g + s;
    GapIs(g, s, ws);
    assert (g + s)[|g|..] == s;
    WordIs(w, h, ws);
    assert s[..|w|] == w && s[|w|..] == h && h + [] == h;
    GapIs(h, [], ws);
  }

  /**
   A gap between two words becomes one space, U+0020, or nothing when line breaks are trimmed and it
   has a line feed or a carriage return, U+000A or U+000D; what follows is collapsed by itself.
   */
  lemma GapBecomes(w: text, g: text, rest: text, ws: int -> bool, trim: bool)
    requires NoBlank(w, ws) && w != [] && AllBlank(g, ws) && g != [] && rest != [] && !ws(rest[0])
    ensures Collapsed(w + g + rest, ws, trim)
         == w + (if trim && (0x0A in g || 0x0D in g) then [] else [0x20]) + Collapsed(rest, ws, trim)
  {
    var s := w + g + rest;
    assert s == w + (g + rest) && s[0] == w[0] && s[0..] == s && rest[0..] == rest;
    WordIs(w, g + rest, ws);
    GapIs(g, rest, ws);
    assert s[..|w|] == w && s[|w|..] == g + rest;
    assert (g + rest)[..|g|] == g && (g + rest)[|g|..] == rest;
    assert HasBreak(g) <==> 0x0A in g || 0x0D in g;
    assert Gap(s, ws) == 0 && Gap(rest, ws) == 0;
  }

  // ----- what collapsed text looks like -----

  /** No white space at either end, and inside only single spaces. */
  predicate Tidy(t: text, ws: int -> bool) {
    && (t != [] ==> !ws(t[0]) && !ws(t[|t| - 1]))
    && forall k | 0 <= k < |t| && ws(t[k]) :: t[k] == SPACE && (k > 0 ==> !ws(t[k - 1]))
  }

  lemma TidyAppend(a: text, gap: text, b: text, ws: int -> bool)
    requires a != [] && (forall k | 0 <= k < |a| :: !ws(a[k]))
    requires gap == [] || gap == [SPACE]
    requires b != [] && Tidy(b, ws)
    ensures Tidy(a + gap + b, ws)
  {
    var t, n := a + gap + b, |a| + |gap|;
    forall k | 0 <= k < |t| && ws(t[k]) ensures t[k] == SPACE && (k > 0 ==> !ws(t[k - 1])) {
      if k >= n {
        assert t[k] == b[k - n];
        assert k > n ==> t[k - 1] == b[k - n - 1];
      } else {
        assert k == |a| && t[k - 1] == a[k - 1];
      }
    }
    assert t[|t| - 1] == b[|b| - 1] && t[0] == a[0];
  }

  lemma {:induction false} FromWordTidy(s: text, ws: int -> bool, trim: bool)
    requires s == [] || !ws(s[0])
    ensures Tidy(FromWord(s, ws, trim), ws)
    ensures s != [] ==> FromWord(s, ws, trim) != []
    decreases |s|
  {
    var w := Word(s, ws);
    var rest := s[w..];
    var g := Gap(rest, ws);
    if g < |rest| {
      FromWordTidy(rest[g..], ws, trim);
      var tail := FromWord(rest[g..], ws, trim);
      TidyAppend(s[..w], Separator(rest[..g], trim), tail, ws);
      hide Tidy;
      assert FromWord(s, ws, trim) == s[..w] + Separator(rest[..g], trim) + tail;
    }
  }

  lemma {:induction false} TidyUnchanged(t: text, ws: int -> bool, trim: bool)
    requires t == [] || !ws(t[|t| - 1])
    requires forall k | 0 <= k < |t| && ws(t[k]) :: t[k] == SPACE && (k > 0 ==> !ws(t[k - 1]))
    ensures FromWord(t, ws, trim) == t
    decreases |t|
  {
    hide FromWord;
    hide FromGap;
    hide Collapsed;
    if t == [] {
      NoWord(ws, trim);
    } else if !ws(t[0]) {
      WordStep(t, ws, trim);
      TidyUnchanged(t[1..], ws, trim);
      assert t == [t[0]] + t[1..];
    } else {
      var u := t[1..];
      assert !ws(t[1]) && u[0] == t[1];
      GapStep(t, ws, trim);
      WordStep(u, ws, trim);
      TidyUnchanged(u, ws, trim);
      assert t == [SPACE] + u;
    }
  }

  /** The text that collapsing leaves alone is exactly the tidy text. */
  lemma UnchangedIffTidy(t: text, ws: int -> bool, trim: bool)
    ensures Tidy(Collapsed(t, ws, trim), ws)
    ensures Collapsed(t, ws, trim) == t <==> Tidy(t, ws)
  {
    FromWordTidy(t[Gap(t, ws)..], ws, trim);
    if Tidy(t, ws) {
      assert t[0..] == t;
      TidyUnchanged(t, ws, trim);
    }
  }

  /** Collapsing twice is collapsing once, whichever mode either pass uses. */
  lemma Idempotent(s: text, ws: int -> bool, trim: bool, again: bool)
    ensures Collapsed(Collapsed(s, ws, trim), ws, again) == Collapsed(s, ws, trim)
  {
    UnchangedIffTidy(s, ws, trim);
    UnchangedIffTidy(Collapsed(s, ws, trim), ws, again);
  }

  // ----- what collapsing keeps -----

  function Letters(s: text, ws: int -> bool): (r: text) {
    if s == [] then [] else (if ws(s[0]) then [] else [s[0]]) + Letters(s[1..], ws)
  }

  /** Only white space is removed: the other characters keep their order. */
  lemma {:induction false} KeepsLetters(s: text, ws: int -> bool, trim: bool)
    requires ws(SPACE)
    ensures Letters(FromWord(s, ws, trim), ws) == Letters(s, ws)
    ensures Letters(FromGap(s, ws, trim), ws) == Letters(s, ws)
    ensures Letters(Collapsed(s, ws, trim), ws) == Letters(s, ws)
  {
    hide FromWord;
    hide FromGap;
    hide Collapsed;
    if s == [] {
      NothingToCome(ws, trim, true, true);
      NothingToCome(ws, trim, true, false);
      NothingToCome(ws, trim, false, false);
    } else {
      KeepsLetters(s[1..], ws, trim);
      if ws(s[0]) {
        GapStep(s, ws, trim);
      } else {
        WordStep(s, ws, trim);
        var r := FromWord(s[1..], ws, trim);
        assert ([s[0]] + r)[1..] == r;
        assert ([SPACE] + FromWord(s, ws, trim))[1..] == FromWord(s, ws, trim);
      }
    }
  }

  /** The pass is defined on every text of n characters if and only if n is below 2^31. */
  lemma DefinedIff(n: nat, ws: int -> bool, trim: bool, letter: int)
    requires !ws(letter)
    ensures (forall s: text | |s| == n :: Needed(s, ws, trim) < INT_LIMIT) <==> n < INT_LIMIT
  {
    hide Needed;
    hide Peak;
    if n < INT_LIMIT {
      forall s: text | |s| == n ensures Needed(s, ws, trim) < INT_LIMIT {
        NeededIsPeak(s, ws, trim);
        PeakWithin(s, ws, trim, true, true);
      }
    } else {
      var s: text := seq(n, _ => letter);
      LettersNeeded(s, ws, trim);
    }
  }

  lemma LettersNeeded(s: text, ws: int -> bool, trim: bool)
    requires forall k | 0 <= k < |s| :: !ws(s[k])
    ensures Needed(s, ws, trim) == |s|
  {
    hide Collapsed;
    assert Tidy(s, ws);
    UnchangedIffTidy(s, ws, trim);
  }
}
