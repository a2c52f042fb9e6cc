/**
 The wildcard matcher against the meaning of patterns: it is never wrong when it says yes, and
 it is right on every text exactly when the pattern needs no more than 16 levels, for texts
 and patterns of up to 4 GiB, which are those it reads right.
 */
module WildcardDepth {
  import opened Words
  import opened Utf8
  import opened Wildcard

  // ----- the meaning, piece by piece -----

  /** What the characters of a pattern ask for. */
  datatype Piece = AnyRun | AtMostOne | Exactly(c: int)

  datatype Parsed = Dangling | Pieces(pieces: seq<Piece>)

  /** The first piece of a pattern, and the characters it takes there; none for a lone backslash. */
  function First(p: text): (r: (Piece, nat))
    requires p != []
  {
    if p[0] == '\\' as int then (if |p| > 1 then (Exactly(p[1]), 2) else (AnyRun, 0))
    else (if p[0] == '*' as int then AnyRun else if p[0] == '?' as int then AtMostOne else Exactly(p[0]), 1)
  }

  /** A pattern in pieces; one that ends inside an escape has none. */
  function Parse(p: text): (r: Parsed)
    decreases |p|
  {
    if p == [] then Pieces([])
    else
      var (piece, used) := First(p);
      if used == 0 then Dangling else Behind(piece, Parse(p[used..]))
  }

  function Behind(piece: Piece, r: Parsed): (r': Parsed) {
    if r.Dangling? then r else Pieces([piece] + r.pieces)
  }

  predicate Fits(t: text, piece: Piece) {
    match piece
    case AnyRun => true
    case AtMostOne => |t| <= 1
    case Exactly(c) => t == [c] && c != BAD
  }

  /** The text falls into parts that fit the pieces one by one. */
  ghost predicate Composed(s: text, pieces: seq<Piece>) {
    exists parts: seq<text> :: Concat(parts) == s && AllFit(parts, pieces)
  }

  predicate AllFit(parts: seq<text>, pieces: seq<Piece>) {
    |parts| == |pieces| && forall i | 0 <= i < |parts| :: Fits(parts[i], pieces[i])
  }

  lemma ComposedStep(s: text, piece: Piece, rest: seq<Piece>)
    ensures Composed(s, [piece] + rest) <==> exists k | 0 <= k <= |s| :: Fits(s[..k], piece) && Composed(s[k..], rest)
  {
    hide Fits;
    if Composed(s, [piece] + rest) {
      var parts: seq<text> :| Concat(parts) == s && AllFit(parts, [piece] + rest);
      var k := |parts[0]|;
      assert s[..k] == parts[0] && s[k..] == Concat(parts[1..]);
      assert AllFit(parts[1..], rest);
      assert Fits(s[..k], piece) && Composed(s[k..], rest);
    }
    if k :| 0 <= k <= |s| && Fits(s[..k], piece) && Composed(s[k..], rest) {
      var parts: seq<text> :| Concat(parts) == s[k..] && AllFit(parts, rest);
      var all := [s[..k]] + parts;
      assert all[1..] == parts && s[..k] + s[k..] == s;
      assert Concat(all) == s && AllFit(all, [piece] + rest);
    }
  }

  /** A text matches a pattern exactly if it falls into parts that fit the pieces of the pattern. */
  lemma {:induction false} MatchesIff(s: text, p: text)
    ensures Matches(s, p) <==> Parse(p).Pieces? && Composed(s, Parse(p).pieces)
    decreases |p|
  {
    if p == [] {
      NothingComposed(s);
    } else {
      var (piece, used) := First(p);
      if used > 0 {
        var rest := Parse(p[used..]);
        forall k | 0 <= k <= |s| ensures Matches(s[k..], p[used..]) <==> rest.Pieces? && Composed(s[k..], rest.pieces) {
          MatchesIff(s[k..], p[used..]);
        }
        MatchesStep(s, p);
        hide Matches;
        hide Composed;
        hide Fits;
        hide First;
        if rest.Pieces? {
          ComposedStep(s, piece, rest.pieces);
        }
      }
    }
  }

  lemma NothingComposed(s: text)
    ensures Composed(s, []) <==> s == []
  {
    var none: seq<text> := [];
    assert Concat(none) == [] && AllFit(none, []);
  }

  /** A pattern takes a front of the text that fits its first piece. */
  lemma MatchesStep(s: text, p: text)
    requires p != [] && First(p).1 > 0
    ensures var (piece, used) := First(p);
            Matches(s, p) <==> exists k | 0 <= k <= |s| :: Fits(s[..k], piece) && Matches(s[k..], p[used..])
  {
    var (piece, used) := First(p);
    assert s[0..] == s;
    if piece.AnyRun? {
      assert forall k | 0 <= k <= |s| :: Fits(s[..k], piece);
    } else {
      AtMostOneTaken(s, piece, p[used..]);
    }
  }

  lemma AtMostOneTaken(s: text, piece: Piece, q: text)
    requires !piece.AnyRun?
    ensures (exists k | 0 <= k <= |s| :: Fits(s[..k], piece) && Matches(s[k..], q))
       <==> || (piece.AtMostOne? && Matches(s, q))
            || (s != [] && (piece.Exactly? ==> Same(piece.c, s[0])) && Matches(s[1..], q))
  {
    hide Matches;
    assert s[0..] == s;
    assert Fits(s[..0], piece) <==> piece.AtMostOne?;
    if s != [] {
      assert s[..1] == [s[0]];
      assert Fits(s[..1], piece) <==> (piece.Exactly? ==> Same(piece.c, s[0]));
    }
    assert forall k | 0 <= k <= |s| && Fits(s[..k], piece) :: k <= 1;
  }

  // ----- steps that keep the meaning -----

  lemma {:induction false} EatSameKeepsMeaning(s: text, p: text)
    ensures var r := EatSame(p, s); Matches(s, p) <==> Matches(r.1, r.0)
    decreases |p|
  {
    if p != [] && s != [] && !IsWild(p[0]) {
      if p[0] == ESCAPE {
        if |p| > 1 && Same(p[1], s[0]) {
          EatSameKeepsMeaning(s[1..], p[2..]);
        }
      } else if Same(p[0], s[0]) {
        EatSameKeepsMeaning(s[1..], p[1..]);
      }
    }
  }

  /** Only wildcards match the empty text. */
  lemma {:induction false} EmptyMatch(p: text)
    ensures Matches([], p) <==> EatWild(p) == []
  {
    if p != [] && IsWild(p[0]) {
      EmptyMatch(p[1..]);
      if p[0] == STAR {
        var e: text := [];
        assert e[0..] == [];
        assert Matches(e[0..], p[1..]) <==> Matches([], p[1..]);
        assert forall k :: 0 <= k <= |e| ==> e[k..] == [];
      }
    }
  }

  /** Wildcards may match nothing. */
  lemma {:induction false} WildMayBeEmpty(s: text, p: text)
    requires Matches(s, EatWild(p))
    ensures Matches(s, p)
  {
    if p != [] && IsWild(p[0]) {
      WildMayBeEmpty(s, p[1..]);
      assert s[0..] == s;
    }
  }

  /** After a star, further wildcards are superfluous: what they take the star can take. */
  lemma {:induction false} WildTakesPrefix(s: text, p: text) returns (k: nat)
    requires Matches(s, p)
    ensures k <= |s| && Matches(s[k..], EatWild(p))
    decreases |p|
  {
    assert s[0..] == s;
    k := 0;
    if p != [] && p[0] == STAR {
      var j :| 0 <= j <= |s| && Matches(s[j..], p[1..]);
      k := WildTakesPrefix(s[j..], p[1..]);
      assert s[j..][k..] == s[j + k..];
      k := j + k;
    } else if p != [] && p[0] == QUERY {
      if Matches(s, p[1..]) {
        k := WildTakesPrefix(s, p[1..]);
      } else {
        k := WildTakesPrefix(s[1..], p[1..]);
        assert s[1..][k..] == s[1 + k..];
        k := 1 + k;
      }
    }
  }

  // ----- yes means yes -----

  /** Whatever the depth, an accepted text matches. */
  lemma {:induction false} Sound(s: text, p: text, depth: nat)
    requires Matcher(s, p, depth)
    ensures Matches(s, p)
    decreases |p|, 1
  {
    EatSameKeepsMeaning(s, p);
    var r := EatSame(p, s);
    BranchSound(r.1, r.0, depth);
  }

  lemma {:induction false} BranchSound(s: text, p: text, depth: nat)
    requires Branch(s, p, depth)
    ensures Matches(s, p)
    decreases |p|, 0
  {
    EmptyMatch(p);
    if s != [] && p[0] == QUERY {
      if Matcher(s, p[1..], depth + 1) {
        Sound(s, p[1..], depth + 1);
      } else {
        Sound(s[1..], p[1..], depth + 1);
      }
    } else if s != [] {
      var q := EatWild(p[1..]);
      if Suffixes(s, q, depth) {
        var k := SuffixesSound(s, q, depth);
        WildMayBeEmpty(s[k..], p[1..]);
      } else {
        EmptyMatch(p[1..]);
        assert s[|s|..] == [];
      }
    }
  }

  lemma {:induction false} SuffixesSound(s: text, p: text, depth: nat) returns (k: nat)
    requires Suffixes(s, p, depth)
    ensures k < |s| && Matches(s[k..], p)
    decreases |p|, |s| + 2
  {
    if Matcher(s, p, depth + 1) {
      k := 0;
      assert s[0..] == s;
      Sound(s, p, depth + 1);
    } else {
      k := SuffixesSound(s[1..], p, depth);
      assert s[1..][k..] == s[1 + k..];
      k := 1 + k;
    }
  }

  // ----- how deep a pattern may take the matcher -----

  /** A `?` costs a level; a run of wildcards after a `*` costs one, or none at the very end. */
  function Need(p: text): (n: nat)
    decreases |p|
  {
    if p == [] then 0
    else if p[0] == ESCAPE then (if |p| == 1 then 0 else Need(p[2..]))
    else if p[0] == QUERY then 1 + Need(p[1..])
    else if p[0] == STAR then
      var q := EatWild(p[1..]);
      if q == [] then 0 else 1 + Need(q)
    else Need(p[1..])
  }

  function Wildcards(p: text): (n: nat)
    decreases |p|
  {
    if p == [] then 0
    else if p[0] == ESCAPE then (if |p| == 1 then 0 else Wildcards(p[2..]))
    else (if IsWild(p[0]) then 1 else 0) + Wildcards(p[1..])
  }

  lemma {:induction false} NeedWithinWildcards(p: text)
    ensures Need(p) <= Wildcards(p)
    decreases |p|
  {
    if p != [] {
      if p[0] == ESCAPE {
        if |p| > 1 {
          NeedWithinWildcards(p[2..]);
        }
      } else if p[0] == STAR {
        NeedWithinWildcards(EatWild(p[1..]));
        EatWildCount(p[1..]);
      } else {
        NeedWithinWildcards(p[1..]);
      }
    }
  }

  lemma {:induction false} EatWildCount(p: text)
    ensures Wildcards(EatWild(p)) <= Wildcards(p)
  {
    if p != [] && IsWild(p[0]) {
      EatWildCount(p[1..]);
    }
  }

  lemma {:induction false} EatSameKeepsNeed(s: text, p: text)
    ensures Need(EatSame(p, s).0) == Need(p)
    decreases |p|
  {
    if p != [] && s != [] && !IsWild(p[0]) {
      if p[0] == ESCAPE {
        if |p| > 1 && Same(p[1], s[0]) {
          EatSameKeepsNeed(s[1..], p[2..]);
        }
      } else if Same(p[0], s[0]) {
        EatSameKeepsNeed(s[1..], p[1..]);
      }
    }
  }

  /** Within the depth bound every match is found. */
  lemma {:induction false} Complete(s: text, p: text, depth: nat)
    requires Matches(s, p) && depth + Need(p) <= MAX_DEPTH
    ensures Matcher(s, p, depth)
    decreases |p|, 1
  {
    EatSameKeepsMeaning(s, p);
    EatSameKeepsNeed(s, p);
    var r := EatSame(p, s);
    EatSameStuck(s, p);
    BranchComplete(r.1, r.0, depth);
  }

  /** Where `EatSame` stops, a match can only go on with a wildcard. */
  lemma {:induction false} EatSameStuck(s: text, p: text)
    ensures var r := EatSame(p, s);
            r.1 != [] && r.0 != [] && !IsWild(r.0[0]) ==> !Matches(r.1, r.0)
    decreases |p|
  {
    if p != [] && s != [] && !IsWild(p[0]) {
      if p[0] == ESCAPE {
        if |p| > 1 && Same(p[1], s[0]) {
          EatSameStuck(s[1..], p[2..]);
        }
      } else if Same(p[0], s[0]) {
        EatSameStuck(s[1..], p[1..]);
      }
    }
  }

  lemma {:induction false} BranchComplete(s: text, p: text, depth: nat)
    requires Matches(s, p) && depth + Need(p) <= MAX_DEPTH
    requires s != [] && p != [] ==> IsWild(p[0])
    ensures Branch(s, p, depth)
    decreases |p|, 0
  {
    EmptyMatch(p);
    if s != [] && p[0] == QUERY {
      if Matches(s, p[1..]) {
        Complete(s, p[1..], depth + 1);
      } else {
        Complete(s[1..], p[1..], depth + 1);
      }
    } else if s != [] {
      var q := EatWild(p[1..]);
      if q != [] {
        var k :| 0 <= k <= |s| && Matches(s[k..], p[1..]);
        var j := WildTakesPrefix(s[k..], p[1..]);
        assert s[k..][j..] == s[k + j..];
        EmptyMatch(q);
        SuffixesComplete(s, q, depth, k + j);
      }
    }
  }

  lemma {:induction false} SuffixesComplete(s: text, p: text, depth: nat, k: nat)
    requires k < |s| && Matches(s[k..], p) && depth + 1 + Need(p) <= MAX_DEPTH
    ensures Suffixes(s, p, depth)
    decreases |p|, k + 2
  {
    if k == 0 {
      assert s[0..] == s;
      Complete(s, p, depth + 1);
    } else {
      assert s[1..][k - 1..] == s[k..];
      SuffixesComplete(s[1..], p, depth, k - 1);
    }
  }

  // ----- the bound is exact -----

  /** A pattern that ends in a lone backslash, or asks for what is no character, matches nothing. */
  predicate Hopeless(p: text)
    decreases |p|
  {
    if p == [] then false
    else if p[0] == ESCAPE then |p| == 1 || p[1] == BAD || Hopeless(p[2..])
    else p[0] == BAD || Hopeless(p[1..])
  }

  /** The literal characters of a pattern, in order. */
  function Literals(p: text): (r: text)
    decreases |p|
  {
    if p == [] then []
    else if p[0] == ESCAPE then (if |p| == 1 then [] else [p[1]] + Literals(p[2..]))
    else if IsWild(p[0]) then Literals(p[1..])
    else [p[0]] + Literals(p[1..])
  }

  /**
   A text that keeps the matcher busy: the literals alone, so that every wildcard between
   them must match nothing, and one `y` for each `?` after the last literal.
   */
  function Witness(p: text, y: int): (s: text)
    decreases |p|
  {
    if p == [] then []
    else if p[0] == ESCAPE then (if |p| == 1 then [] else [p[1]] + Witness(p[2..], y))
    else if p[0] == QUERY then (if Literals(p[1..]) == [] then [y] else []) + Witness(p[1..], y)
    else if p[0] == STAR then Witness(EatWild(p[1..]), y)
    else [p[0]] + Witness(p[1..], y)
  }

  lemma {:induction false} HopelessNeverMatches(s: text, p: text)
    requires Hopeless(p)
    ensures !Matches(s, p)
    decreases |p|
  {
    if p[0] == ESCAPE {
      if |p| > 1 && p[1] != BAD && s != [] {
        HopelessNeverMatches(s[1..], p[2..]);
      }
    } else if p[0] == STAR {
      forall k | 0 <= k <= |s|
        ensures !Matches(s[k..], p[1..])
      {
        HopelessNeverMatches(s[k..], p[1..]);
      }
    } else if p[0] != BAD {
      HopelessNeverMatches(s, p[1..]);
      if s != [] {
        HopelessNeverMatches(s[1..], p[1..]);
      }
    }
  }

  lemma {:induction false} EatWildKeeps(p: text)
    ensures Literals(EatWild(p)) == Literals(p)
    ensures Hopeless(EatWild(p)) == Hopeless(p)
  {
    if p != [] && IsWild(p[0]) {
      EatWildKeeps(p[1..]);
    }
  }

  lemma {:induction false} WitnessMatches(p: text, y: int)
    requires !Hopeless(p)
    ensures Matches(Witness(p, y), p)
    decreases |p|
  {
    var w := Witness(p, y);
    if p != [] {
      if p[0] == ESCAPE {
        WitnessMatches(p[2..], y);
        assert w[1..] == Witness(p[2..], y);
      } else if p[0] == QUERY {
        WitnessMatches(p[1..], y);
        assert Literals(p[1..]) == [] ==> w[1..] == Witness(p[1..], y);
        assert Literals(p[1..]) != [] ==> w == Witness(p[1..], y);
      } else if p[0] == STAR {
        EatWildKeeps(p[1..]);
        WitnessMatches(EatWild(p[1..]), y);
        WildMayBeEmpty(w, p[1..]);
        assert w[0..] == w;
      } else {
        WitnessMatches(p[1..], y);
        assert w[1..] == Witness(p[1..], y);
      }
    }
  }

  /** The witness is the literals followed by copies of `y`. */
  lemma {:induction false} WitnessShape(p: text, y: int)
    ensures |Literals(p)| <= |Witness(p, y)|
    ensures forall i :: |Literals(p)| <= i < |Witness(p, y)| ==> Witness(p, y)[i] == y
    decreases |p|
  {
    if p != [] {
      if p[0] == ESCAPE {
        if |p| > 1 {
          WitnessShape(p[2..], y);
        }
      } else if p[0] == STAR {
        EatWildKeeps(p[1..]);
        WitnessShape(EatWild(p[1..]), y);
      } else {
        WitnessShape(p[1..], y);
      }
    }
  }

  /** In a match the last literal stands no earlier than its place among the literals. */
  lemma {:induction false} LastLiteralPlace(s: text, p: text) returns (j: nat)
    requires Matches(s, p) && Literals(p) != []
    ensures |Literals(p)| - 1 <= j < |s| && s[j] == Literals(p)[|Literals(p)| - 1]
    decreases |p|
  {
    if p[0] == STAR {
      var k :| 0 <= k <= |s| && Matches(s[k..], p[1..]);
      j := LastLiteralPlace(s[k..], p[1..]);
      j := j + k;
    } else if p[0] == QUERY {
      if Matches(s, p[1..]) {
        j := LastLiteralPlace(s, p[1..]);
      } else {
        j := LastLiteralPlace(s[1..], p[1..]);
        j := j + 1;
      }
    } else {
      var rest := if p[0] == ESCAPE then p[2..] else p[1..];
      if Literals(rest) == [] {
        j := 0;
      } else {
        j := LastLiteralPlace(s[1..], rest);
        j := j + 1;
      }
    }
  }

  /** No proper suffix of the witness matches. */
  lemma WitnessTight(p: text, y: int, k: nat)
    requires Literals(p) != [] && y != Literals(p)[|Literals(p)| - 1]
    requires 1 <= k <= |Witness(p, y)|
    ensures !Matches(Witness(p, y)[k..], p)
  {
    var t := Witness(p, y)[k..];
    if Matches(t, p) {
      var j := LastLiteralPlace(t, p);
      WitnessShape(p, y);
    }
  }

  /** Wildcards alone: too many question marks are given up on by every long enough text. */
  lemma {:induction false} WildcardsFail(s: text, p: text, depth: nat)
    requires EatWild(p) == [] && depth + Need(p) > MAX_DEPTH && |s| >= Need(p)
    ensures !Matcher(s, p, depth)
    decreases |p|
  {
    if depth <= MAX_DEPTH {
      assert p[0] == QUERY;
      assert EatSame(p, s) == (p, s);
      WildcardsFail(s, p[1..], depth + 1);
      WildcardsFail(s[1..], p[1..], depth + 1);
    }
  }

  lemma {:induction false} NoLiteralsIsWild(p: text)
    requires !Hopeless(p) && Literals(p) == []
    ensures EatWild(p) == []
  {
    if p != [] {
      NoLiteralsIsWild(p[1..]);
    }
  }

  lemma {:induction false} WildWitnessLength(p: text, y: int)
    requires EatWild(p) == []
    ensures |Witness(p, y)| == Need(p) && Literals(p) == []
    decreases |p|
  {
    if p != [] {
      WildWitnessLength(p[1..], y);
    }
  }

  lemma {:induction false} EatWitness(p: text, y: int)
    requires !Hopeless(p)
    ensures var r := EatSame(p, Witness(p, y));
            && r.1 == Witness(r.0, y)
            && Need(r.0) == Need(p)
            && !Hopeless(r.0)
            && (r.0 != [] ==> IsWild(r.0[0]))
            && |Literals(r.0)| <= |Literals(p)|
            && Literals(r.0) == Literals(p)[|Literals(p)| - |Literals(r.0)|..]
    decreases |p|
  {
    var w := Witness(p, y);
    if p != [] && !IsWild(p[0]) {
      var rest := if p[0] == ESCAPE then p[2..] else p[1..];
      EatWitness(rest, y);
      assert w[1..] == Witness(rest, y);
    }
  }

  lemma NoSuffix(s: text, p: text, depth: nat)
    requires forall k :: 0 <= k < |s| ==> !Matcher(s[k..], p, depth + 1)
    ensures !Suffixes(s, p, depth)
    decreases |s|
  {
    if s != [] {
      assert s[0..] == s;
      forall k | 0 <= k < |s[1..]|
        ensures !Matcher(s[1..][k..], p, depth + 1)
      {
        assert s[1..][k..] == s[k + 1..];
      }
      NoSuffix(s[1..], p, depth);
    }
  }

  lemma WitnessSuffixFails(p: text, y: int, k: nat, depth: nat)
    requires Literals(p) != [] && y != Literals(p)[|Literals(p)| - 1]
    requires 1 <= k <= |Witness(p, y)|
    ensures !Matcher(Witness(p, y)[k..], p, depth)
  {
    WitnessTight(p, y, k);
    if Matcher(Witness(p, y)[k..], p, depth) {
      Sound(Witness(p, y)[k..], p, depth);
    }
  }

  /** A pattern that needs more levels than are left is given up on, at its witness. */
  lemma {:induction false} WitnessFails(p: text, y: int, depth: nat)
    requires !Hopeless(p) && depth + Need(p) > MAX_DEPTH
    requires Literals(p) != [] ==> y != Literals(p)[|Literals(p)| - 1]
    ensures !Matcher(Witness(p, y), p, depth)
    decreases |p|, 1
  {
    if depth <= MAX_DEPTH {
      EatWitness(p, y);
      WitnessBranchFails(EatSame(p, Witness(p, y)).0, y, depth);
    }
  }

  lemma {:induction false} WitnessBranchFails(p: text, y: int, depth: nat)
    requires !Hopeless(p) && depth + Need(p) > MAX_DEPTH >= depth
    requires p != [] && IsWild(p[0])
    requires Literals(p) != [] ==> y != Literals(p)[|Literals(p)| - 1]
    ensures !Branch(Witness(p, y), p, depth)
    decreases |p|, 0
  {
    var w := Witness(p, y);
    if Literals(p) == [] {
      NoLiteralsIsWild(p);
      WildWitnessLength(p, y);
      WildcardsFail(w, p, depth);
      assert EatSame(p, w) == (p, w);
    } else {
      WitnessShape(p, y);
      if p[0] == QUERY {
        assert w == Witness(p[1..], y);
        WitnessFails(p[1..], y, depth + 1);
        WitnessSuffixFails(p[1..], y, 1, depth + 1);
      } else {
        var q := EatWild(p[1..]);
        EatWildKeeps(p[1..]);
        forall k | 0 <= k < |w|
          ensures !Matcher(w[k..], q, depth + 1)
        {
          if k == 0 {
            assert w[0..] == w;
            WitnessFails(q, y, depth + 1);
          } else {
            WitnessSuffixFails(q, y, k, depth + 1);
          }
        }
        NoSuffix(w, q, depth);
        if EatWild(p) == [] {
          WildWitnessLength(p, y);
        }
      }
    }
  }

  // ----- on text -----

  lemma {:induction false} WitnessScalars(p: text, y: int)
    requires !Hopeless(p) && IsScalar(y) && forall k | 0 <= k < |p| :: p[k] == BAD || IsScalar(p[k])
    ensures Scalars(Witness(p, y))
    decreases |p|
  {
    if p != [] {
      if p[0] == ESCAPE {
        WitnessScalars(p[2..], y);
      } else if p[0] == STAR {
        EatWildKeeps(p[1..]);
        EatWildSuffix(p[1..]);
        WitnessScalars(EatWild(p[1..]), y);
      } else {
        WitnessScalars(p[1..], y);
      }
    }
  }

  lemma {:induction false} EatWildSuffix(p: text)
    ensures EatWild(p) == p[|p| - |EatWild(p)|..]
  {
    if p != [] && IsWild(p[0]) {
      EatWildSuffix(p[1..]);
    }
  }

  /** The program's answer on text and pattern is what the pattern means. */
  ghost predicate Right(s: seq<byte>, p: seq<byte>) {
    Matcher(Decode32(s), Decode32(p), 0) <==> Matches(DecodeAll(s), DecodeAll(p))
  }

  lemma RightWhenShallow(s: text, p: text)
    requires Need(p) <= MAX_DEPTH || Hopeless(p)
    ensures Matcher(s, p, 0) <==> Matches(s, p)
  {
    if Matcher(s, p, 0) {
      Sound(s, p, 0);
    }
    if Matches(s, p) {
      if Hopeless(p) {
        HopelessNeverMatches(s, p);
      } else {
        Complete(s, p, 0);
      }
    }
  }

  /** Up to 4 GiB the cast of the remaining length does no harm. */
  lemma {:induction false} ShortIsReadRight(s: seq<byte>)
    requires |s| <= U32
    ensures Decode32(s) == DecodeAll(s)
  {
    hide Next;
    if s != [] {
      assert s[..|s|] == s;
      ShortIsReadRight(s[Next(s).used..]);
    }
  }

  // ----- the witness fits -----

  function Size(cs: text): (n: nat) {
    if cs == [] then 0 else (if IsScalar(cs[0]) then |Encode(cs[0])| else 1) + Size(cs[1..])
  }

  lemma {:induction false} DecodedSize(s: seq<byte>)
    ensures Size(DecodeAll(s)) <= |s|
  {
    hide Next;
    hide Encode;
    if s != [] {
      if Next(s).c != -1 {
        NextIsEncode(s);
      }
      DecodedSize(s[Next(s).used..]);
    }
  }

  lemma {:induction false} EncodedSize(cs: text)
    requires Scalars(cs)
    ensures |EncodeAll(cs)| == Size(cs)
  {
    hide Encode;
    if cs != [] {
      EncodedSize(cs[1..]);
    }
  }

  lemma {:induction false} EatWildSize(p: text)
    ensures Size(EatWild(p)) <= Size(p)
  {
    hide Encode;
    if p != [] && IsWild(p[0]) {
      EatWildSize(p[1..]);
    }
  }

  lemma {:induction false} WitnessSize(p: text, y: int)
    requires 0 <= y < 0x80
    ensures Size(Witness(p, y)) <= Size(p)
    decreases |p|
  {
    assert |Encode(y)| == 1 && |Encode(QUERY)| == 1;
    hide Encode;
    if p != [] {
      var w := Witness(p, y);
      if p[0] == ESCAPE {
        if |p| > 1 {
          WitnessSize(p[2..], y);
          assert w[1..] == Witness(p[2..], y);
          assert p[1..][1..] == p[2..];
        }
      } else if p[0] == STAR {
        WitnessSize(EatWild(p[1..]), y);
        EatWildSize(p[1..]);
      } else {
        WitnessSize(p[1..], y);
        if p[0] == QUERY && Literals(p[1..]) != [] {
          assert w == Witness(p[1..], y);
        } else {
          assert w[1..] == Witness(p[1..], y);
        }
      }
    }
  }

  /**
   For a pattern of up to 4 GiB: the matcher agrees with its meaning on every text of up to 4 GiB,
   well formed or not, if and only if the pattern needs at most 16 levels, or can match nothing.
   */
  lemma MatcherIsRightIff(p: seq<byte>)
    requires |p| <= U32
    ensures (forall s: seq<byte> | |s| <= U32 :: Right(s, p)) <==>
            Need(DecodeAll(p)) <= 16 || Hopeless(DecodeAll(p))
  {
    hide DecodeAll;
    hide Decode32;
    hide Matcher;
    hide Matches;
    hide Need;
    hide Hopeless;
    var q := DecodeAll(p);
    ShortIsReadRight(p);
    if Need(q) <= MAX_DEPTH || Hopeless(q) {
      forall s: seq<byte> | |s| <= U32 ensures Right(s, p) {
        ShortIsReadRight(s);
        RightWhenShallow(DecodeAll(s), q);
      }
    } else {
      var lits := Literals(q);
      var y := if lits != [] && lits[|lits| - 1] == 0x61 then 0x62 else 0x61;
      var w := Witness(q, y);
      WitnessFails(q, y, 0);
      WitnessMatches(q, y);
      DecodedScalars(p);
      WitnessScalars(q, y);
      DecodeInvertsEncode(w);
      WitnessSize(q, y);
      DecodedSize(p);
      EncodedSize(w);
      ShortIsReadRight(EncodeAll(w));
      assert !Right(EncodeAll(w), p);
    }
  }

  /** The documented limit: with at most 16 unescaped wildcards the matcher is exact. */
  lemma SixteenWildcards(s: seq<byte>, p: seq<byte>)
    requires Wildcards(DecodeAll(p)) <= 16 && |s| <= U32 && |p| <= U32
    ensures Right(s, p)
  {
    hide DecodeAll;
    hide Decode32;
    ShortIsReadRight(s);
    ShortIsReadRight(p);
    NeedWithinWildcards(DecodeAll(p));
    RightWhenShallow(DecodeAll(s), DecodeAll(p));
  }

  // ----- longer texts -----

  /** A character of four bytes. */
  const WIDE: int := 0x1_0000

  function Letters(n: nat): (s: seq<byte>)
    ensures |s| == n
  {
    seq(n, _ => 0x41)
  }

  function Codes(n: nat): (s: text)
    ensures |s| == n
  {
    seq(n, _ => 0x41)
  }

  /** One step of both decoders. */
  lemma ReadOne(s: seq<byte>)
    requires s != []
    ensures Decode32(s) == [Next32(s).c] + Decode32(s[Next32(s).used..])
    ensures DecodeAll(s) == [Next(s).c] + DecodeAll(s[Next(s).used..])
  {
    hide Next32;
    hide Next;
  }

  lemma ReadLetter(s: seq<byte>)
    requires s != [] && s[0] < 0x80
    ensures Next32(s) == Next(s) == Read(s[0], 1)
  {
  }

  lemma {:induction false} LettersFirst(n: nat, t: seq<byte>)
    ensures Decode32(Letters(n) + t) == Codes(n) + Decode32(t)
    ensures DecodeAll(Letters(n) + t) == Codes(n) + DecodeAll(t)
  {
    hide Next32;
    hide Next;
    hide Decode32;
    hide DecodeAll;
    var s := Letters(n) + t;
    if n == 0 {
      assert s == t;
    } else {
      ReadLetter(s);
      ReadOne(s);
      assert s[1..] == Letters(n - 1) + t;
      LettersFirst(n - 1, t);
      assert [0x41] + Codes(n - 1) == Codes(n);
    }
  }

  lemma ReadWide(t: seq<byte>)
    requires |t| == U32 + 1 && t[0] == 0xF0 && t[1] == 0x90 && t[2] == t[3] == 0x80
    ensures Next(t) == Read(WIDE, 4) && Next32(t) == Read(BAD, 1)
  {
    assert Seen(|t|) == 1;
  }

  lemma ReadTrail(t: seq<byte>)
    requires t != [] && IsTrail(t[0])
    ensures Next32(t) == Read(BAD, 1)
  {
  }

  /** A wide character with 2^32 + 1 bytes left from its first is not read. */
  lemma WideIsMisread(t: seq<byte>)
    requires |t| == U32 + 1 && t[0] == 0xF0 && t[1] == 0x90 && t[2] == t[3] == 0x80
    ensures Decode32(t) == [BAD, BAD, BAD, BAD] + Decode32(t[4..])
    ensures DecodeAll(t) == [WIDE] + DecodeAll(t[4..])
  {
    hide Next32;
    hide Next;
    hide Decode32;
    hide DecodeAll;
    ReadWide(t);
    ReadOne(t);
    var a, b, c := t[1..], t[2..], t[3..];
    ReadTrail(a);
    ReadOne(a);
    ReadTrail(b);
    ReadOne(b);
    ReadTrail(c);
    ReadOne(c);
    assert a[1..] == b && b[1..] == c && c[1..] == t[4..];
  }

  lemma {:induction false} NeedsIt(s: text, p: text)
    requires p == [WIDE, STAR] && Matches(s, p)
    ensures WIDE in s
  {
  }

  /** What `*`, a wide character, `*` matches contains it. */
  lemma ContainsIff(s: text)
    ensures Matches(s, [STAR, WIDE, STAR]) <==> WIDE in s
  {
    var p: text := [STAR, WIDE, STAR];
    assert p[1..] == [WIDE, STAR];
    if Matches(s, p) {
      var k :| 0 <= k <= |s| && Matches(s[k..], p[1..]);
      NeedsIt(s[k..], p[1..]);
      assert WIDE in s[k..];
    }
    if WIDE in s {
      var k :| 0 <= k < |s| && s[k] == WIDE;
      var t := s[k..];
      assert p[1..][1..] == [STAR] && [STAR][1..] == [];
      assert t[1..][|t| - 1..] == [];
      assert Matches([], []);
      assert Matches(t[1..], [STAR]);
      assert t[0] == WIDE;
      assert Matches(t, p[1..]);
    }
  }

  lemma NothingRead()
    ensures Decode32([]) == [] && DecodeAll([]) == []
  {
  }

  lemma WidePattern()
    ensures var q := DecodeAll([0x2A, 0xF0, 0x90, 0x80, 0x80, 0x2A]); q == [STAR, WIDE, STAR] && Need(q) <= MAX_DEPTH
  {
    var p: seq<byte> := [0x2A, 0xF0, 0x90, 0x80, 0x80, 0x2A];
    assert Next(p) == Read(STAR, 1);
    assert Next(p[1..]) == Read(WIDE, 4);
    assert p[1..][4..] == [0x2A] && Next([0x2A]) == Read(STAR, 1);
    hide Next;
    assert DecodeAll(p) == [STAR] + DecodeAll(p[1..]);
    assert DecodeAll(p[1..]) == [WIDE] + DecodeAll([0x2A]);
    assert DecodeAll([0x2A]) == [STAR];
    var q: text := [STAR, WIDE, STAR];
    assert q[1..] == [WIDE, STAR] && q[1..][1..] == [STAR] && [STAR][1..] == [];
    assert EatWild(q[1..]) == q[1..];
    assert Need([STAR]) == 0;
    assert Need(q[1..]) == 0;
  }

  /** A text of any length above 2^32 bytes whose wide character goes unseen. */
  lemma HiddenWide(n: nat) returns (s: seq<byte>)
    requires n > U32
    ensures |s| == n && WIDE in DecodeAll(s) && WIDE !in Decode32(s)
  {
    hide Next32;
    hide Next;
    hide Decode32;
    hide DecodeAll;
    var m := n - U32 - 1;
    var t := [0xF0, 0x90, 0x80, 0x80] + Letters(U32 - 3);
    s := Letters(m) + t;
    LettersFirst(m, t);
    assert t[4..] == Letters(U32 - 3) + [];
    WideIsMisread(t);
    LettersFirst(U32 - 3, []);
    NothingRead();
    assert DecodeAll(s)[m] == WIDE;
    assert forall k | 0 <= k < |Decode32(s)| :: Decode32(s)[k] in [0x41, BAD];
  }

  /** Texts and patterns of n bytes are all read as the characters they hold if and only if n <= 2^32. */
  lemma ReadRightIff(n: nat)
    ensures (forall s: seq<byte> | |s| == n :: Decode32(s) == DecodeAll(s)) <==> n <= U32
  {
    hide Decode32;
    hide DecodeAll;
    if n <= U32 {
      forall s: seq<byte> | |s| == n ensures Decode32(s) == DecodeAll(s) {
        ShortIsReadRight(s);
      }
    } else {
      var s := HiddenWide(n);
      assert |s| == n && Decode32(s) != DecodeAll(s);
    }
  }

  /** With `*`, one wide character, `*`: the answer is right on every text of n bytes if and only if n <= 2^32. */
  lemma LongTextRightIff(n: nat)
    ensures var p := [0x2A, 0xF0, 0x90, 0x80, 0x80, 0x2A];
            (forall s: seq<byte> | |s| == n :: Right(s, p)) <==> n <= U32
  {
    hide DecodeAll;
    hide Decode32;
    hide Matches;
    hide Matcher;
    var p: seq<byte> := [0x2A, 0xF0, 0x90, 0x80, 0x80, 0x2A];
    WidePattern();
    ShortIsReadRight(p);
    if n <= U32 {
      forall s: seq<byte> | |s| == n ensures Right(s, p) {
        ShortIsReadRight(s);
        RightWhenShallow(DecodeAll(s), DecodeAll(p));
      }
    } else {
      var s := HiddenWide(n);
      ContainsIff(Decode32(s));
      ContainsIff(DecodeAll(s));
      RightWhenShallow(Decode32(s), DecodeAll(p));
      assert |s| == n && !Right(s, p);
    }
  }
}
