/**
 Wildcard matching (MatchPattern in string_util.cpp) on UTF-8 text: `*` is any run, `?` is zero
 or one character, a backslash makes the next character literal. The matcher recurses at most
 16 deep. Bytes that are no character match nothing but a wildcard.
 */
module Wildcard {
  import opened Words
  import opened Utf8

  const MAX_DEPTH: int := 16
  const STAR: int := 0x2A
  const QUERY: int := 0x3F
  const ESCAPE: int := 0x5C
  const BAD: int := -1

  /** Code points, with `BAD` for each error. */
  type text = seq<int>

  predicate IsWild(c: int) {
    c == STAR || c == QUERY
  }

  predicate Same(c: int, d: int) {
    c == d && c != BAD
  }

  // ----- what it means to match -----

  predicate Matches(s: text, p: text)
    decreases |p|
  {
    if p == [] then s == []
    else if p[0] == STAR then exists k :: 0 <= k <= |s| && Matches(s[k..], p[1..])
    else if p[0] == QUERY then Matches(s, p[1..]) || (s != [] && Matches(s[1..], p[1..]))
    else if p[0] == ESCAPE then |p| > 1 && s != [] && Same(p[1], s[0]) && Matches(s[1..], p[2..])
    else s != [] && Same(p[0], s[0]) && Matches(s[1..], p[1..])
  }

  // ----- the matcher, as a value -----

  /** Drops equal characters from both; an escape is dropped only with the character it guards. */
  function EatSame(p: text, s: text): (r: (text, text))
    ensures |r.0| <= |p| && |r.1| <= |s|
    decreases |p|
  {
    if p == [] || s == [] || IsWild(p[0]) then (p, s)
    else if p[0] == ESCAPE then
      if |p| == 1 then ([], s)
      else if Same(p[1], s[0]) then EatSame(p[2..], s[1..])
      else (p, s)
    else if Same(p[0], s[0]) then EatSame(p[1..], s[1..])
    else (p, s)
  }

  function EatWild(p: text): (r: text)
    ensures |r| <= |p|
    ensures r != [] ==> !IsWild(r[0])
  {
    if p != [] && IsWild(p[0]) then EatWild(p[1..]) else p
  }

  predicate Matcher(s: text, p: text, depth: nat)
    decreases |p|, 1
  {
    depth <= MAX_DEPTH && var r := EatSame(p, s); Branch(r.1, r.0, depth)
  }

  /** The part of the matcher after the equal characters. */
  predicate Branch(s: text, p: text, depth: nat)
    decreases |p|, 0
  {
    if s == [] then EatWild(p) == []
    else if p == [] then false
    else if p[0] == QUERY then Matcher(s, p[1..], depth + 1) || Matcher(s[1..], p[1..], depth + 1)
    else if p[0] == STAR then Suffixes(s, EatWild(p[1..]), depth) || EatWild(p) == []
    else false
  }

  /** Does some non-empty suffix match the rest of the pattern? */
  predicate Suffixes(s: text, p: text, depth: nat)
    decreases |p|, |s| + 2
  {
    s != [] && (Matcher(s, p, depth + 1) || Suffixes(s[1..], p, depth))
  }

  // ----- the matcher, as the code performs it -----

  /** What a remaining length looks like to the out-of-line reader, which compares it with 1, 2 and 3. */
  function Seen(n: nat): (m: nat)
    ensures m <= n && (n > 0 ==> m > 0)
  {
    if n > U32 && 1 <= n % U32 <= 3 then n % U32 else n
  }

  /** One character as the matcher reads it: the remaining length is cast to 32 bits out of line. */
  function Next32(s: seq<byte>): (r: Read)
    requires s != []
    ensures 1 <= r.used <= |s|
  {
    var r := Next(s);
    if r.c != -1 && r.used <= 3 then r else Next(s[..Seen(|s|)])
  }

  function Decode32(s: seq<byte>): (cs: text) {
    if s == [] then [] else [Next32(s).c] + Decode32(s[Next32(s).used..])
  }

  lemma NextLooksAtFour(s: seq<byte>, n: nat)
    requires 4 <= n <= |s|
    ensures Next(s[..n]) == Next(s)
  {
    hide Join2;
    hide Join3;
    hide Join4;
  }

  /** `NextCharUTF8`: `CBU8_NEXT` from the pointer on, with the distance to the end as its length. */
  method NextCode(s: seq<byte>, at: nat) returns (c: int, i: nat)
    requires at < |s|
    ensures at < i <= |s| && Read(c, i - at) == Next32(s[at..])
  {
    hide ValidLead3;
    hide Join2;
    hide Join3;
    hide Join4;
    var t := s[at..];
    var lead := t[0];
    if lead < 0x80 {
      return lead, at + 1;
    }
    if 0xE0 <= lead < 0xF0 && 2 < |t| {
      Lead3Table(lead, t[1]);
    }
    if 0xE0 <= lead < 0xF0 && 2 < |t| && ValidLead3(lead, t[1]) && IsTrail(t[2]) {
      c, i := Join3(lead, t[1], t[2]), at + 3;
      assert Next(t) == Read(c, 3);
      assert c != -1 by {
        JoinNotBad(t);
      }
    } else if 0xC2 <= lead < 0xE0 && 1 != |t| && IsTrail(t[1]) {
      c, i := Join2(lead, t[1]), at + 2;
      assert Next(t) == Read(c, 2);
      assert c != -1 by {
        JoinNotBad(t);
      }
    } else {
      assert Next(t).c == -1 || Next(t).used == 4 by {
        LongOrBad(t);
      }
      var length := Int32(|t|);
      c, i := NextCharSafeBody(t, 1, length, lead);
      CastIsSeen(t);
      i := at + i;
    }
  }

  lemma JoinNotBad(t: seq<byte>)
    requires t != [] && t[0] >= 0x80 && Next(t).used > 1 && t[0] < 0xF0
    requires t[0] < 0xE0 || Next(t).used == 3
    ensures Next(t).c != -1
  {
  }

  lemma LongOrBad(t: seq<byte>)
    requires t != [] && t[0] >= 0x80
    requires !(0xE0 <= t[0] < 0xF0 && 2 < |t| && SecondOk(t[0], t[1]) && IsTrail(t[2]))
    requires !(0xC2 <= t[0] < 0xE0 && 1 != |t| && IsTrail(t[1]))
    ensures Next(t).c == -1 || Next(t).used == 4
  {
    hide Join2;
    hide Join3;
    hide Join4;
  }

  lemma CastIsSeen(t: seq<byte>)
    requires t != []
    ensures var length := Int32(|t|);
            && (if length < 1 then 4 <= |t| else length <= |t|)
            && Next(t[..if length < 1 then |t| else length]) == Next(t[..Seen(|t|)])
  {
    hide Next;
    var length := Int32(|t|);
    assert t[..|t|] == t;
    if length >= 4 {
      NextLooksAtFour(t, length);
    }
  }

  lemma DecodeIs(s: seq<byte>, at: nat)
    requires at < |s|
    ensures var r := Next32(s[at..]); Decode32(s[at..]) == [r.c] + Decode32(s[at + r.used..])
  {
    hide Next32;
    assert s[at..][Next32(s[at..]).used..] == s[at + Next32(s[at..]).used..];
  }

  lemma DecodeEnd(s: seq<byte>, at: nat)
    requires at <= |s|
    ensures Decode32(s[at..]) == [] <==> at == |s|
  {
    hide Next32;
  }

  /** An ASCII character is its own byte, and no other byte begins one. */
  lemma AsciiByte(s: seq<byte>, at: nat)
    requires at < |s|
    ensures var c := Decode32(s[at..])[0];
            && |Decode32(s[at..])| > 0
            && (s[at] < 0x80 ==> c == s[at] && Decode32(s[at..])[1..] == Decode32(s[at + 1..]))
            && (s[at] >= 0x80 ==> c == BAD || c >= 0x80)
  {
    var t := s[at..];
    assert t[0] == s[at];
    DecodeIs(s, at);
    hide Decode32;
    if s[at] < 0x80 {
      assert Next32(t) == Read(t[0], 1);
    } else {
      NotAscii(t);
      NotAscii(t[..Seen(|t|)]);
    }
  }

  lemma NotAscii(t: seq<byte>)
    requires t != [] && t[0] >= 0x80
    ensures Next(t).c == BAD || Next(t).c >= 0x80
  {
    if Next(t).c != -1 {
      NextIsEncode(t);
      EncodeShape(Next(t).c);
    }
  }

  method EatSameChars(p: seq<byte>, s: seq<byte>, pi: nat, si: nat) returns (pi': nat, si': nat)
    requires pi <= |p| && si <= |s|
    ensures pi <= pi' <= |p| && si <= si' <= |s|
    ensures (Decode32(p[pi'..]), Decode32(s[si'..])) == EatSame(Decode32(p[pi..]), Decode32(s[si..]))
  {
    hide Next32;
    hide Decode32;
    hide EatSame;
    pi', si' := pi, si;
    var escape: int := -1;
    ghost var goal := EatSame(Decode32(p[pi..]), Decode32(s[si..]));
    while pi' != |p| && si' != |s|
      invariant pi <= pi' <= |p| && si <= si' <= |s|
      invariant escape == -1 || (pi <= escape == pi' - 1 && p[escape] == ESCAPE && si' < |s|)
      invariant goal == EatSame(Decode32(p[if escape == -1 then pi' else escape..]), Decode32(s[si'..]))
      decreases |p| - pi'
    {
      AsciiByte(p, pi');
      DecodeEnd(s, si');
      if escape == -1 && IsWild(p[pi']) {
        EatStops(Decode32(p[pi'..]), Decode32(s[si'..]));
        return;
      }
      if escape == -1 && p[pi'] == ESCAPE {
        escape := pi';
        pi' := pi' + 1;
        continue;
      }
      if escape != -1 {
        AsciiByte(p, escape);
      }
      var pc, pnext := NextCode(p, pi');
      var sc, snext := NextCode(s, si');
      DecodeIs(p, pi');
      DecodeIs(s, si');
      ghost var rest := Decode32(p[if escape == -1 then pi' else escape..]);
      EatOne(rest, escape != -1, pc, Decode32(p[pnext..]), sc, Decode32(s[snext..]));
      if pc == sc && pc != BAD {
        pi', si' := pnext, snext;
      } else {
        if escape != -1 {
          pi' := escape;
        }
        return;
      }
      escape := -1;
    }
    DecodeEnd(p, pi');
    DecodeEnd(s, si');
    if escape == -1 {
      EatStops(Decode32(p[pi'..]), Decode32(s[si'..]));
    } else {
      AsciiByte(p, escape);
      EatLone(Decode32(p[escape..]), Decode32(s[si'..]));
    }
  }

  lemma EatStops(p: text, s: text)
    requires p == [] || s == [] || IsWild(p[0])
    ensures EatSame(p, s) == (p, s)
  {
  }

  /** A lone backslash is dropped. */
  lemma EatLone(p: text, s: text)
    requires p == [ESCAPE] && s != []
    ensures EatSame(p, s) == ([], s)
  {
  }

  /** One turn of the loop above, on code points. */
  lemma EatOne(p: text, escaped: bool, pc: int, prest: text, sc: int, srest: text)
    requires p == (if escaped then [ESCAPE] else []) + [pc] + prest
    requires !escaped ==> !IsWild(pc) && pc != ESCAPE
    ensures EatSame(p, [sc] + srest) == if Same(pc, sc) then EatSame(prest, srest) else (p, [sc] + srest)
  {
    var s := [sc] + srest;
    assert s[0] == sc && s[1..] == srest;
    if escaped {
      assert p[0] == ESCAPE && p[1] == pc && p[2..] == prest;
    } else {
      assert p[0] == pc && p[1..] == prest;
    }
  }

  method EatWildcards(p: seq<byte>, pi: nat) returns (pi': nat)
    requires pi <= |p|
    ensures pi <= pi' <= |p| && (pi' == |p| || !IsWild(p[pi']))
    ensures Decode32(p[pi'..]) == EatWild(Decode32(p[pi..]))
  {
    hide Next32;
    hide Decode32;
    pi' := pi;
    while pi' != |p| && IsWild(p[pi'])
      invariant pi <= pi' <= |p|
      invariant EatWild(Decode32(p[pi'..])) == EatWild(Decode32(p[pi..]))
    {
      AsciiByte(p, pi');
      pi' := pi' + 1;
    }
    if pi' < |p| {
      AsciiByte(p, pi');
    } else {
      DecodeEnd(p, pi');
    }
  }

  /** `MatchPatternT` with `NextCharUTF8`, on suffixes of the two strings. */
  method MatchPattern(s: seq<byte>, p: seq<byte>, si0: nat, pi0: nat, depth: nat) returns (r: bool)
    requires si0 <= |s| && pi0 <= |p|
    ensures r == Matcher(Decode32(s[si0..]), Decode32(p[pi0..]), depth)
    decreases |p| - pi0, 1
  {
    hide Next32;
    hide Decode32;
    if depth > MAX_DEPTH {
      return false;
    }
    var pi, si := EatSameChars(p, s, pi0, si0);
    r := MatchBranch(s, p, si, pi, depth);
  }

  /** The part of `MatchPatternT` after `EatSameChars`. */
  method MatchBranch(s: seq<byte>, p: seq<byte>, si: nat, pi: nat, depth: nat) returns (r: bool)
    requires si <= |s| && pi <= |p|
    ensures r == Branch(Decode32(s[si..]), Decode32(p[pi..]), depth)
    decreases |p| - pi, 0
  {
    hide Next32;
    hide Decode32;
    hide EatWild;
    hide Matcher;
    hide Suffixes;
    DecodeEnd(s, si);
    DecodeEnd(p, pi);
    if si == |s| {
      var end := EatWildcards(p, pi);
      DecodeEnd(p, end);
      return end == |p|;
    }
    if pi == |p| {
      return false;
    }
    AsciiByte(p, pi);
    if p[pi] == QUERY {
      r := MatchPattern(s, p, si, pi + 1, depth + 1);
      if !r {
        var c, next := NextCode(s, si);
        DecodeIs(s, si);
        assert Decode32(s[si..])[1..] == Decode32(s[next..]);
        r := MatchPattern(s, p, next, pi + 1, depth + 1);
      }
    } else if p[pi] == STAR {
      var next := EatWildcards(p, pi + 1);
      r := MatchSuffixes(s, p, si, next, depth);
      if !r {
        var end := EatWildcards(p, pi);
        DecodeEnd(p, end);
        r := end == |p|;
      }
    } else {
      r := false;
    }
  }

  /** A byte inside a character, or one that is no character, starts no match of a literal. */
  lemma TrailMatchesNothing(s: seq<byte>, at: nat, p: text, depth: nat)
    requires at < |s| && IsTrail(s[at]) && (p == [] || !IsWild(p[0]))
    ensures !Matcher(Decode32(s[at..]), p, depth)
  {
    assert s[at..][0] == s[at];
    DecodeIs(s, at);
    assert Decode32(s[at..])[0] == BAD;
  }

  lemma TrailsWithin(s: seq<byte>, at: nat)
    requires at < |s|
    ensures forall k | at < k < at + Next32(s[at..]).used :: IsTrail(s[k])
  {
    hide Next;
    var t := s[at..];
    ReadsTrails(t);
    ReadsTrails(t[..Seen(|t|)]);
    assert forall k | 0 <= k < |t| :: t[k] == s[at + k];
  }

  /** The loop of `MatchPatternT` over the suffixes of the string, byte by byte. */
  method MatchSuffixes(s: seq<byte>, p: seq<byte>, si: nat, pi: nat, depth: nat) returns (r: bool)
    requires si <= |s| && pi <= |p|
    requires pi == |p| || !IsWild(p[pi])
    ensures r == Suffixes(Decode32(s[si..]), Decode32(p[pi..]), depth)
    decreases |p| - pi, 2
  {
    hide Next32;
    hide Decode32;
    hide Matcher;
    DecodeEnd(p, pi);
    if pi < |p| {
      AsciiByte(p, pi);
    }
    ghost var q := Decode32(p[pi..]);
    var i := si;
    ghost var b := si;
    while i != |s|
      invariant si <= i <= b <= |s|
      invariant forall k | i <= k < b :: IsTrail(s[k])
      invariant Suffixes(Decode32(s[si..]), q, depth) == Suffixes(Decode32(s[b..]), q, depth)
    {
      r := MatchPattern(s, p, i, pi, depth + 1);
      if i < b {
        TrailMatchesNothing(s, i, q, depth + 1);
      } else {
        DecodeIs(s, i);
        TrailsWithin(s, i);
        b := i + Next32(s[i..]).used;
        assert Decode32(s[i..])[1..] == Decode32(s[b..]);
      }
      if r {
        return;
      }
      i := i + 1;
    }
    DecodeEnd(s, b);
    r := false;
  }
}
