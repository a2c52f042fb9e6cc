/**
 Searching and trimming a piece of text (string_piece.cpp, TrimStringPieceT in string_util.cpp).
 Positions are machine words: the largest one stands for "not found".
 */
module StringPiece {
  import opened Words

  type text = seq<byte>

  const NPOS: nat := U64 - 1

  predicate OccursAt(s: text, d: text, i: nat) {
    i + |d| <= |s| && s[i..i + |d|] == d
  }

  lemma DiffersAt(s: text, d: text, i: nat, k: nat)
    requires k < |d| && (i + k >= |s| || s[i + k] != d[k])
    ensures !OccursAt(s, d, i)
  {
    if i + |d| <= |s| {
      assert s[i..i + |d|][k] == s[i + k];
    }
  }

  /** `std::search`: the first place in s[pos..] where d occurs, or the end. */
  method Search(s: text, pos: nat, d: text) returns (r: nat)
    requires pos <= |s|
    ensures pos <= r <= |s|
    ensures forall i | pos <= i < r :: !OccursAt(s, d, i)
    ensures OccursAt(s, d, r) || r == |s|
  {
    r := pos;
    while r < |s|
      invariant pos <= r <= |s|
      invariant forall i | pos <= i < r :: !OccursAt(s, d, i)
    {
      var k := 0;
      while k < |d| && r + k < |s| && s[r + k] == d[k]
        invariant k <= |d| && r + k <= |s|
        invariant forall m | 0 <= m < k :: s[r + m] == d[m]
      {
        k := k + 1;
      }
      if k == |d| {
        assert OccursAt(s, d, r);
        return;
      }
      DiffersAt(s, d, r, k);
      r := r + 1;
    }
  }

  /** `find` of a substring. */
  method Find(self: text, s: text, pos: nat) returns (r: nat)
    requires |self| < NPOS
    ensures r == NPOS ==> forall i | pos <= i <= |self| :: !OccursAt(self, s, i)
    ensures r != NPOS ==> pos <= r <= |self| && OccursAt(self, s, r)
    ensures r != NPOS ==> forall i | pos <= i < r :: !OccursAt(self, s, i)
  {
    if pos > |self| {
      return NPOS;
    }
    var x := Search(self, pos, s);
    if x + |s| <= |self| {
      assert OccursAt(self, s, x);
      return x;
    }
    return NPOS;
  }

  /** `find` of one character. */
  method FindChar(self: text, c: byte, pos: nat) returns (r: nat)
    requires |self| < NPOS
    ensures r == NPOS ==> forall i | pos <= i < |self| :: self[i] != c
    ensures r != NPOS ==> pos <= r < |self| && self[r] == c && forall i | pos <= i < r :: self[i] != c
  {
    r := pos;
    while r < |self|
      invariant forall i | pos <= i < r && i < |self| :: self[i] != c
      decreases |self| - r
    {
      if self[r] == c {
        return;
      }
      r := r + 1;
    }
    return NPOS;
  }

  /** `BuildLookupTable`. */
  method LookupTable(wanted: text) returns (table: array<bool>)
    ensures fresh(table) && table.Length == 256
    ensures forall c: byte :: table[c] <==> c in wanted
  {
    table := new bool[256](_ => false);
    for i := 0 to |wanted|
      invariant forall c: byte :: table[c] <==> c in wanted[..i]
    {
      table[wanted[i]] := true;
      assert wanted[..i + 1] == wanted[..i] + [wanted[i]];
    }
    assert wanted[..|wanted|] == wanted;
  }

  method FindFirstOf(self: text, s: text, pos: nat) returns (r: nat)
    requires |self| < NPOS
    ensures r == NPOS ==> forall i | pos <= i < |self| :: self[i] !in s
    ensures r != NPOS ==> pos <= r < |self| && self[r] in s && forall i | pos <= i < r :: self[i] !in s
  {
    if |self| == 0 || |s| == 0 {
      return NPOS;
    }
    if |s| == 1 {
      r := FindChar(self, s[0], pos);
      return;
    }
    var lookup := LookupTable(s);
    r := pos;
    while r < |self|
      invariant forall i | pos <= i < r && i < |self| :: self[i] !in s
      decreases |self| - r
    {
      if lookup[self[r]] {
        return;
      }
      r := r + 1;
    }
    return NPOS;
  }

  /** `find_first_not_of`; with nothing to skip the answer is 0, whatever the position. */
  method FindFirstNotOf(self: text, s: text, pos: nat) returns (r: nat)
    requires |self| < NPOS
    ensures self != [] && s == [] ==> r == 0
    ensures self == [] ==> r == NPOS
    ensures s != [] && r == NPOS ==> forall i | pos <= i < |self| :: self[i] in s
    ensures s != [] && r != NPOS ==> pos <= r < |self| && self[r] !in s && forall i | pos <= i < r :: self[i] in s
  {
    if |self| == 0 {
      return NPOS;
    }
    if |s| == 0 {
      return 0;
    }
    if |s| == 1 {
      r := FindFirstOther(self, s[0], pos);
      return;
    }
    var lookup := LookupTable(s);
    r := pos;
    while r < |self|
      invariant pos <= r
      invariant forall i | pos <= i < r && i < |self| :: self[i] in s
      decreases |self| - r
    {
      if !lookup[self[r]] {
        return;
      }
      r := r + 1;
    }
    return NPOS;
  }

  /** `find_first_not_of` one character. */
  method FindFirstOther(self: text, c: byte, pos: nat) returns (r: nat)
    requires |self| < NPOS
    ensures r == NPOS ==> forall i | pos <= i < |self| :: self[i] == c
    ensures r != NPOS ==> pos <= r < |self| && self[r] != c && forall i | pos <= i < r :: self[i] == c
  {
    r := pos;
    while r < |self|
      invariant pos <= r
      invariant forall i | pos <= i < r && i < |self| :: self[i] == c
      decreases |self| - r
    {
      if self[r] != c {
        return;
      }
      r := r + 1;
    }
    return NPOS;
  }

  /** `find_last_not_of`, at or before a position. */
  method FindLastNotOf(self: text, s: text, pos: nat) returns (r: nat)
    requires |self| < NPOS
    ensures r == NPOS ==> forall i | 0 <= i < |self| && i <= pos :: self[i] in s
    ensures r != NPOS ==> r < |self| && r <= pos && self[r] !in s
    ensures r != NPOS ==> forall i | r < i < |self| && i <= pos :: self[i] in s
  {
    if |self| == 0 {
      return NPOS;
    }
    r := if pos < |self| - 1 then pos else |self| - 1;
    if |s| == 0 {
      return;
    }
    var lookup := LookupTable(s);
    while lookup[self[r]]
      invariant r < |self| && r <= pos
      invariant forall i | r < i < |self| && i <= pos :: self[i] in s
      decreases r
    {
      if r == 0 {
        return NPOS;
      }
      r := r - 1;
    }
  }

  /** `substr`: position and length are cut back to what there is. */
  function Substr(s: text, pos: nat, n: nat): (r: text)
    ensures |r| <= |s|
  {
    var p := if pos > |s| then |s| else pos;
    var m := if n > |s| - p then |s| - p else n;
    s[p..p + m]
  }

  // ----- trimming -----

  function DropFront(s: text, ws: text): (r: text) {
    if s == [] || s[0] !in ws then s else DropFront(s[1..], ws)
  }

  function DropBack(s: text, ws: text): (r: text) {
    if s == [] || s[|s| - 1] !in ws then s else DropBack(s[..|s| - 1], ws)
  }

  function Trimmed(s: text, ws: text): (r: text) {
    DropBack(DropFront(s, ws), ws)
  }

  lemma {:induction false} DropFrontAt(s: text, ws: text, i: nat)
    requires i <= |s| && (forall k | 0 <= k < i :: s[k] in ws) && (i == |s| || s[i] !in ws)
    ensures DropFront(s, ws) == s[i..]
  {
    if i > 0 {
      DropFrontAt(s[1..], ws, i - 1);
      assert s[1..][i - 1..] == s[i..];
    }
  }

  lemma {:induction false} DropBackAt(s: text, ws: text, i: nat)
    requires i <= |s| && (forall k | i <= k < |s| :: s[k] in ws) && (i == 0 || s[i - 1] !in ws)
    ensures DropBack(s, ws) == s[..i]
    decreases |s|
  {
    if i < |s| {
      DropBackAt(s[..|s| - 1], ws, i);
      assert s[..|s| - 1][..i] == s[..i];
    }
  }

  /** `TrimStringPieceT`, including text that is trimmed away entirely, where the end wraps to 0. */
  method Trim(input: text, ws: text, leading: bool, trailing: bool) returns (r: text)
    requires |input| < NPOS
    ensures var t := if leading then DropFront(input, ws) else input;
            r == if trailing then DropBack(t, ws) else t
  {
    var begin, end := 0, |input|;
    if leading {
      begin := FindFirstNotOf(input, ws, 0);
    }
    if trailing {
      end := FindLastNotOf(input, ws, NPOS);
      end := (end + 1) % U64;
    }
    r := Substr(input, begin, (end - begin) % U64);
    TrimmedAt(input, ws, begin, end, leading, trailing);
  }

  lemma SubstrPast(s: text, n: nat)
    requires |s| < NPOS
    ensures Substr(s, NPOS, n) == []
  {
  }

  lemma SubstrWithin(s: text, begin: nat, end: nat)
    requires begin <= end <= |s| < NPOS
    ensures Substr(s, begin, (end - begin) % U64) == s[begin..end]
  {
  }

  lemma TrimmedAt(s: text, ws: text, begin: nat, end: nat, leading: bool, trailing: bool)
    requires |s| < NPOS
    requires if !leading then begin == 0
             else if begin == NPOS then forall i | 0 <= i < |s| :: s[i] in ws
             else begin < |s| && s[begin] !in ws && forall i | 0 <= i < begin :: s[i] in ws
    requires if !trailing then end == |s|
             else if end == 0 then forall i | 0 <= i < |s| :: s[i] in ws
             else end <= |s| && s[end - 1] !in ws && forall i | end <= i < |s| :: s[i] in ws
    ensures var t := if leading then DropFront(s, ws) else s;
            Substr(s, begin, (end - begin) % U64) == if trailing then DropBack(t, ws) else t
  {
    if begin == NPOS {
      SubstrPast(s, (end - begin) % U64);
      DropFrontAt(s, ws, |s|);
    } else {
      SubstrWithin(s, begin, end);
      if leading {
        DropFrontAt(s, ws, begin);
      }
      var t := s[begin..];
      assert s[0..] == s;
      if trailing {
        DropBackAt(t, ws, end - begin);
      }
      assert t[..end - begin] == s[begin..end];
    }
  }

  /** Trimming takes whitespace from both ends and nothing else, until none is left there. */
  lemma TrimmedCore(s: text, ws: text) returns (i: nat, j: nat)
    ensures i <= j <= |s| && Trimmed(s, ws) == s[i..j]
    ensures forall k | 0 <= k < i || j <= k < |s| :: s[k] in ws
    ensures i < j ==> s[i] !in ws && s[j - 1] !in ws
  {
    i := 0;
    while i < |s| && s[i] in ws
      invariant i <= |s| && forall k | 0 <= k < i :: s[k] in ws
    {
      i := i + 1;
    }
    DropFrontAt(s, ws, i);
    j := |s|;
    while j > i && s[j - 1] in ws
      invariant i <= j <= |s| && forall k | j <= k < |s| :: s[k] in ws
    {
      j := j - 1;
    }
    DropBackAt(s[i..], ws, j - i);
    assert s[i..][..j - i] == s[i..j];
  }
}
