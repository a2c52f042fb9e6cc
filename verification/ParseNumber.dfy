/**
 Text to integer (string_number_conversions.cpp, parse_number.cpp): one digit loop for both
 signs, with bounds checked before every step so that no intermediate value leaves the type.
 */
module ParseNumber {

  /** The target type and the base, as the conversion traits give them. */
  datatype Traits = Traits(base: nat, min: int, max: int) {
    predicate Valid() {
      && 2 <= base <= 36
      && base <= max
      && (min == 0 || min <= 0 - base)
    }

    predicate Signed() {
      min < 0
    }
  }

  const HEX_INT64 := Traits(16, -0x8000_0000_0000_0000, 0x7FFF_FFFF_FFFF_FFFF)

  /** The digit a character stands for, or -1. */
  function Digit(c: char, base: nat): (d: int)
    requires 2 <= base <= 36
    ensures -1 <= d < base
  {
    var x := c as int;
    if base <= 10 then
      if '0' as int <= x < '0' as int + base then x - '0' as int else -1
    else if '0' <= c <= '9' then x - '0' as int
    else if 'a' as int <= x < 'a' as int + base - 10 then x - 'a' as int + 10
    else if 'A' as int <= x < 'A' as int + base - 10 then x - 'A' as int + 10
    else -1
  }

  /** The characters for the digits, in lower and in upper case. */
  function Small(d: nat): (c: char)
    requires d < 36
  {
    "0123456789abcdefghijklmnopqrstuvwxyz"[d]
  }

  function Capital(d: nat): (c: char)
    requires d < 36
  {
    "0123456789ABCDEFGHIJKLMNOPQRSTUVWXYZ"[d]
  }

  predicate StandsFor(c: char, d: nat)
    requires d < 36
  {
    c == Small(d) || c == Capital(d)
  }

  /** The characters up to '9' follow each other, and so do the letters of either case. */
  lemma SmallOrder(d: nat)
    requires d < 36
    ensures Small(d) as int == if d < 10 then '0' as int + d else 'a' as int + d - 10
  {
  }

  lemma CapitalOrder(d: nat)
    requires d < 36
    ensures Capital(d) as int == if d < 10 then '0' as int + d else 'A' as int + d - 10
  {
  }

  /** A character is a digit of the base exactly if it stands for one below the base, which is its value. */
  lemma DigitIsPlace(c: char, base: nat, d: nat)
    requires 2 <= base <= 36 && d < base
    ensures Digit(c, base) == d <==> StandsFor(c, d)
  {
    hide Small;
    hide Capital;
    SmallOrder(d);
    CapitalOrder(d);
  }

  predicate AllDigits(s: string, base: nat)
    requires 2 <= base <= 36
  {
    forall i :: 0 <= i < |s| ==> Digit(s[i], base) >= 0
  }

  /** The number a string of digits denotes; characters that are no digits count as zero. */
  function Value(s: string, base: nat): (v: nat)
    requires 2 <= base <= 36
  {
    if s == [] then 0
    else
      var d := Digit(s[|s| - 1], base);
      Value(s[..|s| - 1], base) * base + if d < 0 then 0 else d
  }

  // ----- numbers and their digits -----

  /** The number with the given digits, most significant first. */
  function FromDigits(ds: seq<nat>, base: nat): (v: nat) {
    if ds == [] then 0 else FromDigits(ds[..|ds| - 1], base) * base + ds[|ds| - 1]
  }

  /** The characters stand for the digits, each in lower or upper case. */
  predicate Spells(s: string, ds: seq<nat>, base: nat)
    requires 2 <= base <= 36
  {
    && |s| == |ds|
    && forall i | 0 <= i < |ds| :: ds[i] < base && StandsFor(s[i], ds[i])
  }

  /** A text of digits, at least one, for the number. */
  ghost predicate Denotes(s: string, base: nat, v: nat)
    requires 2 <= base <= 36
  {
    s != [] && exists ds :: Spells(s, ds, base) && FromDigits(ds, base) == v
  }

  lemma {:induction false} SpellsValue(s: string, ds: seq<nat>, base: nat)
    requires 2 <= base <= 36 && Spells(s, ds, base)
    ensures AllDigits(s, base) && Value(s, base) == FromDigits(ds, base)
  {
    hide Digit;
    if s != [] {
      var n := |s| - 1;
      SpellsValue(s[..n], ds[..n], base);
      DigitIsPlace(s[n], base, ds[n]);
      assert forall i | 0 <= i < n :: s[i] == s[..n][i];
    }
  }

  /** Digits and value of the parser are what texts denote. */
  lemma DenotesIff(s: string, base: nat, v: nat)
    requires 2 <= base <= 36
    ensures Denotes(s, base, v) <==> s != [] && AllDigits(s, base) && Value(s, base) == v
  {
    hide Digit;
    hide Value;
    hide StandsFor;
    if Denotes(s, base, v) {
      var ds :| Spells(s, ds, base) && FromDigits(ds, base) == v;
      SpellsValue(s, ds, base);
    }
    if s != [] && AllDigits(s, base) {
      var ds := seq(|s|, i requires 0 <= i < |s| => Digit(s[i], base) as nat);
      forall i | 0 <= i < |ds| ensures ds[i] < base && StandsFor(s[i], ds[i]) {
        DigitIsPlace(s[i], base, ds[i]);
      }
      SpellsValue(s, ds, base);
    }
  }

  /** The text of a number in a base, by looking the digits up. */
  function Written(v: nat, base: nat): (s: string)
    requires 2 <= base <= 36
    ensures s != []
  {
    if v < base then [Small(v)]
    else
      QuotientSmaller(v, base);
      Written(v / base, base) + [Small(v % base)]
  }

  lemma QuotientSmaller(v: nat, base: nat)
    requires 2 <= base <= v
    ensures v / base < v && v == v / base * base + v % base
  {
  }

  lemma WrittenIs(v: nat, base: nat)
    requires 2 <= base <= 36
    ensures Written(v, base) == if v < base then [Small(v)] else Written(v / base, base) + [Small(v % base)]
  {
    hide Small;
  }

  lemma {:induction false} WrittenDenotes(v: nat, base: nat)
    requires 2 <= base <= 36
    ensures Denotes(Written(v, base), base, v)
  {
    hide Small;
    hide Capital;
    hide Written;
    hide Spells;
    hide FromDigits;
    WrittenIs(v, base);
    if v < base {
      NothingSpelt(base);
      SpellsMore([], [], v, base);
      assert [] + [v] == [v] && [] + [Small(v)] == [Small(v)];
    } else {
      QuotientSmaller(v, base);
      var q, r := v / base, v % base;
      WrittenDenotes(q, base);
      var ds :| Spells(Written(q, base), ds, base) && FromDigits(ds, base) == q;
      SpellsMore(Written(q, base), ds, r, base);
    }
  }

  lemma NothingSpelt(base: nat)
    requires 2 <= base <= 36
    ensures Spells([], [], base) && FromDigits([], base) == 0
  {
  }

  lemma SpellsMore(s: string, ds: seq<nat>, d: nat, base: nat)
    requires 2 <= base <= 36 && d < base && Spells(s, ds, base)
    ensures Spells(s + [Small(d)], ds + [d], base)
    ensures FromDigits(ds + [d], base) == FromDigits(ds, base) * base + d
  {
    hide Small;
    hide Capital;
    assert (ds + [d])[..|ds|] == ds;
  }

  /** The length of the longest prefix of digits. */
  function DigitRun(s: string, base: nat): (k: nat)
    requires 2 <= base <= 36
    ensures k <= |s| && AllDigits(s[..k], base)
    ensures k < |s| ==> Digit(s[k], base) == -1
  {
    if s == [] || Digit(s[0], base) < 0 then 0
    else
      var k := DigitRun(s[1..], base);
      assert forall i :: 0 < i <= k ==> s[i] == s[1..][i - 1];
      k + 1
  }

  lemma TimesGrows(v: nat, base: nat)
    requires base >= 1
    ensures v <= v * base
  {
  }

  lemma {:induction false} ValueGrows(s: string, base: nat, k: nat)
    requires 2 <= base <= 36 && k <= |s|
    ensures Value(s[..k], base) <= Value(s, base)
  {
    if k == |s| {
      assert s[..k] == s;
    } else {
      var t := s[..|s| - 1];
      ValueGrows(t, base, k);
      assert t[..k] == s[..k];
      TimesGrows(Value(t, base), base);
    }
  }

  // ----- the digit loop -----

  /** Division as the language performs it: toward zero. */
  function TruncDiv(a: int, b: nat): (q: int)
    requires b > 0
  {
    if a >= 0 then a / b else -(-a / b)
  }

  function TruncMod(a: int, b: nat): (r: int)
    requires b > 0
  {
    if a >= 0 then a % b else -(-a % b)
  }

  /** `Positive::CheckBounds` and `Negative::CheckBounds`: may the next digit be appended? */
  predicate InBounds(neg: bool, out: int, digit: nat, t: Traits)
    requires t.Valid()
  {
    if neg then
      !(out < TruncDiv(t.min, t.base) || (out == TruncDiv(t.min, t.base) && digit > 0 - TruncMod(t.min, t.base)))
    else
      !(out > t.max / t.base || (out == t.max / t.base && digit > t.max % t.base))
  }

  lemma QuotientBound(m: nat, base: nat, out: nat, digit: nat)
    requires base > 0 && digit < base
    ensures out * base + digit <= m <==> out < m / base || (out == m / base && digit <= m % base)
  {
    var q, r := m / base, m % base;
    assert m == q * base + r;
    if out < q {
      assert (out + 1) * base <= q * base;
    } else if out > q {
      assert (q + 1) * base <= out * base;
    }
  }

  function Signum(neg: bool, m: nat): (v: int) {
    if neg then 0 - m else m
  }

  /** The test is exact: it passes just when the new value is still in range. */
  lemma BoundsAreExact(neg: bool, v: nat, digit: nat, t: Traits)
    requires t.Valid() && digit < t.base && (neg ==> t.Signed())
    ensures InBounds(neg, Signum(neg, v), digit, t) <==> v * t.base + digit <= Limit(neg, t)
  {
    QuotientBound(Limit(neg, t), t.base, v, digit);
  }

  /** The magnitude limit on one side of zero. */
  function Limit(neg: bool, t: Traits): (m: nat)
    requires t.Valid() && (neg ==> t.Signed())
    ensures m >= t.base
  {
    if neg then 0 - t.min else t.max
  }

  /** What the digit loop computes, stated by the value of the longest run of digits. */
  function Digits(neg: bool, s: string, t: Traits): (r: (bool, int))
    requires t.Valid() && (neg ==> t.Signed())
  {
    var k := DigitRun(s, t.base);
    var v := Value(s[..k], t.base);
    var m := Limit(neg, t);
    if v > m then (false, Signum(neg, m)) else (s != [] && k == |s|, Signum(neg, v))
  }

  lemma {:induction false} RunIs(s: string, base: nat, k: nat)
    requires 2 <= base <= 36 && k <= |s| && AllDigits(s[..k], base)
    requires k < |s| ==> Digit(s[k], base) == -1
    ensures DigitRun(s, base) == k
  {
    if k > 0 {
      assert s[..k][0] == s[0];
      assert s[1..][..k - 1] == s[..k][1..];
      RunIs(s[1..], base, k - 1);
    }
  }

  lemma {:induction false} RunAtLeast(s: string, base: nat, k: nat)
    requires 2 <= base <= 36 && k <= |s| && AllDigits(s[..k], base)
    ensures DigitRun(s, base) >= k
  {
    if k > 0 {
      assert s[..k][0] == s[0];
      assert s[1..][..k - 1] == s[..k][1..];
      RunAtLeast(s[1..], base, k - 1);
    }
  }

  lemma ValueStep(s: string, base: nat, i: nat)
    requires 2 <= base <= 36 && i < |s| && Digit(s[i], base) >= 0
    ensures Value(s[..i + 1], base) == Value(s[..i], base) * base + Digit(s[i], base)
  {
    assert s[..i + 1][..i] == s[..i];
  }

  /** One turn of the loop: the bounds are compared from the second digit on, and no value leaves the type. */
  method AppendDigit(neg: bool, out: int, digit: nat, first: bool, t: Traits, ghost v: nat)
    returns (fits: bool, next: int)
    requires t.Valid() && (neg ==> t.Signed()) && digit < t.base
    requires out == Signum(neg, v) && v <= Limit(neg, t) && (first ==> v == 0)
    ensures fits <==> v * t.base + digit <= Limit(neg, t)
    ensures fits ==> next == Signum(neg, v * t.base + digit)
  {
    hide InBounds;
    BoundsAreExact(neg, v, digit, t);
    next := out;
    if first {
      assert v * t.base == 0;
    } else {
      if !InBounds(neg, out, digit, t) {
        return false, out;
      }
      TimesSigned(neg, v, t.base);
      next := out * t.base;
      assert t.min <= next <= t.max;
    }
    next := if neg then next - digit else next + digit;
    assert t.min <= next <= t.max;
    fits := true;
  }

  /** `Base<Sign>::Invoke` after the optional hexadecimal prefix. */
  method DigitLoop(neg: bool, s: string, t: Traits) returns (ok: bool, out: int)
    requires t.Valid() && (neg ==> t.Signed()) && s != []
    ensures (ok, out) == Digits(neg, s, t)
  {
    hide Digit;
    hide Value;
    hide DigitRun;
    hide InBounds;
    hide Digits;
    out := 0;
    ghost var v: nat := 0;
    var i := 0;
    assert Value(s[..0], t.base) == 0 by { EmptyValue(s, t.base); }
    while i < |s|
      invariant 0 <= i <= |s|
      invariant AllDigits(s[..i], t.base)
      invariant v == Value(s[..i], t.base) && out == Signum(neg, v) && v <= Limit(neg, t)
    {
      var digit := Digit(s[i], t.base);
      if digit < 0 {
        Stops(neg, s, t, i);
        return false, out;
      }
      ValueStep(s, t.base, i);
      var fits, next := AppendDigit(neg, out, digit, i == 0, t, v);
      if !fits {
        Overflows(neg, s, t, i + 1);
        return false, if neg then t.min else t.max;
      }
      out := next;
      v := Value(s[..i + 1], t.base);
      i := i + 1;
    }
    Stops(neg, s, t, |s|);
    ok := true;
  }

  lemma EmptyValue(s: string, base: nat)
    requires 2 <= base <= 36
    ensures Value(s[..0], base) == 0
  {
  }

  /** The loop has read the whole run of digits and its value is in range. */
  lemma Stops(neg: bool, s: string, t: Traits, i: nat)
    requires t.Valid() && (neg ==> t.Signed()) && s != []
    requires i <= |s| && AllDigits(s[..i], t.base) && (i < |s| ==> Digit(s[i], t.base) == -1)
    requires Value(s[..i], t.base) <= Limit(neg, t)
    ensures Digits(neg, s, t) == (i == |s|, Signum(neg, Value(s[..i], t.base)))
  {
    RunIs(s, t.base, i);
  }

  lemma TimesSigned(neg: bool, v: nat, base: nat)
    ensures Signum(neg, v) * base == Signum(neg, v * base)
  {
  }

  /** Once a prefix is out of range, so is the whole run of digits. */
  lemma Overflows(neg: bool, s: string, t: Traits, k: nat)
    requires t.Valid() && (neg ==> t.Signed())
    requires k <= |s| && AllDigits(s[..k], t.base) && Value(s[..k], t.base) > Limit(neg, t)
    ensures Digits(neg, s, t) == (false, Signum(neg, Limit(neg, t)))
  {
    RunAtLeast(s, t.base, k);
    var run := s[..DigitRun(s, t.base)];
    assert run[..k] == s[..k];
    ValueGrows(run, t.base, k);
  }

  // ----- sign, prefix and white space -----

  /** A hexadecimal prefix is skipped only when something follows it. */
  function SkipPrefix(s: string, base: nat): (r: string)
    ensures s != [] ==> r != []
  {
    if base == 16 && |s| > 2 && s[0] == '0' && (s[1] == 'x' || s[1] == 'X') then s[2..] else s
  }

  function Unsigned(neg: bool, s: string, t: Traits): (r: (bool, int))
    requires t.Valid() && (neg ==> t.Signed())
  {
    if s == [] then (false, 0) else Digits(neg, SkipPrefix(s, t.base), t)
  }

  function AfterSign(s: string, t: Traits): (r: (bool, int))
    requires t.Valid()
  {
    if s != [] && s[0] == '-' then
      if t.Signed() then Unsigned(true, s[1..], t) else (false, 0)
    else if s != [] && s[0] == '+' then Unsigned(false, s[1..], t)
    else Unsigned(false, s, t)
  }

  /** Leading white space, as the locale sees it, spoils the result but is skipped. */
  function Parsed(s: string, t: Traits, space: char -> bool): (r: (bool, int))
    requires t.Valid()
  {
    if s != [] && space(s[0]) then (false, Parsed(s[1..], t, space).1) else AfterSign(s, t)
  }

  /** `IteratorRangeToNumber::Invoke`. */
  method ToNumber(s: string, t: Traits, space: char -> bool) returns (ok: bool, out: int)
    requires t.Valid()
    ensures (ok, out) == Parsed(s, t, space)
  {
    var rest, clean := s, true;
    while rest != [] && space(rest[0])
      invariant Parsed(s, t, space).1 == Parsed(rest, t, space).1
      invariant Parsed(s, t, space).0 == (clean && Parsed(rest, t, space).0)
      decreases |rest|
    {
      rest, clean := rest[1..], false;
    }
    var neg := rest != [] && rest[0] == '-';
    if neg && !t.Signed() {
      return false, 0;
    }
    if rest != [] && (rest[0] == '-' || rest[0] == '+') {
      rest := rest[1..];
    }
    if rest == [] {
      return false, 0;
    }
    ok, out := DigitLoop(neg, SkipPrefix(rest, t.base), t);
    ok := ok && clean;
  }

  // ----- the text that is accepted -----

  datatype Sign = Bare | Plus | Minus

  /** A written number: sign, hexadecimal prefix or none, digits. */
  datatype Numeral = Numeral(sign: Sign, prefix: string, digits: string) {
    predicate Valid(t: Traits)
      requires t.Valid()
    {
      && digits != []
      && AllDigits(digits, t.base)
      && (sign == Minus ==> t.Signed())
      && (prefix == "" || (t.base == 16 && (prefix == "0x" || prefix == "0X")))
    }

    function Text(): (s: string) {
      (match sign case Bare => "" case Plus => "+" case Minus => "-") + prefix + digits
    }

    function Number(t: Traits): (v: int)
      requires t.Valid()
    {
      Signum(sign == Minus, Value(digits, t.base))
    }
  }

  function Clamp(v: int, t: Traits): (r: int) {
    if v > t.max then t.max else if v < t.min then t.min else v
  }

  lemma NoPrefixInDigits(digits: string, base: nat)
    requires 2 <= base <= 36 && AllDigits(digits, base) && digits != []
    ensures SkipPrefix(digits, base) == digits
    ensures digits[0] != '-' && digits[0] != '+'
  {
    if |digits| > 1 {
      assert Digit(digits[1], base) >= 0;
    }
    assert Digit(digits[0], base) >= 0;
  }

  lemma PrefixSkipped(prefix: string, digits: string, base: nat)
    requires 2 <= base <= 36 && AllDigits(digits, base) && digits != []
    requires prefix == "" || (base == 16 && (prefix == "0x" || prefix == "0X"))
    ensures SkipPrefix(prefix + digits, base) == digits
    ensures (prefix + digits)[0] != '-' && (prefix + digits)[0] != '+'
  {
    if prefix == "" {
      assert prefix + digits == digits;
      NoPrefixInDigits(digits, base);
    } else {
      assert (prefix + digits)[2..] == digits;
    }
  }

  lemma DigitsOfNumeral(neg: bool, digits: string, t: Traits)
    requires t.Valid() && (neg ==> t.Signed()) && AllDigits(digits, t.base) && digits != []
    ensures var v := Signum(neg, Value(digits, t.base));
            Digits(neg, digits, t) == (t.min <= v <= t.max, Clamp(v, t))
  {
    hide Value;
    hide Digit;
    hide DigitRun;
    assert digits[..|digits|] == digits;
    RunIs(digits, t.base, |digits|);
  }

  /** A written number is accepted just when it is in range; out of range it saturates. */
  lemma NumeralParses(n: Numeral, t: Traits, space: char -> bool)
    requires t.Valid() && n.Valid(t)
    requires !space(n.Text()[0])
    ensures Parsed(n.Text(), t, space) == (t.min <= n.Number(t) <= t.max, Clamp(n.Number(t), t))
  {
    hide Digits;
    hide Digit;
    hide Value;
    hide SkipPrefix;
    var body := n.prefix + n.digits;
    PrefixSkipped(n.prefix, n.digits, t.base);
    DigitsOfNumeral(n.sign == Minus, n.digits, t);
    match n.sign {
      case Bare => assert n.Text() == body;
      case Plus => assert n.Text()[1..] == body;
      case Minus => assert n.Text()[1..] == body;
    }
  }

  /** Splits an accepted text into its parts. */
  function Split(s: string, base: nat): (n: Numeral)
    ensures n.Text() == s
  {
    var sign := if s != [] && s[0] == '-' then Minus else if s != [] && s[0] == '+' then Plus else Bare;
    var body := if sign == Bare then s else s[1..];
    var digits := SkipPrefix(body, base);
    Numeral(sign, body[..|body| - |digits|], digits)
  }

  lemma AcceptedIsNumeral(s: string, t: Traits, space: char -> bool)
    requires t.Valid() && Parsed(s, t, space).0
    ensures s != [] && !space(s[0])
    ensures Split(s, t.base).Valid(t)
  {
    var n := Split(s, t.base);
    var k := DigitRun(n.digits, t.base);
    assert n.digits[..|n.digits|] == n.digits;
  }

  /**
   The parser accepts a text if and only if it is a written number in range without leading
   white space, and then returns that number.
   */
  lemma ParseIsExact(s: string, t: Traits, space: char -> bool)
    requires t.Valid()
    ensures Parsed(s, t, space).0 <==>
            exists n: Numeral :: n.Text() == s && n.Valid(t) && !space(s[0]) && t.min <= n.Number(t) <= t.max
    ensures forall n: Numeral :: n.Text() == s && n.Valid(t) && Parsed(s, t, space).0 ==>
                                   Parsed(s, t, space).1 == n.Number(t)
  {
    if Parsed(s, t, space).0 {
      AcceptedIsNumeral(s, t, space);
      var n := Split(s, t.base);
      NumeralParses(n, t, space);
      assert n.Text() == s;
    }
    forall n: Numeral | n.Text() == s && n.Valid(t) && s != [] && !space(s[0])
      ensures Parsed(s, t, space) == (t.min <= n.Number(t) <= t.max, Clamp(n.Number(t), t))
    {
      NumeralParses(n, t, space);
    }
  }

  /** The text of an integer in a base. */
  function WrittenInt(v: int, base: nat): (s: string)
    requires 2 <= base <= 36
    ensures s != []
  {
    if v < 0 then ['-'] + Written(0 - v, base) else Written(v, base)
  }

  /** For every base and every number of the type: the text of the number is accepted as it. */
  lemma WrittenParses(v: int, t: Traits, space: char -> bool)
    requires t.Valid() && t.min <= v <= t.max && !space(WrittenInt(v, t.base)[0])
    ensures Parsed(WrittenInt(v, t.base), t, space) == (true, v)
  {
    hide Digit;
    hide Value;
    hide Parsed;
    hide Written;
    var m: nat := if v < 0 then 0 - v else v;
    WrittenDenotes(m, t.base);
    DenotesIff(Written(m, t.base), t.base, m);
    hide Denotes;
    var n := Numeral(if v < 0 then Minus else Bare, "", Written(m, t.base));
    assert n.Text() == WrittenInt(v, t.base);
    NumeralParses(n, t, space);
  }

  // ----- network-protocol integers -----

  datatype Format = NonNegative | OptionallyNegative

  datatype ParseError = FailedOverflow | FailedUnderflow | FailedParse

  datatype ParseResult = Parse(value: int) | Refused(error: ParseError)

  /** What the header promises: the grammar, then the range. */
  function Promised(s: string, format: Format, t: Traits): (r: ParseResult)
    requires t.Valid()
  {
    var neg := s != [] && s[0] == '-';
    var digits := if neg then s[1..] else s;
    if digits == [] || !AllDigits(digits, t.base) || (neg && format == NonNegative) then Refused(FailedParse)
    else
      var v := Signum(neg, Value(digits, t.base));
      if v > t.max then Refused(FailedOverflow)
      else if v < t.min then Refused(FailedUnderflow)
      else Parse(v)
  }

  /** What the promise is for a written number: too large, too small, a sign that is not allowed, or the number. */
  lemma PromisedWritten(v: int, format: Format, t: Traits)
    requires t.Valid()
    ensures Promised(WrittenInt(v, t.base), format, t) ==
            if v < 0 && format == NonNegative then Refused(FailedParse)
            else if v > t.max then Refused(FailedOverflow)
            else if v < t.min then Refused(FailedUnderflow)
            else Parse(v)
  {
    hide Digit;
    hide Value;
    hide Written;
    var m: nat := if v < 0 then 0 - v else v;
    var w, s := Written(m, t.base), WrittenInt(v, t.base);
    WrittenDenotes(m, t.base);
    DenotesIff(w, t.base, m);
    hide Denotes;
    if v < 0 {
      assert s[1..] == w;
    } else {
      NoPrefixInDigits(w, t.base);
    }
  }

  /** `ParseIntHelper`: a check of the first character, the lenient parser, then a diagnosis. */
  method ParseInt(s: string, format: Format, t: Traits, space: char -> bool) returns (r: ParseResult)
    requires t.Valid() && t.base == 10
    requires t.Signed() || format == NonNegative
    requires forall c :: Digit(c, 10) >= 0 || c == '-' ==> !space(c)
    ensures r == Promised(s, format, t)
  {
    if s == [] {
      return Refused(FailedParse);
    }
    var startsNegative, startsDigit := s[0] == '-', Digit(s[0], 10) >= 0;
    if !startsDigit && (format == NonNegative || !startsNegative) {
      return Refused(FailedParse);
    }
    FirstCharChecked(s, format, t, space);
    var ok, out := ToNumber(s, t, space);
    if ok {
      return Parse(out);
    }
    var portion := if startsNegative then s[1..] else s;
    var k := 0;
    while k < |portion| && Digit(portion[k], 10) >= 0
      invariant 0 <= k <= |portion| && AllDigits(portion[..k], 10)
    {
      k := k + 1;
    }
    assert k == |portion| ==> portion[..k] == portion;
    if portion != [] && k == |portion| {
      return Refused(if startsNegative then FailedUnderflow else FailedOverflow);
    }
    return Refused(FailedParse);
  }

  /** After the first-character check the lenient parser is no longer lenient. */
  lemma FirstCharChecked(s: string, format: Format, t: Traits, space: char -> bool)
    requires t.Valid() && t.base == 10 && s != []
    requires t.Signed() || format == NonNegative
    requires forall c :: Digit(c, 10) >= 0 || c == '-' ==> !space(c)
    requires Digit(s[0], 10) >= 0 || (format == OptionallyNegative && s[0] == '-')
    ensures Parsed(s, t, space).0 <==> Promised(s, format, t).Parse?
    ensures Parsed(s, t, space).0 ==> Promised(s, format, t) == Parse(Parsed(s, t, space).1)
  {
    hide Digits;
    hide Value;
    var neg := s[0] == '-';
    var digits := if neg then s[1..] else s;
    var n := Numeral(if neg then Minus else Bare, "", digits);
    assert n.Text() == s;
    if digits != [] && AllDigits(digits, 10) {
      NumeralParses(n, t, space);
    } else if Parsed(s, t, space).0 {
      AcceptedIsNumeral(s, t, space);
    }
  }
}
