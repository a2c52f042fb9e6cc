/** Integer to text: the back-to-front writer of string_number_conversions.cpp. */
module PrintNumber {
  import opened ParseNumber
  import opened Words

  function DigitChar(d: nat): (c: char)
    requires d < 10
    ensures c == Small(d)
  {
    SmallOrder(d);
    ('0' as int + d) as char
  }

  /** The decimal digits of a number, most significant first. */
  function Decimal(v: nat): (s: string)
    ensures |s| >= 1
  {
    if v < 10 then [DigitChar(v)] else Decimal(v / 10) + [DigitChar(v % 10)]
  }

  /** The text of an integer. */
  function Printed(v: int): (s: string) {
    if v < 0 then ['-'] + Decimal(0 - v) else Decimal(v)
  }

  // ----- the buffer is large enough -----

  lemma DecimalSmall(v: nat)
    requires v < 1000
    ensures |Decimal(v)| <= if v < 100 then 2 else 3
  {
    if v >= 10 {
      assert |Decimal(v)| == 1 + |Decimal(v / 10)|;
      if v >= 100 {
        assert |Decimal(v / 10)| == 1 + |Decimal(v / 10 / 10)|;
      }
    }
  }

  lemma DecimalThousands(v: nat)
    requires v >= 1000
    ensures |Decimal(v)| == 3 + |Decimal(v / 1000)|
  {
    assert v / 10 / 10 / 10 == v / 1000;
    assert |Decimal(v)| == 1 + |Decimal(v / 10)|;
    assert |Decimal(v / 10)| == 1 + |Decimal(v / 10 / 10)|;
  }

  lemma {:induction false} DecimalFits(v: nat, n: nat)
    requires n >= 1 && v < Pow256(n)
    ensures |Decimal(v)| <= 3 * n
  {
    if v < 1000 {
      DecimalSmall(v);
    } else {
      assert Pow256(1) == 256 * Pow256(0);
      DecimalThousands(v);
      DecimalFits(v / 1000, n - 1);
    }
  }

  /** A negative value of `n >= 2` bytes leaves room for its sign. */
  lemma {:induction false} NegativeFits(v: nat, n: nat)
    requires n >= 2 && v <= Pow256(n) / 2
    ensures |Decimal(v)| + 1 <= 3 * n
  {
    if n == 2 {
      assert Pow256(2) == 256 * Pow256(1) && Pow256(1) == 256 * Pow256(0);
      if v < 1000 {
        DecimalSmall(v);
      } else {
        DecimalThousands(v);
        DecimalSmall(v / 1000);
      }
    } else if v < 1000 {
      DecimalSmall(v);
    } else {
      DecimalThousands(v);
      assert Pow256(n) == 256 * Pow256(n - 1);
      NegativeFits(v / 1000, n - 1);
    }
  }

  /**
   `IntToString` for a type of `size` bytes: digits go into a buffer of `3 * size + 1`
   characters from its end, which is never filled to the front. The negation of the least
   signed value overflows: that is the one value for which the code has no meaning.
   */
  method IntToString(value: int, size: nat) returns (defined: bool, s: string)
    requires size >= 2
    requires -(Pow256(size) / 2) <= value < Pow256(size)
    ensures defined <==> value != -(Pow256(size) / 2)
    ensures defined ==> s == Printed(value)
  {
    hide DigitChar;
    hide Small;
    defined, s := value != -(Pow256(size) / 2), "";
    if !defined {
      return;
    }
    var buf := new char[3 * size + 1](_ => 0 as char);
    var res: nat := if value < 0 then -value else value;
    DecimalFits(res, size);
    if value < 0 {
      NegativeFits(res, size);
    }
    var it, more := buf.Length, true;
    ghost var whole := Decimal(res);
    while more
      invariant 0 <= it <= buf.Length && res >= 0
      invariant more ==> Decimal(res) + buf[it..] == whole && buf.Length - it + |Decimal(res)| == |whole|
      invariant !more ==> buf[it..] == whole && buf.Length - it == |whole|
      decreases more, res
    {
      it := it - 1;
      assert it != 0;
      ghost var done := buf[it + 1..];
      buf[it] := DigitChar(res % 10);
      assert buf[it..] == [DigitChar(res % 10)] + done;
      res := res / 10;
      more := res != 0;
    }
    if value < 0 {
      it := it - 1;
      assert it != 0;
      ghost var done := buf[it + 1..];
      buf[it] := '-';
      assert buf[it..] == ['-'] + done;
    }
    s := buf[it..];
  }

  // ----- printing and parsing undo each other -----

  lemma {:induction false} DecimalIsWritten(v: nat)
    ensures Decimal(v) == Written(v, 10)
  {
    hide Small;
    WrittenIs(v, 10);
    hide Written;
    if v >= 10 {
      DecimalIsWritten(v / 10);
    }
  }

  /** For every integer of the type, parsing the printed text returns it. */
  lemma PrintParses(v: int, t: Traits, space: char -> bool)
    requires t.Valid() && t.base == 10 && t.min <= v <= t.max
    requires forall c :: Digit(c, 10) >= 0 || c == '-' ==> !space(c)
    ensures Parsed(Printed(v), t, space) == (true, v)
  {
    hide Digit;
    hide Small;
    hide Parsed;
    DecimalIsWritten(if v < 0 then -v else v);
    FirstIsDigit(if v < 0 then -v else v);
    assert Printed(v) == WrittenInt(v, 10);
    WrittenParses(v, t, space);
  }

  lemma FirstIsDigit(v: nat)
    ensures Digit(Written(v, 10)[0], 10) >= 0
  {
    hide Digit;
    WrittenDenotes(v, 10);
    DenotesIff(Written(v, 10), 10, v);
  }
}
