/**
 Entries of the HPACK dynamic table and the ring buffer that holds them, newest first.
 The buffer length is a power of two, and `first` is an unsigned 32-bit counter that only
 ever moves down, through zero.
 */
module HpackRing {
  import opened Words

  datatype Field = Field(name: string, value: string)

  class Entry {
    const field: Field
    const token: int
    const hash: u32
    const serial: u32
    var next: Entry?

    constructor (field: Field, token: int, hash: u32, serial: u32)
      ensures this.field == field && this.token == token
      ensures this.hash == hash && this.serial == serial && next == null
    {
      this.field, this.token, this.hash, this.serial := field, token, hash, serial;
      next := null;
    }
  }

  /** A buffer length: a power of two that a 32-bit counter can hold. */
  ghost predicate IsSize(n: nat) {
    exists k: nat :: k <= 31 && n == Shl(1, k)
  }

  lemma SizeDividesWord(n: nat) returns (q: nat)
    requires IsSize(n)
    ensures n >= 1 && q * n == U32
  {
    var k: nat :| k <= 31 && n == Shl(1, k);
    ShlGrows(1, 0, k);
    q := Shl(1, 32 - k);
    ShlShl(1, k, 32 - k);
    ShlIsProduct(n, 32 - k);
    Shl35();
  }

  lemma {:induction false} ShlIsProduct(x: nat, n: nat)
    ensures Shl(x, n) == Shl(1, n) * x
  {
    if n > 0 {
      ShlIsProduct(x, n - 1);
      assert 2 * Shl(1, n - 1) * x == 2 * (Shl(1, n - 1) * x);
    }
  }

  /** `x & (n - 1)` for a power of two `n`: the remainder, by repeated subtraction. */
  function Rem(x: nat, n: nat): (r: nat)
    requires n >= 1
    ensures r < n
  {
    if x < n then x else Rem(x - n, n)
  }

  lemma {:induction false} RemMultiple(x: nat, q: nat, n: nat)
    requires n >= 1
    ensures Rem(x + q * n, n) == Rem(x, n)
  {
    if q > 0 {
      assert q * n == (q - 1) * n + n;
      assert (q - 1) * n >= 0;
      RemMultiple(x, q - 1, n);
    }
  }

  lemma {:induction false} RemDistinct(x: nat, d: nat, n: nat)
    requires 0 < d < n
    ensures Rem(x + d, n) != Rem(x, n)
  {
    if x >= n {
      RemDistinct(x - n, d, n);
    }
  }

  /** Where the element `i` places after the newest lives: `(first + i) & mask`. */
  function Slot(first: u32, i: nat, size: nat): (r: nat)
    requires size >= 1
    ensures r < size
  {
    Rem(Add32(first, i), size)
  }

  /** The wrap of the counter through zero is invisible in the slot. */
  lemma SlotIsRem(first: u32, i: nat, size: nat)
    requires IsSize(size) && i < size
    ensures size >= 1 && Slot(first, i, size) == Rem(first + i, size)
  {
    var q := SizeDividesWord(size);
    if first + i >= U32 {
      assert size <= U32 by {
        assert q > 0;
        assert q * size >= size;
      }
      assert Add32(first, i) == first + i - U32;
      RemMultiple(Add32(first, i), q, size);
    }
  }

  /** Counting `first` down moves every element one place further from it. */
  lemma SlotAfterPush(first: u32, i: nat, size: nat)
    requires size >= 1
    ensures Slot(Sub32(first, 1), i + 1, size) == Slot(first, i, size)
  {
  }

  /** No two live elements share a slot. */
  lemma SlotDistinct(first: u32, i: nat, j: nat, size: nat)
    requires IsSize(size) && i < j < size
    ensures size >= 1 && Slot(first, i, size) != Slot(first, j, size)
  {
    SlotIsRem(first, i, size);
    SlotIsRem(first, j, size);
    RemDistinct(first + i, j - i, size);
  }

  /** The buffer shows `contents`, newest first. */
  ghost predicate Shows(buf: seq<Entry?>, first: u32, contents: seq<Entry>) {
    && 1 <= |buf|
    && |contents| <= |buf|
    && forall i :: 0 <= i < |contents| ==> buf[Slot(first, i, |buf|)] == contents[i]
  }

  lemma ShowsAfterPush(buf: seq<Entry?>, first: u32, contents: seq<Entry>, e: Entry)
    requires IsSize(|buf|) && Shows(buf, first, contents) && |contents| < |buf|
    ensures Shows(buf[Slot(Sub32(first, 1), 0, |buf|) := e], Sub32(first, 1), [e] + contents)
  {
    var moved, size := Sub32(first, 1), |buf|;
    forall i | 0 < i < |contents| + 1
      ensures Slot(moved, i, size) == Slot(first, i - 1, size)
      ensures Slot(moved, i, size) != Slot(moved, 0, size)
    {
      SlotAfterPush(first, i - 1, size);
      SlotDistinct(moved, 0, i, size);
    }
  }

  lemma ShowsFromZero(buf: seq<Entry?>, contents: seq<Entry>)
    requires 1 <= |buf| <= U32 && |contents| <= |buf|
    requires forall i :: 0 <= i < |contents| ==> buf[i] == contents[i]
    ensures Shows(buf, 0, contents)
  {
    forall i | 0 <= i < |contents|
      ensures Slot(0, i, |buf|) == i
    {
      assert Add32(0, i) == i;
    }
  }

  class Ring {
    var buffer: array<Entry?>
    var mask: nat
    var first: u32
    var len: nat
    ghost var contents: seq<Entry>

    ghost predicate Valid()
      reads this, buffer
    {
      && IsSize(mask + 1)
      && buffer.Length == mask + 1
      && len == |contents|
      && Shows(buffer[..], first, contents)
    }

    constructor (bufsize: nat)
      requires 1 <= bufsize <= 0x8000_0000
      ensures Valid() && contents == [] && fresh(buffer)
    {
      var size := PowerAtLeast(bufsize);
      buffer := new Entry?[size](_ => null);
      mask, first, len := size - 1, 0, 0;
      contents := [];
    }

    method Get(idx: nat) returns (e: Entry)
      requires Valid() && idx < len
      ensures e == contents[idx]
    {
      assert buffer[..][Slot(first, idx, buffer.Length)] == contents[idx];
      e := buffer[Slot(first, idx, mask + 1)];
    }

    /** The elements in order, in a buffer of the given length. */
    method CopyInto(size: nat) returns (bigger: array<Entry?>)
      requires Valid() && 1 <= size <= U32 && len <= size
      ensures fresh(bigger) && bigger.Length == size
      ensures Shows(bigger[..], 0, contents)
    {
      bigger := new Entry?[size](_ => null);
      var i := 0;
      while i < len
        invariant 0 <= i <= len
        invariant forall j :: 0 <= j < i ==> bigger[j] == contents[j]
        modifies bigger
      {
        bigger[i] := Get(i);
        i := i + 1;
      }
      ShowsFromZero(bigger[..], contents);
    }

    /** Growing moves the elements but not what is seen of them. */
    method Reserve(bufsize: nat, memory: bool) returns (ok: bool)
      requires Valid() && 1 <= bufsize <= 0x8000_0000
      modifies this
      ensures Valid() && contents == old(contents)
      ensures ok ==> mask + 1 >= bufsize
      ensures !ok ==> !memory
      ensures buffer == old(buffer) || fresh(buffer)
    {
      if mask + 1 >= bufsize {
        return true;
      }
      var size := PowerAtLeast(bufsize);
      if !memory {
        return false;
      }
      var bigger := CopyInto(size);
      buffer := bigger;
      mask := size - 1;
      first := 0;
      return true;
    }

    method PushFront(e: Entry, memory: bool) returns (ok: bool)
      requires Valid() && len < 0x8000_0000
      modifies this, buffer
      ensures Valid()
      ensures contents == if ok then [e] + old(contents) else old(contents)
      ensures !ok ==> !memory
      ensures buffer == old(buffer) || fresh(buffer)
    {
      ok := Reserve(len + 1, memory);
      if !ok {
        return;
      }
      ShowsAfterPush(buffer[..], first, contents, e);
      ghost var updated := buffer[..][Slot(Sub32(first, 1), 0, buffer.Length) := e];
      first := Sub32(first, 1);
      buffer[Slot(first, 0, mask + 1)] := e;
      assert buffer[..] == updated;
      len := len + 1;
      contents := [e] + contents;
    }

    method PopBack()
      requires Valid() && len > 0
      modifies this
      ensures Valid() && contents == old(contents[..|contents| - 1]) && buffer == old(buffer)
    {
      len := len - 1;
      contents := contents[..|contents| - 1];
    }
  }

  /** The doubling loop that picks the buffer length. */
  method PowerAtLeast(bufsize: nat) returns (size: nat)
    requires 1 <= bufsize <= 0x8000_0000
    ensures IsSize(size) && bufsize <= size <= 0x8000_0000
  {
    size := 1;
    ghost var k: nat := 0;
    Shl35();
    assert Shl(1, 31) == 0x8000_0000;
    while size < bufsize
      invariant k <= 31 && size == Shl(1, k)
      decreases 31 - k
    {
      if k == 31 {
        assert false;
      }
      size := 2 * size;
      k := k + 1;
    }
    ShlGrows(1, k, 31);
  }
}
