/**
 The chained hash map that speeds up searches in the HPACK encoder's table. Buckets are
 intrusive singly linked lists through `Entry.next`, newest entry first.
 */
module HpackMap {
  import opened Words
  import opened HpackRing

  const MAP_SIZE: int := 128

  /** `hash & (MAP_SIZE - 1)`. */
  function BucketOf(hash: u32): (b: nat)
    ensures b < MAP_SIZE
  {
    hash % MAP_SIZE
  }

  /** What a search looks for. */
  datatype Query = Query(field: Field, token: int, hash: u32)

  /** The test the search applies to an entry; with `exact` also the value must agree. */
  predicate Hit(e: Entry, q: Query, exact: bool) {
    && q.hash == e.hash
    && q.token == e.token
    && (q.token == -1 ==> e.field.name == q.field.name)
    && (exact ==> e.field.value == q.field.value)
  }

  /** The first entry of a list that the test accepts. */
  function Newest(s: seq<Entry>, q: Query, exact: bool): (e: Entry?)
    ensures e != null ==> e in s && Hit(e, q, exact)
    ensures e == null ==> forall x :: x in s ==> !Hit(x, q, exact)
  {
    if s == [] then null
    else if Hit(s[0], q, exact) then s[0]
    else Newest(s[1..], q, exact)
  }

  /** The entry found is the first that matches. */
  lemma {:induction false} NewestIsFirst(s: seq<Entry>, q: Query, exact: bool) returns (i: nat)
    requires Newest(s, q, exact) != null
    ensures i < |s| && s[i] == Newest(s, q, exact) && forall j | 0 <= j < i :: !Hit(s[j], q, exact)
  {
    hide Hit;
    if Hit(s[0], q, exact) {
      i := 0;
    } else {
      var k := NewestIsFirst(s[1..], q, exact);
      i := k + 1;
    }
  }

  /** A newest-first linear search that prefers an exact match. */
  function Best(s: seq<Entry>, q: Query): (r: (Entry?, bool)) {
    var e := Newest(s, q, true);
    if e != null then (e, true) else (Newest(s, q, false), false)
  }

  ghost predicate NoDup(s: seq<Entry>) {
    forall i, j :: 0 <= i < j < |s| ==> s[i] != s[j]
  }

  function DropAt(s: seq<Entry>, j: nat): (r: seq<Entry>)
    requires j < |s|
  {
    s[..j] + s[j + 1..]
  }

  /** The successor of the entry at place `i`. */
  function After(s: seq<Entry>, i: nat): (e: Entry?) {
    if i + 1 < |s| then s[i + 1] else null
  }

  /** `head` and the `next` fields spell out `s`. */
  ghost predicate Linked(head: Entry?, s: seq<Entry>)
    reads s
  {
    && head == (if s == [] then null else s[0])
    && forall i :: 0 <= i < |s| ==> s[i].next == After(s, i)
  }

  /** Every member is on the chain of its own bucket, once, and chains hold nothing else. */
  ghost predicate Partitioned(chains: seq<seq<Entry>>, members: set<Entry>) {
    && |chains| == MAP_SIZE
    && (forall b, e :: 0 <= b < MAP_SIZE && e in chains[b] ==> e in members && BucketOf(e.hash) == b)
    && (forall e :: e in members ==> e in chains[BucketOf(e.hash)])
    && (forall b :: 0 <= b < MAP_SIZE ==> NoDup(chains[b]))
  }

  /** An entry on one chain is a member and on no other chain. */
  lemma OnOneChain(chains: seq<seq<Entry>>, members: set<Entry>, b: nat, e: Entry)
    requires Partitioned(chains, members) && b < MAP_SIZE && e in chains[b]
    ensures e in members
    ensures forall c :: 0 <= c < MAP_SIZE && c != b ==> e !in chains[c]
  {
  }

  lemma PartitionedInsert(chains: seq<seq<Entry>>, members: set<Entry>, e: Entry)
    requires Partitioned(chains, members) && e !in members
    ensures var b := BucketOf(e.hash); Partitioned(chains[b := [e] + chains[b]], members + {e})
  {
    var b := BucketOf(e.hash);
    var chains', members' := chains[b := [e] + chains[b]], members + {e};
    assert NoDup(chains'[b]);
    forall x | x in members'
      ensures x in chains'[BucketOf(x.hash)]
    {
      assert x == e || x in chains[BucketOf(x.hash)];
    }
  }

  lemma PartitionedDrop(chains: seq<seq<Entry>>, members: set<Entry>, b: nat, j: nat)
    requires Partitioned(chains, members) && b < MAP_SIZE && j < |chains[b]|
    ensures Partitioned(chains[b := DropAt(chains[b], j)], members - {chains[b][j]})
  {
    var s, e := chains[b], chains[b][j];
    var chains', members' := chains[b := DropAt(s, j)], members - {e};
    assert NoDup(s);
    DropAtElements(s, j);
    forall x | x in members'
      ensures x in chains'[BucketOf(x.hash)]
    {
      assert x in chains[BucketOf(x.hash)];
    }
    forall c, x | 0 <= c < MAP_SIZE && x in chains'[c]
      ensures x in members' && BucketOf(x.hash) == c
    {
      assert x in chains[c];
    }
  }

  lemma DropAtElements(s: seq<Entry>, j: nat)
    requires NoDup(s) && j < |s|
    ensures NoDup(DropAt(s, j))
    ensures s[j] !in DropAt(s, j)
    ensures forall x :: x in s && x != s[j] ==> x in DropAt(s, j)
    ensures forall x :: x in DropAt(s, j) ==> x in s
  {
    var r := DropAt(s, j);
    forall x | x in s && x != s[j]
      ensures x in r
    {
      var k :| 0 <= k < |s| && s[k] == x;
      assert r[if k < j then k else k - 1] == x;
    }
  }

  /** The walk of a search along one chain: notes the first hit, stops at an exact one. */
  method Walk(head: Entry?, ghost s: seq<Entry>, q: Query) returns (e: Entry?, exact: bool)
    requires Linked(head, s)
    ensures (e, exact) == Best(s, q)
  {
    e, exact := null, false;
    var p := head;
    ghost var i := 0;
    assert s[0..] == s;
    while p != null
      invariant 0 <= i <= |s| && Linked(head, s)
      invariant p == if i < |s| then s[i] else null
      invariant !exact && Newest(s, q, true) == Newest(s[i..], q, true)
      invariant Newest(s, q, false) == if e != null then e else Newest(s[i..], q, false)
      decreases |s| - i
    {
      ghost var rest := s[i..];
      assert rest[0] == p && rest[1..] == s[i + 1..];
      assert s[i].next == After(s, i);
      if Hit(p, q, false) {
        if e == null {
          e := p;
        }
        if p.field.value == q.field.value {
          e, exact := p, true;
          return;
        }
      }
      p := p.next;
      i := i + 1;
    }
    assert s[i..] == [];
  }

  /** The walk of a removal: the entry before `e`, if `e` is on the chain. */
  method Before(head: Entry?, ghost s: seq<Entry>, e: Entry) returns (p: Entry?, ghost j: nat)
    requires Linked(head, s) && |s| > 0 && s[0] != e
    ensures p != null ==> j + 1 < |s| && s[j] == p && s[j + 1] == e
    ensures p == null ==> e !in s
  {
    p, j := head, 0;
    while p != null
      invariant 0 <= j <= |s| && Linked(head, s)
      invariant p == if j < |s| then s[j] else null
      invariant forall k :: 0 <= k <= j && k < |s| ==> s[k] != e
      decreases |s| - j
    {
      assert s[j].next == After(s, j);
      if p.next == e {
        return;
      }
      p := p.next;
      j := j + 1;
    }
  }

  class BucketMap {
    const table: array<Entry?>
    ghost var chains: seq<seq<Entry>>
    ghost var members: set<Entry>

    ghost predicate Valid()
      reads this, table, members
    {
      && table.Length == MAP_SIZE
      && Partitioned(chains, members)
      && forall b :: 0 <= b < MAP_SIZE ==> Linked(table[b], chains[b])
    }

    constructor ()
      ensures Valid() && fresh(table) && members == {}
      ensures forall b :: 0 <= b < MAP_SIZE ==> chains[b] == []
    {
      table := new Entry?[MAP_SIZE](_ => null);
      chains := seq(MAP_SIZE, _ => []);
      members := {};
    }

    /** The new entry goes to the front of its own bucket and touches no other. */
    method Insert(e: Entry)
      requires Valid() && e !in members && e.next == null
      modifies this, table, e
      ensures Valid() && members == old(members) + {e}
      ensures var b := BucketOf(e.hash); chains == old(chains)[b := [e] + old(chains[b])]
    {
      var b := BucketOf(e.hash);
      ghost var chain := chains[b];
      assert Linked(table[b], chain);
      PartitionedInsert(chains, members, e);
      LinkFront(e, b);
      chains := chains[b := [e] + chain];
      members := members + {e};
    }

    /** The pointer work of `Insert`. */
    method LinkFront(e: Entry, b: nat)
      requires Valid() && b < MAP_SIZE && e !in members && e.next == null
      modifies table, e
      ensures Linked(table[b], [e] + chains[b])
      ensures forall c :: 0 <= c < MAP_SIZE && c != b ==> Linked(table[c], chains[c])
    {
      ghost var chain := chains[b];
      assert Linked(table[b], chain);
      assert forall c :: 0 <= c < MAP_SIZE ==> e !in chains[c];
      if table[b] == null {
        table[b] := e;
      } else {
        e.next := table[b];
        table[b] := e;
      }
      ghost var longer := [e] + chain;
      forall i | 0 <= i < |longer|
        ensures longer[i].next == After(longer, i)
      {
        if i > 0 {
          assert chain[i - 1].next == After(chain, i - 1);
        }
      }
      forall c | 0 <= c < MAP_SIZE && c != b
        ensures Linked(table[c], chains[c])
      {
        assert old(Linked(table[c], chains[c]));
      }
    }

    method Find(q: Query) returns (e: Entry?, exact: bool)
      requires Valid()
      ensures (e, exact) == Best(chains[BucketOf(q.hash)], q)
    {
      assert Linked(table[BucketOf(q.hash)], chains[BucketOf(q.hash)]);
      e, exact := Walk(table[BucketOf(q.hash)], chains[BucketOf(q.hash)], q);
    }

    /** Unlinks an entry wherever it is in its bucket; an absent entry changes nothing. */
    method Remove(e: Entry)
      requires Valid()
      modifies this, members, table
      ensures Valid() && members == old(members) - {e}
      ensures e !in old(members) ==> chains == old(chains)
      ensures var b := BucketOf(e.hash);
              forall j :: 0 <= j < |old(chains[b])| && old(chains[b])[j] == e ==>
                chains == old(chains)[b := DropAt(old(chains[b]), j)]
    {
      var b := BucketOf(e.hash);
      ghost var s := chains[b];
      assert Linked(table[b], s) && NoDup(s);
      if table[b] == null {
        return;
      }
      if table[b] == e {
        UnlinkFirst(e, b);
        Forget(b, 0);
        return;
      }
      ghost var j;
      var p;
      p, j := Before(table[b], s, e);
      if p != null {
        OnOneChain(chains, members, b, e);
        OnOneChain(chains, members, b, p);
        UnlinkNext(p, e, b, j);
        Forget(b, j + 1);
      }
    }

    method UnlinkFirst(e: Entry, b: nat)
      requires Valid() && b < MAP_SIZE && |chains[b]| > 0 && chains[b][0] == e
      modifies table, e
      ensures Linked(table[b], DropAt(chains[b], 0))
      ensures forall c :: 0 <= c < MAP_SIZE && c != b ==> Linked(table[c], chains[c])
    {
      ghost var s := chains[b];
      assert Linked(table[b], s) && NoDup(s);
      OnOneChain(chains, members, b, e);
      assert e.next == After(s, 0);
      table[b] := e.next;
      e.next := null;
      ghost var r := DropAt(s, 0);
      forall i | 0 <= i < |r|
        ensures r[i].next == After(r, i)
      {
        assert s[i + 1].next == After(s, i + 1);
      }
      forall c | 0 <= c < MAP_SIZE && c != b
        ensures Linked(table[c], chains[c])
      {
        assert old(Linked(table[c], chains[c]));
      }
    }

    method UnlinkNext(p: Entry, e: Entry, b: nat, ghost j: nat)
      requires Valid() && b < MAP_SIZE && j + 1 < |chains[b]| && chains[b][j] == p && chains[b][j + 1] == e
      modifies p, e
      ensures Linked(table[b], DropAt(chains[b], j + 1))
      ensures forall c :: 0 <= c < MAP_SIZE && c != b ==> Linked(table[c], chains[c])
    {
      ghost var s := chains[b];
      assert Linked(table[b], s) && NoDup(s);
      OnOneChain(chains, members, b, e);
      OnOneChain(chains, members, b, p);
      assert e.next == After(s, j + 1);
      p.next := e.next;
      e.next := null;
      ghost var r := DropAt(s, j + 1);
      forall i | 0 <= i < |r|
        ensures r[i].next == After(r, i)
      {
        ghost var k := if i <= j then i else i + 1;
        assert r[i] == s[k];
        if k != j {
          assert s[k].next == After(s, k);
        }
      }
      forall c | 0 <= c < MAP_SIZE && c != b
        ensures Linked(table[c], chains[c])
      {
        assert old(Linked(table[c], chains[c]));
      }
    }

    /** Takes an unlinked entry off the books. */
    ghost method Forget(b: nat, j: nat)
      requires Partitioned(chains, members) && table.Length == MAP_SIZE
      requires b < MAP_SIZE && j < |chains[b]|
      requires Linked(table[b], DropAt(chains[b], j))
      requires forall c :: 0 <= c < MAP_SIZE && c != b ==> Linked(table[c], chains[c])
      modifies this
      ensures Valid() && members == old(members) - {old(chains[b])[j]}
      ensures chains == old(chains)[b := DropAt(old(chains[b]), j)]
    {
      PartitionedDrop(chains, members, b, j);
      members := members - {chains[b][j]};
      chains := chains[b := DropAt(chains[b], j)];
    }
  }
}
