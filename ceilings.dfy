/**
  The `maxBids` table of an auction item: a JavaScript object from bidder id to
  the ceiling that bidder authorises for automatic bidding.

  The own string-keyed properties of a JavaScript object enumerate in insertion
  order; an overwrite keeps the key's place and a `delete` removes it. That order
  decides ties in the auto-bid selection, so the table is modelled as a sequence
  of entries with distinct bidders, oldest first.
*/
module Ceilings {
  import opened Optional

  type BidderId = string

  datatype Ceiling = Ceiling(bidderId: BidderId, maxBid: int)

  /** The keys of the table. */
  function Bidders(m: seq<Ceiling>): set<BidderId>
  {
    if m == [] then {} else {m[0].bidderId} + Bidders(m[1..])
  }

  /** No bidder has two entries (a JavaScript object has one property per key). */
  predicate UniqueKeys(m: seq<Ceiling>)
  {
    m == [] || (m[0].bidderId !in Bidders(m[1..]) && UniqueKeys(m[1..]))
  }

  lemma {:induction false} BiddersAt(m: seq<Ceiling>, i: nat)
    requires i < |m|
    ensures m[i].bidderId in Bidders(m)
  {
    if i > 0 {
      BiddersAt(m[1..], i - 1);
    }
  }

  /** `maxBids[bidderId]`: the stored ceiling, if the bidder has an entry. */
  function Lookup(m: seq<Ceiling>, b: BidderId): (r: Option<int>)
    ensures r.None? <==> b !in Bidders(m)
    ensures r.Some? ==> Ceiling(b, r.value) in m
  {
    if m == [] then None
    else if m[0].bidderId == b then Some(m[0].maxBid)
    else Lookup(m[1..], b)
  }

  /** `maxBids[bidderId] = maxBid`: overwrite in place, or append a new key. */
  function Put(m: seq<Ceiling>, b: BidderId, v: int): (r: seq<Ceiling>)
    ensures Bidders(r) == Bidders(m) + {b}
    ensures b !in Bidders(m) ==> r == m + [Ceiling(b, v)]
    ensures b in Bidders(m) ==> |r| == |m|
  {
    if m == [] then [Ceiling(b, v)]
    else if m[0].bidderId == b then [Ceiling(b, v)] + m[1..]
    else [m[0]] + Put(m[1..], b, v)
  }

  /** After the assignment the key holds the new ceiling and every other key is unchanged. */
  lemma {:induction false} PutLookup(m: seq<Ceiling>, b: BidderId, v: int, c: BidderId)
    ensures Lookup(Put(m, b, v), c) == if c == b then Some(v) else Lookup(m, c)
  {
    if m != [] && m[0].bidderId != b {
      PutLookup(m[1..], b, v, c);
    }
  }

  /**
    An existing key keeps its place in the enumeration order: the assignment
    rewrites that one entry and leaves every other entry where it was.
  */
  lemma {:induction false} PutInPlace(m: seq<Ceiling>, b: BidderId, v: int)
    requires UniqueKeys(m)
    ensures |Put(m, b, v)| >= |m|
    ensures forall j :: 0 <= j < |m| ==>
      Put(m, b, v)[j] == if m[j].bidderId == b then Ceiling(b, v) else m[j]
  {
    if m != [] {
      if m[0].bidderId == b {
        forall j | 1 <= j < |m| ensures m[j].bidderId != b {
          BiddersAt(m[1..], j - 1);
        }
      } else {
        PutInPlace(m[1..], b, v);
      }
    }
  }

  /** The assignment never creates a second entry for a key. */
  lemma {:induction false} PutKeepsUnique(m: seq<Ceiling>, b: BidderId, v: int)
    ensures UniqueKeys(m) ==> UniqueKeys(Put(m, b, v))
  {
    if m != [] && m[0].bidderId != b {
      PutKeepsUnique(m[1..], b, v);
    }
  }

  /** `delete maxBids[bidderId]`: drop the bidder's entry; a no-op when absent. */
  function Delete(m: seq<Ceiling>, b: BidderId): (r: seq<Ceiling>)
    ensures Bidders(r) == Bidders(m) - {b}
    ensures b !in Bidders(m) ==> r == m
    ensures b in Bidders(m) ==> |r| < |m|
  {
    if m == [] then []
    else if m[0].bidderId == b then Delete(m[1..], b)
    else [m[0]] + Delete(m[1..], b)
  }

  /**
    `delete` keeps the enumeration order of the remaining keys: the table loses
    the one entry of that key, wherever it sits, and nothing else moves.
  */
  lemma {:induction false} DeleteInPlace(m: seq<Ceiling>, b: BidderId, i: nat)
    requires UniqueKeys(m) && i < |m| && m[i].bidderId == b
    ensures Delete(m, b) == m[..i] + m[i + 1..]
  {
    if i == 0 {
      assert m[..0] + m[1..] == m[1..];
    } else {
      BiddersAt(m[1..], i - 1);
      DeleteInPlace(m[1..], b, i - 1);
      assert m[..i] == [m[0]] + m[1..][..i - 1];
      assert m[i + 1..] == m[1..][i..];
    }
  }

  /** After the deletion the key is absent and every other key is unchanged. */
  lemma {:induction false} DeleteLookup(m: seq<Ceiling>, b: BidderId, c: BidderId)
    ensures Lookup(Delete(m, b), c) == if c == b then None else Lookup(m, c)
  {
    if m != [] {
      DeleteLookup(m[1..], b, c);
    }
  }

  /** Deletion never creates a second entry for a key. */
  lemma {:induction false} DeleteKeepsUnique(m: seq<Ceiling>, b: BidderId)
    ensures UniqueKeys(m) ==> UniqueKeys(Delete(m, b))
  {
    if m != [] {
      DeleteKeepsUnique(m[1..], b);
    }
  }

  /** Deleting twice is the same as deleting once. */
  lemma DeleteIdempotent(m: seq<Ceiling>, b: BidderId)
    ensures Delete(Delete(m, b), b) == Delete(m, b)
  {
  }
}
