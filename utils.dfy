/** Renumbering of a link list (app/lib/utils.ts). */
module Utils {
  import opened Types

  /** The position invariant: the entry at index i has position i + 1, so
      the positions of a list of N entries are 1..N in list order. */
  predicate Contiguous(links: seq<UserLink>) {
    forall i :: 0 <= i < |links| ==> links[i].position == i + 1
  }

  /** Restores the position invariant: every entry keeps its id, website
      and username and its place in the list, and takes its 1-based index
      as its position. */
  function UpdatePositions(links: seq<UserLink>): (r: seq<UserLink>)
    ensures |r| == |links|
    ensures Contiguous(r)
    ensures Contents(r) == Contents(links)
  {
    seq(|links|, i requires 0 <= i < |links| => links[i].(position := i + 1))
  }

  /** The two facts UpdatePositions promises, contiguity and unchanged
      contents, determine its result. */
  lemma UpdatePositionsUnique(links: seq<UserLink>, r: seq<UserLink>)
    requires Contiguous(r) && Contents(r) == Contents(links)
    ensures r == UpdatePositions(links)
  {
    var u := UpdatePositions(links);
    assert |r| == |Contents(r)| == |Contents(links)| == |links|;
    forall i | 0 <= i < |r| ensures r[i] == u[i] {
      assert Contents(r)[i] == Contents(u)[i];
    }
  }

  /** A list that already satisfies the invariant is left as it is. */
  lemma ContiguousIsFixedPoint(links: seq<UserLink>)
    requires Contiguous(links)
    ensures UpdatePositions(links) == links
  {
    UpdatePositionsUnique(links, links);
  }

  lemma UpdatePositionsIdempotent(links: seq<UserLink>)
    ensures UpdatePositions(UpdatePositions(links)) == UpdatePositions(links)
  {
    ContiguousIsFixedPoint(UpdatePositions(links));
  }

  /** The set {1..n}. */
  function OneTo(n: nat): (r: set<int>)
    ensures forall p :: p in r <==> 1 <= p <= n
  {
    if n == 0 then {} else OneTo(n - 1) + {n}
  }

  function Positions(links: seq<UserLink>): set<int> {
    set i | 0 <= i < |links| :: links[i].position
  }

  /** Under the invariant the positions are exactly {1..N} and no two
      entries share one. */
  lemma ContiguousPositions(links: seq<UserLink>)
    requires Contiguous(links)
    ensures Positions(links) == OneTo(|links|)
    ensures forall i, j :: 0 <= i < j < |links| ==> links[i].position != links[j].position
  {
    forall p | 1 <= p <= |links| ensures p in Positions(links) {
      assert links[p - 1].position == p;
    }
  }

  /** After renumbering, the positions are exactly {1..N}, without duplicates. */
  lemma UpdatePositionsRange(links: seq<UserLink>)
    ensures Positions(UpdatePositions(links)) == OneTo(|links|)
    ensures forall i, j :: 0 <= i < j < |links| ==>
      UpdatePositions(links)[i].position != UpdatePositions(links)[j].position
  {
    ContiguousPositions(UpdatePositions(links));
  }
}
