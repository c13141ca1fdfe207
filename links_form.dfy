/** The client-side editor of an owner's link list (app/ui/links-form.tsx).
    Every handler replaces the whole list by a new one computed from the
    old; the functions below compute those new lists, and the class
    LinksFormState holds the list and applies them. */
module LinksForm {
  import opened Wrappers
  import opened Types
  import opened Utils

  // ---------------------------------------------------------------------
  // handleAdd
  // ---------------------------------------------------------------------

  /** The list after handleAdd at clock reading `now` (milliseconds): one
      entry appended with the negated reading as its temporary id, the
      first website, an empty username and the next position. */
  function Added(links: seq<UserLink>, now: int): (r: seq<UserLink>)
    ensures |r| == |links| + 1 && r[..|links|] == links
    ensures r[|links|].website == GitHub && r[|links|].username == ""
    ensures r[|links|].position == |links| + 1
    ensures now > 0 ==> r[|links|].id < 0
    ensures Contiguous(links) ==> Contiguous(r)
  {
    links + [UserLink(-now, GitHub, "", |links| + 1)]
  }

  /** Ids stay distinct as long as the clock reading is one no entry was
      minted from. */
  lemma AddedKeepsIdsDistinct(links: seq<UserLink>, now: int)
    requires DistinctIds(links) && -now !in Ids(links)
    ensures DistinctIds(Added(links, now))
  {
    var r := Added(links, now);
    forall i, j | 0 <= i < j < |r| ensures r[i].id != r[j].id {
      if j == |links| {
        assert Ids(links)[i] == r[i].id;
      }
    }
  }

  /** Two adds within the same millisecond mint the same temporary id. */
  lemma AddTwiceInOneMillisecondCollides(links: seq<UserLink>, now: int)
    ensures !DistinctIds(Added(Added(links, now), now))
  {
    var r := Added(Added(links, now), now);
    assert r[|links|].id == r[|links| + 1].id;
  }

  // ---------------------------------------------------------------------
  // handleRemove
  // ---------------------------------------------------------------------

  /** `a` is `b` with some elements left out, the rest in their order. */
  predicate IsSubsequence<T(==)>(a: seq<T>, b: seq<T>) {
    if a == [] then true
    else if b == [] then false
    else if a[0] == b[0] then IsSubsequence(a[1..], b[1..])
    else IsSubsequence(a, b[1..])
  }

  /** The filter of handleRemove: every entry whose id differs from `id`,
      in the original order. */
  function WithoutId(links: seq<UserLink>, id: int): seq<UserLink> {
    if links == [] then []
    else if links[0].id == id then WithoutId(links[1..], id)
    else [links[0]] + WithoutId(links[1..], id)
  }

  /** The filter drops exactly the entries carrying `id`, each occurrence
      of them, and keeps the others in their order. */
  lemma {:induction false} WithoutIdSpec(links: seq<UserLink>, id: int)
    ensures forall l :: l in WithoutId(links, id) ==> l.id != id
    ensures forall l :: multiset(WithoutId(links, id))[l] == if l.id == id then 0 else multiset(links)[l]
    ensures IsSubsequence(WithoutId(links, id), links)
  {
    if links != [] {
      var rest := WithoutId(links[1..], id);
      WithoutIdSpec(links[1..], id);
      assert multiset(links) == multiset{links[0]} + multiset(links[1..]) by {
        assert links == [links[0]] + links[1..];
      }
      if links[0].id == id {
        assert rest == [] || rest[0] != links[0];
      } else {
        assert ([links[0]] + rest)[1..] == rest;
      }
    }
  }

  /** Removing an id no entry carries keeps every entry. */
  lemma {:induction false} WithoutAbsentId(links: seq<UserLink>, id: int)
    requires id !in Ids(links)
    ensures WithoutId(links, id) == links
  {
    if links != [] {
      assert links[0].id == Ids(links)[0];
      assert Ids(links[1..]) == Ids(links)[1..];
      WithoutAbsentId(links[1..], id);
      assert links == [links[0]] + links[1..];
    }
  }

  /** Forgetting positions, the filtered list is still a subsequence:
      an entry carrying `id` differs in content from every survivor. */
  lemma {:induction false} WithoutIdContentsSubsequence(links: seq<UserLink>, id: int)
    ensures IsSubsequence(Contents(WithoutId(links, id)), Contents(links))
  {
    if links != [] {
      var rest := WithoutId(links[1..], id);
      WithoutIdContentsSubsequence(links[1..], id);
      WithoutIdSpec(links[1..], id);
      assert Contents(links)[1..] == Contents(links[1..]);
      if links[0].id == id {
        assert rest == [] || rest[0] in rest;
        assert Contents(rest) == [] || Contents(rest)[0] != Contents(links)[0];
      } else {
        assert Contents([links[0]] + rest)[1..] == Contents(rest);
      }
    }
  }

  /** The list after handleRemove(id): the filtered list, renumbered. */
  function Removed(links: seq<UserLink>, id: int): (r: seq<UserLink>)
    ensures Contiguous(r)
    ensures forall i :: 0 <= i < |r| ==> r[i].id != id
    ensures Contents(r) == Contents(WithoutId(links, id))
    ensures IsSubsequence(Contents(r), Contents(links))
  {
    WithoutIdSpec(links, id);
    WithoutIdContentsSubsequence(links, id);
    UpdatePositions(WithoutId(links, id))
  }

  /** Removing an absent id changes no id, website or username and no
      order: it only renumbers. */
  lemma RemoveAbsentOnlyRenumbers(links: seq<UserLink>, id: int)
    requires id !in Ids(links)
    ensures Removed(links, id) == UpdatePositions(links)
    ensures Contents(Removed(links, id)) == Contents(links)
  {
    WithoutAbsentId(links, id);
  }

  /** One remove of the temporary id minted twice in one millisecond
      takes out both entries. */
  lemma RemoveAfterCollidingAdds(links: seq<UserLink>, now: int)
    requires -now !in Ids(links)
    ensures Removed(Added(Added(links, now), now), -now) == UpdatePositions(links)
  {
    var once := Added(links, now);
    var twice := Added(once, now);
    var minted := UserLink(-now, GitHub, "", |links| + 1);
    var tail := [minted, minted.(position := |links| + 2)];
    assert once == links + [minted];
    assert twice == once + [tail[1]];
    assert twice == links + tail;
    WithoutIdConcat(links, tail, -now);
    WithoutAbsentId(links, -now);
    assert WithoutId(tail, -now) == [] by {
      assert tail[1..] == [tail[1]] && tail[1..][1..] == [];
      assert WithoutId(tail[1..], -now) == [];
    }
    assert links + [] == links;
    var w := WithoutId(twice, -now);
    assert w == WithoutId(links + tail, -now);
    assert WithoutId(links + tail, -now) == links + [];
    assert Removed(twice, -now) == UpdatePositions(w);
  }

  lemma {:induction false} WithoutIdConcat(a: seq<UserLink>, b: seq<UserLink>, id: int)
    ensures WithoutId(a + b, id) == WithoutId(a, id) + WithoutId(b, id)
  {
    if a == [] {
      assert a + b == b;
    } else {
      assert (a + b)[0] == a[0];
      assert (a + b)[1..] == a[1..] + b;
      WithoutIdConcat(a[1..], b, id);
    }
  }

  // ---------------------------------------------------------------------
  // handleDragEnd
  // ---------------------------------------------------------------------

  function RemoveAt<T>(s: seq<T>, i: nat): (r: seq<T>)
    requires i < |s|
    ensures |r| == |s| - 1
  {
    s[..i] + s[i + 1..]
  }

  /** Taking an element out removes one occurrence of it. */
  lemma RemoveAtMultiset<T>(s: seq<T>, i: nat)
    requires i < |s|
    ensures multiset(RemoveAt(s, i)) + multiset{s[i]} == multiset(s)
  {
    assert s == s[..i] + [s[i]] + s[i + 1..];
  }

  /** The sortable list's move: the element at `from` is taken out and put
      back so that it ends at index `to`; the others keep their order. */
  function ArrayMove<T>(s: seq<T>, from: nat, to: nat): (r: seq<T>)
    requires from < |s| && to < |s|
    ensures |r| == |s|
    ensures r[to] == s[from]
    ensures RemoveAt(r, to) == RemoveAt(s, from)
    ensures multiset(r) == multiset(s)
  {
    var rest := RemoveAt(s, from);
    var r := rest[..to] + [s[from]] + rest[to..];
    assert r[..to] == rest[..to] && r[to + 1..] == rest[to..];
    RemoveAtMultiset(s, from);
    RemoveAtMultiset(r, to);
    r
  }

  /** Putting an element back where it was taken from undoes a move. */
  lemma ArrayMoveInverse<T>(s: seq<T>, from: nat, to: nat)
    requires from < |s| && to < |s|
    ensures ArrayMove(ArrayMove(s, from, to), to, from) == s
  {
    var rest := RemoveAt(s, from);
    assert s == rest[..from] + [s[from]] + rest[from..];
  }

  /** Forgetting positions commutes with a move. */
  lemma ContentsOfMove(s: seq<UserLink>, from: nat, to: nat)
    requires from < |s| && to < |s|
    ensures Contents(ArrayMove(s, from, to)) == ArrayMove(Contents(s), from, to)
  {
    var c := Contents(s);
    assert Contents(RemoveAt(s, from)) == RemoveAt(c, from);
  }

  /** `findIndex` on the id: the first index holding it, or -1. */
  function FindIndex(links: seq<UserLink>, id: int): (r: int)
    ensures -1 <= r < |links|
    ensures r == -1 <==> id !in Ids(links)
    ensures r >= 0 ==> links[r].id == id && forall j :: 0 <= j < r ==> links[j].id != id
  {
    if links == [] then -1
    else if links[0].id == id then 0
    else
      var k := FindIndex(links[1..], id);
      assert Ids(links[1..]) == Ids(links)[1..];
      if k == -1 then -1 else k + 1
  }

  /** A drag that ends over a different entry than the one dragged. */
  predicate IsMove(activeId: int, over: Option<int>) {
    over.Some? && activeId != over.value
  }

  /** The list after handleDragEnd: unchanged unless the drag ends over a
      different entry; otherwise the dragged entry is moved to the index
      of the entry it was dropped over and the list is renumbered. Both
      ids must name entries of the list (see README, "Left out"). */
  function DragEnd(links: seq<UserLink>, activeId: int, over: Option<int>): (r: seq<UserLink>)
    requires IsMove(activeId, over) ==> activeId in Ids(links) && over.value in Ids(links)
    ensures !IsMove(activeId, over) ==> r == links
    ensures IsMove(activeId, over) ==>
      var oldIndex, newIndex := FindIndex(links, activeId), FindIndex(links, over.value);
      |r| == |links| && Contiguous(r)
      && ContentOf(r[newIndex]) == ContentOf(links[oldIndex])
      && RemoveAt(Contents(r), newIndex) == RemoveAt(Contents(links), oldIndex)
      && multiset(Contents(r)) == multiset(Contents(links))
  {
    if IsMove(activeId, over) then
      var oldIndex, newIndex := FindIndex(links, activeId), FindIndex(links, over.value);
      var moved := ArrayMove(links, oldIndex, newIndex);
      ContentsOfMove(links, oldIndex, newIndex);
      assert Contents(moved)[newIndex] == ContentOf(moved[newIndex]);
      UpdatePositions(moved)
    else
      links
  }

  // ---------------------------------------------------------------------
  // handleUsernameChange and handleWebsiteChange
  // ---------------------------------------------------------------------

  /** The list after handleUsernameChange(id, username). */
  function WithUsername(links: seq<UserLink>, id: int, username: string): (r: seq<UserLink>)
    ensures |r| == |links| && Ids(r) == Ids(links)
    ensures forall i :: 0 <= i < |links| ==>
      r[i].website == links[i].website && r[i].position == links[i].position
    ensures forall i :: 0 <= i < |links| ==>
      r[i].username == if links[i].id == id then username else links[i].username
  {
    seq(|links|, i requires 0 <= i < |links| =>
      if links[i].id == id then links[i].(username := username) else links[i])
  }

  /** The list after handleWebsiteChange(id, website). */
  function WithWebsite(links: seq<UserLink>, id: int, website: Website): (r: seq<UserLink>)
    ensures |r| == |links| && Ids(r) == Ids(links)
    ensures forall i :: 0 <= i < |links| ==>
      r[i].username == links[i].username && r[i].position == links[i].position
    ensures forall i :: 0 <= i < |links| ==>
      r[i].website == if links[i].id == id then website else links[i].website
  {
    seq(|links|, i requires 0 <= i < |links| =>
      if links[i].id == id then links[i].(website := website) else links[i])
  }

  /** Field edits keep the position invariant. */
  lemma EditsKeepContiguous(links: seq<UserLink>, id: int, username: string, website: Website)
    requires Contiguous(links)
    ensures Contiguous(WithUsername(links, id, username))
    ensures Contiguous(WithWebsite(links, id, website))
  {
  }

  /** Only the last of two username edits of an entry is seen. */
  lemma UsernameLastEditWins(links: seq<UserLink>, id: int, first: string, second: string)
    ensures WithUsername(WithUsername(links, id, first), id, second) == WithUsername(links, id, second)
  {
    var a := WithUsername(WithUsername(links, id, first), id, second);
    var b := WithUsername(links, id, second);
    forall i | 0 <= i < |links| ensures a[i] == b[i] {
      assert Ids(WithUsername(links, id, first))[i] == links[i].id;
    }
  }

  /** Editing back to the old username restores the list. */
  lemma UsernameEditUndone(links: seq<UserLink>, id: int, previous: string, username: string)
    requires forall i :: 0 <= i < |links| && links[i].id == id ==> links[i].username == previous
    ensures WithUsername(WithUsername(links, id, username), id, previous) == links
  {
    var a := WithUsername(WithUsername(links, id, username), id, previous);
    forall i | 0 <= i < |links| ensures a[i] == links[i] {
      assert Ids(WithUsername(links, id, username))[i] == links[i].id;
    }
  }

  /** The two edits touch different fields and commute. */
  lemma EditsCommute(links: seq<UserLink>, id: int, username: string, other: int, website: Website)
    ensures WithWebsite(WithUsername(links, id, username), other, website)
         == WithUsername(WithWebsite(links, other, website), id, username)
  {
    var a := WithWebsite(WithUsername(links, id, username), other, website);
    var b := WithUsername(WithWebsite(links, other, website), id, username);
    forall i | 0 <= i < |links| ensures a[i] == b[i] {
      assert Ids(WithUsername(links, id, username))[i] == links[i].id;
      assert Ids(WithWebsite(links, other, website))[i] == links[i].id;
    }
  }

  /** An edit addressed to an id no entry carries changes nothing. */
  lemma EditOfAbsentIdIsNoOp(links: seq<UserLink>, id: int, username: string, website: Website)
    requires id !in Ids(links)
    ensures WithUsername(links, id, username) == links
    ensures WithWebsite(links, id, website) == links
  {
    forall i | 0 <= i < |links| ensures links[i].id != id {
      assert Ids(links)[i] == links[i].id;
    }
  }

  // ---------------------------------------------------------------------
  // The form's state
  // ---------------------------------------------------------------------

  /** The `links` state of the form; each handler replaces it. */
  class LinksFormState {
    var links: seq<UserLink>

    constructor ()
      ensures links == []
    {
      links := [];
    }

    /** The initial fetch: the rows read for the owner, or the empty list
        when the request failed. */
    method ReceiveFetched(fetched: Option<seq<UserLink>>)
      modifies this
      ensures links == if fetched.Some? then fetched.value else []
    {
      if fetched.Some? {
        links := fetched.value;
      } else {
        links := [];
      }
    }

    method HandleAdd(now: int)
      modifies this
      ensures links == Added(old(links), now)
      ensures |links| == |old(links)| + 1 && links[..|old(links)|] == old(links)
      ensures now > 0 ==> links[|links| - 1].id < 0
      ensures Contiguous(old(links)) ==> Contiguous(links)
    {
      links := Added(links, now);
    }

    method HandleRemove(id: int)
      modifies this
      ensures links == Removed(old(links), id)
      ensures Contiguous(links) && id !in Ids(links)
      ensures Contents(links) == Contents(WithoutId(old(links), id))
      ensures IsSubsequence(Contents(links), Contents(old(links)))
    {
      links := Removed(links, id);
      forall i | 0 <= i < |links| ensures Ids(links)[i] != id {
      }
    }

    method HandleDragEnd(activeId: int, over: Option<int>)
      requires IsMove(activeId, over) ==> activeId in Ids(links) && over.value in Ids(links)
      modifies this
      ensures links == DragEnd(old(links), activeId, over)
      ensures !IsMove(activeId, over) ==> links == old(links)
      ensures IsMove(activeId, over) ==>
        Contiguous(links) && multiset(Contents(links)) == multiset(Contents(old(links)))
    {
      if IsMove(activeId, over) {
        links := DragEnd(links, activeId, over);
      }
    }

    method HandleUsernameChange(id: int, username: string)
      modifies this
      ensures links == WithUsername(old(links), id, username)
      ensures Ids(links) == Ids(old(links))
    {
      links := WithUsername(links, id, username);
    }

    method HandleWebsiteChange(id: int, website: Website)
      modifies this
      ensures links == WithWebsite(old(links), id, website)
      ensures Ids(links) == Ids(old(links))
    {
      links := WithWebsite(links, id, website);
    }
  }
}
