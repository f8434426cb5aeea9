/** The explore page: the fetched polls filtered client-side by a search
    term matched case-insensitively against the title or, when there is one,
    the description; and the choice between the loading skeleton, the "no
    polls found" message and the grid of cards. */
module Explore {
  import opened Wrappers
  import opened Text

  /** A fetched poll as the page reads it (the creation timestamp is only
      displayed and is not modelled). */
  datatype Poll = Poll(
    id: string,
    title: string,
    description: Option<string>,
    totalVotes: int,
    isOpen: bool,
    creatorName: string)

  /** The filter's test: the lower-cased term occurs in the lower-cased
      title, or the poll has a description and it occurs there. */
  predicate Matches(p: Poll, term: string)
    ensures Matches(p, term) <==>
      || (exists i :: OccursAt(Lower(p.title), Lower(term), i))
      || (p.description.Some? && exists i :: OccursAt(Lower(p.description.value), Lower(term), i))
  {
    ContainsIffOccurs(Lower(p.title), Lower(term));
    match p.description
    case None => Contains(Lower(p.title), Lower(term))
    case Some(desc) =>
      ContainsIffOccurs(Lower(desc), Lower(term));
      Contains(Lower(p.title), Lower(term)) || Contains(Lower(desc), Lower(term))
  }

  /** `polls.filter(poll => Matches(poll, term))`, written over growing
      prefixes: the polls are visited in order and each one that matches is
      appended. */
  function Filter(polls: seq<Poll>, term: string): (r: seq<Poll>)
    ensures |r| <= |polls|
    ensures forall k :: 0 <= k < |r| ==> Matches(r[k], term)
    decreases |polls|
  {
    if polls == [] then []
    else
      var last := polls[|polls| - 1];
      Filter(polls[..|polls| - 1], term) + (if Matches(last, term) then [last] else [])
  }

  /** The positions of the matching polls, in increasing order. */
  function Kept(polls: seq<Poll>, term: string): (idx: seq<int>)
    ensures forall k :: 0 <= k < |idx| ==> 0 <= idx[k] < |polls|
    ensures forall k, l :: 0 <= k < l < |idx| ==> idx[k] < idx[l]
    ensures forall i :: 0 <= i < |polls| ==> (i in idx <==> Matches(polls[i], term))
    decreases |polls|
  {
    if polls == [] then []
    else
      var n := |polls| - 1;
      var prefix := polls[..n];
      var rest := Kept(prefix, term);
      assert forall i :: 0 <= i < n ==> polls[i] == prefix[i];
      rest + (if Matches(polls[n], term) then [n] else [])
  }

  /** The result of the filter is the subsequence of `polls` at exactly the
      matching positions: order is preserved, every matching poll is kept
      and no other. */
  lemma {:induction false} FilterPicksKept(polls: seq<Poll>, term: string)
    ensures |Filter(polls, term)| == |Kept(polls, term)|
    ensures forall k :: 0 <= k < |Kept(polls, term)| ==> Filter(polls, term)[k] == polls[Kept(polls, term)[k]]
    decreases |polls|
  {
    if polls != [] {
      var n := |polls| - 1;
      var prefix := polls[..n];
      FilterPicksKept(prefix, term);
      var r0, idx0 := Filter(prefix, term), Kept(prefix, term);
      var r, idx := Filter(polls, term), Kept(polls, term);
      if Matches(polls[n], term) {
        assert r == r0 + [polls[n]];
        assert idx == idx0 + [n];
      } else {
        assert r == r0;
        assert idx == idx0;
      }
      forall k | 0 <= k < |idx| ensures r[k] == polls[idx[k]] {
        if k < |idx0| {
          assert r[k] == r0[k] && idx[k] == idx0[k];
          assert prefix[idx0[k]] == polls[idx0[k]];
        }
      }
    }
  }

  /** A poll is in the result exactly when it is one of the fetched polls
      and matches. */
  lemma FilterMembership(polls: seq<Poll>, term: string, p: Poll)
    ensures p in Filter(polls, term) <==> p in polls && Matches(p, term)
  {
    FilterPicksKept(polls, term);
    var r, idx := Filter(polls, term), Kept(polls, term);
    if p in r {
      var k :| 0 <= k < |r| && r[k] == p;
      assert polls[idx[k]] == p;
    }
    if p in polls && Matches(p, term) {
      var i :| 0 <= i < |polls| && polls[i] == p;
      assert i in idx;
      var k :| 0 <= k < |idx| && idx[k] == i;
      assert r[k] == p;
    }
  }

  /** A poll with no description is matched on its title alone. */
  lemma NoDescriptionMatchesTitle(p: Poll, term: string)
    requires p.description.None?
    ensures Matches(p, term) <==> exists i :: OccursAt(Lower(p.title), Lower(term), i)
  {
    ContainsIffOccurs(Lower(p.title), Lower(term));
  }

  /** Every poll matches the empty term. */
  lemma EmptyTermMatches(p: Poll)
    ensures Matches(p, "")
  {
    assert Lower("") == "";
    ContainsEmpty(Lower(p.title));
  }

  /** An empty search box shows every fetched poll. */
  lemma {:induction false} EmptyTermKeepsAll(polls: seq<Poll>)
    ensures Filter(polls, "") == polls
    decreases |polls|
  {
    if polls != [] {
      var n := |polls| - 1;
      EmptyTermKeepsAll(polls[..n]);
      EmptyTermMatches(polls[n]);
      assert polls[..n] + [polls[n]] == polls;
    }
  }

  /** Searching for `term` and for its lower-cased form gives the same
      result: the case of the term does not matter. */
  lemma {:induction false} LowerTermSameResult(polls: seq<Poll>, term: string)
    ensures Filter(polls, Lower(term)) == Filter(polls, term)
    decreases |polls|
  {
    LowerIdempotent(term);
    if polls != [] {
      LowerTermSameResult(polls[..|polls| - 1], term);
    }
  }

  /** Filtering an already filtered list with the same term changes nothing. */
  lemma {:induction false} FilterIdempotent(polls: seq<Poll>, term: string)
    ensures Filter(Filter(polls, term), term) == Filter(polls, term)
  {
    KeepAllMatching(Filter(polls, term), term);
  }

  lemma {:induction false} KeepAllMatching(polls: seq<Poll>, term: string)
    requires forall k :: 0 <= k < |polls| ==> Matches(polls[k], term)
    ensures Filter(polls, term) == polls
    decreases |polls|
  {
    if polls != [] {
      var n := |polls| - 1;
      KeepAllMatching(polls[..n], term);
      assert polls[..n] + [polls[n]] == polls;
    }
  }

  /** What the page shows below the search box. */
  datatype View = Skeleton | NoneFound | Cards(polls: seq<Poll>)

  /** Skeleton cards while loading; once loaded, the "no polls found"
      message exactly when the filtered list is empty, and otherwise one card
      per filtered poll, in order. */
  function Render(isLoading: bool, polls: seq<Poll>, term: string): (v: View)
    ensures v.Skeleton? <==> isLoading
    ensures v.NoneFound? <==> !isLoading && Filter(polls, term) == []
    ensures v.Cards? ==> v.polls == Filter(polls, term) && v.polls != []
  {
    if isLoading then Skeleton
    else
      var shown := Filter(polls, term);
      if |shown| == 0 then NoneFound else Cards(shown)
  }

  /** With an empty search box, a loaded page shows the message only when
      nothing was fetched. */
  lemma EmptyTermMessageOnlyWhenNothingFetched(polls: seq<Poll>)
    ensures Render(false, polls, "").NoneFound? <==> polls == []
  {
    EmptyTermKeepsAll(polls);
  }
}
