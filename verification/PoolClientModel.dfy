/** The client's view of the chain: ingesting commitment events and cross-checking the root. */
module PoolClientModel {
  import opened Arithmetic
  import opened Residues
  import opened Merkle
  import opened ClientTree
  import opened TreeAgreement

  /** A parsed commitment event. */
  datatype CommitmentEvent = CommitmentEvent(leafIndex: nat, commitment: Fe)

  /** The events a client appends: the first of each leaf index, in arrival order. */
  function Unseen(seen: set<nat>, events: seq<CommitmentEvent>): seq<CommitmentEvent>
    decreases |events|
  {
    if events == [] then []
    else if events[0].leafIndex in seen then Unseen(seen, events[1..])
    else [events[0]] + Unseen(seen + {events[0].leafIndex}, events[1..])
  }

  function CommitmentsOf(events: seq<CommitmentEvent>): seq<Fe> {
    seq(|events|, i requires 0 <= i < |events| => events[i].commitment)
  }

  function IndicesOf(events: seq<CommitmentEvent>): set<nat> {
    set e | e in events :: e.leafIndex
  }

  class PoolClient {
    const tree: MerkleTree
    var seenLeaves: set<nat>
    /** The events appended so far. */
    ghost var appended: seq<CommitmentEvent>

    ghost predicate Valid()
      reads this, tree
    {
      && tree.Valid()
      && tree.leaves == CommitmentsOf(appended)
      && seenLeaves == IndicesOf(appended)
      && Distinct(appended)
    }

    constructor (h: Hash2)
      ensures Valid() && fresh(tree) && tree.h == h && appended == []
    {
      tree := new MerkleTree(h);
      seenLeaves, appended := {}, [];
    }

    /** `ingest` on parsed events: skips leaf indices already seen, appends the rest as they come. */
    method Ingest(events: seq<CommitmentEvent>)
      requires Valid()
      modifies this, tree
      ensures Valid() && appended == old(appended) + Unseen(old(seenLeaves), events)
      ensures forall chain: seq<Fe> {:trigger FromChain(appended, chain)} ::
                FromChain(old(appended), chain) && FromChain(events, chain) ==> FromChain(appended, chain)
    {
      UnseenComesFrom(seenLeaves, events);
      assert events[0..] == events;
      assert appended + Unseen(seenLeaves, events) == old(appended) + Unseen(old(seenLeaves), events);
      for i := 0 to |events|
        invariant Valid()
        invariant appended + Unseen(seenLeaves, events[i..]) == old(appended) + Unseen(old(seenLeaves), events)
      {
        var e := events[i];
        assert events[i..][1..] == events[i + 1..];
        if e.leafIndex in seenLeaves {
          continue;
        }
        ghost var rest := Unseen(seenLeaves + {e.leafIndex}, events[i + 1..]);
        assert appended + ([e] + rest) == (appended + [e]) + rest;
        var _ := tree.Append(e.commitment);
        seenLeaves := seenLeaves + {e.leafIndex};
        AppendedOne(appended, e);
        appended := appended + [e];
      }
    }

    /** `assertRootMatchesChain`: compares the wire forms of the two roots. */
    method RootMatches(chainRoot: Fe) returns (ok: bool)
      requires Valid()
      ensures ok <==> Root(tree.h, tree.leaves, TREE_DEPTH) == chainRoot
      ensures forall chain: seq<Fe> {:trigger Comparable(tree.h, tree.leaves, chain)} ::
                Comparable(tree.h, tree.leaves, chain) && Root(tree.h, chain, TREE_DEPTH) == chainRoot
                ==> (ok <==> SamePadded(Fitting(tree.leaves), chain))
                    && (FromChain(appended, chain) && 0 !in chain ==> (ok <==> tree.leaves == chain))
    {
      forall chain: seq<Fe> | Comparable(tree.h, tree.leaves, chain)
        ensures Root(tree.h, tree.leaves, TREE_DEPTH) == Root(tree.h, chain, TREE_DEPTH) <==> SamePadded(Fitting(tree.leaves), chain)
        ensures FromChain(appended, chain) && 0 !in chain ==>
                  (Root(tree.h, tree.leaves, TREE_DEPTH) == Root(tree.h, chain, TREE_DEPTH) <==> tree.leaves == chain)
      {
        RootsCompared(tree.h, tree.leaves, chain);
        if FromChain(appended, chain) && 0 !in chain {
          DistinctMatch(tree.h, appended, chain);
        }
      }
      var local := tree.RootElement();
      WireInjective(local, chainRoot);
      ok := ToBytesBe(local) == ToBytesBe(chainRoot);
    }
  }

  lemma AppendedOne(events: seq<CommitmentEvent>, e: CommitmentEvent)
    ensures CommitmentsOf(events + [e]) == CommitmentsOf(events) + [e.commitment]
    ensures IndicesOf(events + [e]) == IndicesOf(events) + {e.leafIndex}
  {
    assert forall x :: x in events + [e] <==> x in events || x == e;
  }

  /** No leaf index is appended twice. */
  ghost predicate Distinct(events: seq<CommitmentEvent>) {
    forall i, j :: 0 <= i < j < |events| ==> events[i].leafIndex != events[j].leafIndex
  }

  /** Every event reports the leaf the chain has at its index. */
  ghost predicate FromChain(events: seq<CommitmentEvent>, chain: seq<Fe>) {
    forall e :: e in events ==> e.leafIndex < |chain| && chain[e.leafIndex] == e.commitment
  }

  lemma {:induction false} UnseenComesFrom(seen: set<nat>, events: seq<CommitmentEvent>)
    ensures forall e :: e in Unseen(seen, events) ==> e in events && e.leafIndex !in seen
    decreases |events|
  {
    if events != [] {
      UnseenComesFrom(seen, events[1..]);
      UnseenComesFrom(seen + {events[0].leafIndex}, events[1..]);
    }
  }

  // ----- what exactly is appended -----

  /** The event at `i` is the first of its leaf index, and that index was not seen before. */
  predicate FirstSeen(seen: set<nat>, events: seq<CommitmentEvent>, i: nat)
    requires i < |events|
  {
    events[i].leafIndex !in seen && forall k :: 0 <= k < i ==> events[k].leafIndex != events[i].leafIndex
  }

  /** Nothing is lost: every index of the list is known afterwards. */
  lemma {:induction false} UnseenCovers(seen: set<nat>, events: seq<CommitmentEvent>)
    ensures forall e :: e in events ==> e.leafIndex in seen + IndicesOf(Unseen(seen, events))
    decreases |events|
  {
    if events != [] {
      var first, rest := events[0], events[1..];
      assert forall e :: e in events ==> e == first || e in rest;
      if first.leafIndex in seen {
        UnseenCovers(seen, rest);
      } else {
        var more := Unseen(seen + {first.leafIndex}, rest);
        UnseenCovers(seen + {first.leafIndex}, rest);
        assert first in [first] + more && forall e :: e in more ==> e in [first] + more;
      }
    }
  }

  /** One more event is appended at the end exactly if its index is new. */
  lemma {:induction false} UnseenSnoc(seen: set<nat>, events: seq<CommitmentEvent>, e: CommitmentEvent)
    ensures Unseen(seen, events + [e])
            == Unseen(seen, events) + if e.leafIndex in seen + IndicesOf(Unseen(seen, events)) then [] else [e]
    decreases |events|
  {
    if events != [] {
      var first, rest := events[0], events[1..];
      assert (events + [e])[1..] == rest + [e];
      if first.leafIndex in seen {
        UnseenSnoc(seen, rest, e);
      } else {
        UnseenSnoc(seen + {first.leafIndex}, rest, e);
        var more := Unseen(seen + {first.leafIndex}, rest);
        IndicesOfCons(first, more);
        assert seen + {first.leafIndex} + IndicesOf(more) == seen + IndicesOf([first] + more);
      }
    } else {
      assert [e][1..] == [];
    }
  }

  lemma IndicesOfCons(first: CommitmentEvent, rest: seq<CommitmentEvent>)
    ensures IndicesOf([first] + rest) == {first.leafIndex} + IndicesOf(rest)
  {
    assert forall x :: x in [first] + rest <==> x == first || x in rest;
  }

  lemma {:induction false} KnownIndices(seen: set<nat>, events: seq<CommitmentEvent>)
    ensures seen + IndicesOf(Unseen(seen, events)) == seen + IndicesOf(events)
  {
    UnseenCovers(seen, events);
    UnseenComesFrom(seen, events);
  }

  /** The first event of an unseen index is appended. */
  lemma {:induction false} FirstWins(seen: set<nat>, events: seq<CommitmentEvent>, i: nat)
    requires i < |events| && FirstSeen(seen, events, i)
    ensures events[i] in Unseen(seen, events)
    decreases |events|
  {
    if i > 0 {
      var first, rest := events[0], events[1..];
      var seen' := if first.leafIndex in seen then seen else seen + {first.leafIndex};
      assert forall k :: 0 <= k < i - 1 ==> rest[k] == events[k + 1];
      FirstWins(seen', rest, i - 1);
    }
  }

  /** And nothing else is. */
  lemma {:induction false} OnlyFirstWins(seen: set<nat>, events: seq<CommitmentEvent>, e: CommitmentEvent) returns (i: nat)
    requires e in Unseen(seen, events)
    ensures i < |events| && events[i] == e && FirstSeen(seen, events, i)
    decreases |events|
  {
    var first, rest := events[0], events[1..];
    if first.leafIndex !in seen && e == first {
      i := 0;
    } else {
      var k := OnlyFirstWins(if first.leafIndex in seen then seen else seen + {first.leafIndex}, rest, e);
      i := k + 1;
      assert forall j :: 0 < j < i ==> events[j] == rest[j - 1];
    }
  }

  // ----- histories of calls -----

  /** What a new client has appended after some calls of `ingest`. */
  function AppendedOver(calls: seq<seq<CommitmentEvent>>): seq<CommitmentEvent> {
    if calls == [] then []
    else
      var before := AppendedOver(calls[..|calls| - 1]);
      before + Unseen(IndicesOf(before), calls[|calls| - 1])
  }

  lemma {:induction false} UnseenDistinct(seen: set<nat>, events: seq<CommitmentEvent>)
    ensures Distinct(Unseen(seen, events))
    decreases |events|
  {
    if events != [] {
      UnseenDistinct(seen, events[1..]);
      UnseenDistinct(seen + {events[0].leafIndex}, events[1..]);
      UnseenComesFrom(seen + {events[0].leafIndex}, events[1..]);
    }
  }

  /** Whatever a client appends over any history of calls is distinct, and comes from those calls. */
  lemma {:induction false} AppendsStayDistinct(calls: seq<seq<CommitmentEvent>>)
    ensures Distinct(AppendedOver(calls))
    ensures forall e :: e in AppendedOver(calls) ==> exists k :: 0 <= k < |calls| && e in calls[k]
  {
    if calls != [] {
      var init, last := calls[..|calls| - 1], calls[|calls| - 1];
      AppendsStayDistinct(init);
      UnseenDistinct(IndicesOf(AppendedOver(init)), last);
      UnseenComesFrom(IndicesOf(AppendedOver(init)), last);
    }
  }

  /** Every event of every call reports a leaf of the chain. */
  ghost predicate AllFromChain(calls: seq<seq<CommitmentEvent>>, chain: seq<Fe>) {
    forall k :: 0 <= k < |calls| ==> FromChain(calls[k], chain)
  }

  /**
   * A client object put through any history of calls appends what `AppendedOver` says, and
   * passes the check exactly when what fits its tree is the chain's leaves up to trailing zeros.
   */
  method IngestThenCheck(h: Hash2, calls: seq<seq<CommitmentEvent>>, chainRoot: Fe, ghost chain: seq<Fe>)
    returns (client: PoolClient, ok: bool)
    requires Root(h, chain, TREE_DEPTH) == chainRoot
    requires Comparable(h, CommitmentsOf(AppendedOver(calls)), chain)
    ensures client.Valid() && client.tree.leaves == CommitmentsOf(AppendedOver(calls))
    ensures ok <==> SamePadded(Fitting(client.tree.leaves), chain)
    ensures AllFromChain(calls, chain) && 0 !in chain ==> (ok <==> client.tree.leaves == chain)
  {
    client := new PoolClient(h);
    for k := 0 to |calls|
      invariant fresh(client) && fresh(client.tree) && client.Valid() && client.tree.h == h
      invariant client.appended == AppendedOver(calls[..k])
      invariant AllFromChain(calls, chain) ==> FromChain(client.appended, chain)
    {
      assert calls[..k + 1][..k] == calls[..k];
      client.Ingest(calls[k]);
    }
    assert calls[..|calls|] == calls;
    ok := client.RootMatches(chainRoot);
  }

  lemma DistinctBound(events: seq<CommitmentEvent>, n: nat)
    requires Distinct(events) && forall e :: e in events ==> e.leafIndex < n
    ensures |events| <= n
  {
    DistinctCount(events);
    BoundedSize(IndicesOf(events), n);
  }

  lemma {:induction false} DistinctCount(events: seq<CommitmentEvent>)
    requires Distinct(events)
    ensures |IndicesOf(events)| == |events|
  {
    if events != [] {
      var init, last := events[..|events| - 1], events[|events| - 1];
      assert events == init + [last];
      DistinctCount(init);
      AppendedOne(init, last);
    }
  }

  lemma {:induction false} BoundedSize(s: set<nat>, n: nat)
    requires forall x :: x in s ==> x < n
    ensures |s| <= n
  {
    if n == 0 {
      assert s == {};
    } else {
      BoundedSize(s - {n - 1}, n - 1);
    }
  }

  /** The leaves that fit the tree; its root does not see the others. */
  function Fitting(leaves: seq<Fe>): seq<Fe> {
    PowPositive(2, TREE_DEPTH);
    if |leaves| <= Pow(2, TREE_DEPTH) then leaves else leaves[..Pow(2, TREE_DEPTH)]
  }

  /** The chain fits the tree, and the pairs hashed in the two trees do not collide. */
  ghost predicate Comparable(h: Hash2, local: seq<Fe>, chain: seq<Fe>) {
    && |chain| <= Pow(2, TREE_DEPTH)
    && CollisionFree(h, Pairs(h, Fitting(local), TREE_DEPTH, 0) + Pairs(h, chain, TREE_DEPTH, 0))
  }

  /** Whatever the client holds, the roots agree exactly when what fits its tree is the chain up to trailing zeros. */
  lemma RootsCompared(h: Hash2, local: seq<Fe>, chain: seq<Fe>)
    requires Comparable(h, local, chain)
    ensures Root(h, local, TREE_DEPTH) == Root(h, chain, TREE_DEPTH) <==> SamePadded(Fitting(local), chain)
  {
    RootBindsLeaves(h, Fitting(local), chain, TREE_DEPTH);
    if |local| > Pow(2, TREE_DEPTH) {
      var rest := local[Pow(2, TREE_DEPTH)..];
      assert local == Fitting(local) + rest;
      RootIgnoresOverflow(h, Fitting(local), rest, TREE_DEPTH, 0);
    }
  }

  lemma DistinctMatch(h: Hash2, appended: seq<CommitmentEvent>, chain: seq<Fe>)
    requires Distinct(appended) && FromChain(appended, chain) && 0 !in chain
    requires Comparable(h, CommitmentsOf(appended), chain)
    ensures Root(h, CommitmentsOf(appended), TREE_DEPTH) == Root(h, chain, TREE_DEPTH) <==> CommitmentsOf(appended) == chain
  {
    var local := CommitmentsOf(appended);
    DistinctBound(appended, |chain|);
    RootsCompared(h, local, chain);
    forall x | x in local
      ensures x in chain
    {
      var i :| 0 <= i < |local| && local[i] == x;
      assert appended[i] in appended;
    }
    if SamePadded(local, chain) {
      SamePaddedNonZero(local, chain);
    }
  }

  lemma FromEveryCall(calls: seq<seq<CommitmentEvent>>, chain: seq<Fe>)
    requires AllFromChain(calls, chain)
    ensures FromChain(AppendedOver(calls), chain)
  {
    AppendsStayDistinct(calls);
  }

  /**
   * The cross-check is decisive. After any calls of `ingest`, on whatever events, the roots
   * agree exactly when the client's leaves, as far as they fit the tree, are the chain's up to
   * trailing zeros; and when the events were the chain's, in whatever order and however often,
   * exactly when its leaves are the chain's, all of them and in order; unless the pairs hashed
   * in the two trees collide.
   */
  lemma MatchMeansInStep(h: Hash2, calls: seq<seq<CommitmentEvent>>, chain: seq<Fe>)
    requires Comparable(h, CommitmentsOf(AppendedOver(calls)), chain)
    ensures var local := CommitmentsOf(AppendedOver(calls));
            && (Root(h, local, TREE_DEPTH) == Root(h, chain, TREE_DEPTH) <==> SamePadded(Fitting(local), chain))
            && (AllFromChain(calls, chain) && 0 !in chain ==>
                  (Root(h, local, TREE_DEPTH) == Root(h, chain, TREE_DEPTH) <==> local == chain))
  {
    RootsCompared(h, CommitmentsOf(AppendedOver(calls)), chain);
    if AllFromChain(calls, chain) && 0 !in chain {
      AppendsStayDistinct(calls);
      FromEveryCall(calls, chain);
      DistinctMatch(h, AppendedOver(calls), chain);
    }
  }

  // ----- a client that hears of every leaf -----

  function Joined(calls: seq<seq<CommitmentEvent>>): seq<CommitmentEvent> {
    if calls == [] then [] else Joined(calls[..|calls| - 1]) + calls[|calls| - 1]
  }

  lemma {:induction false} UnseenAppend(seen: set<nat>, some: seq<CommitmentEvent>, more: seq<CommitmentEvent>)
    ensures Unseen(seen, some + more)
            == Unseen(seen, some) + Unseen(seen + IndicesOf(Unseen(seen, some)), more)
    decreases |some|
  {
    if some == [] {
      assert some + more == more && seen + IndicesOf([]) == seen;
    } else {
      var first, rest := some[0], some[1..];
      assert (some + more)[1..] == rest + more;
      if first.leafIndex in seen {
        UnseenAppend(seen, rest, more);
      } else {
        UnseenAppend(seen + {first.leafIndex}, rest, more);
        var kept := Unseen(seen + {first.leafIndex}, rest);
        IndicesOfCons(first, kept);
        assert seen + {first.leafIndex} + IndicesOf(kept) == seen + IndicesOf([first] + kept);
      }
    }
  }

  /** How the events are cut into calls makes no difference. */
  lemma {:induction false} CallsJoin(calls: seq<seq<CommitmentEvent>>)
    ensures AppendedOver(calls) == Unseen({}, Joined(calls))
  {
    if calls != [] {
      var init, last := calls[..|calls| - 1], calls[|calls| - 1];
      CallsJoin(init);
      UnseenAppend({}, Joined(init), last);
      assert {} + IndicesOf(AppendedOver(init)) == IndicesOf(AppendedOver(init));
    }
  }

  /** First arrivals are in order: no index arrives before its predecessor has. */
  predicate ArriveInOrder(events: seq<CommitmentEvent>) {
    events != [] ==>
      var init, e := events[..|events| - 1], events[|events| - 1];
      ArriveInOrder(init) && (e.leafIndex > 0 ==> e.leafIndex - 1 in IndicesOf(init))
  }

  /** Event `i` of the list is the one of index `i`. */
  predicate Counts(held: seq<CommitmentEvent>) {
    forall i :: 0 <= i < |held| ==> held[i].leafIndex == i
  }

  lemma CountsIndices(held: seq<CommitmentEvent>, n: nat)
    requires Counts(held)
    ensures n in IndicesOf(held) <==> n < |held|
  {
    if n < |held| {
      assert held[n] in held;
    }
  }

  /** Then the appended events are those of the indices 0, 1, ... in order. */
  lemma {:induction false} InOrderCounts(events: seq<CommitmentEvent>)
    requires ArriveInOrder(events)
    ensures Counts(Unseen({}, events))
    decreases |events|
  {
    if events != [] {
      var init, e := events[..|events| - 1], events[|events| - 1];
      assert events == init + [e];
      InOrderCounts(init);
      UnseenSnoc({}, init, e);
      KnownIndices({}, init);
      CountsIndices(Unseen({}, init), e.leafIndex);
      if e.leafIndex > 0 {
        CountsIndices(Unseen({}, init), e.leafIndex - 1);
      }
    }
  }

  /**
   * A client that has been told of every leaf of the chain at least once, the first arrivals in
   * order, in whatever calls and with whatever repetitions, holds exactly the chain's leaves.
   */
  lemma ClientCatchesUp(calls: seq<seq<CommitmentEvent>>, chain: seq<Fe>)
    requires FromChain(Joined(calls), chain) && ArriveInOrder(Joined(calls))
    requires forall i :: 0 <= i < |chain| ==> i in IndicesOf(Joined(calls))
    ensures CommitmentsOf(AppendedOver(calls)) == chain
  {
    var held := Unseen({}, Joined(calls));
    CallsJoin(calls);
    InOrderCounts(Joined(calls));
    KnownIndices({}, Joined(calls));
    UnseenComesFrom({}, Joined(calls));
    forall i | 0 <= i < |held|
      ensures i < |chain| && held[i].commitment == chain[i]
    {
      assert held[i] in held;
    }
    CountsIndices(held, |chain|);
    if |held| < |chain| {
      CountsIndices(held, |held|);
    }
  }
}
