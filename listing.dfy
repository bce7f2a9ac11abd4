/** What the auction list and the user dashboard compute from the stored
    auctions: the status and search filter of `renderAuctions`, and the
    totals of `updateUserDashboard`. */
module Listing {
  import opened Lists
  import opened Text
  import opened Auctions

  /** The status drop-down: `'all'`, or one status to match exactly. */
  datatype StatusFilter = AllStatuses | OnlyStatus(status: Status)

  /** The test `renderAuctions` applies to each auction; `query` is the
      search box text already lower-cased. */
  predicate Matches(a: Auction, filter: StatusFilter, query: string)
    ensures Matches(a, filter, query) ==> filter.AllStatuses? || a.status == filter.status
    ensures query == [] ==> (Matches(a, filter, query) <==> filter.AllStatuses? || a.status == filter.status)
  {
    if filter.OnlyStatus? && a.status != filter.status then false
    else if query == [] then true
    else Includes(ToLower(a.title), query) || Includes(ToLower(a.description), query)
  }

  /** The list shown for a status filter and the raw search text, which
      is lower-cased first. */
  function FilterAuctions(auctions: seq<Auction>, filter: StatusFilter, search: string): (r: seq<Auction>)
    ensures |r| <= |auctions|
    ensures forall i :: 0 <= i < |r| ==> r[i] in auctions && Matches(r[i], filter, ToLower(search))
  {
    var query := ToLower(search);
    Filter(auctions, (a: Auction) => Matches(a, filter, query))
  }

  /** An auction passes exactly when its status is the one asked for (or
      all are asked for) and the search text is empty or occurs, ignoring
      case, somewhere in its title or its description. */
  lemma MatchesIff(a: Auction, filter: StatusFilter, search: string)
    ensures Matches(a, filter, ToLower(search)) <==>
      (filter.AllStatuses? || a.status == filter.status) &&
      (search == [] ||
       (exists i :: OccursAt(ToLower(a.title), ToLower(search), i)) ||
       (exists i :: OccursAt(ToLower(a.description), ToLower(search), i)))
  {
    var query := ToLower(search);
    var title, description := ToLower(a.title), ToLower(a.description);
    assert |query| == |search|;
    assert Matches(a, filter, query) ==
      ((filter.AllStatuses? || a.status == filter.status) &&
       (query == [] || Includes(title, query) || Includes(description, query)));
    IncludesIff(title, query);
    IncludesIff(description, query);
    if i :| OccursAt(title, query, i) {
      assert OccursAt(ToLower(a.title), ToLower(search), i);
    }
    if i :| OccursAt(description, query, i) {
      assert OccursAt(ToLower(a.description), ToLower(search), i);
    }
  }

  /** The list view holds exactly the matching auctions, each as often as
      it is stored. */
  lemma FilterAuctionsSpec(auctions: seq<Auction>, filter: StatusFilter, search: string)
    ensures forall a :: a in FilterAuctions(auctions, filter, search) <==>
      a in auctions && Matches(a, filter, ToLower(search))
    ensures forall a ::
              multiset(FilterAuctions(auctions, filter, search))[a] ==
              if Matches(a, filter, ToLower(search)) then multiset(auctions)[a] else 0
    ensures |FilterAuctions(auctions, filter, search)| <= |auctions|
  {
    var query := ToLower(search);
    forall a: Auction
      ensures multiset(FilterAuctions(auctions, filter, search))[a] ==
        if Matches(a, filter, query) then multiset(auctions)[a] else 0
    {
      FilterMultiplicity(auctions, (a: Auction) => Matches(a, filter, query), a);
    }
  }

  /** The list view keeps the stored order: the view of two stretches of
      the list, one after the other, is the view of the first stretch
      followed by the view of the second. */
  lemma FilterAuctionsInOrder(front: seq<Auction>, back: seq<Auction>, filter: StatusFilter, search: string)
    ensures FilterAuctions(front + back, filter, search) ==
      FilterAuctions(front, filter, search) + FilterAuctions(back, filter, search)
  {
    var query := ToLower(search);
    FilterAppend(front, back, (a: Auction) => Matches(a, filter, query));
  }

  // ---- Dashboard ----

  /** `bids.filter(b => b.by === email)`. */
  function BidsBy(bids: seq<Bid>, email: string): (r: seq<Bid>)
    ensures |r| <= |bids|
    ensures forall i :: 0 <= i < |r| ==> r[i] in bids && r[i].bidder == email
  {
    Filter(bids, (b: Bid) => b.bidder == email)
  }

  /** Every bid `email` made, auction by auction in list order. */
  function UserBids(auctions: seq<Auction>, email: string): (r: seq<Bid>)
    ensures forall i :: 0 <= i < |r| ==> r[i].bidder == email
  {
    if auctions == [] then []
    else UserBids(auctions[..|auctions| - 1], email) + BidsBy(auctions[|auctions| - 1].bids, email)
  }

  /** The places (auction position, bid position) of the bids `email`
      placed. */
  function BidPositions(auctions: seq<Auction>, email: string): set<(int, int)>
  {
    set i, j | 0 <= i < |auctions| && 0 <= j < |auctions[i].bids| && auctions[i].bids[j].bidder == email :: (i, j)
  }

  /** A bid is among the user's bids exactly when it was placed by `email`
      on one of the auctions. */
  lemma {:induction false} UserBidsMembership(auctions: seq<Auction>, email: string, b: Bid)
    ensures b in UserBids(auctions, email) <==>
      exists i :: 0 <= i < |auctions| && b in auctions[i].bids && b.bidder == email
    decreases |auctions|
  {
    if auctions != [] {
      var n := |auctions| - 1;
      var front := auctions[..n];
      UserBidsMembership(front, email, b);
      var last := auctions[n].bids;
      if b in BidsBy(last, email) {
        var k :| 0 <= k < |BidsBy(last, email)| && BidsBy(last, email)[k] == b;
      }
      if b in last && b.bidder == email {
        var k :| 0 <= k < |last| && last[k] == b;
      }
      if i :| 0 <= i < |auctions| && b in auctions[i].bids && b.bidder == email {
        if i < n {
          assert front[i] == auctions[i];
        }
      }
      if i :| 0 <= i < |front| && b in front[i].bids && b.bidder == email {
        assert auctions[i] == front[i];
      }
    }
  }

  /** The places in auction `n`, holding bids `bids`, of the bids `email`
      placed there. */
  function BidSlots(n: int, bids: seq<Bid>, email: string): set<(int, int)>
  {
    set j | 0 <= j < |bids| && bids[j].bidder == email :: (n, j)
  }

  /** One more bid at the end adds its place exactly when `email` placed it. */
  lemma BidSlotsSnoc(n: int, bids: seq<Bid>, email: string)
    requires bids != []
    ensures BidSlots(n, bids, email) ==
      BidSlots(n, bids[..|bids| - 1], email) + (if bids[|bids| - 1].bidder == email then {(n, |bids| - 1)} else {})
    ensures (n, |bids| - 1) !in BidSlots(n, bids[..|bids| - 1], email)
  {
    var m := |bids| - 1;
    var front := bids[..m];
    forall q | q in BidSlots(n, bids, email)
      ensures q in BidSlots(n, front, email) || (bids[m].bidder == email && q == (n, m))
    {
      var j :| 0 <= j < |bids| && bids[j].bidder == email && q == (n, j);
      if j < m {
        assert front[j] == bids[j];
      }
    }
  }

  /** Filtering one auction's bids keeps as many bids as there are places
      in it holding a bid by `email`. */
  lemma {:induction false} BidsByCount(n: int, bids: seq<Bid>, email: string)
    ensures |BidsBy(bids, email)| == |BidSlots(n, bids, email)|
    decreases |bids|
  {
    if bids != [] {
      var m := |bids| - 1;
      var front := bids[..m];
      BidsByCount(n, front, email);
      assert bids == front + [bids[m]];
      FilterAppend(front, [bids[m]], (b: Bid) => b.bidder == email);
      BidSlotsSnoc(n, bids, email);
    }
  }

  /** One more auction at the end adds the places of its bids by `email`. */
  lemma BidPositionsSnoc(auctions: seq<Auction>, email: string)
    requires auctions != []
    ensures BidPositions(auctions, email) ==
      BidPositions(auctions[..|auctions| - 1], email) + BidSlots(|auctions| - 1, auctions[|auctions| - 1].bids, email)
    ensures BidPositions(auctions[..|auctions| - 1], email) !! BidSlots(|auctions| - 1, auctions[|auctions| - 1].bids, email)
  {
    var n := |auctions| - 1;
    var front := auctions[..n];
    forall q | q in BidPositions(auctions, email)
      ensures q in BidPositions(front, email) || q in BidSlots(n, auctions[n].bids, email)
    {
      var i, j :| 0 <= i < |auctions| && 0 <= j < |auctions[i].bids| && auctions[i].bids[j].bidder == email && q == (i, j);
      if i < n {
        assert front[i] == auctions[i];
      }
    }
    forall q | q in BidPositions(front, email)
      ensures q in BidPositions(auctions, email) && q.0 < n
    {
      var i, j :| 0 <= i < |front| && 0 <= j < |front[i].bids| && front[i].bids[j].bidder == email && q == (i, j);
      assert front[i] == auctions[i];
    }
  }

  /** The user's bid count is the number of places holding a bid by
      `email`. */
  lemma {:induction false} UserBidsCount(auctions: seq<Auction>, email: string)
    ensures |UserBids(auctions, email)| == |BidPositions(auctions, email)|
    decreases |auctions|
  {
    if auctions != [] {
      var n := |auctions| - 1;
      UserBidsCount(auctions[..n], email);
      BidsByCount(n, auctions[n].bids, email);
      BidPositionsSnoc(auctions, email);
    }
  }

  /** `highest` is what the dashboard shows as the largest of `bids`: at
      least 0, no amount above it, and, unless 0, one of the amounts. */
  ghost predicate IsHighest(bids: seq<Bid>, highest: int)
  {
    && highest >= 0
    && (forall b :: b in bids ==> b.amount <= highest)
    && (highest != 0 ==> exists b :: b in bids && b.amount == highest)
  }

  /** One step of the dashboard loop: the larger of the running value and
      the largest new amount (0 when there is none) is the largest of all. */
  lemma HighestStep(seen: seq<Bid>, placed: seq<Bid>, highest: int, newHighest: int)
    requires IsHighest(seen, highest)
    requires newHighest == if |placed| > 0 then MaxAmount(placed) else 0
    ensures IsHighest(seen + placed, if newHighest > highest then newHighest else highest)
  {
    var all := seen + placed;
    forall b | b in all
      ensures b in seen || b in placed
    {
      var k :| 0 <= k < |all| && all[k] == b;
      if k >= |seen| {
        assert placed[k - |seen|] == b;
      }
    }
    assert forall b :: b in placed ==> b.amount <= newHighest;
    if newHighest > highest {
      var k :| 0 <= k < |placed| && placed[k].amount == newHighest;
      assert all[|seen| + k] == placed[k];
    } else if highest != 0 {
      var b :| b in seen && b.amount == highest;
      assert b in all;
    }
  }

  /** A bound on the user's collected bids is a bound on every bid the user
      placed on any auction, and a collected amount is a placed amount. */
  lemma UserBidsBound(auctions: seq<Auction>, email: string, highest: int)
    requires IsHighest(UserBids(auctions, email), highest)
    ensures forall i, j :: 0 <= i < |auctions| && 0 <= j < |auctions[i].bids| && auctions[i].bids[j].bidder == email ==>
      auctions[i].bids[j].amount <= highest
    ensures highest != 0 ==>
      exists i, j ::
        0 <= i < |auctions| && 0 <= j < |auctions[i].bids| &&
        auctions[i].bids[j].bidder == email && auctions[i].bids[j].amount == highest
  {
    forall i, j | 0 <= i < |auctions| && 0 <= j < |auctions[i].bids| && auctions[i].bids[j].bidder == email
      ensures auctions[i].bids[j].amount <= highest
    {
      UserBidsMembership(auctions, email, auctions[i].bids[j]);
    }
    if highest != 0 {
      var b :| b in UserBids(auctions, email) && b.amount == highest;
      UserBidsMembership(auctions, email, b);
      var k :| 0 <= k < |auctions| && b in auctions[k].bids && b.bidder == email;
      var j :| 0 <= j < |auctions[k].bids| && auctions[k].bids[j] == b;
    }
  }

  /** `auctions.filter(a => a.status === 'active').length`. */
  function ActiveCount(auctions: seq<Auction>): (r: nat)
    ensures r <= |auctions|
  {
    if auctions == [] then 0
    else ActiveCount(auctions[..|auctions| - 1]) + (if auctions[|auctions| - 1].status == Active then 1 else 0)
  }

  /** The positions of the active auctions. */
  function ActivePositions(auctions: seq<Auction>): set<int>
  {
    set i | 0 <= i < |auctions| && auctions[i].status == Active
  }

  /** The count is the number of active auctions. */
  lemma {:induction false} ActiveCountIsCardinality(auctions: seq<Auction>)
    ensures ActiveCount(auctions) == |ActivePositions(auctions)|
    decreases |auctions|
  {
    if auctions != [] {
      var n := |auctions| - 1;
      var front := auctions[..n];
      ActiveCountIsCardinality(front);
      if auctions[n].status == Active {
        assert ActivePositions(auctions) == ActivePositions(front) + {n};
      } else {
        assert ActivePositions(auctions) == ActivePositions(front);
      }
    }
  }

  /** The three dashboard figures for the signed-in user `email`: how many
      bids the user made, the user's largest bid (0 when none is positive),
      and how many auctions are active. */
  method DashboardTotals(auctions: seq<Auction>, email: string) returns (totalBids: nat, highestBid: int, activeCount: nat)
    ensures totalBids == |BidPositions(auctions, email)|
    ensures highestBid >= 0
    ensures forall i, j :: 0 <= i < |auctions| && 0 <= j < |auctions[i].bids| && auctions[i].bids[j].bidder == email ==>
      auctions[i].bids[j].amount <= highestBid
    ensures highestBid != 0 ==>
      exists i, j ::
        0 <= i < |auctions| && 0 <= j < |auctions[i].bids| &&
        auctions[i].bids[j].bidder == email && auctions[i].bids[j].amount == highestBid
    ensures activeCount == |ActivePositions(auctions)|
  {
    var userBids: seq<Bid> := [];
    highestBid := 0;
    var i := 0;
    while i < |auctions|
      invariant 0 <= i <= |auctions|
      invariant userBids == UserBids(auctions[..i], email)
      invariant IsHighest(userBids, highestBid)
    {
      var placed := BidsBy(auctions[i].bids, email);
      assert auctions[..i + 1][..i] == auctions[..i] && auctions[..i + 1][i] == auctions[i];
      assert UserBids(auctions[..i + 1], email) == UserBids(auctions[..i], email) + placed;
      var userHighest := if |placed| > 0 then MaxAmount(placed) else 0;
      HighestStep(userBids, placed, highestBid, userHighest);
      userBids := userBids + placed;
      if userHighest > highestBid {
        highestBid := userHighest;
      }
      i := i + 1;
    }
    assert auctions[..i] == auctions;
    totalBids := |userBids|;
    UserBidsCount(auctions, email);
    UserBidsBound(auctions, email, highestBid);
    activeCount := ActiveCount(auctions);
    ActiveCountIsCardinality(auctions);
  }
}
