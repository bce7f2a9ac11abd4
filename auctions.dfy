/** The auction records kept under the `auctions` key, the invariant the
    bidding engine keeps on them, and the expiry rule of the sweeper. */
module Auctions {
  import opened Wrappers
  import opened Lists

  /** The source's status strings `'active'` and `'ended'`. */
  datatype Status = Active | Ended

  /** One entry of an auction's bid log, `{by, amount, time}` (the `by` field is `bidder` here). */
  datatype Bid = Bid(bidder: string, amount: int, time: int)

  datatype Auction = Auction(
    id: int,
    title: string,
    description: string,
    image: string,
    startDate: int,
    endDate: Option<int>,
    startingPrice: int,
    currentPrice: int,
    highestBidder: Option<string>,
    bids: seq<Bid>,
    status: Status)

  /** The fields the admin form hands to `createAuction`; `startingPrice` is
      the result of `Number(...)`, `None` when that is `NaN`. */
  datatype AuctionInput = AuctionInput(
    title: string,
    description: string,
    image: string,
    startDate: int,
    endDate: Option<int>,
    startingPrice: Option<int>)

  /** The errors `placeBid` throws, in the order it checks for them. */
  datatype BidError = NotFound | AuctionEnded | InvalidAmount | BidTooLow(currentPrice: int)

  /** `Number(x) || 0`: `NaN` and `0` both become `0`. */
  function NumberOrZero(n: Option<int>): (r: int)
    ensures n == Some(r) || (n.None? && r == 0)
  {
    match n
    case Some(v) => v  // a zero is replaced by 0, which is itself
    case None => 0
  }

  /** `auctions.find(a => a.id === id)`, as an index. */
  function FindAuction(auctions: seq<Auction>, id: int): (r: Option<nat>)
    ensures r.Some? ==> r.value < |auctions| && auctions[r.value].id == id
    ensures r.Some? ==> forall j :: 0 <= j < r.value ==> auctions[j].id != id
    ensures r.None? <==> forall j :: 0 <= j < |auctions| ==> auctions[j].id != id
  {
    First(auctions, (a: Auction) => a.id == id)
  }

  /** Replacing one auction by a record with the same id leaves every lookup
      by id where it was. */
  lemma FindAuctionAfterUpdate(auctions: seq<Auction>, k: nat, a: Auction, id: int)
    requires k < |auctions| && a.id == auctions[k].id
    ensures FindAuction(auctions[k := a], id) == FindAuction(auctions, id)
  {
    var updated := auctions[k := a];
    FirstAgrees(updated, auctions, (x: Auction) => x.id == id, (x: Auction) => x.id == id);
  }

  function Last(bids: seq<Bid>): Bid
    requires bids != []
  {
    bids[|bids| - 1]
  }

  /** The largest amount in a non-empty bid log (`Math.max(...amounts)`). */
  function MaxAmount(bids: seq<Bid>): (m: int)
    requires bids != []
    ensures exists i :: 0 <= i < |bids| && bids[i].amount == m
    ensures forall i :: 0 <= i < |bids| ==> bids[i].amount <= m
  {
    if |bids| == 1 then bids[0].amount
    else
      var rest := MaxAmount(bids[1..]);
      assert forall i :: 1 <= i < |bids| ==> bids[i] == bids[1..][i - 1];
      if bids[0].amount >= rest then bids[0].amount else rest
  }

  /** The invariant every auction keeps under the bidding engine: with no
      bids the price is the starting price and there is no leader; otherwise
      the bids are positive and strictly rising from above the starting price,
      and the price and the leader are those of the last bid. */
  ghost predicate AuctionValid(a: Auction)
  {
    && (a.bids == [] ==> a.currentPrice == a.startingPrice && a.highestBidder == None)
    && (a.bids != [] ==>
          && a.bids[0].amount > a.startingPrice
          && a.currentPrice == Last(a.bids).amount
          && a.highestBidder == Some(Last(a.bids).bidder))
    && (forall i :: 0 <= i < |a.bids| ==> a.bids[i].amount > 0)
    && (forall i, j :: 0 <= i < j < |a.bids| ==> a.bids[i].amount < a.bids[j].amount)
  }

  /** In a valid auction the current price is the largest bid so far (or the
      starting price before any bid) and the leader is the one who made it. */
  lemma {:induction false} CurrentPriceIsMaxBid(a: Auction)
    requires AuctionValid(a)
    ensures a.currentPrice >= a.startingPrice
    ensures a.bids == [] ==> a.currentPrice == a.startingPrice && a.highestBidder.None?
    ensures a.bids != [] ==> a.currentPrice == MaxAmount(a.bids)
    ensures a.bids != [] ==> exists i :: 0 <= i < |a.bids| && a.bids[i].amount == a.currentPrice
                                      && a.highestBidder == Some(a.bids[i].bidder)
  {
    if a.bids != [] {
      var n := |a.bids|;
      var m := MaxAmount(a.bids);
      var i :| 0 <= i < n && a.bids[i].amount == m;
      if n > 1 {
        assert a.bids[0].amount < a.bids[n - 1].amount;
      }
      assert a.bids[n - 1].amount == a.currentPrice;
    }
  }

  /** The record after an accepted bid of `amount` by `bidder` at `time`. */
  function WithBid(a: Auction, bidder: string, amount: int, time: int): (r: Auction)
    ensures |r.bids| == |a.bids| + 1 && r.bids[|a.bids|] == Bid(bidder, amount, time)
    ensures r.currentPrice == amount && r.highestBidder == Some(bidder)
    ensures r.(currentPrice := a.currentPrice, highestBidder := a.highestBidder, bids := a.bids) == a
    ensures amount >= a.currentPrice ==> Evolves(a, r)
  {
    a.(currentPrice := amount, highestBidder := Some(bidder), bids := a.bids + [Bid(bidder, amount, time)])
  }

  /** An accepted bid (positive, above the current price) keeps the invariant. */
  lemma {:induction false} WithBidValid(a: Auction, bidder: string, amount: int, time: int)
    requires AuctionValid(a) && amount > 0 && amount > a.currentPrice
    ensures AuctionValid(WithBid(a, bidder, amount, time))
  {
    var b := WithBid(a, bidder, amount, time);
    var n := |a.bids|;
    assert forall i :: 0 <= i < n ==> b.bids[i] == a.bids[i];
    assert Last(b.bids).amount == amount;
    if n > 0 {
      forall i | 0 <= i < n
        ensures a.bids[i].amount <= a.currentPrice
      {
        if i < n - 1 { assert a.bids[i].amount < a.bids[n - 1].amount; }
      }
    }
  }

  /** A fresh auction built by `createAuction`: the price starts at the
      starting price, no leader, no bids, status `'active'`. */
  function NewAuction(input: AuctionInput, id: int): (a: Auction)
    ensures AuctionValid(a)
  {
    var price := NumberOrZero(input.startingPrice);
    Auction(id, input.title, input.description, input.image, input.startDate, input.endDate,
            price, price, None, [], Active)
  }

  // ---- Expiry ----

  /** The sweeper's test: active, with an end date, and `now` strictly past it. */
  predicate Expires(a: Auction, now: int)
  {
    a.status == Active && a.endDate.Some? && now > a.endDate.value
  }

  predicate AnyExpires(auctions: seq<Auction>, now: int)
  {
    exists i :: 0 <= i < |auctions| && Expires(auctions[i], now)
  }

  function SweepOne(a: Auction, now: int): (r: Auction)
    ensures r.status == (if Expires(a, now) then Ended else a.status)
    ensures r.(status := a.status) == a
    ensures Evolves(a, r)
  {
    if Expires(a, now) then a.(status := Ended) else a
  }

  /** The auction list after one sweep at time `now`. */
  function Swept(auctions: seq<Auction>, now: int): (r: seq<Auction>)
    ensures |r| == |auctions|
    ensures forall i :: 0 <= i < |r| ==> Evolves(auctions[i], r[i])
  {
    seq(|auctions|, i requires 0 <= i < |auctions| => SweepOne(auctions[i], now))
  }

  /** A sweep changes the list exactly when some auction is due, so the
      source's `changed` flag is set exactly when the write would change
      something. */
  lemma SweptChangesIff(auctions: seq<Auction>, now: int)
    ensures Swept(auctions, now) != auctions <==> AnyExpires(auctions, now)
  {
    if AnyExpires(auctions, now) {
      var i :| 0 <= i < |auctions| && Expires(auctions[i], now);
      assert Swept(auctions, now)[i].status != auctions[i].status;
    } else {
      assert forall i :: 0 <= i < |auctions| ==> Swept(auctions, now)[i] == auctions[i];
    }
  }

  /** A late sweep catches up with every earlier one: sweeping at `t1` and
      then at `t2 >= t1` is one sweep at `t2`; in particular a second sweep
      at the same time changes nothing. */
  lemma SweptCatchUp(auctions: seq<Auction>, t1: int, t2: int)
    requires t1 <= t2
    ensures Swept(Swept(auctions, t1), t2) == Swept(auctions, t2)
  {
    var once := Swept(auctions, t1);
    assert forall i :: 0 <= i < |auctions| ==> Swept(once, t2)[i] == Swept(auctions, t2)[i];
  }

  /** The sweeper ends an auction exactly when it is due and touches no
      other field: one with no end date is never ended by it. */
  lemma SweptAt(auctions: seq<Auction>, now: int, i: nat)
    requires i < |auctions|
    ensures Swept(auctions, now)[i].status == Ended <==> auctions[i].status == Ended || Expires(auctions[i], now)
    ensures Swept(auctions, now)[i].(status := auctions[i].status) == auctions[i]
    ensures auctions[i].endDate.None? ==> Swept(auctions, now)[i] == auctions[i]
  {
  }

  // ---- How auctions change over time ----

  /** `after` is a later state of auction `before`: same identity and
      listing, bids only appended, the price never lower, and `'ended'` never
      undone. */
  ghost predicate Evolves(before: Auction, after: Auction)
  {
    && after.id == before.id
    && after.title == before.title
    && after.description == before.description
    && after.image == before.image
    && after.startDate == before.startDate
    && after.endDate == before.endDate
    && after.startingPrice == before.startingPrice
    && before.bids <= after.bids
    && before.currentPrice <= after.currentPrice
    && (before.status == Ended ==> after.status == Ended)
  }

  /** `after` is a later state of the auction list: new auctions only at the
      front, each existing one a later state of itself, in the same order. */
  ghost predicate ListEvolves(before: seq<Auction>, after: seq<Auction>)
  {
    && |before| <= |after|
    && forall i :: 0 <= i < |before| ==> Evolves(before[i], after[|after| - |before| + i])
  }

  /** Evolution composes, so the guarantees hold over any run of operations. */
  lemma ListEvolvesTransitive(a: seq<Auction>, b: seq<Auction>, c: seq<Auction>)
    requires ListEvolves(a, b) && ListEvolves(b, c)
    ensures ListEvolves(a, c)
  {
    forall i | 0 <= i < |a|
      ensures Evolves(a[i], c[|c| - |a| + i])
    {
      var j := |b| - |a| + i;
      assert Evolves(b[j], c[|c| - |b| + j]);
    }
  }

  // ---- Identifiers ----

  /** Two auctions with the same id: the newer one, in front, hides the
      older one from every lookup by id, so no bid and no manual close can
      ever reach the older auction. This is what `Date.now()` ids give when
      two auctions are created in the same millisecond. */
  lemma DuplicateIdShadows(newer: Auction, older: Auction, rest: seq<Auction>)
    requires newer.id == older.id
    ensures FindAuction([newer, older] + rest, older.id) == Some(0)
    ensures forall id :: FindAuction([newer, older] + rest, id) != Some(1)
  {
    var s := [newer, older] + rest;
    assert s[0] == newer && s[1] == older;
  }

  /** Ids strictly decrease along the list: newest first, no two alike. */
  ghost predicate IdsDescending(auctions: seq<Auction>)
  {
    forall i, j :: 0 <= i < j < |auctions| ==> auctions[i].id > auctions[j].id
  }

  /** A collision-free id for a new auction created at clock reading `now`:
      the reading itself, or one past the largest id in use when the clock
      has not moved past it. */
  function NextAuctionId(auctions: seq<Auction>, now: int): (id: int)
    ensures id >= now
    ensures forall i :: 0 <= i < |auctions| ==> auctions[i].id < id
  {
    if auctions == [] then now
    else
      var rest := NextAuctionId(auctions[1..], now);
      assert forall i :: 1 <= i < |auctions| ==> auctions[i] == auctions[1..][i - 1];
      if auctions[0].id >= rest then auctions[0].id + 1 else rest
  }

  /** With distinct ids, every auction is found by its own id, at its own
      position. */
  lemma FindAuctionOwnId(auctions: seq<Auction>, i: nat)
    requires IdsDescending(auctions) && i < |auctions|
    ensures FindAuction(auctions, auctions[i].id) == Some(i)
  {
  }
}
