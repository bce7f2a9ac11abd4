/** Runs of the engine that its callers depend on, proved from the
    operations' contracts alone. */
module Scenarios {
  import opened Wrappers
  import opened Text
  import opened Auctions
  import opened Accounts
  import opened Market

  /** Two bids of the same amount on one auction, one after the other (the
      engine's operations are serialised on the store): if the first is
      accepted, the second is rejected as too low and changes nothing. */
  method BidRace(s: Store, id: int, first: string, second: string, amount: int, now: int)
    returns (r1: Outcome<BidError>, r2: Outcome<BidError>)
    modifies s
    ensures r1 == Pass ==> r2 == Fail(BidTooLow(amount))
  {
    ghost var before := s.auctions;
    r1 := s.PlaceBid(id, first, Some(amount), now);
    ghost var afterFirst := s.auctions;
    if r1 == Pass {
      var k := FindAuction(before, id).value;
      assert afterFirst == before[k := afterFirst[k]];
      assert afterFirst[k].currentPrice == amount && afterFirst[k].status == Active && amount > 0;
      FindAuctionAfterUpdate(before, k, afterFirst[k], id);
      assert FindAuction(afterFirst, id) == Some(k);
    }
    r2 := s.PlaceBid(id, second, Some(amount), now);
  }

  /** An auction starting at 1000: a bid of 1000 is too low, 1001 wins, a
      second bidder's 1001 is too low, 2000 wins; the price is then 2000
      and the second bidder leads. */
  method PriceScenario(now: int)
    returns (r1: Outcome<BidError>, r2: Outcome<BidError>, r3: Outcome<BidError>, r4: Outcome<BidError>,
             price: int, leader: Option<string>)
    ensures r1 == Fail(BidTooLow(1000)) && r2 == Pass && r3 == Fail(BidTooLow(1001)) && r4 == Pass
    ensures price == 2000 && leader == Some("bob@x.org")
  {
    var s := new Store();
    var id := s.CreateAuctionWithFreshId(AuctionInput("Lamp", "Brass lamp", "", now, Some(now + 60000), Some(1000)), now);
    assert |s.auctions| == 1 && s.auctions[0].currentPrice == 1000 && s.auctions[0].status == Active;
    assert FindAuction(s.auctions, id) == Some(0);
    r1 := s.PlaceBid(id, "ann@x.org", Some(1000), now);
    r2 := s.PlaceBid(id, "ann@x.org", Some(1001), now + 1);
    assert |s.auctions| == 1 && s.auctions[0].currentPrice == 1001 && s.auctions[0].status == Active;
    assert FindAuction(s.auctions, id) == Some(0);
    r3 := s.PlaceBid(id, "bob@x.org", Some(1001), now + 2);
    r4 := s.PlaceBid(id, "bob@x.org", Some(2000), now + 3);
    assert |s.auctions| == 1;
    price := s.auctions[0].currentPrice;
    leader := s.auctions[0].highestBidder;
  }

  /** An auction whose end date is `end`: a sweep at `end` itself leaves it
      active (the test is strict), a sweep one millisecond later ends it,
      and after that no bid is accepted, whoever places it, whatever the
      amount and whenever. */
  method ExpiryScenario(end: int, bidder: string, amount: Option<int>, t: int)
    returns (atEnd: Status, after: Status, bid: Outcome<BidError>)
    ensures atEnd == Active && after == Ended && bid == Fail(AuctionEnded)
  {
    var s, id := SweptAtEnd(end);
    atEnd := s.auctions[0].status;
    ghost var swept := s.auctions;
    s.SweepEnded(end + 1);
    SweptAt(swept, end + 1, 0);
    after := s.auctions[0].status;
    assert FindAuction(s.auctions, id) == Some(0);
    bid := s.PlaceBid(id, bidder, amount, t);
  }

  /** A store holding one auction ending at `end`, swept exactly at `end`:
      the auction is still active. */
  method SweptAtEnd(end: int) returns (s: Store, id: int)
    ensures fresh(s)
    ensures |s.auctions| == 1 && s.auctions[0].id == id
    ensures s.auctions[0].status == Active && s.auctions[0].endDate == Some(end)
  {
    s := new Store();
    var input := AuctionInput("Vase", "", "", end - 1000, Some(end), Some(50));
    id := s.CreateAuctionWithFreshId(input, end - 1000);
    ghost var created := s.auctions;
    assert created == [NewAuction(input, id)];
    s.SweepEnded(end);
    SweptAt(created, end, 0);
  }

  /** The sample addresses used below, lower-cased. */
  lemma SampleEmails()
    ensures ToLower("a@b.com") == "a@b.com" && ToLower("A@B.COM") == "a@b.com"
  {
    var lower, upper := "a@b.com", "A@B.COM";
    assert forall i :: 0 <= i < |lower| ==> LowerChar(lower[i]) == lower[i];
    assert forall i :: 0 <= i < |upper| ==> LowerChar(upper[i]) == lower[i];
  }

  /** Registering a@b.com with a six-character password succeeds; the same
      address in upper case is then a duplicate; a five-character password
      is too weak; and logging in with the upper-case address and the
      password gives back the registered user. */
  method RegistrationScenario(id: int)
    returns (r1: Result<Session, AuthError>, r2: Result<Session, AuthError>,
             r3: Result<Session, AuthError>, r4: Result<Session, AuthError>)
    ensures r1 == Ok(Session(id, "a@b.com", Member))
    ensures r2 == Err(DuplicateEmail) && r3 == Err(WeakPassword)
    ensures r4 == r1
  {
    var s := new Store();
    var lower, upper := "a@b.com", "A@B.COM";
    SampleEmails();
    assert '@' in lower && '@' in upper && '@' in "c@d.com";
    r1 := s.Register(lower, "secret", id);
    assert s.users == [User(id, lower, "secret", Member)];
    assert s.users[0].email == ToLower(upper);
    r2 := s.Register(upper, "secret", id + 1);
    r3 := s.Register("c@d.com", "secre", id + 2);
    assert s.users == [User(id, lower, "secret", Member)];
    LoginFindsOwner(s.users, 0, upper, "secret");
    r4 := s.Login(upper, "secret");
  }

  /** A registered user can always log in again with the same address, in
      any case, and password, and gets the same session back. */
  method RegisterThenLogin(s: Store, email: string, loginEmail: string, password: string, id: int)
    returns (r1: Result<Session, AuthError>, r2: Result<Session, AuthError>)
    requires s.Valid()
    requires ToLower(loginEmail) == ToLower(email)
    modifies s
    ensures r1.Ok? ==> r2 == r1
  {
    r1 := s.Register(email, password, id);
    if r1.Ok? {
      ToLowerIdempotent(email);
      LoginFindsOwner(s.users, |s.users| - 1, loginEmail, password);
    }
    r2 := s.Login(loginEmail, password);
  }

  /** The demo seeding loop creating two auctions within one millisecond,
      as written: both get the id `now`, and closing the first one by its id
      closes the second one instead, while the first stays active and can
      never be reached. */
  method SameMillisecondScenario(now: int) returns (ok: bool, newer: Status, older: Status)
    ensures ok && newer == Ended && older == Active
  {
    var s := new Store();
    s.CreateAuction(AuctionInput("Laptop", "", "", now, Some(now + 3600000), Some(250000)), now);
    s.CreateAuction(AuctionInput("Bike", "", "", now, Some(now + 7200000), Some(80000)), now);
    assert |s.auctions| == 2 && s.auctions[0].id == now;
    ok := s.EndAuction(now);
    newer := s.auctions[0].status;
    older := s.auctions[1].status;
  }

  /** The same two creations with collision-free ids: closing the first
      auction by its id closes that auction and no other. */
  method FreshIdScenario(now: int) returns (ok: bool, newer: Status, older: Status)
    ensures ok && newer == Active && older == Ended
  {
    var s := new Store();
    var first := s.CreateAuctionWithFreshId(AuctionInput("Laptop", "", "", now, Some(now + 3600000), Some(250000)), now);
    var second := s.CreateAuctionWithFreshId(AuctionInput("Bike", "", "", now, Some(now + 7200000), Some(80000)), now);
    assert |s.auctions| == 2 && IdsDescending(s.auctions) && s.auctions[1].id == first;
    FindAuctionOwnId(s.auctions, 1);
    ok := s.EndAuction(first);
    newer := s.auctions[0].status;
    older := s.auctions[1].status;
  }
}
