/** The auction engine over the browser's storage: one object holds the
    three stored records, and each operation reads a record, changes it and
    writes it back, as the source does with `localStorage`. */
module Market {
  import opened Wrappers
  import opened Text
  import opened Lists
  import opened Auctions
  import opened Accounts

  /** The stored records `users`, `auctions` and `currentUser`. */
  class Store {
    var users: seq<User>
    var auctions: seq<Auction>
    var currentUser: Option<Session>
    /** How many times the `auctions` record has been written back. */
    ghost var auctionWrites: nat

    /** What the engine's own operations keep true of the store: the user
        and auction invariants, and a session that belongs to a stored user. */
    ghost predicate Valid()
      reads this
    {
      && UsersValid(users)
      && (forall i :: 0 <= i < |auctions| ==> AuctionValid(auctions[i]))
      && (currentUser.Some? ==> exists i :: 0 <= i < |users| && SessionOf(users[i]) == currentUser.value)
    }

    /** An empty store: no users, no auctions, nobody signed in. */
    constructor ()
      ensures Valid()
      ensures users == [] && auctions == [] && currentUser == None && auctionWrites == 0
    {
      users := [];
      auctions := [];
      currentUser := None;
      auctionWrites := 0;
    }

    // ---- Credential store and session ----

    /** `register(email, password)` with `id` standing for `Date.now()`. */
    method Register(email: string, password: string, id: int) returns (r: Result<Session, AuthError>)
      modifies this
      ensures auctions == old(auctions) && auctionWrites == old(auctionWrites)
      ensures r == Err(InvalidEmail) <==> '@' !in email
      ensures r == Err(WeakPassword) <==> '@' in email && |password| < 6
      ensures r == Err(DuplicateEmail) <==> '@' in email && |password| >= 6 && EmailTaken(old(users), ToLower(email))
      ensures r.Ok? <==> '@' in email && |password| >= 6 && !EmailTaken(old(users), ToLower(email))
      ensures r.Err? ==> users == old(users) && currentUser == old(currentUser)
      ensures r.Ok? ==>
        && r.value == Session(id, ToLower(email), Member)
        && users == old(users) + [User(id, ToLower(email), password, Member)]
        && currentUser == Some(r.value)
      ensures old(Valid()) ==> Valid()
    {
      ghost var wasValid := Valid();
      if email == [] || '@' !in email {
        return Err(InvalidEmail);
      }
      if |password| < 6 {
        return Err(WeakPassword);
      }
      var lowered := ToLower(email);
      if FindEmail(users, lowered).Some? {
        return Err(DuplicateEmail);
      }
      var user := User(id, lowered, password, Member);
      if wasValid {
        RegisterKeepsValid(users, email, user);
      }
      users := users + [user];
      currentUser := Some(SessionOf(user));
      assert SessionOf(users[|users| - 1]) == currentUser.value;
      r := Ok(SessionOf(user));
    }

    /** `login(email, password)`: the first user whose email matches in any
        case and whose password matches exactly becomes the current user. */
    method Login(email: string, password: string) returns (r: Result<Session, AuthError>)
      modifies this
      ensures users == old(users) && auctions == old(auctions) && auctionWrites == old(auctionWrites)
      ensures r.Ok? <==> exists i :: 0 <= i < |users| && CredentialsMatch(users[i], email, password)
      ensures r.Err? ==> r.error == InvalidCredentials && currentUser == old(currentUser)
      ensures r.Ok? ==>
        && FindCredential(users, email, password).Some?
        && r.value == SessionOf(users[FindCredential(users, email, password).value])
        && currentUser == Some(r.value)
      ensures old(Valid()) ==> Valid()
    {
      var found := FindCredential(users, email, password);
      if found.None? {
        return Err(InvalidCredentials);
      }
      var session := SessionOf(users[found.value]);
      currentUser := Some(session);
      r := Ok(session);
    }

    /** The state part of `logout()`: nobody is signed in any more. */
    method Logout()
      modifies this
      ensures currentUser == None
      ensures users == old(users) && auctions == old(auctions) && auctionWrites == old(auctionWrites)
      ensures old(Valid()) ==> Valid()
    {
      currentUser := None;
    }

    // ---- Auction store and bidding engine ----

    /** `createAuction(data)` with `id` standing for `Date.now()`: the new
        auction goes to the front of the list, priced at its starting price
        (`0` when that is not a number), with no leader, no bids, active. */
    method CreateAuction(input: AuctionInput, id: int)
      modifies this
      ensures users == old(users) && currentUser == old(currentUser)
      ensures |auctions| == |old(auctions)| + 1 && auctions[1..] == old(auctions)
      ensures auctions[0] == Auction(id, input.title, input.description, input.image, input.startDate,
                                     input.endDate, NumberOrZero(input.startingPrice),
                                     NumberOrZero(input.startingPrice), None, [], Active)
      ensures auctionWrites == old(auctionWrites) + 1
      ensures old(Valid()) ==> Valid()
      ensures ListEvolves(old(auctions), auctions)
    {
      var list := auctions;
      list := [NewAuction(input, id)] + list;
      auctions := list;
      auctionWrites := auctionWrites + 1;
      assert auctions[1..] == old(auctions);
    }

    /** `createAuction` with a collision-free id in place of `Date.now()`:
        the id is at least the clock reading and above every id in use, so
        ids stay distinct and newest first. */
    method CreateAuctionWithFreshId(input: AuctionInput, now: int) returns (id: int)
      modifies this
      ensures users == old(users) && currentUser == old(currentUser)
      ensures id >= now && forall i :: 0 <= i < |old(auctions)| ==> old(auctions)[i].id < id
      ensures auctions == [NewAuction(input, id)] + old(auctions)
      ensures FindAuction(auctions, id) == Some(0)
      ensures IdsDescending(old(auctions)) ==> IdsDescending(auctions)
      ensures auctionWrites == old(auctionWrites) + 1
      ensures old(Valid()) ==> Valid()
      ensures ListEvolves(old(auctions), auctions)
    {
      id := NextAuctionId(auctions, now);
      CreateAuction(input, id);
      assert auctions == [auctions[0]] + auctions[1..];
    }

    /** `placeBid(auctionId, userEmail, amount)` at time `now`, where
        `amount` is `Number(...)` of the input (`None` for `NaN`). The four
        checks come in the source's order and before any change: a rejected
        bid changes nothing and writes nothing. An accepted bid raises the
        price of that one auction to the amount, makes the bidder the leader
        and appends exactly one bid to its log. */
    method PlaceBid(auctionId: int, userEmail: string, amount: Option<int>, now: int) returns (r: Outcome<BidError>)
      modifies this
      ensures users == old(users) && currentUser == old(currentUser)
      ensures FindAuction(old(auctions), auctionId).None? ==> r == Fail(NotFound)
      ensures FindAuction(old(auctions), auctionId).Some? ==>
        var a := old(auctions)[FindAuction(old(auctions), auctionId).value];
        r == (if a.status != Active then Fail(AuctionEnded)
              else if amount.None? || amount.value <= 0 then Fail(InvalidAmount)
              else if amount.value <= a.currentPrice then Fail(BidTooLow(a.currentPrice))
              else Pass)
      ensures r.Fail? ==> auctions == old(auctions) && auctionWrites == old(auctionWrites)
      ensures r.Pass? ==>
        && FindAuction(old(auctions), auctionId).Some? && amount.Some?
        && var k := FindAuction(old(auctions), auctionId).value;
           var a := old(auctions)[k];
           && a.currentPrice < amount.value
           && auctions == old(auctions)[k := WithBid(a, userEmail, amount.value, now)]
           && auctionWrites == old(auctionWrites) + 1
      ensures old(Valid()) ==> Valid()
      ensures ListEvolves(old(auctions), auctions)
    {
      ghost var wasValid := Valid();
      var list := auctions;
      var found := FindAuction(list, auctionId);
      if found.None? {
        return Fail(NotFound);
      }
      var k := found.value;
      var a := list[k];
      if a.status != Active {
        return Fail(AuctionEnded);
      }
      if amount.None? || amount.value <= 0 {
        return Fail(InvalidAmount);
      }
      var value := amount.value;
      if value <= a.currentPrice {
        return Fail(BidTooLow(a.currentPrice));
      }
      var updated := WithBid(a, userEmail, value, now);
      if wasValid {
        WithBidValid(a, userEmail, value, now);
      }
      list := list[k := updated];
      auctions := list;
      auctionWrites := auctionWrites + 1;
      r := Pass;
    }

    /** `endAuction(auctionId)`: `false` and no change when no auction has
        the id; otherwise that auction's status becomes `'ended'` and the
        result is `true`, also when it had already ended, in which case the
        list is as it was. */
    method EndAuction(auctionId: int) returns (ok: bool)
      modifies this
      ensures users == old(users) && currentUser == old(currentUser)
      ensures ok <==> FindAuction(old(auctions), auctionId).Some?
      ensures !ok ==> auctions == old(auctions) && auctionWrites == old(auctionWrites)
      ensures ok ==>
        var k := FindAuction(old(auctions), auctionId).value;
        && auctions == old(auctions)[k := old(auctions)[k].(status := Ended)]
        && (old(auctions)[k].status == Ended ==> auctions == old(auctions))
        && auctionWrites == old(auctionWrites) + 1
      ensures old(Valid()) ==> Valid()
      ensures ListEvolves(old(auctions), auctions)
    {
      var list := auctions;
      var found := FindAuction(list, auctionId);
      if found.None? {
        return false;
      }
      var k := found.value;
      list := list[k := list[k].(status := Ended)];
      auctions := list;
      auctionWrites := auctionWrites + 1;
      ok := true;
    }

    /** `sweepEnded()` at time `now`: every auction that is active, has an
        end date and is strictly past it becomes `'ended'`; nothing else
        changes, and the list is written back only if something changed. */
    method SweepEnded(now: int)
      modifies this
      ensures users == old(users) && currentUser == old(currentUser)
      ensures auctions == Swept(old(auctions), now)
      ensures auctionWrites == old(auctionWrites) + (if AnyExpires(old(auctions), now) then 1 else 0)
      ensures old(Valid()) ==> Valid()
      ensures ListEvolves(old(auctions), auctions)
    {
      var list := auctions;
      var changed := false;
      var i := 0;
      while i < |list|
        invariant 0 <= i <= |list| == |auctions|
        invariant forall j :: 0 <= j < i ==> list[j] == SweepOne(auctions[j], now)
        invariant forall j :: i <= j < |list| ==> list[j] == auctions[j]
        invariant changed <==> exists j :: 0 <= j < i && Expires(auctions[j], now)
      {
        var a := list[i];
        if a.status == Active && a.endDate.Some? && now > a.endDate.value {
          list := list[i := a.(status := Ended)];
          changed := true;
        }
        i := i + 1;
      }
      assert list == Swept(auctions, now);
      if changed {
        auctions := list;
        auctionWrites := auctionWrites + 1;
      } else {
        assert list == auctions;
      }
    }
  }
}
