# ORJI auction engine in Dafny

A model of the engine inside `orji-auction/app.js`, a single-page auction
marketplace that keeps all of its state in the browser's `localStorage`
under three keys: `users`, `auctions` and `currentUser`.

The model covers:

- **Auction store and bidding engine.** `createAuction` puts a new auction at
  the front of the list. `placeBid` runs four checks in a fixed order, then
  raises the price, sets the leader and appends to the bid log. `endAuction`
  is the manual close. `sweepEnded` is the expiry pass the page runs every
  second. Status only ever goes from `'active'` to `'ended'`.
- **Credential store and session.** `register` and `login` look users up,
  `register` appends one, and all three of `register`, `login` and `logout`
  overwrite `currentUser`.
- **Pure helpers.** `formatTimeRemaining` builds the countdown text. The
  list filter in `renderAuctions` matches status and search text. The totals
  in `updateUserDashboard` count bids and active auctions and find the
  largest bid.

## Layout

| file | module | contents |
|---|---|---|
| wrappers.dfy | `Wrappers` | `Option`, `Result`, `Outcome` |
| lists.dfy | `Lists` | `First` (`Array.prototype.find`) and `Filter` (`Array.prototype.filter`) |
| text.dfy | `Text` | `ToLower` (`toLowerCase`) and `Includes` (`String.prototype.includes`) |
| time_format.dfy | `TimeFormat` | `FormatTimeRemaining` and a reader for its text |
| auctions.dfy | `Auctions` | auction and bid records, the auction invariant, the expiry rule, ids |
| accounts.dfy | `Accounts` | users, sessions, the `register`/`login` lookups, the user invariant |
| listing.dfy | `Listing` | the list filter and the dashboard totals |
| market.dfy | `Market` | class `Store`: the three stored records and the operations that change them |
| scenarios.dfy | `Scenarios` | runs of the engine proved from the operations' contracts |

`Store` stands in for `localStorage`. Each auction operation copies the
auction list into a local, changes the local, and assigns it back to the field.
This is the source's get, mutate, `storage.set` cycle. The ghost field
`auctionWrites` counts the write-backs of `auctions`. The methods accept any
stored state, because the source checks nothing on read. Each one also
promises `old(Valid()) ==> Valid()`. `Valid()` is the invariant that the
engine's own operations keep:

- bid logs are positive and strictly rising;
- the price and the leader are those of the last bid;
- stored emails are lower case and distinct;
- a session belongs to a stored user.

`Date.now()` becomes a parameter everywhere: `id` for new records, `now` for
bid times and for the sweep. `Number(...)` becomes `Option<int>`, with `None`
standing for `NaN`.

The model follows the code in these places, where the code behaves in a way one might not expect:

- the closed status is the string `'ended'`, not `'closed'`;
- `createAuction` validates nothing (the admin form checks title, end date and
  price at app.js:550-552);
- ids are `Date.now()` and may collide (see Findings);
- `endAuction` returns `true` for an auction that has already ended;
- `register` checks only for an `'@'`;
- `placeBid` takes the bidder's email as an argument rather than reading the
  session.

## Model

| member | source | states |
|---|---|---|
| Lists.First | orji-auction/app.js:151 | `find` yields the first index whose element passes the test, or none exactly when no element passes |
| Lists.Filter | orji-auction/app.js:244-249 | `filter` keeps exactly the elements that pass the test and never lengthens the list |
| Lists.FilterMultiplicity | orji-auction/app.js:244-249 | `filter` keeps each passing value exactly as many times as it occurs and drops every other value |
| Lists.FilterAppend | orji-auction/app.js:244-249 | filtering keeps list order: filtering a concatenation concatenates the filtered parts |
| Text.ToLower | orji-auction/app.js:96 | lower-casing keeps the length and lower-cases each character |
| Text.ToLowerIdempotent | orji-auction/app.js:82-85 | an email stored lower-cased equals its own lower-cased form |
| Text.Includes | orji-auction/app.js:247-248 | `includes`: the empty query is found in every text, and a query longer than the text is never found |
| Text.IncludesIff | orji-auction/app.js:247-248 | `includes` holds exactly when the query occurs at some position of the text |
| TimeFormat.TimeParts | orji-auction/app.js:202-212 | for positive ms: zero day, hour and minute pieces are left out, seconds always come last, units run from largest to smallest, and each piece is below its next larger unit |
| TimeFormat.TimePartsTotal | orji-auction/app.js:203-206 | days, hours, minutes and seconds add up to `ms` divided by 1000, by integer division |
| TimeFormat.NatToString | orji-auction/app.js:208-212 | a number's text is a non-empty string of decimal digits with no leading zero: it starts with `0` only for 0 itself, which is the single digit `0` |
| TimeFormat.ParseNatToString | orji-auction/app.js:208-212 | reading a number's text back gives the number |
| TimeFormat.Join | orji-auction/app.js:213 | `parts.join(' ')` is non-empty and ends with the unit letter of the last piece |
| TimeFormat.ParseJoin | orji-auction/app.js:213 | splitting the joined pieces on spaces and reading them gives back the pieces |
| TimeFormat.FormatTimeRemaining | orji-auction/app.js:201-214 | the text is `Ended` exactly when `ms <= 0`; otherwise it ends with the seconds letter `s` |
| TimeFormat.FormatTimeRemainingRoundTrip | orji-auction/app.js:201-214 | the text is `Ended` exactly when `ms <= 0`; otherwise reading it back gives the remaining whole seconds `ms / 1000` |
| Auctions.FindAuction | orji-auction/app.js:151 | the lookup yields the first auction with that id, or none exactly when no auction has it |
| Auctions.FindAuctionAfterUpdate | orji-auction/app.js:156-160 | updating one auction in place, id kept, leaves every lookup by id where it was |
| Auctions.NumberOrZero | orji-auction/app.js:139-140 | the starting price taken with `Number`, falling back to 0, is the number itself, or 0 when it is `NaN` |
| Auctions.MaxAmount | orji-auction/app.js:405 | `Math.max` over a bid log is one of the amounts and no amount exceeds it |
| Auctions.CurrentPriceIsMaxBid | orji-auction/app.js:156-160 | in a valid auction the price is the starting price before any bid, otherwise the largest bid, and the leader made that bid |
| Auctions.WithBidValid | orji-auction/app.js:155-160 | a positive bid above the current price, applied as `placeBid` applies it, keeps the auction invariant |
| Auctions.WithBid | orji-auction/app.js:158-160 | an accepted bid appends exactly one bid with the bidder, amount and time, makes the amount the price and the bidder the leader, and changes no other field; for an amount not below the price the result is a later state of the same auction |
| Auctions.NewAuction | orji-auction/app.js:132-144 | a freshly created auction satisfies the auction invariant |
| Auctions.SweepOne | orji-auction/app.js:187-190 | one auction after the sweep: ended exactly when it was due, otherwise its status kept; no other field changes |
| Auctions.Swept | orji-auction/app.js:184-191 | the swept list has the same length and each auction is a later state of the one at its place |
| Auctions.SweptAt | orji-auction/app.js:186-191 | a sweep ends an auction exactly when it is active, has an end date and `now` is strictly past it; no other field changes; an auction without an end date is never touched |
| Auctions.SweptChangesIff | orji-auction/app.js:184-192 | the sweep changes the list exactly when some auction is due, which is when `changed` is set |
| Auctions.SweptCatchUp | orji-auction/app.js:182-193 | a sweep at `t1` followed by one at `t2 >= t1` equals one sweep at `t2`; a repeated sweep changes nothing |
| Auctions.ListEvolvesTransitive | orji-auction/app.js:129-193 | the guarantee every operation gives (ids and listing fixed, bids append-only, price never lower, `'ended'` never undone) holds across any run of operations |
| Auctions.DuplicateIdShadows | orji-auction/app.js:131 | of two auctions with the same id, the newer hides the older from every lookup by id |
| Auctions.NextAuctionId | orji-auction/app.js:131 | a corrected id is at least the clock reading and above every id in use |
| Auctions.FindAuctionOwnId | orji-auction/app.js:151 | with ids distinct and newest first, each auction is found at its own position |
| Accounts.FindEmail | orji-auction/app.js:82 | the duplicate lookup finds a user exactly when some stored email equals the given one exactly |
| Accounts.FindCredential | orji-auction/app.js:95-100 | the login lookup yields the first user whose email matches ignoring case and whose password matches exactly, or none exactly when nobody matches |
| Accounts.RegisterKeepsValid | orji-auction/app.js:82-85 | appending a lower-cased email that nobody has keeps emails lower case and distinct |
| Accounts.LoginFindsOwner | orji-auction/app.js:95-100 | with valid users, the owner of an email, given in any case, and their password is the user login finds |
| Listing.MatchesIff | orji-auction/app.js:244-249 | an auction is listed exactly when its status is the one chosen (or all are) and the search text is empty or occurs, ignoring case, in its title or description |
| Listing.Matches | orji-auction/app.js:244-249 | an auction of another status than the one chosen never passes; with an empty search text the status alone decides |
| Listing.FilterAuctions | orji-auction/app.js:238-249 | the list shown holds only stored auctions that pass the test, and never more than are stored |
| Listing.FilterAuctionsSpec | orji-auction/app.js:243-249 | the list shows exactly the matching auctions, each as many times as it is stored |
| Listing.FilterAuctionsInOrder | orji-auction/app.js:244-249 | the list keeps the stored order: the view of two stretches, one after the other, is the first stretch's view followed by the second's |
| Listing.BidsBy | orji-auction/app.js:403 | the bids kept for one auction are among its bids, were placed by the user, and are no more than its bids |
| Listing.UserBids | orji-auction/app.js:399-404 | every collected bid was placed by the user |
| Listing.UserBidsMembership | orji-auction/app.js:399-404 | a bid is collected exactly when the user placed it on one of the auctions |
| Listing.BidsByCount | orji-auction/app.js:403 | the bids kept for one auction are as many as the places in its bid log holding a bid by the user |
| Listing.UserBidsCount | orji-auction/app.js:399-411 | the number of collected bids is the number of (auction, bid) places holding a bid by the user |
| Listing.ActiveCount | orji-auction/app.js:409 | the active count never exceeds the number of auctions |
| Listing.ActiveCountIsCardinality | orji-auction/app.js:409 | the active count is the number of positions holding an active auction |
| Listing.DashboardTotals | orji-auction/app.js:398-411 | the bid count is the number of (auction, bid) places holding a bid by the user; the largest bid is at least 0, no bid the user placed on any auction exceeds it, and a non-zero value is the amount of one of them; the active count is the number of positions holding an active auction |
| Market.Store.constructor | orji-auction/app.js:121-123 | empty storage: no users, no auctions, nobody signed in, and the invariant holds |
| Market.Store.Register | orji-auction/app.js:76-89 | fails with no `'@'`, else with a password shorter than 6, else when a stored email equals the lower-cased input; each failure changes nothing; success appends one user with the lower-cased email and role `'user'` and signs them in without the password |
| Market.Store.Login | orji-auction/app.js:91-108 | succeeds exactly when some user matches ignoring email case with the exact password, signing in the first such user without the password; otherwise fails with one error and leaves the session as it was |
| Market.Store.Logout | orji-auction/app.js:110-111 | clears the session and nothing else |
| Market.Store.CreateAuction | orji-auction/app.js:129-147 | the list grows by one at the front with price equal to the starting price (`0` for a non-number), no leader, no bids, status `'active'`; the older auctions shift by one unchanged |
| Market.Store.CreateAuctionWithFreshId | orji-auction/app.js:129-147 | as `CreateAuction`, but with a collision-free id that is found at the front and keeps ids distinct and newest first |
| Market.Store.PlaceBid | orji-auction/app.js:149-163 | fails in order with not found, ended, invalid amount (`NaN` or `<= 0`) or too low (`<=` price, reporting the price); a failure changes and writes nothing; success raises that auction's price strictly to the amount, sets the leader, appends exactly one bid and leaves every other auction as it was |
| Market.Store.EndAuction | orji-auction/app.js:165-179 | `false` with no change when no auction has the id; otherwise the first such auction becomes `'ended'` and the result is `true`, also when it had already ended, which leaves the list unchanged |
| Market.Store.SweepEnded | orji-auction/app.js:182-193 | the list becomes its swept form at `now`, and it is written back exactly when some auction was due |
| Scenarios.BidRace | orji-auction/app.js:149-163 | of two equal bids on one auction placed one after the other, at most one is accepted: the second is rejected as too low |
| Scenarios.PriceScenario | orji-auction/app.js:149-163 | starting at 1000: 1000 is too low, 1001 wins, another 1001 is too low, 2000 wins and leads |
| Scenarios.ExpiryScenario | orji-auction/app.js:149-193 | a sweep exactly at the end time leaves the auction active, one later ends it, and then any bid (any bidder, any amount, any time) is refused as ended |
| Scenarios.RegistrationScenario | orji-auction/app.js:76-108 | `a@b.com` with a 6-character password registers; `A@B.COM` is then a duplicate; a 5-character password is too weak; login as `A@B.COM` gives the registered user |
| Scenarios.RegisterThenLogin | orji-auction/app.js:76-108 | after a successful registration, login with the same email in any case and the same password returns the same session |
| Scenarios.SameMillisecondScenario | orji-auction/app.js:129-179 | two auctions created with the same clock reading: closing the first by its id closes the second, and the first stays active |
| Scenarios.FreshIdScenario | orji-auction/app.js:129-179 | with collision-free ids, closing the first auction by its id closes exactly that auction |

## Left out

- Page and UI code: `$`/`$$`, toasts, the auth modal, `updateHeader`, card and admin rendering, `prompt`/`alert`, event wiring and the `renderAuctions()` calls made after changes. It is presentation only.
- `hash`: a Web Crypto wrapper that no credential path uses.
- JSON serialisation in `storage.get`/`storage.set`. The three records are fields of `Store`, and a corrupt stored value, which reads back as `null`, is not modelled.
- `setInterval`: one tick is one call of `Store.SweepEnded(now)`, and the timer display refresh is presentation.
- Clock and dates: `Date.now()` is a parameter and dates are integer milliseconds. An end date that does not parse gives `NaN` in the source, so it never expires, which is the same as having no end date. That case is not modelled separately.
- Number semantics: amounts and prices are integers. Fractions are not modelled, and neither is `Infinity`, so finite bids are not enforced here: `Infinity` passes the source's `isNaN` check.
- `Text.ToLower`: lower-cases ASCII letters only, because JavaScript's full Unicode case mapping is not modelled. String lengths count characters, not UTF-16 code units.
- `null`/`undefined` arguments, such as a missing email or title, are not modelled: inputs are strings, so `(a.title||'')` is the title itself.
- The status drop-down is modelled as all, active or ended. Other option values, which would match nothing, are not modelled.
- `formatTimeRemaining` for day counts of 10^21 and above, where JavaScript prints numbers in exponent notation.
- Seed and demo data, `fixUsersWithPasswords`, the debug panel and the hard-coded admin password gate: fixed data and debugging aids. The demo seeding loop appears only as the input of the finding below.
- `logout`'s `updateHeader()` and `location.reload()`, and other redirects: navigation only.
- The admin form's checks before `createAuction` (title, end date, starting price above 0): UI wiring outside `createAuction`.

## Findings

| source | as written | input that shows it | evidently intended | confidence | as-written member | corrected member |
|---|---|---|---|---|---|---|
| orji-auction/app.js:131 | each new auction's id is `Date.now()` | two `createAuction` calls within one millisecond, as the demo seeding loop at app.js:595 makes; the newer auction then hides the older from `placeBid` and `endAuction` | every auction has its own id, so each can be found, bid on and closed | medium; not executed | Auctions.DuplicateIdShadows | Market.Store.CreateAuctionWithFreshId |

`Scenarios.SameMillisecondScenario` shows the as-written behaviour on a
concrete run: closing the first auction by its id closes the second one
instead. `Market.Store.CreateAuction` is kept as written, with the id as an
input. The scenarios that create auctions use
`Market.Store.CreateAuctionWithFreshId`. That method takes ids from
`Auctions.NextAuctionId`, and `Auctions.FindAuctionOwnId` proves that under
it every auction is reachable by its own id.
