/** Whole games of `Splendor` (src/Splendor.hpp): the invariant over every run, the
    giving back of mines, and the winner (src/SplendorRoom.hpp). */
module SplendorRuns {
  import opened SplendorState
  import opened SplendorRules
  import opened SplendorCoupons
  import opened SplendorInvariant
  import opened SplendorBuying

  lemma BuyerIsPlayer(g: Game, t: nat, c: Coupon, q: Player)
    requires Shaped(g) && t < |g.players| && IsCard(c) && Affordable(g.players[t], c) && IsBuyer(g.players[t], q, c)
    requires AreCards(q.reserved) && |q.reserved| <= 3
    ensures IsPlayer(q)
  {
    BuyerPays(g, t, c, q);
  }

  lemma BothHands<T>(a: multiset<T>, x: multiset<T>, b: multiset<T>)
    ensures a + x + b == a + b + x
  {
  }

  /** A coupon bought from its slot moves to the player. */
  lemma SlotBought(g: Game, slot: nat, t: nat, q: Player)
    requires Shaped(g) && EmptyOnlyAtEnd(g.market, g.deck) && t < |g.players| && slot < 12 && IsCard(g.market[slot])
    requires q.coupons == g.players[t].coupons + [g.market[slot]] && q.reserved == g.players[t].reserved
    ensures var (market, deck) := FillSlot(g.market, g.deck, slot, g.market[slot].level);
      CouponsTraded(g, market, deck, t, q)
  {
    var c := g.market[slot];
    var (market, deck) := FillSlot(g.market, g.deck, slot, c.level);
    FillKeepsCoupons(g.market, g.deck, slot, c.level);
    FillKeepsShape(g.market, g.deck, slot);
    AppendOne(g.players[t].coupons, c);
    BothHands(multiset(g.players[t].coupons), multiset{c}, multiset(g.players[t].reserved));
    Moved(InPlay(market) + multiset(deck), multiset{c}, InPlay(g.market) + multiset(g.deck),
          Hand(g.players[t]), Hand(q));
  }

  /** A reserved coupon that is bought stays with the player. */
  lemma ReservedBought(g: Game, k: nat, t: nat, q: Player)
    requires Shaped(g) && EmptyOnlyAtEnd(g.market, g.deck) && t < |g.players| && k < |g.players[t].reserved|
    requires q.coupons == g.players[t].coupons + [g.players[t].reserved[k]]
    requires q.reserved == Erase(g.players[t].reserved, k)
    ensures CouponsTraded(g, g.market, g.deck, t, q)
    ensures AreCards(q.reserved) && |q.reserved| <= 3
  {
    var p := g.players[t];
    var c := p.reserved[k];
    AppendOne(p.coupons, c);
    EraseOne(p.reserved, k);
    assert multiset(p.coupons) + multiset{c} + multiset(q.reserved)
        == multiset(p.coupons) + (multiset(q.reserved) + multiset{c});
    assert Hand(q) == Hand(p);
  }

  lemma BuyKeeps(g: Game, idx: int, id: int, box: multiset<Coupon>, supply: seq<int>, t: nat)
    requires Inv(g, box, supply, t) && (Finds(g, idx, id) ==> idx != 0) && Buy(g, idx, id).0
    ensures var h := Buy(g, idx, id).1;
      Moves(g, h, id, box, supply, t) && OthersKeepReputation(g, h, t)
  {
    FoundHasTurn(g.players, t, id);
    var p, slot := g.players[t], FindCoupon(g.market, idx);
    var c := g.market[slot];
    assert IsSlot(c, SlotLevel(slot));
    var q := Bought(p, c);
    var (market, deck) := FillSlot(g.market, g.deck, slot, c.level);
    BuyerIsPlayer(g, t, c, q);
    SlotBought(g, slot, t, q);
    PurchaseMoves(g, g.(bank := Receive(c, p, g.bank), market := market, deck := deck), t, q, c, box, supply);
  }

  lemma BuyReservedKeeps(g: Game, idx: int, id: int, box: multiset<Coupon>, supply: seq<int>, t: nat)
    requires Inv(g, box, supply, t) && BuyReserved(g, idx, id).0
    ensures var h := BuyReserved(g, idx, id).1;
      Moves(g, h, id, box, supply, t) && OthersKeepReputation(g, h, t)
  {
    FoundHasTurn(g.players, t, id);
    var p, k := g.players[t], FindCoupon(g.players[t].reserved, idx);
    var c := p.reserved[k];
    assert IsPlayer(p);
    var q := Bought(p, c).(reserved := Erase(p.reserved, k));
    ReservedBought(g, k, t, q);
    BuyerIsPlayer(g, t, c, q);
    PurchaseMoves(g, g.(bank := Receive(c, p, g.bank)), t, q, c, box, supply);
  }

  predicate IsBuying(r: Request) {
    r.BuyCoupon? || r.BuyReservedCoupon?
  }

  /** Every request either is refused and changes nothing, or keeps the invariant. */
  lemma StepKeeps(g: Game, r: Request, id: int, box: multiset<Coupon>, supply: seq<int>, t: nat)
    requires Inv(g, box, supply, t) && IsAllowed(g, r, id)
    ensures var (ok, h) := Step(g, r, id);
      if ok then
        && Moves(g, h, id, box, supply, t) && OthersKeepReputation(g, h, t)
        && (IsBuying(r) || KeepsReputation(g, h, t))
      else h == g
  {
    if Step(g, r, id).0 {
      match r
      case TakeThreeMines(a, b, c) => TakeThreeKeeps(g, a, b, c, id, box, supply, t);
      case TakeTwoMines(mine) => TakeTwoKeeps(g, mine, id, box, supply, t);
      case ReserveCoupon(idx) => ReserveKeeps(g, idx, id, box, supply, t);
      case ReturnOneMine(mine) => ReturnKeeps(g, mine, id, box, supply, t);
      case BuyCoupon(idx) => BuyKeeps(g, idx, id, box, supply, t);
      case BuyReservedCoupon(idx) => BuyReservedKeeps(g, idx, id, box, supply, t);
    }
  }

  /** The request has been answered with `ok` and has led to `h`. */
  ghost predicate IsServed(g: Game, r: Request, id: int, ok: bool, h: Game) {
    IsAllowed(g, r, id) && (ok, h) == Step(g, r, id)
  }

  /** Who has the turn after a request. */
  function TurnAfter(ok: bool, players: seq<Player>, t: nat): nat {
    if ok && t < |players| then TurnIn(players, t) else t
  }

  /** The same, for the player with the turn after a request. */
  lemma StepMoves(g: Game, r: Request, id: int, box: multiset<Coupon>, supply: seq<int>, t: nat, ok: bool, h: Game)
    requires Inv(g, box, supply, t) && IsServed(g, r, id, ok, h)
    ensures t < |h.players| && Inv(h, box, supply, TurnAfter(ok, h.players, t))
  {
    StepKeeps(g, r, id, box, supply, t);
  }

  // Runs.

  datatype Call = Call(request: Request, id: int)

  /** `h` is reached from `g` by the calls, accepted or refused. */
  ghost predicate Reaches(g: Game, calls: seq<Call>, h: Game)
    decreases |calls|
  {
    if calls == [] then h == g
    else
      && IsAllowed(g, calls[0].request, calls[0].id)
      && Reaches(Step(g, calls[0].request, calls[0].id).1, calls[1..], h)
  }

  /** In every reachable game: the coupons are those of the box and the mines those of
      the beginning, one player has the turn, and counts, reputations and allies agree
      with the coupons bought. */
  lemma {:induction false} RunKeeps(g: Game, calls: seq<Call>, h: Game, box: multiset<Coupon>, supply: seq<int>, t: nat)
    returns (u: nat)
    requires Inv(g, box, supply, t) && Reaches(g, calls, h)
    ensures Inv(h, box, supply, u)
    decreases |calls|
  {
    if calls == [] {
      u := t;
    } else {
      var next := Step(g, calls[0].request, calls[0].id).1;
      StepKeeps(g, calls[0].request, calls[0].id, box, supply, t);
      var v := if Step(g, calls[0].request, calls[0].id).0 then TurnIn(next.players, t) else t;
      u := RunKeeps(next, calls[1..], h, box, supply, v);
    }
  }

  /** Two coupons with one number are the same coupon, and it is in one place. */
  lemma CouponIsInOnePlace(g: Game, box: seq<Coupon>, supply: seq<int>, c: Coupon, d: Coupon)
    requires Conserved(g, multiset(box), supply) && NumbersDiffer(box)
    ensures c in AllCoupons(g) && d in AllCoupons(g) && c.idx == d.idx ==> c == d && AllCoupons(g)[c] == 1
  {
    NumberNamesCoupon(box, AllCoupons(g), c, d);
  }

  // The winner.

  predicate NobodyWon(g: Game) {
    FindWinner(g.players) == |g.players|
  }

  lemma {:induction false} NobodyWonIff(players: seq<Player>)
    ensures FindWinner(players) == |players| <==> forall i :: 0 <= i < |players| ==> players[i].reputation <= 14
  {
  }

  ghost predicate WinsByBuying(h: Game, id: int, t: nat, buying: bool) {
    && t < |h.players|
    && (FindWinner(h.players) < |h.players| <==> h.players[t].reputation > 14)
    && (FindWinner(h.players) < |h.players| ==> buying && FindWinner(h.players) == t && h.players[t].id == id)
  }

  lemma WinnerIs(g: Game, h: Game, id: int, t: nat, box: multiset<Coupon>, supply: seq<int>, buying: bool)
    requires NobodyWon(g) && Moves(g, h, id, box, supply, t) && OthersKeepReputation(g, h, t)
    requires buying || KeepsReputation(g, h, t)
    ensures WinsByBuying(h, id, t, buying)
  {
    NobodyWonIff(g.players);
  }

  /** The first winner that is reported is the player who has just bought, and there is
      one exactly when that player got above fourteen. */
  lemma WinnerHasJustBought(g: Game, r: Request, id: int, box: multiset<Coupon>, supply: seq<int>, t: nat)
    requires Inv(g, box, supply, t) && IsAllowed(g, r, id) && NobodyWon(g) && Step(g, r, id).0
    ensures WinsByBuying(Step(g, r, id).1, id, t, IsBuying(r))
  {
    StepKeeps(g, r, id, box, supply, t);
    WinnerIs(g, Step(g, r, id).1, id, t, box, supply, IsBuying(r));
  }

  // Giving mines back.

  lemma {:induction false} FindOwnId(players: seq<Player>, t: nat)
    requires DistinctIds(players) && t < |players|
    ensures FindPlayer(players, players[t].id) == t
  {
  }

  /** A player who must give mines back always can. */
  lemma CanReturn(g: Game, box: multiset<Coupon>, supply: seq<int>, t: nat) returns (mine: Mine)
    requires Inv(g, box, supply, t) && g.players[t].status == NeedReturnMine
    ensures ReturnMine(g, mine, g.players[t].id).0
  {
    FindOwnId(g.players, t);
    var mines := g.players[t].mineCount;
    mine := if mines[0] > 0 then 0 else if mines[1] > 0 then 1 else if mines[2] > 0 then 2
            else if mines[3] > 0 then 3 else if mines[4] > 0 then 4 else 5;
  }

  lemma ReturnCounts(g: Game, r: Request, id: int, t: nat)
    requires Shaped(g) && r.ReturnOneMine? && FindPlayer(g.players, id) == t < |g.players|
    requires ReturnMine(g, r.mine, id).0
    ensures var h := ReturnMine(g, r.mine, id).1;
      && Total(h.players[t].mineCount) == Total(g.players[t].mineCount) - 1
      && (h.players[t].status == NeedReturnMine <==> Total(h.players[t].mineCount) > 10)
  {
    TotalAdd(g.players[t].mineCount, r.mine, -1);
  }

  lemma OthersAreRefused(g: Game, r: Request, id: int, t: nat)
    requires IsAllowed(g, r, id) && FindPlayer(g.players, id) == t < |g.players|
    requires g.players[t].status == NeedReturnMine && Step(g, r, id).0
    ensures r.ReturnOneMine? && ReturnMine(g, r.mine, id).0
  {
  }

  /** While mines are owed, the only request that is accepted gives one back; the turn
      passes exactly when ten are left. */
  lemma OnlyReturnIsAccepted(g: Game, r: Request, id: int, box: multiset<Coupon>, supply: seq<int>, t: nat)
    requires Inv(g, box, supply, t) && IsAllowed(g, r, id) && g.players[t].status == NeedReturnMine && Step(g, r, id).0
    ensures r.ReturnOneMine? && id == g.players[t].id
    ensures var h := Step(g, r, id).1;
      && Moves(g, h, id, box, supply, t)
      && Total(h.players[t].mineCount) == Total(g.players[t].mineCount) - 1
      && (h.players[t].status == NeedReturnMine <==> Total(h.players[t].mineCount) > 10)
  {
    FoundHasTurn(g.players, t, id);
    OthersAreRefused(g, r, id, t);
    ReturnKeeps(g, r.mine, id, box, supply, t);
    ReturnCounts(g, r, id, t);
  }

  /** All calls are accepted, and the player with the turn owes mines before each. */
  ghost predicate Owing(g: Game, calls: seq<Call>, t: nat)
    decreases |calls|
  {
    calls != [] ==>
      && IsAllowed(g, calls[0].request, calls[0].id) && t < |g.players| && g.players[t].status == NeedReturnMine
      && Step(g, calls[0].request, calls[0].id).0
      && Owing(Step(g, calls[0].request, calls[0].id).1, calls[1..], t)
  }

  /** At most three returns are ever needed. */
  lemma {:induction false} AtMostThreeReturns(g: Game, calls: seq<Call>, box: multiset<Coupon>, supply: seq<int>,
      t: nat)
    requires Inv(g, box, supply, t) && Owing(g, calls, t) && calls != []
    ensures |calls| <= Total(g.players[t].mineCount) - 10 <= 3
    decreases |calls|
  {
    if |calls| > 1 {
      var h := Step(g, calls[0].request, calls[0].id).1;
      OnlyReturnIsAccepted(g, calls[0].request, calls[0].id, box, supply, t);
      assert Owing(h, calls[1..], t);
      AtMostThreeReturns(h, calls[1..], box, supply, t);
    }
  }

  // Requests that can be made.

  function Some(n: int): nat {
    if n > 0 then 1 else 0
  }

  /** How many of the five colours the bank holds. */
  function Colours(bank: seq<int>): nat
    requires |bank| == 6
  {
    Some(bank[0]) + Some(bank[1]) + Some(bank[2]) + Some(bank[3]) + Some(bank[4])
  }

  predicate CanTake(bank: seq<int>)
    requires |bank| == 6
  {
    Colours(bank) >= 3 || exists m :: 0 <= m < 5 && bank[m] >= 4
  }

  /** A slot that its own number names and that is not empty. */
  predicate IsNamed(coupons: seq<Coupon>, i: nat) {
    i < |coupons| && IsCard(coupons[i]) && FindCoupon(coupons, coupons[i].idx) == i
  }

  predicate CanReserve(p: Player, market: seq<Coupon>) {
    |p.reserved| < 3 && exists i :: 0 <= i < |market| && IsNamed(market, i)
  }

  predicate CanBuyFrom(p: Player, coupons: seq<Coupon>)
    requires HasCounts(p)
  {
    exists i :: 0 <= i < |coupons| && IsNamed(coupons, i) && Affordable(p, coupons[i])
  }

  /** The next colour that the bank holds. */
  function NextColour(bank: seq<int>, m: nat): (r: nat)
    requires |bank| == 6 && m <= 5
    ensures m <= r <= 5 && (r < 5 ==> bank[r] > 0) && forall k :: m <= k < r ==> bank[k] <= 0
    decreases 5 - m
  {
    if m == 5 || bank[m] > 0 then m else NextColour(bank, m + 1)
  }

  lemma ThreeColours(bank: seq<int>) returns (a: Mine, b: Mine, c: Mine)
    requires |bank| == 6 && Colours(bank) >= 3
    ensures a < b < c < 5 && bank[a] > 0 && bank[b] > 0 && bank[c] > 0
  {
    a := NextColour(bank, 0);
    b := NextColour(bank, a + 1);
    c := NextColour(bank, b + 1);
  }

  lemma ColoursOfThree(bank: seq<int>, a: Mine, b: Mine, c: Mine)
    requires |bank| == 6 && (forall m :: 0 <= m < 6 ==> bank[m] >= 0)
    requires a != b && b != c && c != a && a != GOLD && b != GOLD && c != GOLD
    requires bank[a] != 0 && bank[b] != 0 && bank[c] != 0
    ensures Colours(bank) >= 3
  {
  }

  /** The player with the turn has a request that is accepted. */
  ghost predicate HasRequest(g: Game, t: nat)
    requires t < |g.players|
  {
    exists r :: IsAllowed(g, r, g.players[t].id) && Step(g, r, g.players[t].id).0
  }

  lemma Accepts(g: Game, r: Request, t: nat)
    requires t < |g.players| && IsAllowed(g, r, g.players[t].id) && Step(g, r, g.players[t].id).0
    ensures HasRequest(g, t)
  {
  }

  lemma CanTakeSome(g: Game, t: nat)
    requires Shaped(g) && t < |g.players| && g.players[t].status == Action && CanTake(g.bank)
    ensures HasRequest(g, t)
  {
    FindOwnId(g.players, t);
    if Colours(g.bank) >= 3 {
      var a, b, c := ThreeColours(g.bank);
      Accepts(g, TakeThreeMines(a, b, c), t);
    } else {
      var m :| 0 <= m < 5 && g.bank[m] >= 4;
      Accepts(g, TakeTwoMines(m), t);
    }
  }

  lemma CanReserveSome(g: Game, t: nat)
    requires Shaped(g) && t < |g.players| && g.players[t].status == Action && CanReserve(g.players[t], g.market)
    ensures HasRequest(g, t)
  {
    FindOwnId(g.players, t);
    var i :| 0 <= i < |g.market| && IsNamed(g.market, i);
    Accepts(g, ReserveCoupon(g.market[i].idx), t);
  }

  lemma CanBuySome(g: Game, t: nat)
    requires Shaped(g) && t < |g.players| && g.players[t].status == Action && HasCounts(g.players[t])
    requires CanBuyFrom(g.players[t], g.market) || CanBuyFrom(g.players[t], g.players[t].reserved)
    ensures HasRequest(g, t)
  {
    FindOwnId(g.players, t);
    var p := g.players[t];
    if CanBuyFrom(p, g.market) {
      var i :| 0 <= i < |g.market| && IsNamed(g.market, i) && Affordable(p, g.market[i]);
      Accepts(g, BuyCoupon(g.market[i].idx), t);
    } else {
      var i :| 0 <= i < |p.reserved| && IsNamed(p.reserved, i) && Affordable(p, p.reserved[i]);
      Accepts(g, BuyReservedCoupon(p.reserved[i].idx), t);
    }
  }

  /** What the player with the turn can do. */
  predicate CanMove(g: Game, p: Player)
    requires |g.bank| == 6 && HasCounts(p)
  {
    || p.status == NeedReturnMine
    || CanTake(g.bank) || CanReserve(p, g.market) || CanBuyFrom(p, g.market) || CanBuyFrom(p, p.reserved)
  }

  lemma AcceptedTake(g: Game, r: Request, t: nat)
    requires Shaped(g) && t < |g.players| && g.players[t].status == Action
    requires r.TakeThreeMines? || r.TakeTwoMines?
    requires Step(g, r, g.players[t].id).0
    ensures CanTake(g.bank)
  {
    FindOwnId(g.players, t);
    if r.TakeThreeMines? { ColoursOfThree(g.bank, r.a, r.b, r.c); }
  }

  lemma AcceptedCoupon(g: Game, r: Request, t: nat)
    requires Shaped(g) && t < |g.players| && g.players[t].status == Action && HasCounts(g.players[t])
    requires r.ReserveCoupon? || r.BuyCoupon? || r.BuyReservedCoupon?
    requires IsAllowed(g, r, g.players[t].id) && Step(g, r, g.players[t].id).0
    ensures CanMove(g, g.players[t])
  {
    FindOwnId(g.players, t);
    var p := g.players[t];
    assert IsPlayer(p);
    if r.BuyReservedCoupon? {
      var k := FindCoupon(p.reserved, r.idx);
      assert IsNamed(p.reserved, k);
    } else {
      var k := FindCoupon(g.market, r.idx);
      assert IsSlot(g.market[k], SlotLevel(k));
      assert IsNamed(g.market, k);
    }
  }

  lemma NoOtherRequest(g: Game, r: Request, t: nat)
    requires Shaped(g) && t < |g.players| && g.players[t].status == Action && HasCounts(g.players[t])
    requires IsAllowed(g, r, g.players[t].id) && Step(g, r, g.players[t].id).0
    ensures CanMove(g, g.players[t])
  {
    FindOwnId(g.players, t);
    if r.TakeThreeMines? || r.TakeTwoMines? {
      AcceptedTake(g, r, t);
    } else if !r.ReturnOneMine? {
      AcceptedCoupon(g, r, t);
    }
  }

  /** There is no pass: the player with the turn has a request that is accepted if and only
      if mines are owed, the bank can be taken from, a coupon can be reserved, or one can be
      paid for. */
  lemma GameGoesOnIff(g: Game, box: multiset<Coupon>, supply: seq<int>, t: nat)
    requires Inv(g, box, supply, t)
    ensures HasRequest(g, t) <==> CanMove(g, g.players[t])
  {
    var p := g.players[t];
    if p.status == NeedReturnMine {
      var mine := CanReturn(g, box, supply, t);
      Accepts(g, ReturnOneMine(mine), t);
    } else if CanTake(g.bank) {
      CanTakeSome(g, t);
    } else if CanReserve(p, g.market) {
      CanReserveSome(g, t);
    } else if CanBuyFrom(p, g.market) || CanBuyFrom(p, p.reserved) {
      CanBuySome(g, t);
    } else if HasRequest(g, t) {
      var r :| IsAllowed(g, r, p.id) && Step(g, r, p.id).0;
      NoOtherRequest(g, r, t);
    }
  }

  // Empty slots.

  lemma HandHoldsEmpty(g: Game, slot: nat, id: int, t: nat)
    requires Shaped(g) && Reserve(g, 0, id).0 && FindPlayer(g.players, id) == t && FindCoupon(g.market, 0) == slot
    requires t < |g.players| && slot < 12 && !IsCard(g.market[slot])
    ensures !Shaped(Reserve(g, 0, id).1)
  {
    var h := Reserve(g, 0, id).1;
    var n := |g.players[t].reserved|;
    assert h.players[t].reserved[n] == g.market[slot];
    assert !IsPlayer(h.players[t]);
  }

  /** Asking for number 0 finds an empty slot; when there is one and it is reserved, the
      hand holds a coupon that is not a card. So an accepted reservation keeps the hands
      to cards exactly when the number asked for is not 0. */
  lemma ReserveNeedsNumber(g: Game, idx: int, id: int, box: multiset<Coupon>, supply: seq<int>, t: nat)
    requires Inv(g, box, supply, t) && Reserve(g, idx, id).0
    ensures Shaped(Reserve(g, idx, id).1) <==> idx != 0
  {
    if idx != 0 {
      ReserveKeeps(g, idx, id, box, supply, t);
    } else {
      FoundHasTurn(g.players, t, id);
      var slot := FindCoupon(g.market, 0);
      assert IsSlot(g.market[slot], SlotLevel(slot));
      HandHoldsEmpty(g, slot, id, t);
    }
  }
}
