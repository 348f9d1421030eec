/** What every request keeps in a game of `Splendor` (src/Splendor.hpp). */
module SplendorInvariant {
  import opened SplendorState
  import opened SplendorRules
  import opened SplendorMines
  import opened SplendorCoupons
  import opened SplendorAllies

  predicate IsIdle(p: Player)
    requires HasCounts(p)
  {
    p.status == Waiting && Total(p.mineCount) <= 10
  }

  /** Player `t` is the only one not waiting; more than ten mines, at most thirteen, are
      held only by a player who must give some back. */
  ghost predicate HasTurn(players: seq<Player>, t: nat)
    requires forall i :: 0 <= i < |players| ==> HasCounts(players[i])
  {
    && t < |players| && HasCounts(players[t]) && players[t].status != Waiting && Total(players[t].mineCount) <= 13
    && (players[t].status == NeedReturnMine <==> Total(players[t].mineCount) > 10)
    && forall i :: 0 <= i < |players| && i != t ==> IsIdle(players[i])
  }

  /** Coupons and mines are those the game began with. */
  ghost predicate Conserved(g: Game, box: multiset<Coupon>, supply: seq<int>) {
    && Shaped(g) && |supply| == 6 && EmptyOnlyAtEnd(g.market, g.deck)
    && AllCoupons(g) == box && forall m :: 0 <= m < 6 ==> Supply(g, m) == supply[m]
  }

  /** Counts, reputations and allies agree with the coupons bought. */
  ghost predicate Accounted(g: Game)
    requires HasArrays(g)
  {
    && NoneSatisfied(g.allies, g.players)
    && forall i :: 0 <= i < |g.players| ==> CountsAreTallies(g.players[i]) && ReputationAdds(g.players[i], g.allies)
  }

  ghost predicate Inv(g: Game, box: multiset<Coupon>, supply: seq<int>, t: nat) {
    Conserved(g, box, supply) && HasTurn(g.players, t) && Accounted(g)
  }

  // One player trades with the table.

  /** Player `i` has become `q`; of the others at most a status has changed. */
  ghost predicate Replaced(players: seq<Player>, others: seq<Player>, i: nat, q: Player) {
    && i < |players| == |others| && others[i] == q.(status := others[i].status, reputation := others[i].reputation)
    && q.id == players[i].id
    && forall j :: 0 <= j < |players| && j != i ==> SameButStatus(others[j], players[j])
  }

  lemma HeldReplaced(players: seq<Player>, others: seq<Player>, i: nat, q: Player, m: nat)
    requires Replaced(players, others, i, q) && m < 6 && HasCounts(q)
    requires forall j :: 0 <= j < |players| ==> HasCounts(players[j])
    ensures forall j :: 0 <= j < |others| ==> HasCounts(others[j])
    ensures Held(others, m) == Held(players, m) - players[i].mineCount[m] + q.mineCount[m]
  {
    HeldUpdate(players, i, q, m);
    HeldSame(players[i := q], others, m);
  }

  lemma HandsReplaced(players: seq<Player>, others: seq<Player>, i: nat, q: Player)
    requires Replaced(players, others, i, q)
    ensures Hands(others) + Hand(players[i]) == Hands(players) + Hand(q)
  {
    HandsUpdate(players, i, q);
    HandsSame(players[i := q], others);
  }

  lemma PlayersReplaced(players: seq<Player>, others: seq<Player>, i: nat, q: Player)
    requires Replaced(players, others, i, q) && IsPlayer(q) && DistinctIds(players)
    requires forall j :: 0 <= j < |players| ==> IsPlayer(players[j])
    ensures DistinctIds(others) && forall j :: 0 <= j < |others| ==> IsPlayer(others[j])
  {
    assert forall j :: 0 <= j < |players| ==> others[j].id == players[j].id;
    forall j | 0 <= j < |others| ensures IsPlayer(others[j]) {
      assert j != i ==> IsPlayer(players[j]);
    }
  }

  ghost predicate MinesTraded(g: Game, bank: seq<int>, i: nat, q: Player) {
    && |bank| == |g.bank| == 6 && i < |g.players| && HasCounts(q) && HasCounts(g.players[i])
    && forall m :: 0 <= m < 6 ==> bank[m] >= 0 && bank[m] + q.mineCount[m] == g.bank[m] + g.players[i].mineCount[m]
  }

  ghost predicate CouponsTraded(g: Game, market: seq<Coupon>, deck: seq<Coupon>, i: nat, q: Player) {
    && i < |g.players| && IsMarket(market) && AreCards(deck) && EmptyOnlyAtEnd(market, deck)
    && InPlay(market) + multiset(deck) + Hand(q) == InPlay(g.market) + multiset(g.deck) + Hand(g.players[i])
  }

  lemma ThreeParts<T>(a: multiset<T>, b: multiset<T>, c: multiset<T>, d: multiset<T>, x: multiset<T>, y: multiset<T>)
    requires a + x == b + y && c + y == d + x
    ensures a + c == b + d
  {
    assert (a + c) + (x + y) == (a + x) + (c + y);
    assert (b + d) + (x + y) == (b + y) + (d + x);
    assert (a + c) == ((a + c) + (x + y)) - (x + y);
    assert (b + d) == ((b + d) + (x + y)) - (x + y);
  }

  lemma SwapSum<T>(a: multiset<T>, b: multiset<T>)
    ensures a + b == b + a
  {
  }

  /** A trade of one player with the bank, the slots and the deck loses nothing. */
  lemma TradeConserves(g: Game, h: Game, i: nat, q: Player, box: multiset<Coupon>, supply: seq<int>)
    requires Conserved(g, box, supply) && i < |g.players| && IsPlayer(q)
    requires Replaced(g.players, h.players, i, q)
    requires MinesTraded(g, h.bank, i, q) && CouponsTraded(g, h.market, h.deck, i, q)
    requires forall k :: 0 <= k < |h.allies| ==> IsAlly(h.allies[k])
    ensures Conserved(h, box, supply)
  {
    PlayersReplaced(g.players, h.players, i, q);
    HandsReplaced(g.players, h.players, i, q);
    ThreeParts(Hands(h.players), Hands(g.players),
               InPlay(h.market) + multiset(h.deck), InPlay(g.market) + multiset(g.deck),
               Hand(g.players[i]), Hand(q));
    SwapSum(Hands(h.players), InPlay(h.market) + multiset(h.deck));
    SwapSum(Hands(g.players), InPlay(g.market) + multiset(g.deck));
    forall m | 0 <= m < 6 ensures Supply(h, m) == supply[m] {
      HeldReplaced(g.players, h.players, i, q, m);
      assert Supply(g, m) == supply[m];
    }
  }

  // Turns.

  /** Player `t` has become `q` and is still to pass the turn. */
  ghost predicate OthersIdle(players: seq<Player>, t: nat)
    requires forall i :: 0 <= i < |players| ==> HasCounts(players[i])
  {
    t < |players| && forall i :: 0 <= i < |players| && i != t ==> IsIdle(players[i])
  }

  /** The turn goes to the successor. */
  lemma PassTurnMoves(players: seq<Player>, t: nat)
    requires |players| >= 2 && forall i :: 0 <= i < |players| ==> HasCounts(players[i])
    requires OthersIdle(players, t) && Total(players[t].mineCount) <= 10
    ensures forall i :: 0 <= i < |players| ==> HasCounts(PassTurn(players, t)[i])
    ensures HasTurn(PassTurn(players, t), Next(t, |players|))
  {
    assert IsIdle(players[Next(t, |players|)]);
  }

  /** A player with mines to give back keeps the turn; otherwise it passes on. */
  function TurnIn(players: seq<Player>, t: nat): nat
    requires t < |players|
  {
    if players[t].status == NeedReturnMine then t else Next(t, |players|)
  }

  lemma AfterGainMoves(players: seq<Player>, t: nat, q: Player)
    requires |players| >= 2 && (forall i :: 0 <= i < |players| ==> HasCounts(players[i])) && HasCounts(q)
    requires OthersIdle(players, t) && Total(q.mineCount) <= 13
    ensures var r := AfterGain(players[t := q], t);
      && (forall i :: 0 <= i < |r| ==> HasCounts(r[i]))
      && HasTurn(r, TurnIn(r, t))
  {
    if Total(q.mineCount) <= 10 { PassTurnMoves(players[t := q], t); }
  }

  lemma AfterGainReplaces(players: seq<Player>, t: nat, q: Player)
    requires t < |players| && HasCounts(q) && q.id == players[t].id
    ensures Replaced(players, AfterGain(players[t := q], t), t, q)
    ensures AfterGain(players[t := q], t)[t].reputation == q.reputation
  {
  }

  /** Only the player with the turn gets past the status test of a request. */
  lemma FoundHasTurn(players: seq<Player>, t: nat, id: int)
    requires forall i :: 0 <= i < |players| ==> HasCounts(players[i])
    requires HasTurn(players, t)
    ensures var i := FindPlayer(players, id);
      i < |players| && players[i].status != Waiting ==> i == t
  {
  }

  // Requests that buy nothing.

  predicate BoughtNothing(p: Player, q: Player) {
    q == p.(reserved := q.reserved, mineCount := q.mineCount)
  }

  lemma SameAccount(p: Player, q: Player, allies: seq<Ally>)
    requires HasCounts(p) && HasCounts(q) && forall k :: 0 <= k < |allies| ==> |allies[k].condition| == 5
    requires q.coupons == p.coupons && q.couponCount == p.couponCount && q.reputation == p.reputation && q.id == p.id
    requires SatisfiesNone(p, allies) && CountsAreTallies(p) && ReputationAdds(p, allies)
    ensures SatisfiesNone(q, allies) && CountsAreTallies(q) && ReputationAdds(q, allies)
  {
  }

  lemma AccountsUntouched(g: Game, h: Game, t: nat, q: Player)
    requires HasArrays(g) && HasArrays(h) && Accounted(g) && h.allies == g.allies
    requires Replaced(g.players, h.players, t, q) && h.players[t].reputation == q.reputation
    requires BoughtNothing(g.players[t], q)
    ensures Accounted(h)
  {
    forall i | 0 <= i < |h.players|
      ensures SatisfiesNone(h.players[i], h.allies)
      ensures CountsAreTallies(h.players[i]) && ReputationAdds(h.players[i], h.allies)
    {
      SameAccount(g.players[i], h.players[i], g.allies);
    }
  }

  /** What an accepted request does to the turn: it was the requester's, and it stays
      only with a player who has mines to give back. */
  ghost predicate Moves(g: Game, h: Game, id: int, box: multiset<Coupon>, supply: seq<int>, t: nat) {
    && t < |g.players| == |h.players| && g.players[t].id == h.players[t].id == id
    && Inv(h, box, supply, TurnIn(h.players, t))
  }

  ghost predicate OthersKeepReputation(g: Game, h: Game, t: nat) {
    && |h.players| == |g.players|
    && forall j :: 0 <= j < |g.players| && j != t ==> h.players[j].reputation == g.players[j].reputation
  }

  /** No reputation changes, and no ally. */
  ghost predicate KeepsReputation(g: Game, h: Game, t: nat) {
    && t < |g.players| && OthersKeepReputation(g, h, t) && h.players[t].reputation == g.players[t].reputation
    && h.allies == g.allies
  }

  /** A trade that passes the turn properly keeps the invariant. */
  lemma TradeKeeps(g: Game, h: Game, t: nat, q: Player, box: multiset<Coupon>, supply: seq<int>, u: nat)
    requires Conserved(g, box, supply) && Accounted(g) && h.allies == g.allies
    requires t < |g.players| && IsPlayer(q) && BoughtNothing(g.players[t], q)
    requires Replaced(g.players, h.players, t, q) && h.players[t].reputation == q.reputation
    requires MinesTraded(g, h.bank, t, q) && CouponsTraded(g, h.market, h.deck, t, q)
    requires (forall i :: 0 <= i < |h.players| ==> HasCounts(h.players[i])) && HasTurn(h.players, u)
    ensures Inv(h, box, supply, u) && KeepsReputation(g, h, t)
  {
    TradeConserves(g, h, t, q, box, supply);
    AccountsUntouched(g, h, t, q);
  }

  lemma TurnOfOthers(players: seq<Player>, t: nat)
    requires (forall i :: 0 <= i < |players| ==> HasCounts(players[i])) && HasTurn(players, t)
    ensures OthersIdle(players, t)
  {
  }

  // Requests that gain mines.

  lemma GainKeeps(g: Game, h: Game, t: nat, q: Player, box: multiset<Coupon>, supply: seq<int>)
    requires Inv(g, box, supply, t) && IsPlayer(q) && BoughtNothing(g.players[t], q) && Total(q.mineCount) <= 13
    requires h.players == AfterGain(g.players[t := q], t) && h.allies == g.allies
    requires MinesTraded(g, h.bank, t, q) && CouponsTraded(g, h.market, h.deck, t, q)
    ensures Moves(g, h, g.players[t].id, box, supply, t) && KeepsReputation(g, h, t)
  {
    TurnOfOthers(g.players, t);
    AfterGainReplaces(g.players, t, q);
    AfterGainMoves(g.players, t, q);
    TradeKeeps(g, h, t, q, box, supply, TurnIn(h.players, t));
  }

  lemma AddThreeIs(s: seq<int>, a: nat, b: nat, c: nat, d: int)
    requires a < |s| && b < |s| && c < |s| && a != b && b != c && c != a
    ensures forall m :: 0 <= m < |s| ==>
              AddThree(s, a, b, c, d)[m] == s[m] + if m == a || m == b || m == c then d else 0
  {
  }

  lemma TotalAdd(s: seq<int>, m: nat, d: int)
    requires |s| == 6 && m < 6
    ensures Total(Add(s, m, d)) == Total(s) + d
  {
  }

  lemma SameCoupons(g: Game, i: nat, q: Player)
    requires i < |g.players| && IsMarket(g.market) && AreCards(g.deck) && EmptyOnlyAtEnd(g.market, g.deck)
    requires q.coupons == g.players[i].coupons && q.reserved == g.players[i].reserved
    ensures CouponsTraded(g, g.market, g.deck, i, q)
  {
  }

  lemma ThreeTraded(g: Game, a: Mine, b: Mine, c: Mine, t: nat, q: Player)
    requires Shaped(g) && t < |g.players| && a != b && b != c && c != a
    requires g.bank[a] > 0 && g.bank[b] > 0 && g.bank[c] > 0
    requires q == g.players[t].(mineCount := AddThree(g.players[t].mineCount, a, b, c, 1))
    ensures MinesTraded(g, AddThree(g.bank, a, b, c, -1), t, q)
    ensures IsPlayer(q) && Total(q.mineCount) == Total(g.players[t].mineCount) + 3
  {
    var mines := g.players[t].mineCount;
    AddThreeIs(mines, a, b, c, 1);
    AddThreeIs(g.bank, a, b, c, -1);
    TotalAdd(mines, a, 1);
    TotalAdd(Add(mines, a, 1), b, 1);
    TotalAdd(Add(Add(mines, a, 1), b, 1), c, 1);
  }

  lemma TakeThreeKeeps(g: Game, a: Mine, b: Mine, c: Mine, id: int, box: multiset<Coupon>, supply: seq<int>, t: nat)
    requires Inv(g, box, supply, t) && TakeThree(g, a, b, c, id).0
    ensures Moves(g, TakeThree(g, a, b, c, id).1, id, box, supply, t)
    ensures KeepsReputation(g, TakeThree(g, a, b, c, id).1, t)
  {
    FoundHasTurn(g.players, t, id);
    var q := g.players[t].(mineCount := AddThree(g.players[t].mineCount, a, b, c, 1));
    ThreeTraded(g, a, b, c, t, q);
    SameCoupons(g, t, q);
    GainKeeps(g, TakeThree(g, a, b, c, id).1, t, q, box, supply);
  }

  lemma OneTraded(g: Game, mine: Mine, d: int, t: nat, q: Player)
    requires Shaped(g) && t < |g.players| && g.bank[mine] >= d && g.players[t].mineCount[mine] + d >= 0
    requires q == g.players[t].(mineCount := Add(g.players[t].mineCount, mine, d))
    ensures MinesTraded(g, Add(g.bank, mine, -d), t, q)
    ensures IsPlayer(q) && Total(q.mineCount) == Total(g.players[t].mineCount) + d
  {
    TotalAdd(g.players[t].mineCount, mine, d);
  }

  lemma TakeTwoKeeps(g: Game, mine: Mine, id: int, box: multiset<Coupon>, supply: seq<int>, t: nat)
    requires Inv(g, box, supply, t) && TakeTwo(g, mine, id).0
    ensures Moves(g, TakeTwo(g, mine, id).1, id, box, supply, t) && KeepsReputation(g, TakeTwo(g, mine, id).1, t)
  {
    FoundHasTurn(g.players, t, id);
    var q := g.players[t].(mineCount := Add(g.players[t].mineCount, mine, 2));
    OneTraded(g, mine, 2, t, q);
    SameCoupons(g, t, q);
    GainKeeps(g, TakeTwo(g, mine, id).1, t, q, box, supply);
  }

  lemma Moved<T>(a: multiset<T>, x: multiset<T>, b: multiset<T>, hand: multiset<T>, more: multiset<T>)
    requires a + x == b && more == hand + x
    ensures a + more == b + hand
  {
    assert a + (hand + x) == a + x + hand;
  }

  /** A reserved coupon moves from its slot to the hand. */
  lemma ReserveTrades(g: Game, slot: nat, t: nat, q: Player)
    requires Shaped(g) && EmptyOnlyAtEnd(g.market, g.deck) && t < |g.players| && slot < 12 && IsCard(g.market[slot])
    requires q.coupons == g.players[t].coupons && q.reserved == g.players[t].reserved + [g.market[slot]]
    ensures var (market, deck) := FillSlot(g.market, g.deck, slot, g.market[slot].level);
      CouponsTraded(g, market, deck, t, q)
  {
    var c := g.market[slot];
    var (market, deck) := FillSlot(g.market, g.deck, slot, c.level);
    FillKeepsCoupons(g.market, g.deck, slot, c.level);
    FillKeepsShape(g.market, g.deck, slot);
    AppendOne(g.players[t].reserved, c);
    Moved(InPlay(market) + multiset(deck), multiset{c}, InPlay(g.market) + multiset(g.deck),
          Hand(g.players[t]), Hand(q));
  }

  lemma ReserveKeeps(g: Game, idx: int, id: int, box: multiset<Coupon>, supply: seq<int>, t: nat)
    requires Inv(g, box, supply, t) && idx != 0 && Reserve(g, idx, id).0
    ensures Moves(g, Reserve(g, idx, id).1, id, box, supply, t) && KeepsReputation(g, Reserve(g, idx, id).1, t)
  {
    FoundHasTurn(g.players, t, id);
    var p, slot := g.players[t], FindCoupon(g.market, idx);
    var c, gold := g.market[slot], if g.bank[GOLD] > 0 then 1 else 0;
    var withGold := p.(mineCount := Add(p.mineCount, GOLD, gold));
    var q := withGold.(reserved := p.reserved + [c]);
    OneTraded(g, GOLD, gold, t, withGold);
    assert IsSlot(c, SlotLevel(slot));
    ReserveTrades(g, slot, t, q);
    GainKeeps(g, Reserve(g, idx, id).1, t, q, box, supply);
  }

  // Giving mines back.

  lemma AfterReturnMoves(players: seq<Player>, t: nat, q: Player)
    requires |players| >= 2 && (forall i :: 0 <= i < |players| ==> HasCounts(players[i])) && HasCounts(q)
    requires OthersIdle(players, t) && q.status == NeedReturnMine && Total(q.mineCount) <= 13 && q.id == players[t].id
    ensures var r := AfterReturn(players[t := q], t);
      && Replaced(players, r, t, q) && r[t].reputation == q.reputation
      && (forall i :: 0 <= i < |r| ==> HasCounts(r[i]))
      && HasTurn(r, TurnIn(r, t))
  {
    if Total(q.mineCount) < 11 { PassTurnMoves(players[t := q], t); }
  }

  lemma ReturnSettles(g: Game, h: Game, t: nat, q: Player, box: multiset<Coupon>, supply: seq<int>)
    requires Inv(g, box, supply, t) && IsPlayer(q) && BoughtNothing(g.players[t], q)
    requires q.status == NeedReturnMine && Total(q.mineCount) <= 13
    requires h.players == AfterReturn(g.players[t := q], t) && h.allies == g.allies
    requires MinesTraded(g, h.bank, t, q) && CouponsTraded(g, h.market, h.deck, t, q)
    ensures Moves(g, h, g.players[t].id, box, supply, t) && KeepsReputation(g, h, t)
  {
    TurnOfOthers(g.players, t);
    AfterReturnMoves(g.players, t, q);
    TradeKeeps(g, h, t, q, box, supply, TurnIn(h.players, t));
  }

  lemma ReturnKeeps(g: Game, mine: Mine, id: int, box: multiset<Coupon>, supply: seq<int>, t: nat)
    requires Inv(g, box, supply, t) && ReturnMine(g, mine, id).0
    ensures Moves(g, ReturnMine(g, mine, id).1, id, box, supply, t) && KeepsReputation(g, ReturnMine(g, mine, id).1, t)
  {
    FoundHasTurn(g.players, t, id);
    var q := g.players[t].(mineCount := Add(g.players[t].mineCount, mine, -1));
    OneTraded(g, mine, -1, t, q);
    SameCoupons(g, t, q);
    ReturnSettles(g, ReturnMine(g, mine, id).1, t, q, box, supply);
  }
}
