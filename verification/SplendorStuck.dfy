/** A game of `Splendor` (src/Splendor.hpp) that nobody can go on with: the player with the
    turn has no request that is accepted, and there is no pass. */
module SplendorStuck {
  import opened SplendorState
  import opened SplendorRules
  import opened SplendorInvariant
  import opened SplendorRuns
  import opened SplendorBox
  import opened Shuffle

  // Coupons that cannot be paid for.

  /** More than three mines are missing to somebody with two copper, two diamond and two
      emerald. */
  predicate IsDear(c: Coupon) {
    && IsCard(c)
    && Positive(c.costs[0] - 2) + Positive(c.costs[1] - 2) + Positive(c.costs[2] - 2) + c.costs[3] + c.costs[4] > 3
  }

  /** Only the coupons of level 3 have numbers above 70, and they are all dear. */
  predicate IsUsual(c: Coupon) {
    IsCard(c) ==> (c.level == 3 <==> c.idx > 70) && (c.level == 3 ==> IsDear(c))
  }

  lemma OneShortfall(c: Coupon, p: Player, k: nat)
    requires k < 5 && |c.costs| == 5 && HasCounts(p) && p.couponCount == [0, 0, 0, 0, 0]
    ensures TotalShortfall(c, p, k + 1) == TotalShortfall(c, p, k) + Positive(c.costs[k] - p.mineCount[k])
  {
  }

  lemma DearIsNotAffordable(p: Player, c: Coupon)
    requires IsDear(c) && p.mineCount == [2, 2, 2, 0, 0, 3] && p.couponCount == [0, 0, 0, 0, 0]
    ensures HasCounts(p) && !Affordable(p, c)
  {
    OneShortfall(c, p, 0);
    OneShortfall(c, p, 1);
    OneShortfall(c, p, 2);
    OneShortfall(c, p, 3);
    OneShortfall(c, p, 4);
    assert TotalShortfall(c, p, 0) == 0;
  }

  lemma ThirdLevelIsDear()
    ensures forall i :: 0 <= i < 20 ==> IsDear(Level3()[i])
  {
    assert forall i :: 0 <= i < 4 ==> IsDear(Copper3()[i]);
    assert forall i :: 0 <= i < 4 ==> IsDear(Diamond3()[i]);
    assert forall i :: 0 <= i < 4 ==> IsDear(Emerald3()[i]);
    assert forall i :: 0 <= i < 4 ==> IsDear(Iron3()[i]);
    assert forall i :: 0 <= i < 4 ==> IsDear(Netherite3()[i]);
  }

  // The table.

  /** The mines of the bank and of both players, and how many coupons are reserved. */
  datatype Table = Table(bank: seq<int>, first: seq<int>, second: seq<int>, reserved: nat)

  predicate IsTable(x: Table) {
    |x.bank| == 6 && |x.first| == 6 && |x.second| == 6 && x.reserved <= 3
  }

  ghost predicate HasDearMarket(market: seq<Coupon>, k: nat) {
    && |market| == 12 && (forall i :: 0 <= i < 8 ==> IsDear(market[i]))
    && (forall i :: 0 <= i < 12 ==> IsUsual(market[i])) && (forall i :: 8 + k <= i < 12 ==> IsCard(market[i]))
  }

  /** Two players; the first has reserved dear coupons and bought none; the first two levels
      of the market are dear, and from the third one only the reserved coupons are gone. */
  ghost predicate Lies(g: Game, x: Table, t: nat) {
    && IsTable(x) && |g.players| == 2 && t < 2 && g.players[t].status == Action
    && g.bank == x.bank && g.players[0].mineCount == x.first && g.players[1].mineCount == x.second
    && g.players[0].reputation == 0 && g.players[1].reputation == 0
    && g.players[0].couponCount == [0, 0, 0, 0, 0] && |g.players[0].reserved| == x.reserved
    && (forall c :: c in g.players[0].reserved ==> IsDear(c))
    && HasDearMarket(g.market, x.reserved) && (forall c :: c in g.deck ==> IsUsual(c))
  }

  predicate CanReserveDear(x: Table) {
    IsTable(x) && x.reserved < 3 && x.bank[GOLD] > 0 && Total(x.first) < 10
  }

  function Reserving(x: Table): Table
    requires CanReserveDear(x)
  {
    Table(Add(x.bank, GOLD, -1), Add(x.first, GOLD, 1), x.second, x.reserved + 1)
  }

  predicate CanTakeThree(x: Table) {
    IsTable(x) && x.bank[0] > 0 && x.bank[1] > 0 && x.bank[2] > 0 && Total(x.first) <= 7
  }

  function TakingThree(x: Table): Table
    requires CanTakeThree(x)
  {
    x.(bank := AddThree(x.bank, 0, 1, 2, -1), first := AddThree(x.first, 0, 1, 2, 1))
  }

  predicate CanTakeTwo(x: Table, m: Mine) {
    IsTable(x) && m != GOLD && x.bank[m] >= 4 && Total(x.second) <= 8
  }

  function TakingTwo(x: Table, m: Mine): Table
    requires CanTakeTwo(x, m)
  {
    x.(bank := Add(x.bank, m, -2), second := Add(x.second, m, 2))
  }

  /** A number above 70 is found on the third level only. */
  lemma FoundOnThirdLevel(g: Game, k: nat)
    requires Shaped(g) && HasDearMarket(g.market, k) && k < 3
    ensures var idx := g.market[8 + k].idx;
      var slot := FindCoupon(g.market, idx);
      idx > 70 && 8 <= slot <= 8 + k && IsDear(g.market[slot]) && g.market[slot].level == 3
  {
    var c := g.market[8 + k];
    assert IsSlot(c, SlotLevel(8 + k)) && IsUsual(c);
    var slot := FindCoupon(g.market, c.idx);
    assert IsSlot(g.market[slot], SlotLevel(slot)) && IsUsual(g.market[slot]);
  }

  // The calls.

  lemma {:induction false} OneMoreCall(g: Game, calls: seq<Call>, h: Game, call: Call)
    requires Reaches(g, calls, h) && IsAllowed(h, call.request, call.id)
    ensures Reaches(g, calls + [call], Step(h, call.request, call.id).1)
    decreases |calls|
  {
    var next := Step(h, call.request, call.id).1;
    if calls == [] {
      assert calls + [call] == [call] && [call][1..] == [];
      assert Reaches(next, [], next);
    } else {
      assert (calls + [call])[1..] == calls[1..] + [call];
      OneMoreCall(Step(g, calls[0].request, calls[0].id).1, calls[1..], h, call);
    }
  }

  lemma RefilledIsDear(market: seq<Coupon>, deck: seq<Coupon>, k: nat, slot: nat)
    requires HasDearMarket(market, k) && (forall c :: c in deck ==> IsUsual(c)) && 8 <= slot <= 8 + k < 11
    ensures var (m, d) := FillSlot(market, deck, slot, 3);
      HasDearMarket(m, k + 1) && forall c :: c in d ==> IsUsual(c)
  {
  }

  /** The first player reserves the coupon of the next slot of the third level. */
  lemma ReserveNext(g: Game, x: Table) returns (r: Request, h: Game)
    requires Shaped(g) && Lies(g, x, 0) && CanReserveDear(x)
    ensures IsServed(g, r, g.players[0].id, true, h) && Lies(h, Reserving(x), 1)
  {
    r := ReserveCoupon(g.market[8 + x.reserved].idx);
    h := Reserve(g, r.idx, g.players[0].id).1;
    FindOwnId(g.players, 0);
    FoundOnThirdLevel(g, x.reserved);
    RefilledIsDear(g.market, g.deck, x.reserved, FindCoupon(g.market, r.idx));
    TotalAdd(x.first, GOLD, 1);
  }

  /** The first player takes copper, diamond and emerald. */
  lemma TakeThreeNext(g: Game, x: Table) returns (r: Request, h: Game)
    requires Shaped(g) && Lies(g, x, 0) && CanTakeThree(x)
    ensures IsServed(g, r, g.players[0].id, true, h) && Lies(h, TakingThree(x), 1)
  {
    r := TakeThreeMines(0, 1, 2);
    h := TakeThree(g, 0, 1, 2, g.players[0].id).1;
    FindOwnId(g.players, 0);
    TotalAdd(x.first, 0, 1);
    TotalAdd(Add(x.first, 0, 1), 1, 1);
    TotalAdd(Add(Add(x.first, 0, 1), 1, 1), 2, 1);
  }

  /** The second player takes two mines. */
  lemma TakeTwoNext(g: Game, x: Table, m: Mine) returns (r: Request, h: Game)
    requires Shaped(g) && Lies(g, x, 1) && CanTakeTwo(x, m)
    ensures IsServed(g, r, g.players[1].id, true, h) && Lies(h, TakingTwo(x, m), 0)
  {
    r := TakeTwoMines(m);
    h := TakeTwo(g, m, g.players[1].id).1;
    FindOwnId(g.players, 1);
    TotalAdd(x.second, m, 2);
  }

  // The run.

  /** How a game began: the ninety coupons and the mines of the bank. */
  datatype Beginning = Beginning(game: Game, box: multiset<Coupon>, supply: seq<int>)

  /** The calls lead to `g`, where player `t` has the turn. */
  ghost predicate Played(s: Beginning, calls: seq<Call>, g: Game, t: nat) {
    Reaches(s.game, calls, g) && Inv(g, s.box, s.supply, t)
  }

  lemma ServedIsReached(start: Game, calls: seq<Call>, g: Game, r: Request, id: int, h: Game)
    requires Reaches(start, calls, g) && IsServed(g, r, id, true, h)
    ensures Reaches(start, calls + [Call(r, id)], h)
  {
    OneMoreCall(start, calls, g, Call(r, id));
  }

  lemma TurnIsUnique(h: Game, box: multiset<Coupon>, supply: seq<int>, u: nat, t: nat)
    requires Inv(h, box, supply, u) && t < |h.players| && h.players[t].status == Action
    ensures u == t
  {
  }

  lemma PlayOne(s: Beginning, calls: seq<Call>, g: Game, t: nat, r: Request, id: int, h: Game, u: nat)
    returns (more: seq<Call>)
    requires Played(s, calls, g, t) && IsServed(g, r, id, true, h) && u < |h.players| && h.players[u].status == Action
    ensures Played(s, more, h, u)
  {
    more := calls + [Call(r, id)];
    ServedIsReached(s.game, calls, g, r, id, h);
    StepMoves(g, r, id, s.box, s.supply, t, true, h);
    TurnIsUnique(h, s.box, s.supply, TurnAfter(true, h.players, t), u);
  }

  ghost predicate PlayedTo(s: Beginning, calls: seq<Call>, g: Game, x: Table, t: nat) {
    Played(s, calls, g, t) && Shaped(g) && Lies(g, x, t)
  }

  lemma IsPlayedTo(s: Beginning, calls: seq<Call>, g: Game, x: Table, t: nat)
    requires Played(s, calls, g, t) && Lies(g, x, t)
    ensures PlayedTo(s, calls, g, x, t)
  {
  }

  lemma ReserveAfter(s: Beginning, calls: seq<Call>, g: Game, x: Table) returns (more: seq<Call>, h: Game)
    requires PlayedTo(s, calls, g, x, 0) && CanReserveDear(x)
    ensures PlayedTo(s, more, h, Reserving(x), 1)
  {
    var r;
    r, h := ReserveNext(g, x);
    more := PlayOne(s, calls, g, 0, r, g.players[0].id, h, 1);
    IsPlayedTo(s, more, h, Reserving(x), 1);
  }

  lemma TakeThreeAfter(s: Beginning, calls: seq<Call>, g: Game, x: Table) returns (more: seq<Call>, h: Game)
    requires PlayedTo(s, calls, g, x, 0) && CanTakeThree(x)
    ensures PlayedTo(s, more, h, TakingThree(x), 1)
  {
    var r;
    r, h := TakeThreeNext(g, x);
    more := PlayOne(s, calls, g, 0, r, g.players[0].id, h, 1);
    IsPlayedTo(s, more, h, TakingThree(x), 1);
  }

  lemma TakeTwoAfter(s: Beginning, calls: seq<Call>, g: Game, x: Table, m: Mine) returns (more: seq<Call>, h: Game)
    requires PlayedTo(s, calls, g, x, 1) && CanTakeTwo(x, m)
    ensures PlayedTo(s, more, h, TakingTwo(x, m), 0)
  {
    var r;
    r, h := TakeTwoNext(g, x, m);
    more := PlayOne(s, calls, g, 1, r, g.players[1].id, h, 0);
    IsPlayedTo(s, more, h, TakingTwo(x, m), 0);
  }

  lemma RoundOfReserving(s: Beginning, calls: seq<Call>, g: Game, x: Table, m: Mine, y: Table)
    returns (more: seq<Call>, h: Game)
    requires PlayedTo(s, calls, g, x, 0) && CanReserveDear(x) && CanTakeTwo(Reserving(x), m)
    requires y == TakingTwo(Reserving(x), m)
    ensures PlayedTo(s, more, h, y, 0)
  {
    more, h := ReserveAfter(s, calls, g, x);
    more, h := TakeTwoAfter(s, more, h, Reserving(x), m);
  }

  lemma RoundOfTaking(s: Beginning, calls: seq<Call>, g: Game, x: Table, m: Mine, y: Table)
    returns (more: seq<Call>, h: Game)
    requires PlayedTo(s, calls, g, x, 0) && CanTakeThree(x) && CanTakeTwo(TakingThree(x), m)
    requires y == TakingTwo(TakingThree(x), m)
    ensures PlayedTo(s, more, h, y, 0)
  {
    more, h := TakeThreeAfter(s, calls, g, x);
    more, h := TakeTwoAfter(s, more, h, TakingThree(x), m);
  }

  /** What lies on the table before each of the five rounds and after them. */
  function TableAt(round: nat): Table
    requires round <= 5
  {
    if round == 0 then Table([4, 4, 4, 4, 4, 5], [0, 0, 0, 0, 0, 0], [0, 0, 0, 0, 0, 0], 0)
    else if round == 1 then Table([2, 4, 4, 4, 4, 4], [0, 0, 0, 0, 0, 1], [2, 0, 0, 0, 0, 0], 1)
    else if round == 2 then Table([2, 2, 4, 4, 4, 3], [0, 0, 0, 0, 0, 2], [2, 2, 0, 0, 0, 0], 2)
    else if round == 3 then Table([2, 2, 2, 4, 4, 2], [0, 0, 0, 0, 0, 3], [2, 2, 2, 0, 0, 0], 3)
    else if round == 4 then Table([1, 1, 1, 2, 4, 2], [1, 1, 1, 0, 0, 3], [2, 2, 2, 2, 0, 0], 3)
    else Table([0, 0, 0, 2, 2, 2], [2, 2, 2, 0, 0, 3], [2, 2, 2, 2, 2, 0], 3)
  }

  lemma RoundsOfReserving(round: nat)
    requires round < 3
    ensures CanReserveDear(TableAt(round)) && CanTakeTwo(Reserving(TableAt(round)), round)
    ensures TableAt(round + 1) == TakingTwo(Reserving(TableAt(round)), round)
  {
  }

  lemma RoundsOfTaking(round: nat)
    requires 3 <= round < 5
    ensures CanTakeThree(TableAt(round)) && CanTakeTwo(TakingThree(TableAt(round)), round)
    ensures TableAt(round + 1) == TakingTwo(TakingThree(TableAt(round)), round)
  {
  }

  /** In three rounds the first player reserves and the second one takes two mines, in two
      rounds the first player takes three. */
  lemma {:induction false} RoundsArePlayed(s: Beginning, calls: seq<Call>, g: Game, round: nat)
    returns (more: seq<Call>, h: Game)
    requires round <= 5 && PlayedTo(s, calls, g, TableAt(round), 0)
    ensures PlayedTo(s, more, h, TableAt(5), 0)
    decreases 5 - round
  {
    if round == 5 {
      more, h := calls, g;
    } else {
      if round < 3 {
        RoundsOfReserving(round);
        more, h := RoundOfReserving(s, calls, g, TableAt(round), round, TableAt(round + 1));
      } else {
        RoundsOfTaking(round);
        more, h := RoundOfTaking(s, calls, g, TableAt(round), round, TableAt(round + 1));
      }
      more, h := RoundsArePlayed(s, more, h, round + 1);
    }
  }

  /** Then nothing is left to do. */
  lemma NothingToDo(g: Game)
    requires Shaped(g) && Lies(g, TableAt(5), 0)
    ensures HasCounts(g.players[0]) && !CanMove(g, g.players[0])
  {
    var p := g.players[0];
    forall i | 0 <= i < 12 && IsNamed(g.market, i) ensures !Affordable(p, g.market[i]) {
      assert IsSlot(g.market[i], SlotLevel(i)) && IsUsual(g.market[i]);
      DearIsNotAffordable(p, g.market[i]);
    }
    forall i | 0 <= i < 3 && IsNamed(p.reserved, i) ensures !Affordable(p, p.reserved[i]) {
      DearIsNotAffordable(p, p.reserved[i]);
    }
  }

  // The deal.

  /** Draws that bring the cards of other slots to the top. */
  ghost predicate Brings(draw: nat -> nat, top: nat, p: seq<nat>) {
    && |p| <= top && (forall j :: 0 <= j < |p| ==> p[j] <= top - |p| && draw(top - j) == p[j])
    && forall i, j :: 0 <= i < j < |p| ==> p[i] != p[j]
  }

  lemma FirstSwap<T>(s: seq<T>, top: nat, draw: nat -> nat, j: nat)
    requires 0 < top < |s| && Pick(draw(top), top) == j
    ensures Shuffled(s, top, 0, draw) == Shuffled(Swap(s, top, j), top - 1, 0, draw)
  {
  }

  lemma TopIsFinal<T>(s: seq<T>, top: nat, draw: nat -> nat, j: nat)
    requires 0 < top < |s| && Pick(draw(top), top) == j
    ensures Shuffled(s, top, 0, draw)[top] == s[j]
  {
    FirstSwap(s, top, draw, j);
    ShuffleLeaves(Swap(s, top, j), top - 1, 0, draw, top);
  }

  lemma RestIsBrought(draw: nat -> nat, top: nat, p: seq<nat>)
    requires Brings(draw, top, p) && |p| > 0
    ensures Brings(draw, top - 1, p[1..])
  {
    forall j | 0 <= j < |p| - 1 ensures p[1..][j] <= top - |p| && draw(top - 1 - j) == p[1..][j] {
      assert draw(top - (j + 1)) == p[j + 1];
    }
  }

  lemma {:induction false} IsBrought<T>(s: seq<T>, top: nat, p: seq<nat>, draw: nat -> nat, j: nat)
    requires top < |s| && Brings(draw, top, p) && j < |p|
    ensures Shuffled(s, top, 0, draw)[top - j] == s[p[j]]
    decreases |p|
  {
    assert draw(top - 0) == p[0];
    SmallPick(draw(top), top);
    if j == 0 {
      TopIsFinal(s, top, draw, p[0]);
    } else {
      FirstSwap(s, top, draw, p[0]);
      RestIsBrought(draw, top, p);
      IsBrought(Swap(s, top, p[0]), top - 1, p[1..], draw, j - 1);
    }
  }

  function DrawFor1(i: nat): nat {
    if i == 39 then 1 else if i == 38 then 7 else if i == 37 then 15 else if i == 36 then 23 else 0
  }

  function DrawFor2(i: nat): nat {
    if i == 29 then 1 else if i == 28 then 3 else if i == 27 then 4 else if i == 26 then 10 else 0
  }

  /** The draws of the game: of the first two levels the dear cards are dealt. */
  function DeadDraws(): Draws {
    Draws(0, i => 0, DrawFor1, DrawFor2, i => 0)
  }

  /** Which cards of the box are dear. */
  ghost predicate HasDearCards(box: Box) {
    && IsBox(box)
    && IsDear(box.level1[1]) && IsDear(box.level1[7]) && IsDear(box.level1[15]) && IsDear(box.level1[23])
    && IsDear(box.level2[1]) && IsDear(box.level2[3]) && IsDear(box.level2[4]) && IsDear(box.level2[10])
    && forall i :: 0 <= i < 20 ==> IsDear(box.level3[i])
  }

  lemma FirstLevelHasDear()
    ensures IsDear(Level1()[1]) && IsDear(Level1()[7]) && IsDear(Level1()[15]) && IsDear(Level1()[23])
  {
    assert IsDear(Copper1()[1]) && IsDear(Copper1()[7]);
    assert IsDear(Diamond1()[7]);
    assert IsDear(Emerald1()[7]);
  }

  lemma SecondLevelHasDear()
    ensures IsDear(Level2()[1]) && IsDear(Level2()[3]) && IsDear(Level2()[4]) && IsDear(Level2()[10])
  {
    assert IsDear(Copper2()[1]) && IsDear(Copper2()[3]) && IsDear(Copper2()[4]);
    assert IsDear(Diamond2()[4]);
  }

  lemma TheBoxHasDearCards()
    ensures HasDearCards(TheBox())
  {
    FirstLevelHasDear();
    SecondLevelHasDear();
    ThirdLevelIsDear();
  }

  lemma TopIsDear(s: seq<Coupon>, n: nat, p: seq<nat>, draw: nat -> nat, t: seq<Coupon>)
    requires |s| == n > 4 == |p| && Brings(draw, n - 1, p) && forall j :: 0 <= j < 4 ==> IsDear(s[p[j]])
    requires t == Shuffled(s, n - 1, 0, draw)
    ensures forall i :: n - 4 <= i < n ==> IsDear(t[i])
  {
    forall i | n - 4 <= i < n ensures IsDear(t[i]) {
      IsBrought(s, n - 1, p, draw, n - 1 - i);
    }
  }

  lemma PileIsUsual(s: seq<Coupon>, draw: nat -> nat, t: seq<Coupon>)
    requires s != [] && (forall i :: 0 <= i < |s| ==> IsUsual(s[i])) && t == Shuffled(s, |s| - 1, 0, draw)
    ensures forall i :: 0 <= i < |s| ==> IsUsual(t[i])
  {
    OriginIsUniversal(s, draw);
  }

  lemma PilesAreUsual(box: Box, d: Draws)
    requires HasDearCards(box)
    ensures forall i :: 0 <= i < 40 ==> IsUsual(Pile1(box, d)[i])
    ensures forall i :: 0 <= i < 30 ==> IsUsual(Pile2(box, d)[i])
    ensures forall i :: 0 <= i < 20 ==> IsUsual(Pile3(box, d)[i])
  {
    PileIsUsual(box.level1, d.level1, Pile1(box, d));
    PileIsUsual(box.level2, d.level2, Pile2(box, d));
    PileIsUsual(box.level3, d.level3, Pile3(box, d));
  }

  lemma FirstFourAreBrought()
    ensures Brings(DrawFor1, 39, [1, 7, 15, 23])
  {
  }

  lemma SecondFourAreBrought()
    ensures Brings(DrawFor2, 29, [1, 3, 4, 10])
  {
  }

  lemma FirstPileIsDear(box: Box)
    requires HasDearCards(box)
    ensures forall i :: 36 <= i < 40 ==> IsDear(Pile1(box, DeadDraws())[i])
  {
    FirstFourAreBrought();
    TopIsDear(box.level1, 40, [1, 7, 15, 23], DrawFor1, Pile1(box, DeadDraws()));
  }

  lemma SecondPileIsDear(box: Box)
    requires HasDearCards(box)
    ensures forall i :: 26 <= i < 30 ==> IsDear(Pile2(box, DeadDraws())[i])
  {
    SecondFourAreBrought();
    TopIsDear(box.level2, 30, [1, 3, 4, 10], DrawFor2, Pile2(box, DeadDraws()));
  }

  lemma DealtAreDear(a: seq<Coupon>, b: seq<Coupon>, c: seq<Coupon>)
    requires |a| == 40 && |b| == 30 && |c| == 20
    requires (forall i :: 0 <= i < 40 ==> IsUsual(a[i])) && (forall i :: 0 <= i < 30 ==> IsUsual(b[i]))
    requires forall i :: 0 <= i < 20 ==> IsUsual(c[i])
    requires (forall i :: 36 <= i < 40 ==> IsDear(a[i])) && (forall i :: 26 <= i < 30 ==> IsDear(b[i]))
    requires IsPile(c, 3)
    ensures HasDearMarket(a[36..] + b[26..] + c[16..], 0)
    ensures forall x :: x in a[..36] + b[..26] + c[..16] ==> IsUsual(x)
  {
  }

  lemma StartIsDear(box: Box)
    requires HasDearCards(box)
    ensures HasDearMarket(StartMarket(box, DeadDraws()), 0)
    ensures forall c :: c in StartDeck(box, DeadDraws()) ==> IsUsual(c)
  {
    var d := DeadDraws();
    PilesAreUsual(box, d);
    FirstPileIsDear(box);
    SecondPileIsDear(box);
    RowIsShuffled(box.level3, 3, 71, d.level3);
    DealtAreDear(Pile1(box, d), Pile2(box, d), Pile3(box, d));
  }

  lemma SeatsLie(ids: seq<int>)
    requires |ids| == 2
    ensures var players := StartPlayers(ids, 0);
      && players[0] == NewPlayer(ids[0]).(status := Action) && players[1] == NewPlayer(ids[1])
  {
  }

  lemma NewTableLies(g: Game, id: int, other: int)
    requires g.bank == StartBank(2) && g.players == [NewPlayer(id).(status := Action), NewPlayer(other)]
    requires HasDearMarket(g.market, 0) && forall c :: c in g.deck ==> IsUsual(c)
    ensures Lies(g, TableAt(0), 0)
  {
  }

  lemma StartLies(box: Box, ids: seq<int>)
    requires HasDearCards(box) && |ids| == 2
    ensures Lies(Start(box, ids, DeadDraws()), TableAt(0), 0)
  {
    StartIsDear(box);
    SeatsLie(ids);
    NewTableLies(Start(box, ids, DeadDraws()), ids[0], ids[1]);
  }

  lemma StartIsPlayed(box: Box, ids: seq<int>, d: Draws)
    requires IsBox(box) && |ids| == 2 && ids[0] != ids[1] && Pick(d.first, 2) == 0
    ensures Played(Beginning(Start(box, ids, d), multiset(Cards(box)), StartBank(2)), [], Start(box, ids, d), 0)
  {
    StartIsValid(box, ids, d);
  }

  // The end.

  /** Whatever is asked for, by anybody, the game stays as it is. */
  ghost predicate IsStuck(g: Game) {
    forall calls, h :: Reaches(g, calls, h) ==> h == g
  }

  lemma NobodyIsServed(g: Game, r: Request, id: int, box: multiset<Coupon>, supply: seq<int>, t: nat)
    requires Inv(g, box, supply, t) && !HasRequest(g, t) && IsAllowed(g, r, id)
    ensures Step(g, r, id).1 == g
  {
    StepKeeps(g, r, id, box, supply, t);
    if Step(g, r, id).0 { Accepts(g, r, t); }
  }

  lemma {:induction false} NothingChanges(g: Game, calls: seq<Call>, h: Game, box: multiset<Coupon>, supply: seq<int>,
      t: nat)
    requires Inv(g, box, supply, t) && !HasRequest(g, t) && Reaches(g, calls, h)
    ensures h == g
    decreases |calls|
  {
    if calls != [] {
      NobodyIsServed(g, calls[0].request, calls[0].id, box, supply, t);
      NothingChanges(g, calls[1..], h, box, supply, t);
    }
  }

  /** A game is stuck as soon as the player with the turn has no request. */
  lemma StuckWithoutRequest(g: Game, box: multiset<Coupon>, supply: seq<int>, t: nat)
    requires Inv(g, box, supply, t) && !HasRequest(g, t)
    ensures IsStuck(g)
  {
    forall calls, h | Reaches(g, calls, h) ensures h == g {
      NothingChanges(g, calls, h, box, supply, t);
    }
  }

  lemma GameIsPlayedOut(s: Beginning) returns (calls: seq<Call>, g: Game)
    requires Played(s, [], s.game, 0) && Lies(s.game, TableAt(0), 0)
    ensures Reaches(s.game, calls, g) && |g.players| == 2
    ensures NobodyWon(g) && !HasRequest(g, 0) && IsStuck(g)
  {
    IsPlayedTo(s, [], s.game, TableAt(0), 0);
    calls, g := RoundsArePlayed(s, [], s.game, 0);
    NothingToDo(g);
    GameGoesOnIff(g, s.box, s.supply, 0);
    StuckWithoutRequest(g, s.box, s.supply, 0);
    NobodyWonIff(g.players);
  }

  lemma BoxIsPlayedOut(box: Box, ids: seq<int>) returns (calls: seq<Call>, g: Game)
    requires HasDearCards(box) && |ids| == 2 && ids[0] != ids[1]
    ensures Reaches(Start(box, ids, DeadDraws()), calls, g) && |g.players| == 2
    ensures NobodyWon(g) && !HasRequest(g, 0) && IsStuck(g)
  {
    StartLies(box, ids);
    StartIsPlayed(box, ids, DeadDraws());
    calls, g := GameIsPlayedOut(Beginning(Start(box, ids, DeadDraws()), multiset(Cards(box)), StartBank(2)));
  }

  /** Any two players can get there: nobody has won, the player with the turn has no
      request that is accepted, and nothing that anybody asks for changes the game. */
  lemma DeadGameIsReached(ids: seq<int>) returns (calls: seq<Call>, g: Game)
    requires |ids| == 2 && ids[0] != ids[1]
    ensures Reaches(Start(TheBox(), ids, DeadDraws()), calls, g) && |g.players| == 2
    ensures NobodyWon(g) && !HasRequest(g, 0) && IsStuck(g)
  {
    TheBoxHasDearCards();
    calls, g := BoxIsPlayedOut(TheBox(), ids);
  }
}
