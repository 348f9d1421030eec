/** What the requests of a game of `Splendor` (src/Splendor.hpp) come to, mine by mine and
    coupon by coupon: when a request is accepted, what is paid, and whose turn it is then. */
module SplendorEffects {
  import opened SplendorState
  import opened SplendorRules
  import opened SplendorMines
  import opened SplendorAllies
  import opened SplendorInvariant
  import opened SplendorBuying
  import opened SplendorRuns
  import opened SplendorBox
  import opened Shuffle

  // Turns.

  function SumOf(mines: seq<int>): int
    requires |mines| == 6
  {
    mines[0] + mines[1] + mines[2] + mines[3] + mines[4] + mines[5]
  }

  /** Player `i` has become `q`, and the next one has the turn. */
  function Passed(players: seq<Player>, i: nat, q: Player): (r: seq<Player>)
    requires i < |players|
    ensures |r| == |players|
  {
    var waiting := players[i := q.(status := Waiting)];
    var next := (i + 1) % |players|;
    waiting[next := waiting[next].(status := Action)]
  }

  /** With more than ten mines a player must give some back first. */
  function Gained(players: seq<Player>, i: nat, q: Player): (r: seq<Player>)
    requires i < |players| && |q.mineCount| == 6
    ensures |r| == |players|
  {
    if SumOf(q.mineCount) > 10 then players[i := q.(status := NeedReturnMine)] else Passed(players, i, q)
  }

  lemma NextWraps(i: nat, n: nat)
    requires i < n
    ensures Next(i, n) == (i + 1) % n
  {
  }

  lemma PassedIs(players: seq<Player>, i: nat, q: Player)
    requires i < |players|
    ensures PassTurn(players[i := q], i) == Passed(players, i, q)
  {
    NextWraps(i, |players|);
  }

  lemma GainedIs(players: seq<Player>, i: nat, q: Player)
    requires i < |players| && |q.mineCount| == 6
    ensures AfterGain(players[i := q], i) == Gained(players, i, q)
  {
    PassedIs(players, i, q);
  }

  /** The player of that number at seat `i`. */
  predicate Sits(g: Game, i: nat, id: int) {
    i < |g.players| && g.players[i].id == id
  }

  lemma FoundAtSeat(g: Game, i: nat, id: int)
    requires DistinctIds(g.players) && Sits(g, i, id)
    ensures FindPlayer(g.players, id) == i
  {
    FindOwnId(g.players, i);
  }

  /** Nobody else is served. */
  lemma StrangersAreRefused(g: Game, r: Request, id: int)
    requires IsAllowed(g, r, id) && forall i :: 0 <= i < |g.players| ==> g.players[i].id != id
    ensures Step(g, r, id) == (false, g)
  {
  }

  // Taking and giving back mines.

  /** Each of the three mines changes by `d`. */
  function ThreeChanged(mines: seq<int>, a: nat, b: nat, c: nat, d: int): (r: seq<int>)
    requires |mines| == 6
    ensures |r| == 6
  {
    seq(6, m requires 0 <= m < 6 => mines[m] + if m == a || m == b || m == c then d else 0)
  }

  function OneChanged(mines: seq<int>, a: nat, d: int): (r: seq<int>)
    requires |mines| == 6
    ensures |r| == 6
  {
    seq(6, m requires 0 <= m < 6 => mines[m] + if m == a then d else 0)
  }

  lemma ThreeAreChanged(mines: seq<int>, a: Mine, b: Mine, c: Mine, d: int)
    requires |mines| == 6 && a != b && a != c && b != c
    ensures AddThree(mines, a, b, c, d) == ThreeChanged(mines, a, b, c, d)
  {
    AddThreeIs(mines, a, b, c, d);
  }

  lemma OneIsChanged(mines: seq<int>, a: Mine, d: int)
    requires |mines| == 6
    ensures Add(mines, a, d) == OneChanged(mines, a, d)
  {
  }

  /** One each of three different colours that the bank holds, in any order. */
  lemma TakeThreeIs(g: Game, a: Mine, b: Mine, c: Mine, i: nat, id: int)
    requires Shaped(g) && Sits(g, i, id)
    ensures var p := g.players[i];
      var legal := p.status == Action && a != b && a != c && b != c && a != 5 && b != 5 && c != 5
                   && g.bank[a] != 0 && g.bank[b] != 0 && g.bank[c] != 0;
      Step(g, TakeThreeMines(a, b, c), id)
        == if !legal then (false, g)
           else (true, g.(bank := ThreeChanged(g.bank, a, b, c, -1),
                          players := Gained(g.players, i, p.(mineCount := ThreeChanged(p.mineCount, a, b, c, 1)))))
  {
    FoundAtSeat(g, i, id);
    if a != b && a != c && b != c {
      var q := g.players[i].(mineCount := ThreeChanged(g.players[i].mineCount, a, b, c, 1));
      ThreeAreChanged(g.bank, a, b, c, -1);
      ThreeAreChanged(g.players[i].mineCount, a, b, c, 1);
      GainedIs(g.players, i, q);
    }
  }

  /** Two of a colour of which the bank holds at least four. */
  lemma TakeTwoIs(g: Game, a: Mine, i: nat, id: int)
    requires Shaped(g) && Sits(g, i, id)
    ensures var p := g.players[i];
      Step(g, TakeTwoMines(a), id)
        == if p.status != Action || a == 5 || g.bank[a] < 4 then (false, g)
           else (true, g.(bank := OneChanged(g.bank, a, -2),
                          players := Gained(g.players, i, p.(mineCount := OneChanged(p.mineCount, a, 2)))))
  {
    FoundAtSeat(g, i, id);
    OneIsChanged(g.bank, a, -2);
    OneIsChanged(g.players[i].mineCount, a, 2);
    GainedIs(g.players, i, g.players[i].(mineCount := OneChanged(g.players[i].mineCount, a, 2)));
  }

  /** One mine that is held, while too many are; the turn passes once ten are left. */
  lemma ReturnIs(g: Game, a: Mine, i: nat, id: int)
    requires Shaped(g) && Sits(g, i, id)
    ensures var p := g.players[i];
      var q := p.(mineCount := OneChanged(p.mineCount, a, -1));
      Step(g, ReturnOneMine(a), id)
        == if p.status != NeedReturnMine || p.mineCount[a] < 1 then (false, g)
           else (true, g.(bank := OneChanged(g.bank, a, 1),
                          players := if SumOf(q.mineCount) <= 10 then Passed(g.players, i, q) else g.players[i := q]))
  {
    var q := g.players[i].(mineCount := OneChanged(g.players[i].mineCount, a, -1));
    FoundAtSeat(g, i, id);
    OneIsChanged(g.bank, a, 1);
    OneIsChanged(g.players[i].mineCount, a, -1);
    PassedIs(g.players, i, q);
  }

  // Reserving.

  /** The first coupon of that number. */
  predicate IsFirst(coupons: seq<Coupon>, idx: int, k: nat) {
    k < |coupons| && coupons[k].idx == idx && forall j :: 0 <= j < k ==> coupons[j].idx != idx
  }

  predicate HasNone(coupons: seq<Coupon>, idx: int) {
    forall j :: 0 <= j < |coupons| ==> coupons[j].idx != idx
  }

  lemma FoundFirst(coupons: seq<Coupon>, idx: int, k: nat)
    requires IsFirst(coupons, idx, k)
    ensures FindCoupon(coupons, idx) == k
  {
  }

  lemma FoundNone(coupons: seq<Coupon>, idx: int)
    requires HasNone(coupons, idx)
    ensures FindCoupon(coupons, idx) == |coupons|
  {
  }

  /** The place of the first coupon of that level in the deck, or its end. */
  predicate IsNext(deck: seq<Coupon>, level: nat, j: nat) {
    j <= |deck| && (j < |deck| ==> deck[j].level == level) && forall k :: 0 <= k < j ==> deck[k].level != level
  }

  /** The coupon at place `j` of the deck has come into the slot; without one it is empty. */
  function Refilled(g: Game, k: nat, j: nat): Game
    requires k < |g.market| && j <= |g.deck|
  {
    if j < |g.deck| then g.(market := g.market[k := g.deck[j]], deck := g.deck[..j] + g.deck[j + 1..])
    else g.(market := g.market[k := Coupon(-1, [0, 0, 0, 0, 0], 5, g.market[k].level, 0)])
  }

  lemma RefilledIs(g: Game, k: nat, j: nat)
    requires k < |g.market| && IsNext(g.deck, g.market[k].level, j)
    ensures var (market, deck) := FillSlot(g.market, g.deck, k, g.market[k].level);
      Refilled(g, k, j) == g.(market := market, deck := deck)
  {
    assert FindLevel(g.deck, g.market[k].level) == j;
    assert Zeros(5) == [0, 0, 0, 0, 0];
  }

  /** The coupon of that number, with a gold as long as there is one, for who holds at most
      two; the slot is refilled with the next coupon of its level. */
  lemma ReserveIs(g: Game, idx: int, k: nat, j: nat, i: nat, id: int)
    requires Shaped(g) && Sits(g, i, id) && IsFirst(g.market, idx, k) && IsNext(g.deck, g.market[k].level, j)
    ensures var p, gold := g.players[i], if g.bank[5] > 0 then 1 else 0;
      Reserve(g, idx, id)
        == if p.status != Action || |p.reserved| > 2 then (false, g)
           else (true, Refilled(g, k, j).(
                         bank := OneChanged(g.bank, 5, -gold),
                         players := Gained(g.players, i, p.(reserved := p.reserved + [g.market[k]],
                                                            mineCount := OneChanged(p.mineCount, 5, gold)))))
  {
    var p, gold := g.players[i], if g.bank[5] > 0 then 1 else 0;
    FoundAtSeat(g, i, id);
    FoundFirst(g.market, idx, k);
    RefilledIs(g, k, j);
    OneIsChanged(g.bank, 5, -gold);
    OneIsChanged(p.mineCount, 5, gold);
    GainedIs(g.players, i, p.(reserved := p.reserved + [g.market[k]], mineCount := OneChanged(p.mineCount, 5, gold)));
  }

  lemma ReserveNeedsCoupon(g: Game, idx: int, id: int)
    requires Shaped(g) && HasNone(g.market, idx)
    ensures Reserve(g, idx, id) == (false, g)
  {
    FoundNone(g.market, idx);
  }

  // Buying.

  /** What is due of mine `m`: the cost less one for each coupon of that type. */
  function Due(c: Coupon, p: Player, m: nat): nat
    requires m < 5 && |c.costs| == 5 && HasCounts(p)
  {
    if c.costs[m] > p.couponCount[m] then c.costs[m] - p.couponCount[m] else 0
  }

  /** As much of it as is held is paid with the mine itself. */
  function FromHand(c: Coupon, p: Player, m: nat): int
    requires m < 5 && |c.costs| == 5 && HasCounts(p)
  {
    if Due(c, p, m) <= p.mineCount[m] then Due(c, p, m) else p.mineCount[m]
  }

  function Missing(c: Coupon, p: Player, m: nat): int
    requires m < 5 && |c.costs| == 5 && HasCounts(p)
  {
    Due(c, p, m) - FromHand(c, p, m)
  }

  /** The rest of all five is paid with gold. */
  function GoldFor(c: Coupon, p: Player): int
    requires |c.costs| == 5 && HasCounts(p)
  {
    Missing(c, p, 0) + Missing(c, p, 1) + Missing(c, p, 2) + Missing(c, p, 3) + Missing(c, p, 4)
  }

  function PriceOf(c: Coupon, p: Player): int
    requires |c.costs| == 5 && HasCounts(p)
  {
    Due(c, p, 0) + Due(c, p, 1) + Due(c, p, 2) + Due(c, p, 3) + Due(c, p, 4)
  }

  /** What goes from the player to the bank. */
  function Payment(c: Coupon, p: Player): (mines: seq<int>)
    requires |c.costs| == 5 && HasCounts(p)
    ensures |mines| == 6 && SumOf(mines) == PriceOf(c, p)
  {
    [FromHand(c, p, 0), FromHand(c, p, 1), FromHand(c, p, 2), FromHand(c, p, 3), FromHand(c, p, 4), GoldFor(c, p)]
  }

  function Less(mines: seq<int>, payment: seq<int>): (r: seq<int>)
    requires |mines| == |payment| == 6
    ensures |r| == 6 && SumOf(r) == SumOf(mines) - SumOf(payment)
  {
    seq(6, m requires 0 <= m < 6 => mines[m] - payment[m])
  }

  function More(mines: seq<int>, payment: seq<int>): (r: seq<int>)
    requires |mines| == |payment| == 6
    ensures |r| == 6
  {
    seq(6, m requires 0 <= m < 6 => mines[m] + payment[m])
  }

  /** The buyer has paid, and has the coupon, one more of its type, and its reputation. */
  function Buyer(p: Player, c: Coupon): (q: Player)
    requires HasCounts(p) && |c.costs| == 5
    ensures HasCounts(q)
  {
    p.(mineCount := Less(p.mineCount, Payment(c, p)), coupons := p.coupons + [c],
       couponCount := seq(5, m requires 0 <= m < 5 => p.couponCount[m] + if m == c.kind then 1 else 0),
       reputation := p.reputation + c.reputation)
  }

  lemma ShortfallIs(c: Coupon, p: Player, k: nat)
    requires k < 5 && |c.costs| == 5 && HasCounts(p) && p.mineCount[k] >= 0
    ensures TotalShortfall(c, p, k + 1) == TotalShortfall(c, p, k) + Missing(c, p, k)
  {
  }

  lemma GoldIs(c: Coupon, p: Player)
    requires |c.costs| == 5 && HasCounts(p) && forall m :: 0 <= m < 6 ==> p.mineCount[m] >= 0
    ensures TotalShortfall(c, p, 5) == GoldFor(c, p)
  {
    assert TotalShortfall(c, p, 0) == 0;
    ShortfallIs(c, p, 0);
    ShortfallIs(c, p, 1);
    ShortfallIs(c, p, 2);
    ShortfallIs(c, p, 3);
    ShortfallIs(c, p, 4);
  }

  lemma PaymentIs(c: Coupon, p: Player, m: nat)
    requires m < 6 && |c.costs| == 5 && HasCounts(p) && forall j :: 0 <= j < 6 ==> p.mineCount[j] >= 0
    ensures Paid(c, p, m) == Payment(c, p)[m]
  {
    if m == 5 { GoldIs(c, p); }
  }

  lemma BuyerIs(c: Coupon, p: Player, bank: seq<int>)
    requires IsCard(c) && HasCounts(p) && |bank| == 6 && forall j :: 0 <= j < 6 ==> p.mineCount[j] >= 0
    ensures Bought(p, c) == Buyer(p, c) && Receive(c, p, bank) == More(bank, Payment(c, p))
  {
    forall m | 0 <= m < 6 ensures Paid(c, p, m) == Payment(c, p)[m] {
      PaymentIs(c, p, m);
    }
    assert Pay(c, p) == Less(p.mineCount, Payment(c, p));
    assert Receive(c, p, bank) == More(bank, Payment(c, p));
    assert Bought(p, c).couponCount == Buyer(p, c).couponCount;
  }

  /** The allies that a buyer wins: those nobody owns and whose five conditions are met. */
  predicate Wins(q: Player, a: Ally)
    requires |q.couponCount| == 5 && |a.condition| == 5
  {
    && !a.owned
    && q.couponCount[0] >= a.condition[0] && q.couponCount[1] >= a.condition[1] && q.couponCount[2] >= a.condition[2]
    && q.couponCount[3] >= a.condition[3] && q.couponCount[4] >= a.condition[4]
  }

  /** Their reputation, from ally `k` on. */
  function WonFrom(q: Player, allies: seq<Ally>, k: nat): int
    requires |q.couponCount| == 5 && k <= |allies| && forall j :: 0 <= j < |allies| ==> |allies[j].condition| == 5
    decreases |allies| - k
  {
    if k == |allies| then 0 else (if Wins(q, allies[k]) then allies[k].reputation else 0) + WonFrom(q, allies, k + 1)
  }

  /** The buyer has become `q`: the allies won are owned and credited, and the turn has
      passed on. */
  function AfterPurchase(g: Game, i: nat, q: Player): Game
    requires HasArrays(g) && i < |g.players| && HasCounts(q)
  {
    g.(allies := seq(|g.allies|, k requires 0 <= k < |g.allies| =>
                       if Wins(q, g.allies[k]) then g.allies[k].(owned := true, owner := q.id) else g.allies[k]),
       players := Passed(g.players, i, q.(reputation := q.reputation + WonFrom(q, g.allies, 0))))
  }

  lemma WinsIs(q: Player, a: Ally)
    requires HasCounts(q) && |a.condition| == 5
    ensures Wins(q, a) <==> !a.owned && Satisfies(q, a)
  {
  }

  lemma {:induction false} WonIsBonus(q: Player, allies: seq<Ally>, k: nat)
    requires HasCounts(q) && k <= |allies| && forall j :: 0 <= j < |allies| ==> |allies[j].condition| == 5
    ensures Bonus(q, allies, k) + WonFrom(q, allies, k) == Bonus(q, allies, |allies|)
    decreases |allies| - k
  {
    if k < |allies| {
      WinsIs(q, allies[k]);
      WonIsBonus(q, allies, k + 1);
    }
  }

  lemma CreditIs(r: Player, q: Player, allies: seq<Ally>)
    requires HasCounts(q) && SameButStatus(r, q) && forall j :: 0 <= j < |allies| ==> |allies[j].condition| == 5
    ensures HasCounts(r) && Credited(r, allies) == r.(reputation := q.reputation + WonFrom(q, allies, 0))
  {
    WonIsBonus(q, allies, 0);
    SameBonus(r, q, allies, |allies|);
  }

  lemma AwardIs(a: Ally, r: Player, q: Player)
    requires HasCounts(q) && SameButStatus(r, q) && |a.condition| == 5
    ensures HasCounts(r) && AwardedTo(a, r) == if Wins(q, a) then a.(owned := true, owner := q.id) else a
  {
    WinsIs(q, a);
    assert Satisfies(r, a) == Satisfies(q, a);
  }

  /** The players after a purchase: the buyer is credited, and one status has moved on. */
  lemma CreditedIsPassed(players: seq<Player>, i: nat, q: Player, credited: seq<Player>, more: int)
    requires i < |players| && |players| >= 2 && |credited| == |players|
    requires forall j :: 0 <= j < |players| && j != i ==> credited[j] == Passed(players, i, q)[j]
    requires credited[i] == Passed(players, i, q)[i].(reputation := q.reputation + more)
    ensures credited == Passed(players, i, q.(reputation := q.reputation + more))
  {
    NextWraps(i, |players|);
  }

  lemma AwardedAre(table: Game, mid: Game, h: Game, t: nat, q: Player)
    requires HasArrays(table) && HasArrays(mid) && mid.allies == table.allies && t < |table.players| == |mid.players|
    requires OnlyBuyerCredited(mid, h, t) && HasCounts(q) && SameButStatus(mid.players[t], q)
    ensures h.allies == AfterPurchase(table, t, q).allies
  {
    forall k | 0 <= k < |h.allies| ensures h.allies[k] == AfterPurchase(table, t, q).allies[k] {
      AwardIs(table.allies[k], mid.players[t], q);
    }
  }

  lemma CreditedAre(table: Game, mid: Game, h: Game, t: nat, q: Player)
    requires HasArrays(table) && HasArrays(mid) && mid.allies == table.allies && t < |table.players| == |mid.players|
    requires OnlyBuyerCredited(mid, h, t) && |mid.players| >= 2 && mid.players == Passed(table.players, t, q)
    requires HasCounts(q) && SameButStatus(mid.players[t], q)
    ensures h.players == AfterPurchase(table, t, q).players
  {
    CreditIs(mid.players[t], q, table.allies);
    CreditedIsPassed(table.players, t, q, h.players, WonFrom(q, table.allies, 0));
  }

  lemma PurchaseIs(g: Game, table: Game, t: nat, q: Player, box: multiset<Coupon>, supply: seq<int>)
    requires Inv(g, box, supply, t) && IsPlayer(q) && q.id == g.players[t].id && SumOf(q.mineCount) <= 10
    requires table == g.(bank := table.bank, market := table.market, deck := table.deck) && |table.bank| == 6
    ensures AfterBuying(table, t, q) == AfterPurchase(table, t, q)
  {
    var mid := table.(players := PassTurn(g.players[t := q], t));
    PassedIs(g.players, t, q);
    BeforeAllies(g, mid, t, q, box, supply);
    AlliesLook(g, mid, t);
    AwardedAre(table, mid, CheckAllies(mid), t, q);
    CreditedAre(table, mid, CheckAllies(mid), t, q);
  }

  /** The buyer is a player with at most ten mines. */
  lemma BuyerIsFine(c: Coupon, p: Player, bank: seq<int>)
    requires IsPlayer(p) && IsCard(c) && Affordable(p, c) && SumOf(p.mineCount) <= 10 && |bank| == 6
    ensures Bought(p, c) == Buyer(p, c) && Receive(c, p, bank) == More(bank, Payment(c, p))
    ensures IsPlayer(Buyer(p, c)) && SumOf(Buyer(p, c).mineCount) <= 10
  {
    BuyerIs(c, p, bank);
    AffordableIsPayable(c, p);
  }

  /** A coupon on the table, for who has the gold that is missing: it is paid, it belongs to
      the buyer, its slot is refilled, and the allies it wins are owned. */
  lemma BuyIs(g: Game, idx: int, k: nat, j: nat, box: multiset<Coupon>, supply: seq<int>, t: nat)
    requires Inv(g, box, supply, t) && idx != 0 && IsFirst(g.market, idx, k) && IsNext(g.deck, g.market[k].level, j)
    ensures var p, c := g.players[t], g.market[k];
      && IsCard(c)
      && Buy(g, idx, p.id)
         == if p.status != Action || GoldFor(c, p) > p.mineCount[5] then (false, g)
            else (true, AfterPurchase(Refilled(g, k, j).(bank := More(g.bank, Payment(c, p))), t, Buyer(p, c)))
  {
    var p, c := g.players[t], g.market[k];
    assert IsSlot(c, SlotLevel(k)) && IsPlayer(p);
    FindOwnId(g.players, t);
    FoundFirst(g.market, idx, k);
    RefilledIs(g, k, j);
    GoldIs(c, p);
    if p.status == Action && Affordable(p, c) {
      BuyerIsFine(c, p, g.bank);
      PurchaseIs(g, Refilled(g, k, j).(bank := More(g.bank, Payment(c, p))), t, Buyer(p, c), box, supply);
    }
  }

  /** A coupon reserved before, in the same way; it leaves the reserved ones. */
  lemma BuyReservedIs(g: Game, idx: int, k: nat, box: multiset<Coupon>, supply: seq<int>, t: nat)
    requires Inv(g, box, supply, t) && IsFirst(g.players[t].reserved, idx, k)
    ensures var p, c := g.players[t], g.players[t].reserved[k];
      && IsCard(c)
      && BuyReserved(g, idx, p.id)
         == if p.status != Action || GoldFor(c, p) > p.mineCount[5] then (false, g)
            else (true, AfterPurchase(g.(bank := More(g.bank, Payment(c, p))), t,
                                      Buyer(p, c).(reserved := p.reserved[..k] + p.reserved[k + 1..])))
  {
    var p, c := g.players[t], g.players[t].reserved[k];
    assert IsPlayer(p);
    FindOwnId(g.players, t);
    FoundFirst(p.reserved, idx, k);
    GoldIs(c, p);
    if p.status == Action && Affordable(p, c) {
      BuyerIsFine(c, p, g.bank);
      var q := Buyer(p, c).(reserved := p.reserved[..k] + p.reserved[k + 1..]);
      PurchaseIs(g, g.(bank := More(g.bank, Payment(c, p))), t, q, box, supply);
    }
  }

  lemma BuyNeedsCoupon(g: Game, idx: int, t: nat)
    requires Shaped(g) && t < |g.players|
    ensures HasNone(g.market, idx) ==> Buy(g, idx, g.players[t].id) == (false, g)
    ensures HasNone(g.players[t].reserved, idx) ==> BuyReserved(g, idx, g.players[t].id) == (false, g)
  {
    FindOwnId(g.players, t);
    if HasNone(g.market, idx) { FoundNone(g.market, idx); }
    if HasNone(g.players[t].reserved, idx) { FoundNone(g.players[t].reserved, idx); }
  }

  // The beginning.

  /** The mines of the bank, by the number of players. */
  function BankFor(n: nat): seq<int> {
    match n
    case 2 => [4, 4, 4, 4, 4, 5]
    case 3 => [5, 5, 5, 5, 5, 5]
    case _ => [7, 7, 7, 7, 7, 5]
  }

  /** The last four of each level lie on the table, in this order. */
  predicate IsLaidOut(g: Game, a: seq<Coupon>, b: seq<Coupon>, c: seq<Coupon>) {
    && |a| == 40 && |b| == 30 && |c| == 20 && |g.market| == 12
    && g.market[..4] == a[36..] && g.market[4..8] == b[26..] && g.market[8..] == c[16..]
    && g.deck == a[..36] + b[..26] + c[..16]
  }

  lemma TableIs(box: Box, ids: seq<int>, d: Draws) returns (a: seq<Coupon>, b: seq<Coupon>, c: seq<Coupon>)
    requires IsBox(box) && AreSeats(ids)
    ensures multiset(a) == multiset(box.level1) && multiset(b) == multiset(box.level2)
    ensures multiset(c) == multiset(box.level3) && IsLaidOut(Start(box, ids, d), a, b, c)
  {
    a, b, c := Pile1(box, d), Pile2(box, d), Pile3(box, d);
    ShuffleKeeps(box.level1, |box.level1| - 1, 0, d.level1);
    ShuffleKeeps(box.level2, |box.level2| - 1, 0, d.level2);
    ShuffleKeeps(box.level3, |box.level3| - 1, 0, d.level3);
  }

  lemma AlliesAre(box: Box, ids: seq<int>, d: Draws) returns (s: seq<Ally>)
    requires IsBox(box) && AreSeats(ids)
    ensures |s| == 10 && multiset(s) == multiset(box.allies)
    ensures var allies := Start(box, ids, d).allies;
      |allies| == |ids| + 1 && forall k :: 0 <= k < |allies| ==> allies[k] == s[9 - k]
  {
    s := Shuffled(box.allies, |box.allies| - 1, 8 - |ids|, d.allies);
    ShuffleKeeps(box.allies, |box.allies| - 1, 8 - |ids|, d.allies);
  }

  /** How a game begins. */
  lemma StartIs(box: Box, ids: seq<int>, d: Draws, i: nat)
    requires IsBox(box) && AreSeats(ids) && i < |ids|
    ensures var g := Start(box, ids, d);
      && g.bank == BankFor(|ids|) && |g.players| == |ids|
      && g.players[i] == Player(ids[i], [], [], [0, 0, 0, 0, 0], [0, 0, 0, 0, 0, 0], 0,
                                if i == d.first % |ids| then Action else Waiting)
  {
    assert Zeros(5) == [0, 0, 0, 0, 0] && Zeros(6) == [0, 0, 0, 0, 0, 0];
  }
}
