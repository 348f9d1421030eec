/** What each request does to a game of `Splendor` (src/Splendor.hpp). A request that
    is refused returns false and the same game. */
module SplendorRules {
  import opened SplendorState

  // Finding.

  function FindPlayer(players: seq<Player>, id: int): (i: nat)
    ensures i <= |players| && (i < |players| ==> players[i].id == id)
    ensures forall j :: 0 <= j < i ==> players[j].id != id
  {
    if players == [] || players[0].id == id then 0 else 1 + FindPlayer(players[1..], id)
  }

  function FindCoupon(coupons: seq<Coupon>, idx: int): (i: nat)
    ensures i <= |coupons| && (i < |coupons| ==> coupons[i].idx == idx)
    ensures forall j :: 0 <= j < i ==> coupons[j].idx != idx
  {
    if coupons == [] || coupons[0].idx == idx then 0 else 1 + FindCoupon(coupons[1..], idx)
  }

  function FindLevel(coupons: seq<Coupon>, level: nat): (i: nat)
    ensures i <= |coupons| && (i < |coupons| ==> coupons[i].level == level)
    ensures forall j :: 0 <= j < i ==> coupons[j].level != level
  {
    if coupons == [] || coupons[0].level == level then 0 else 1 + FindLevel(coupons[1..], level)
  }

  // Turns.

  function Total(mines: seq<int>): int
    requires |mines| == 6
  {
    mines[0] + mines[1] + mines[2] + mines[3] + mines[4] + mines[5]
  }

  function Next(i: nat, n: nat): (j: nat)
    requires i < n
    ensures j < n && (n >= 2 ==> j != i)
  {
    if i + 1 < n then i + 1 else 0
  }

  function WithStatus(players: seq<Player>, i: nat, status: Status): (r: seq<Player>)
    requires i < |players|
    ensures |r| == |players|
  {
    players[i := players[i].(status := status)]
  }

  function PassTurn(players: seq<Player>, i: nat): (r: seq<Player>)
    requires i < |players|
    ensures |r| == |players|
  {
    WithStatus(WithStatus(players, i, Waiting), Next(i, |players|), Action)
  }

  /** After a gain of mines: with more than ten the player must give some back. */
  function AfterGain(players: seq<Player>, i: nat): (r: seq<Player>)
    requires i < |players| && |players[i].mineCount| == 6
    ensures |r| == |players|
  {
    if Total(players[i].mineCount) > 10 then WithStatus(players, i, NeedReturnMine) else PassTurn(players, i)
  }

  /** After a mine is given back. */
  function AfterReturn(players: seq<Player>, i: nat): (r: seq<Player>)
    requires i < |players| && |players[i].mineCount| == 6
    ensures |r| == |players|
  {
    if Total(players[i].mineCount) < 11 then PassTurn(players, i) else players
  }

  // Mines.

  function Add(s: seq<int>, m: nat, d: int): (r: seq<int>)
    requires m < |s|
    ensures |r| == |s|
  {
    s[m := s[m] + d]
  }

  function AddThree(s: seq<int>, a: nat, b: nat, c: nat, d: int): (r: seq<int>)
    requires a < |s| && b < |s| && c < |s|
    ensures |r| == |s|
  {
    Add(Add(Add(s, a, d), b, d), c, d)
  }

  function TakeThree(g: Game, a: Mine, b: Mine, c: Mine, id: int): (bool, Game)
    requires Shaped(g)
  {
    var i := FindPlayer(g.players, id);
    if i == |g.players| || g.players[i].status != Action then (false, g)
    else if a == b || b == c || c == a then (false, g)
    else if g.bank[a] == 0 || g.bank[b] == 0 || g.bank[c] == 0 then (false, g)
    else if a == GOLD || b == GOLD || c == GOLD then (false, g)
    else
      var p := g.players[i];
      var q := p.(mineCount := AddThree(p.mineCount, a, b, c, 1));
      (true, g.(bank := AddThree(g.bank, a, b, c, -1), players := AfterGain(g.players[i := q], i)))
  }

  function TakeTwo(g: Game, mine: Mine, id: int): (bool, Game)
    requires Shaped(g)
  {
    var i := FindPlayer(g.players, id);
    if i == |g.players| || g.players[i].status != Action then (false, g)
    else if g.bank[mine] < 4 || mine == GOLD then (false, g)
    else
      var p := g.players[i];
      var q := p.(mineCount := Add(p.mineCount, mine, 2));
      (true, g.(bank := Add(g.bank, mine, -2), players := AfterGain(g.players[i := q], i)))
  }

  function ReturnMine(g: Game, mine: Mine, id: int): (bool, Game)
    requires Shaped(g)
  {
    var i := FindPlayer(g.players, id);
    if i == |g.players| || g.players[i].status != NeedReturnMine then (false, g)
    else if g.players[i].mineCount[mine] < 1 then (false, g)
    else
      var p := g.players[i];
      var q := p.(mineCount := Add(p.mineCount, mine, -1));
      (true, g.(bank := Add(g.bank, mine, 1), players := AfterReturn(g.players[i := q], i)))
  }

  // Coupons.

  /** `fill_coupon`: the first coupon of the level leaves the deck for the slot. */
  function FillSlot(market: seq<Coupon>, deck: seq<Coupon>, slot: nat, level: nat): (r: (seq<Coupon>, seq<Coupon>))
    requires slot < |market|
    ensures |r.0| == |market|
  {
    var k := FindLevel(deck, level);
    if k < |deck| then (market[slot := deck[k]], deck[..k] + deck[k + 1..])
    else (market[slot := Empty(level)], deck)
  }

  function Reserve(g: Game, idx: int, id: int): (bool, Game)
    requires Shaped(g)
  {
    var i := FindPlayer(g.players, id);
    if i == |g.players| || g.players[i].status != Action then (false, g)
    else if |g.players[i].reserved| > 2 then (false, g)
    else
      var slot := FindCoupon(g.market, idx);
      if slot == |g.market| then (false, g)
      else
        var p, c := g.players[i], g.market[slot];
        var gold := if g.bank[GOLD] > 0 then 1 else 0;
        var (market, deck) := FillSlot(g.market, g.deck, slot, c.level);
        var q := p.(reserved := p.reserved + [c], mineCount := Add(p.mineCount, GOLD, gold));
        (true, g.(bank := Add(g.bank, GOLD, -gold), market := market, deck := deck,
                  players := AfterGain(g.players[i := q], i)))
  }

  // Buying.

  function Positive(x: int): nat {
    if x > 0 then x else 0
  }

  /** What gold must stand in for. */
  function Shortfall(cost: int, bonus: int, mines: int): nat {
    Positive(cost - bonus - mines)
  }

  /** The shortfall over the first `k` mines. */
  function TotalShortfall(c: Coupon, p: Player, k: nat): nat
    requires k <= 5 && |c.costs| == 5 && |p.couponCount| == 5 && |p.mineCount| == 6
  {
    if k == 0 then 0
    else TotalShortfall(c, p, k - 1) + Shortfall(c.costs[k - 1], p.couponCount[k - 1], p.mineCount[k - 1])
  }

  predicate Affordable(p: Player, c: Coupon)
    requires |c.costs| == 5 && |p.couponCount| == 5 && |p.mineCount| == 6
  {
    TotalShortfall(c, p, 5) <= p.mineCount[GOLD]
  }

  /** What is paid of mine `m`: the cost less the bonus, with gold for the shortfall. */
  function Paid(c: Coupon, p: Player, m: nat): int
    requires m < 6 && |c.costs| == 5 && |p.couponCount| == 5 && |p.mineCount| == 6
  {
    if m == GOLD then TotalShortfall(c, p, 5)
    else Positive(c.costs[m] - p.couponCount[m]) - Shortfall(c.costs[m], p.couponCount[m], p.mineCount[m])
  }

  function Pay(c: Coupon, p: Player): (mines: seq<int>)
    requires |c.costs| == 5 && |p.couponCount| == 5 && |p.mineCount| == 6
    ensures |mines| == 6
  {
    seq(6, m requires 0 <= m < 6 => p.mineCount[m] - Paid(c, p, m))
  }

  function Receive(c: Coupon, p: Player, bank: seq<int>): (mines: seq<int>)
    requires |c.costs| == 5 && |p.couponCount| == 5 && |p.mineCount| == 6 && |bank| == 6
    ensures |mines| == 6
  {
    seq(6, m requires 0 <= m < 6 => bank[m] + Paid(c, p, m))
  }

  /** The buyer with the coupon paid and taken. */
  function Bought(p: Player, c: Coupon): (q: Player)
    requires HasCounts(p) && |c.costs| == 5 && c.kind < 5
    ensures HasCounts(q)
  {
    p.(mineCount := Pay(c, p), coupons := p.coupons + [c], couponCount := Add(p.couponCount, c.kind, 1),
       reputation := p.reputation + c.reputation)
  }

  // Allies.

  predicate Satisfies(p: Player, a: Ally)
    requires |p.couponCount| == 5 && |a.condition| == 5
  {
    forall c :: 0 <= c < 5 ==> p.couponCount[c] >= a.condition[c]
  }

  /** An ally after `check_ally`: its owner is the last player who satisfies it. */
  function Awarded(a: Ally, players: seq<Player>): (r: Ally)
    requires |a.condition| == 5 && forall i :: 0 <= i < |players| ==> HasCounts(players[i])
    ensures r.condition == a.condition && r.reputation == a.reputation && r.idx == a.idx
    decreases |players|
  {
    if a.owned || players == [] then a
    else
      var last := players[|players| - 1];
      assert HasCounts(last);
      if Satisfies(last, a) then a.(owned := true, owner := last.id)
      else Awarded(a, players[..|players| - 1])
  }

  /** What `check_ally` adds to a player's reputation for the first `k` allies. */
  function Bonus(p: Player, allies: seq<Ally>, k: nat): int
    requires HasCounts(p) && k <= |allies| && forall i :: 0 <= i < |allies| ==> |allies[i].condition| == 5
  {
    if k == 0 then 0
    else
      var a := allies[k - 1];
      Bonus(p, allies, k - 1) + if !a.owned && Satisfies(p, a) then a.reputation else 0
  }

  function Credited(p: Player, allies: seq<Ally>): Player
    requires HasCounts(p) && forall i :: 0 <= i < |allies| ==> |allies[i].condition| == 5
  {
    p.(reputation := p.reputation + Bonus(p, allies, |allies|))
  }

  function CheckAllies(g: Game): (r: Game)
    requires HasArrays(g)
    ensures |r.allies| == |g.allies| && |r.players| == |g.players|
  {
    g.(allies := seq(|g.allies|, k requires 0 <= k < |g.allies| => Awarded(g.allies[k], g.players)),
       players := seq(|g.players|, i requires 0 <= i < |g.players| => Credited(g.players[i], g.allies)))
  }

  /** Player `i` has become `q` by a purchase: the turn passes, then the allies look. */
  function AfterBuying(g: Game, i: nat, q: Player): Game
    requires HasArrays(g) && i < |g.players| && HasCounts(q)
  {
    CheckAllies(g.(players := PassTurn(g.players[i := q], i)))
  }

  /** The player has the turn, and there is a slot of that number. */
  predicate Finds(g: Game, idx: int, id: int) {
    var i := FindPlayer(g.players, id);
    i < |g.players| && g.players[i].status == Action && FindCoupon(g.market, idx) < |g.market|
  }

  /** A slot without a coupon carries the number 0; it must not be bought, since its kind
      has no count. */
  function Buy(g: Game, idx: int, id: int): (bool, Game)
    requires Shaped(g) && (Finds(g, idx, id) ==> idx != 0)
  {
    var i := FindPlayer(g.players, id);
    if i == |g.players| || g.players[i].status != Action then (false, g)
    else
      var slot := FindCoupon(g.market, idx);
      if slot == |g.market| then (false, g)
      else
        var p, c := g.players[i], g.market[slot];
        if !Affordable(p, c) then (false, g)
        else
          var (market, deck) := FillSlot(g.market, g.deck, slot, c.level);
          (true, AfterBuying(g.(bank := Receive(c, p, g.bank), market := market, deck := deck), i, Bought(p, c)))
  }

  function BuyReserved(g: Game, idx: int, id: int): (bool, Game)
    requires Shaped(g)
  {
    var i := FindPlayer(g.players, id);
    if i == |g.players| || g.players[i].status != Action then (false, g)
    else
      var p := g.players[i];
      var k := FindCoupon(p.reserved, idx);
      if k == |p.reserved| then (false, g)
      else
        var c := p.reserved[k];
        if !Affordable(p, c) then (false, g)
        else
          var q := Bought(p, c).(reserved := p.reserved[..k] + p.reserved[k + 1..]);
          (true, AfterBuying(g.(bank := Receive(c, p, g.bank)), i, q))
  }

  // Winning.

  /** `check_winner`: the first player above fourteen. */
  function FindWinner(players: seq<Player>): (i: nat)
    ensures i <= |players| && (i < |players| ==> players[i].reputation > 14)
    ensures forall j :: 0 <= j < i ==> players[j].reputation <= 14
  {
    if players == [] || players[0].reputation > 14 then 0 else 1 + FindWinner(players[1..])
  }

  // Requests.

  datatype Request =
    | TakeThreeMines(a: Mine, b: Mine, c: Mine)
    | TakeTwoMines(mine: Mine)
    | ReserveCoupon(idx: int)
    | BuyCoupon(idx: int)
    | BuyReservedCoupon(idx: int)
    | ReturnOneMine(mine: Mine)

  /** The request does not take an empty slot. */
  predicate IsAllowed(g: Game, r: Request, id: int) {
    && Shaped(g)
    && (r.ReserveCoupon? && Reserve(g, r.idx, id).0 ==> r.idx != 0)
    && (r.BuyCoupon? && Finds(g, r.idx, id) ==> r.idx != 0)
  }

  function Step(g: Game, r: Request, id: int): (bool, Game)
    requires IsAllowed(g, r, id)
  {
    match r
    case TakeThreeMines(a, b, c) => TakeThree(g, a, b, c, id)
    case TakeTwoMines(mine) => TakeTwo(g, mine, id)
    case ReserveCoupon(idx) => Reserve(g, idx, id)
    case BuyCoupon(idx) => Buy(g, idx, id)
    case BuyReservedCoupon(idx) => BuyReserved(g, idx, id)
    case ReturnOneMine(mine) => ReturnMine(g, mine, id)
  }
}
