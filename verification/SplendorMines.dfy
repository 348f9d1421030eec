/** Paying for coupons, and the conservation of mines (src/Splendor.hpp). */
module SplendorMines {
  import opened SplendorState
  import opened SplendorRules

  // A purchase.

  /** The price after the bonus, over the first `k` mines. */
  function Price(c: Coupon, p: Player, k: nat): nat
    requires k <= 5 && |c.costs| == 5 && |p.couponCount| == 5
  {
    if k == 0 then 0 else Price(c, p, k - 1) + Positive(c.costs[k - 1] - p.couponCount[k - 1])
  }

  function PaidUpTo(c: Coupon, p: Player, k: nat): int
    requires k <= 5 && |c.costs| == 5 && HasCounts(p)
  {
    if k == 0 then 0 else PaidUpTo(c, p, k - 1) + Paid(c, p, k - 1)
  }

  /** Mines and gold together make up the price. */
  lemma {:induction false} PriceIsPaid(c: Coupon, p: Player, k: nat)
    requires k <= 5 && |c.costs| == 5 && HasCounts(p)
    ensures PaidUpTo(c, p, k) + TotalShortfall(c, p, k) == Price(c, p, k)
  {
    if k > 0 { PriceIsPaid(c, p, k - 1); }
  }

  lemma PaidIsHeld(c: Coupon, p: Player, m: nat)
    requires IsPlayer(p) && |c.costs| == 5 && Affordable(p, c) && m < 6
    ensures 0 <= Paid(c, p, m) <= p.mineCount[m]
  {
  }

  lemma TotalPaid(c: Coupon, p: Player)
    requires HasCounts(p) && |c.costs| == 5
    ensures Total(Pay(c, p)) == Total(p.mineCount) - PaidUpTo(c, p, 5) - Paid(c, p, GOLD)
  {
    assert PaidUpTo(c, p, 1) == Paid(c, p, 0);
    assert PaidUpTo(c, p, 3) == PaidUpTo(c, p, 1) + Paid(c, p, 1) + Paid(c, p, 2);
    assert PaidUpTo(c, p, 5) == PaidUpTo(c, p, 3) + Paid(c, p, 3) + Paid(c, p, 4);
  }

  /** A player who can afford a coupon pays no more than there is, and ends with the
      total less the price. */
  lemma AffordableIsPayable(c: Coupon, p: Player)
    requires IsPlayer(p) && |c.costs| == 5 && Affordable(p, c)
    ensures forall m :: 0 <= m < 6 ==> 0 <= Pay(c, p)[m] <= p.mineCount[m]
    ensures Total(Pay(c, p)) == Total(p.mineCount) - Price(c, p, 5)
  {
    forall m | 0 <= m < 6 ensures 0 <= Pay(c, p)[m] <= p.mineCount[m] {
      PaidIsHeld(c, p, m);
    }
    TotalPaid(c, p);
    PriceIsPaid(c, p, 5);
  }

  /** Somebody who cannot afford it would be left with negative gold. */
  lemma UnaffordableIsNotPayable(c: Coupon, p: Player)
    requires IsPlayer(p) && |c.costs| == 5 && !Affordable(p, c)
    ensures Pay(c, p)[GOLD] < 0
  {
  }

  // The loops.

  /** The state of the affordability loop: the gold left after the first `k` mines. */
  lemma {:induction false} ShortfallGrows(c: Coupon, p: Player, k: nat)
    requires k <= 5 && |c.costs| == 5 && HasCounts(p)
    ensures TotalShortfall(c, p, k) <= TotalShortfall(c, p, 5)
    decreases 5 - k
  {
    if k < 5 { ShortfallGrows(c, p, k + 1); }
  }

  /** `check_affordabillity`. */
  method CheckAffordability(p: Player, c: Coupon) returns (ok: bool)
    requires HasCounts(p) && |c.costs| == 5 && p.mineCount[GOLD] >= 0
    ensures ok <==> Affordable(p, c)
  {
    var goldCount := p.mineCount[GOLD];
    for mine := 0 to 5
      invariant 0 <= goldCount == p.mineCount[GOLD] - TotalShortfall(c, p, mine)
    {
      if p.mineCount[mine] + p.couponCount[mine] + goldCount < c.costs[mine] {
        ShortfallGrows(c, p, mine + 1);
        return false;
      }
      goldCount := goldCount - Positive(c.costs[mine] - p.mineCount[mine] - p.couponCount[mine]);
    }
    return true;
  }

  /** One turn of the loop. */
  method PayOne(c: Coupon, p: Player, mine: nat, mines: seq<int>, bank: seq<int>)
    returns (newMines: seq<int>, newBank: seq<int>)
    requires mine < 5 && HasCounts(p) && |c.costs| == 5 && |mines| == |bank| == 6
    requires mines[mine] == p.mineCount[mine] >= 0
    ensures |newMines| == |newBank| == 6
    ensures newMines[mine] == mines[mine] - Paid(c, p, mine) && newBank[mine] == bank[mine] + Paid(c, p, mine)
    ensures var gold := Shortfall(c.costs[mine], p.couponCount[mine], p.mineCount[mine]);
      newMines[GOLD] == mines[GOLD] - gold && newBank[GOLD] == bank[GOLD] + gold
    ensures forall m :: 0 <= m < 5 && m != mine ==> newMines[m] == mines[m] && newBank[m] == bank[m]
  {
    newMines, newBank := mines, bank;
    var cost := c.costs[mine] - p.couponCount[mine];
    if cost > 0 {
      newMines := newMines[mine := newMines[mine] - cost];
      newBank := newBank[mine := newBank[mine] + cost];
      var owed := newMines[mine];
      if owed < 0 {
        newMines := newMines[GOLD := newMines[GOLD] + owed];
        newBank := newBank[mine := newBank[mine] + owed];
        newBank := newBank[GOLD := newBank[GOLD] - owed];
        newMines := newMines[mine := 0];
      }
    }
  }

  /** The payment loop of both buying requests: what the player and the bank hold after. */
  method PayFor(c: Coupon, p: Player, bank: seq<int>) returns (mines: seq<int>, newBank: seq<int>)
    requires HasCounts(p) && |c.costs| == 5 && |bank| == 6
    requires forall m :: 0 <= m < 6 ==> p.mineCount[m] >= 0
    ensures mines == Pay(c, p) && newBank == Receive(c, p, bank)
  {
    mines, newBank := p.mineCount, bank;
    for mine := 0 to 5
      invariant |mines| == |newBank| == 6
      invariant forall m :: 0 <= m < mine ==> mines[m] == p.mineCount[m] - Paid(c, p, m)
      invariant forall m :: 0 <= m < mine ==> newBank[m] == bank[m] + Paid(c, p, m)
      invariant forall m :: mine <= m < 5 ==> mines[m] == p.mineCount[m] && newBank[m] == bank[m]
      invariant mines[GOLD] == p.mineCount[GOLD] - TotalShortfall(c, p, mine)
      invariant newBank[GOLD] == bank[GOLD] + TotalShortfall(c, p, mine)
    {
      mines, newBank := PayOne(c, p, mine, mines, newBank);
    }
    assert forall m :: 0 <= m < 6 ==> mines[m] == Pay(c, p)[m] && newBank[m] == Receive(c, p, bank)[m];
  }

  // Conservation.

  /** The mines of kind `m` that the players hold. */
  function Held(players: seq<Player>, m: nat): int
    requires m < 6 && forall i :: 0 <= i < |players| ==> HasCounts(players[i])
  {
    if players == [] then 0
    else
      assert HasCounts(players[|players| - 1]);
      Held(players[..|players| - 1], m) + players[|players| - 1].mineCount[m]
  }

  lemma {:induction false} HeldUpdate(players: seq<Player>, i: nat, q: Player, m: nat)
    requires m < 6 && i < |players| && HasCounts(q) && forall j :: 0 <= j < |players| ==> HasCounts(players[j])
    ensures Held(players[i := q], m) == Held(players, m) - players[i].mineCount[m] + q.mineCount[m]
    decreases |players|
  {
    var n := |players| - 1;
    if i < n {
      assert players[i := q][..n] == players[..n][i := q];
      HeldUpdate(players[..n], i, q, m);
    } else {
      assert players[i := q][..n] == players[..n];
    }
  }

  lemma {:induction false} HeldSame(players: seq<Player>, others: seq<Player>, m: nat)
    requires m < 6 && |players| == |others|
    requires forall j :: 0 <= j < |players| ==> HasCounts(players[j]) && HasCounts(others[j])
    requires forall j :: 0 <= j < |players| ==> players[j].mineCount == others[j].mineCount
    ensures Held(players, m) == Held(others, m)
    decreases |players|
  {
    if players != [] { HeldSame(players[..|players| - 1], others[..|players| - 1], m); }
  }

  /** All mines of kind `m` in the game. */
  function Supply(g: Game, m: nat): int
    requires m < 6 && HasArrays(g)
  {
    g.bank[m] + Held(g.players, m)
  }
}
