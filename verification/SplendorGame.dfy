/** `Splendor` (src/Splendor.hpp): the object that serves the requests. The actions that
    it records for the clients are left out. */
module SplendorGame {
  import opened SplendorState
  import opened SplendorRules
  import opened SplendorMines
  import opened SplendorInvariant
  import opened SplendorRuns
  import opened SplendorBox
  import opened Shuffle

  /** Every game that is dealt, whatever is drawn and whatever is called. */
  lemma EveryGame(box: Box, ids: seq<int>, d: Draws, calls: seq<Call>, h: Game) returns (turn: nat)
    requires IsBox(box) && AreSeats(ids) && Reaches(Start(box, ids, d), calls, h)
    ensures Inv(h, multiset(Cards(box)), StartBank(|ids|), turn)
  {
    StartIsValid(box, ids, d);
    turn := RunKeeps(Start(box, ids, d), calls, h, multiset(Cards(box)), StartBank(|ids|), Pick(d.first, |ids|));
  }

  lemma DealtIsValid(box: Box, ids: seq<int>, d: Draws, g: Game, cards: multiset<Coupon>, supply: seq<int>, turn: nat)
    requires IsBox(box) && AreSeats(ids) && g == Start(box, ids, d)
    requires cards == multiset(Cards(box)) && supply == StartBank(|ids|) && turn == Pick(d.first, |ids|)
    ensures Inv(g, cards, supply, turn) && supply == g.bank
  {
    StartIsValid(box, ids, d);
  }

  class Splendor {
    var bank: seq<int>
    var coupons: seq<Coupon>
    var couponsRest: seq<Coupon>
    var allies: seq<Ally>
    var players: seq<Player>

    /** The cards and mines the game began with, and the player with the turn. */
    ghost var cards: multiset<Coupon>
    ghost var supply: seq<int>
    ghost var turn: nat

    ghost function State(): Game
      reads this
    {
      Game(bank, coupons, couponsRest, allies, players)
    }

    ghost predicate Valid()
      reads this
    {
      Inv(State(), cards, supply, turn)
    }

    // The deal.

    /** Deals a game for the numbers that `rand()` happens to give. */
    constructor (box: Box, ids: seq<int>, d: Draws)
      requires IsBox(box) && AreSeats(ids)
      ensures Valid() && State() == Start(box, ids, d)
      ensures cards == multiset(Cards(box)) && supply == bank && turn == Pick(d.first, |ids|)
    {
      cards, supply, turn := multiset(Cards(box)), StartBank(|ids|), Pick(d.first, |ids|);
      bank, coupons, couponsRest, allies, players := [], [], [], [], [];
      new;
      Deal(box, ids, d);
      DealtIsValid(box, ids, d, State(), cards, supply, turn);
    }

    method FillBank(n: nat)
      requires 2 <= n <= 4
      modifies this`bank
      ensures bank == StartBank(n)
    {
      if n == 2 {
        bank := [4, 4, 4, 4, 4, 4];
      } else if n == 3 {
        bank := [5, 5, 5, 5, 5, 5];
      } else {
        bank := [7, 7, 7, 7, 7, 7];
      }
      bank := bank[GOLD := 5];
    }

    method SetStatus(i: nat, status: Status)
      requires i < |players|
      modifies this`players
      ensures players == WithStatus(old(players), i, status)
    {
      players := players[i := players[i].(status := status)];
    }

    method SeatPlayers(ids: seq<int>, first: nat)
      requires ids != [] && players == []
      modifies this`players
      ensures players == StartPlayers(ids, first)
    {
      for i := 0 to |ids|
        invariant players == seq(i, k requires 0 <= k < i => NewPlayer(ids[k]))
      {
        players := players + [NewPlayer(ids[i])];
      }
      SetStatus(Pick(first, |players|), Action);
    }

    /** One swap of a shuffle settles its slot. */
    static lemma ShuffledOne<T>(s: seq<T>, i: nat, stop: nat, draw: nat -> nat)
      requires stop < i < |s|
      ensures var next := Swap(s, i, Pick(draw(i), i));
        && Shuffled(next, i - 1, stop, draw) == Shuffled(s, i, stop, draw)
        && next[i] == Shuffled(s, i, stop, draw)[i]
    {
      ShuffleLeaves(Swap(s, i, Pick(draw(i), i)), i - 1, stop, draw, i);
    }

    method DealAllies(box: Box, allyCount: nat, d: Draws)
      requires IsSized(box) && 0 < allyCount <= 9 && allies == []
      modifies this`allies
      ensures allies == StartAllies(box, allyCount - 1, d)
    {
      var allAllies := box.allies;
      var stop: nat := 9 - allyCount;
      ghost var final := Shuffled(box.allies, |box.allies| - 1, stop, d.allies);
      var i: nat := |allAllies| - 1;
      while i > stop
        invariant stop <= i <= 9 && |allAllies| == 10
        invariant Shuffled(allAllies, i, stop, d.allies) == final
        invariant allies == FromTop(final, 9 - i)
      {
        ShuffledOne(allAllies, i, stop, d.allies);
        allAllies := Swap(allAllies, i, Pick(d.allies(i), i));
        OneMoreFromTop(final, 9 - i);
        allies := allies + [allAllies[i]];
        i := i - 1;
      }
    }

    static method ShufflePile(pile: seq<Coupon>, draw: nat -> nat) returns (shuffled: seq<Coupon>)
      requires pile != []
      ensures shuffled == Shuffled(pile, |pile| - 1, 0, draw)
    {
      var a := new Coupon[|pile|](i requires 0 <= i < |pile| => pile[i]);
      assert a[..] == pile;
      ShuffleInPlace(a, |pile| - 1, 0, draw);
      shuffled := a[..];
    }

    /** The last four of each pile lie open. */
    method DealPiles(level1: seq<Coupon>, level2: seq<Coupon>, level3: seq<Coupon>)
      requires |level1| == 40 && |level2| == 30 && |level3| == 20 && coupons == [] && couponsRest == []
      modifies this`coupons, this`couponsRest
      ensures coupons == level1[36..] + level2[26..] + level3[16..]
      ensures couponsRest == level1[..36] + level2[..26] + level3[..16]
    {
      couponsRest := couponsRest + level1[..36];
      couponsRest := couponsRest + level2[..26];
      couponsRest := couponsRest + level3[..16];
      coupons := coupons + level1[36..];
      coupons := coupons + level2[26..];
      coupons := coupons + level3[16..];
    }

    method DealCoupons(box: Box, d: Draws)
      requires IsSized(box) && coupons == [] && couponsRest == []
      modifies this`coupons, this`couponsRest
      ensures coupons == StartMarket(box, d) && couponsRest == StartDeck(box, d)
    {
      var level1 := ShufflePile(box.level1, d.level1);
      var level2 := ShufflePile(box.level2, d.level2);
      var level3 := ShufflePile(box.level3, d.level3);
      DealPiles(level1, level2, level3);
    }

    method Deal(box: Box, ids: seq<int>, d: Draws)
      requires IsSized(box) && AreSeats(ids)
      requires players == [] && allies == [] && coupons == [] && couponsRest == []
      modifies this`players, this`bank, this`allies, this`coupons, this`couponsRest
      ensures State() == Start(box, ids, d)
    {
      SeatPlayers(ids, d.first);
      FillBank(|ids|);
      DealAllies(box, |ids| + 1, d);
      DealCoupons(box, d);
    }

    // Helpers.

    static method FindCouponIndex(cs: seq<Coupon>, idx: int) returns (i: nat)
      ensures i == FindCoupon(cs, idx)
    {
      i := 0;
      while i < |cs| && cs[i].idx != idx
        invariant i <= |cs| && FindCoupon(cs, idx) == i + FindCoupon(cs[i..], idx)
      {
        assert cs[i..][1..] == cs[i + 1..];
        i := i + 1;
      }
    }

    static method FindLevelIndex(cs: seq<Coupon>, level: nat) returns (i: nat)
      ensures i == FindLevel(cs, level)
    {
      i := 0;
      while i < |cs| && cs[i].level != level
        invariant i <= |cs| && FindLevel(cs, level) == i + FindLevel(cs[i..], level)
      {
        assert cs[i..][1..] == cs[i + 1..];
        i := i + 1;
      }
    }

    method GiveTurnToNext(i: nat)
      requires i < |players|
      modifies this`players
      ensures players == PassTurn(old(players), i)
    {
      SetStatus(i, Waiting);
      var it := i + 1;
      if it == |players| {
        it := 0;
      }
      SetStatus(it, Action);
    }

    static function SumUpTo(s: seq<int>, k: nat): int
      requires k <= |s|
    {
      if k == 0 then 0 else SumUpTo(s, k - 1) + s[k - 1]
    }

    static lemma SumOfSixMines(s: seq<int>)
      requires |s| == 6
      ensures SumUpTo(s, 6) == Total(s)
    {
      assert SumUpTo(s, 2) == s[0] + s[1] by { assert SumUpTo(s, 1) == s[0]; }
      assert SumUpTo(s, 4) == SumUpTo(s, 2) + s[2] + s[3];
      assert SumUpTo(s, 6) == SumUpTo(s, 4) + s[4] + s[5];
    }

    static method TotalMineCount(p: Player) returns (count: int)
      requires HasCounts(p)
      ensures count == Total(p.mineCount)
    {
      count := 0;
      for i := 0 to 6
        invariant count == SumUpTo(p.mineCount, i)
      {
        count := count + p.mineCount[i];
      }
      SumOfSixMines(p.mineCount);
    }

    /** What follows a gain of mines. */
    method FinishGain(i: nat)
      requires i < |players| && HasCounts(players[i])
      modifies this`players
      ensures players == AfterGain(old(players), i)
    {
      var total := TotalMineCount(players[i]);
      if total > 10 {
        SetStatus(i, NeedReturnMine);
      } else {
        GiveTurnToNext(i);
      }
    }

    method MoveMines(i: nat, mine: Mine, count: int)
      requires i < |players| && HasCounts(players[i]) && |bank| == 6
      modifies this`players, this`bank
      ensures bank == Add(old(bank), mine, -count)
      ensures players == old(players)[i := old(players)[i].(mineCount := Add(old(players)[i].mineCount, mine, count))]
    {
      bank := bank[mine := bank[mine] - count];
      var p := players[i];
      players := players[i := p.(mineCount := p.mineCount[mine := p.mineCount[mine] + count])];
    }

    // Requests.

    method MoveThree(i: nat, a: Mine, b: Mine, c: Mine)
      requires i < |players| && HasCounts(players[i]) && |bank| == 6
      modifies this`players, this`bank
      ensures bank == AddThree(old(bank), a, b, c, -1)
      ensures var p := old(players)[i];
        players == old(players)[i := p.(mineCount := AddThree(p.mineCount, a, b, c, 1))]
    {
      MoveMines(i, a, 1);
      MoveMines(i, b, 1);
      MoveMines(i, c, 1);
    }

    method Take3Mines(a: Mine, b: Mine, c: Mine, player: int) returns (ok: bool)
      requires Shaped(State())
      modifies this`players, this`bank
      ensures (ok, State()) == TakeThree(old(State()), a, b, c, player)
    {
      var i := FindPlayer(players, player);
      if i == |players| || players[i].status != Action {
        return false;
      }
      if a == b || b == c || c == a {
        return false;
      }
      if bank[a] == 0 || bank[b] == 0 || bank[c] == 0 {
        return false;
      }
      if a == GOLD || b == GOLD || c == GOLD {
        return false;
      }
      MoveThree(i, a, b, c);
      FinishGain(i);
      ok := true;
    }

    method Take2Mines(mine: Mine, player: int) returns (ok: bool)
      requires Shaped(State())
      modifies this`players, this`bank
      ensures (ok, State()) == TakeTwo(old(State()), mine, player)
    {
      var i := FindPlayer(players, player);
      if i == |players| || players[i].status != Action {
        return false;
      }
      if bank[mine] < 4 {
        return false;
      }
      if mine == GOLD {
        return false;
      }
      MoveMines(i, mine, 2);
      FinishGain(i);
      ok := true;
    }

    method GiveBackMine(mine: Mine, player: int) returns (ok: bool)
      requires Shaped(State())
      modifies this`players, this`bank
      ensures (ok, State()) == ReturnMine(old(State()), mine, player)
    {
      var i := FindPlayer(players, player);
      if i == |players| || players[i].status != NeedReturnMine {
        return false;
      }
      if players[i].mineCount[mine] < 1 {
        return false;
      }
      MoveMines(i, mine, -1);
      var total := TotalMineCount(players[i]);
      if total < 11 {
        GiveTurnToNext(i);
      }
      ok := true;
    }

    method FillCoupon(level: nat, slot: nat)
      requires slot < |coupons|
      modifies this`coupons, this`couponsRest
      ensures (coupons, couponsRest) == FillSlot(old(coupons), old(couponsRest), slot, level)
    {
      var k := FindLevelIndex(couponsRest, level);
      if k != |couponsRest| {
        coupons := coupons[slot := couponsRest[k]];
        couponsRest := couponsRest[..k] + couponsRest[k + 1..];
      } else {
        coupons := coupons[slot := Empty(level)];
      }
    }

    method ReserveFromSlot(i: nat, slot: nat, c: Coupon)
      requires i < |players| && HasCounts(players[i]) && |bank| == 6 && slot < |coupons|
      modifies this`players, this`bank, this`coupons, this`couponsRest
      ensures (coupons, couponsRest) == FillSlot(old(coupons), old(couponsRest), slot, c.level)
      ensures var gold := if old(bank)[GOLD] > 0 then 1 else 0;
        && bank == Add(old(bank), GOLD, -gold)
        && players == old(players)[i := old(players)[i].(reserved := old(players)[i].reserved + [c],
                                                          mineCount := Add(old(players)[i].mineCount, GOLD, gold))]
    {
      var p := players[i];
      players := players[i := p.(reserved := p.reserved + [c])];
      FillCoupon(c.level, slot);
      if bank[GOLD] > 0 {
        MoveMines(i, GOLD, 1);
      } else {
        assert Add(p.mineCount, GOLD, 0) == p.mineCount && Add(bank, GOLD, 0) == bank;
      }
    }

    method ReserveACoupon(couponIdx: int, player: int) returns (ok: bool)
      requires Shaped(State())
      modifies this`players, this`bank, this`coupons, this`couponsRest
      ensures (ok, State()) == Reserve(old(State()), couponIdx, player)
    {
      var i := FindPlayer(players, player);
      if i == |players| || players[i].status != Action {
        return false;
      }
      if |players[i].reserved| > 2 {
        return false;
      }
      var slot := FindCouponIndex(coupons, couponIdx);
      if slot == |coupons| {
        return false;
      }
      var c := coupons[slot];
      ReserveFromSlot(i, slot, c);
      FinishGain(i);
      ok := true;
    }

    /** The purchase proper: paying, and taking the coupon. */
    method TakeCoupon(i: nat, c: Coupon)
      requires i < |players| && IsPlayer(players[i]) && |bank| == 6 && IsCard(c)
      modifies this`players, this`bank
      ensures bank == Receive(c, old(players)[i], old(bank))
      ensures players == old(players)[i := Bought(old(players)[i], c)]
    {
      var p := players[i];
      var mines, newBank := PayFor(c, p, bank);
      bank := newBank;
      p := p.(mineCount := mines);
      p := p.(coupons := p.coupons + [c]);
      p := p.(couponCount := p.couponCount[c.kind := p.couponCount[c.kind] + 1]);
      p := p.(reputation := p.reputation + c.reputation);
      players := players[i := p];
    }

    /** `p` with what a free ally brings to a player who satisfies it. */
    static function Rewarded(p: Player, a: Ally): Player
      requires HasCounts(p) && |a.condition| == 5
    {
      p.(reputation := p.reputation + if Satisfies(p, a) then a.reputation else 0)
    }

    /** Whether every count reaches the condition. */
    static method MeetsCondition(p: Player, a: Ally) returns (ok: bool)
      requires HasCounts(p) && |a.condition| == 5
      ensures ok <==> Satisfies(p, a)
    {
      ok := true;
      var c := 0;
      while c < 5
        invariant 0 <= c <= 5 && ok
        invariant forall k :: 0 <= k < c ==> p.couponCount[k] >= a.condition[k]
      {
        if p.couponCount[c] < a.condition[c] {
          ok := false;
          break;
        }
        c := c + 1;
      }
    }

    static lemma AwardedNext(a: Ally, ps: seq<Player>, j: nat)
      requires |a.condition| == 5 && j < |ps| && !a.owned && forall i :: 0 <= i < |ps| ==> HasCounts(ps[i])
      ensures Awarded(a, ps[..j + 1])
           == if Satisfies(ps[j], a) then a.(owned := true, owner := ps[j].id) else Awarded(a, ps[..j])
    {
      assert ps[..j + 1][..j] == ps[..j];
    }

    /** The loop over the players for one ally; it does not stop at the first. */
    method AwardAlly(k: nat)
      requires HasArrays(State()) && k < |allies| && !allies[k].owned
      modifies this`players, this`allies
      ensures allies == old(allies)[k := Awarded(old(allies)[k], old(players))]
      ensures |players| == |old(players)|
      ensures forall j :: 0 <= j < |players| ==> players[j] == Rewarded(old(players)[j], old(allies)[k])
    {
      ghost var before, a := players, allies[k];
      for j := 0 to |players|
        invariant |players| == |before| && |allies| == |old(allies)|
        invariant allies == old(allies)[k := Awarded(a, before[..j])]
        invariant forall l :: 0 <= l < j ==> players[l] == Rewarded(before[l], a)
        invariant forall l :: j <= l < |players| ==> players[l] == before[l]
      {
        var p := players[j];
        AwardedNext(a, before, j);
        var ok := MeetsCondition(p, allies[k]);
        if ok {
          allies := allies[k := allies[k].(owned := true, owner := p.id)];
          players := players[j := p.(reputation := p.reputation + allies[k].reputation)];
        }
      }
      assert before[..|before|] == before;
    }

    static lemma {:induction false} SameAwarded(a: Ally, ps: seq<Player>, qs: seq<Player>)
      requires |a.condition| == 5 && |ps| == |qs|
      requires forall j :: 0 <= j < |ps| ==> HasCounts(ps[j]) && qs[j] == ps[j].(reputation := qs[j].reputation)
      ensures Awarded(a, ps) == Awarded(a, qs)
      decreases |ps|
    {
      if ps != [] {
        var n := |ps| - 1;
        assert Satisfies(ps[n], a) == Satisfies(qs[n], a);
        SameAwarded(a, ps[..n], qs[..n]);
      }
    }

    /** The player after the first `k` allies. */
    static function After(p: Player, allies: seq<Ally>, k: nat): Player
      requires HasCounts(p) && k <= |allies| && forall i :: 0 <= i < |allies| ==> |allies[i].condition| == 5
    {
      p.(reputation := p.reputation + Bonus(p, allies, k))
    }

    static lemma NextReward(p: Player, allies: seq<Ally>, k: nat)
      requires HasCounts(p) && k < |allies| && forall i :: 0 <= i < |allies| ==> |allies[i].condition| == 5
      ensures var q := After(p, allies, k);
        After(p, allies, k + 1) == if allies[k].owned then q else Rewarded(q, allies[k])
    {
      assert Satisfies(After(p, allies, k), allies[k]) == Satisfies(p, allies[k]);
    }

    static lemma NextRewards(ps: seq<Player>, allies: seq<Ally>, k: nat, now: seq<Player>)
      requires k < |allies| && |now| == |ps| && forall i :: 0 <= i < |allies| ==> |allies[i].condition| == 5
      requires forall j :: 0 <= j < |ps| ==> HasCounts(ps[j]) && HasCounts(now[j]) && now[j] == After(ps[j], allies, k)
      ensures forall j :: 0 <= j < |ps| ==>
        After(ps[j], allies, k + 1) == if allies[k].owned then now[j] else Rewarded(now[j], allies[k])
    {
      forall j | 0 <= j < |ps|
        ensures After(ps[j], allies, k + 1) == if allies[k].owned then now[j] else Rewarded(now[j], allies[k])
      {
        NextReward(ps[j], allies, k);
      }
    }

    method CheckAlly()
      requires HasArrays(State())
      modifies this`players, this`allies
      ensures State() == CheckAllies(old(State()))
    {
      ghost var ps, before := players, allies;
      for k := 0 to |allies|
        invariant |players| == |ps| && |allies| == |before|
        invariant forall l :: 0 <= l < k ==> allies[l] == Awarded(before[l], ps)
        invariant forall l :: k <= l < |before| ==> allies[l] == before[l]
        invariant forall j :: 0 <= j < |ps| ==> players[j] == After(ps[j], before, k)
      {
        forall j | 0 <= j < |ps| ensures HasCounts(ps[j]) {}
        NextRewards(ps, before, k, players);
        SameAwarded(before[k], ps, players);
        if !allies[k].owned {
          AwardAlly(k);
        }
      }
      assert forall j :: 0 <= j < |ps| ==> After(ps[j], before, |before|) == Credited(ps[j], before);
      assert players == CheckAllies(old(State())).players && allies == CheckAllies(old(State())).allies;
    }

    /** The turn passes, and the allies look round. */
    method FinishPurchase(i: nat)
      requires HasArrays(State()) && i < |players|
      modifies this`players, this`allies
      ensures State() == CheckAllies(old(State()).(players := PassTurn(old(players), i)))
    {
      GiveTurnToNext(i);
      CheckAlly();
    }

    method BuyACoupon(couponIdx: int, player: int) returns (ok: bool)
      requires Shaped(State()) && (Finds(State(), couponIdx, player) ==> couponIdx != 0)
      modifies this`players, this`bank, this`coupons, this`couponsRest, this`allies
      ensures (ok, State()) == Buy(old(State()), couponIdx, player)
    {
      var i := FindPlayer(players, player);
      if i == |players| || players[i].status != Action {
        return false;
      }
      var slot := FindCouponIndex(coupons, couponIdx);
      if slot == |coupons| {
        return false;
      }
      var c := coupons[slot];
      assert IsSlot(c, SlotLevel(slot));
      ok := CheckAffordability(players[i], c);
      if !ok {
        return;
      }
      TakeCoupon(i, c);
      FillCoupon(c.level, slot);
      FinishPurchase(i);
    }

    method BuyAReservedCoupon(couponIdx: int, player: int) returns (ok: bool)
      requires Shaped(State())
      modifies this`players, this`bank, this`allies
      ensures (ok, State()) == BuyReserved(old(State()), couponIdx, player)
    {
      var i := FindPlayer(players, player);
      if i == |players| || players[i].status != Action {
        return false;
      }
      var reserved := players[i].reserved;
      var k := FindCouponIndex(reserved, couponIdx);
      if k == |reserved| {
        return false;
      }
      var c := reserved[k];
      assert IsPlayer(players[i]);
      ok := CheckAffordability(players[i], c);
      if !ok {
        return;
      }
      TakeCoupon(i, c);
      players := players[i := players[i].(reserved := reserved[..k] + reserved[k + 1..])];
      ghost var q := Bought(old(players)[i], c).(reserved := reserved[..k] + reserved[k + 1..]);
      assert players == old(players)[i := q];
      FinishPurchase(i);
    }

    // Winning, and whole games.

    method CheckWinner() returns (won: bool, winner: int)
      ensures won <==> FindWinner(players) < |players|
      ensures won ==> winner == players[FindWinner(players)].id
    {
      winner := 0;
      for i := 0 to |players|
        invariant FindWinner(players) == i + FindWinner(players[i..])
      {
        assert players[i..][1..] == players[i + 1..];
        if players[i].reputation > 14 {
          return true, players[i].id;
        }
      }
      won := false;
    }

    method Serve(r: Request, player: int) returns (ok: bool)
      requires IsAllowed(State(), r, player)
      modifies this`players, this`bank, this`coupons, this`couponsRest, this`allies
      ensures IsServed(old(State()), r, player, ok, State())
    {
      match r {
        case TakeThreeMines(a, b, c) => ok := Take3Mines(a, b, c, player);
        case TakeTwoMines(mine) => ok := Take2Mines(mine, player);
        case ReserveCoupon(idx) => ok := ReserveACoupon(idx, player);
        case BuyCoupon(idx) => ok := BuyACoupon(idx, player);
        case BuyReservedCoupon(idx) => ok := BuyAReservedCoupon(idx, player);
        case ReturnOneMine(mine) => ok := GiveBackMine(mine, player);
      }
    }

    /** Keeps track of the turn. */
    ghost method Advance(before: Game, r: Request, player: int, ok: bool)
      requires Inv(before, cards, supply, turn) && IsServed(before, r, player, ok, State())
      modifies this`turn
      ensures Valid() && turn == TurnAfter(ok, players, old(turn)) && State() == old(State())
    {
      ghost var after := State();
      StepMoves(before, r, player, cards, supply, turn, ok, after);
      turn := TurnAfter(ok, after.players, turn);
      assert State() == after;
    }

    /** Serves a request of a player, as the room does. */
    method Process(r: Request, player: int) returns (ok: bool)
      requires Valid() && IsAllowed(State(), r, player)
      modifies this`players, this`bank, this`coupons, this`couponsRest, this`allies, this`turn
      ensures Valid() && IsServed(old(State()), r, player, ok, State())
      ensures turn == TurnAfter(ok, players, old(turn))
    {
      ghost var before := State();
      ok := Serve(r, player);
      Advance(before, r, player, ok);
    }
  }
}
