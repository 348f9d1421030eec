/** Allies and reputation (src/Splendor.hpp). */
module SplendorAllies {
  import opened SplendorState
  import opened SplendorRules

  ghost predicate SatisfiesNone(p: Player, allies: seq<Ally>)
    requires HasCounts(p) && forall k :: 0 <= k < |allies| ==> |allies[k].condition| == 5
  {
    forall k :: 0 <= k < |allies| && !allies[k].owned ==> !Satisfies(p, allies[k])
  }

  /** No ally without an owner is satisfied by any player. */
  ghost predicate NoneSatisfied(allies: seq<Ally>, players: seq<Player>)
    requires forall k :: 0 <= k < |allies| ==> |allies[k].condition| == 5
    requires forall i :: 0 <= i < |players| ==> HasCounts(players[i])
  {
    forall i :: 0 <= i < |players| ==> SatisfiesNone(players[i], allies)
  }

  function Worth(coupons: seq<Coupon>): int {
    if coupons == [] then 0 else Worth(coupons[..|coupons| - 1]) + coupons[|coupons| - 1].reputation
  }

  /** The reputation of the first `k` allies as far as player `id` owns them. */
  function Owned(allies: seq<Ally>, id: int, k: nat): int
    requires k <= |allies|
  {
    if k == 0 then 0
    else
      var a := allies[k - 1];
      Owned(allies, id, k - 1) + if a.owned && a.owner == id then a.reputation else 0
  }

  /** The reputation is that of the bought coupons and of the owned allies. */
  predicate ReputationAdds(p: Player, allies: seq<Ally>) {
    p.reputation == Worth(p.coupons) + Owned(allies, p.id, |allies|)
  }

  lemma WorthAppend(coupons: seq<Coupon>, c: Coupon)
    ensures Worth(coupons + [c]) == Worth(coupons) + c.reputation
  {
    assert (coupons + [c])[..|coupons|] == coupons;
  }

  lemma {:induction false} NoBonus(p: Player, allies: seq<Ally>, k: nat)
    requires HasCounts(p) && k <= |allies| && forall j :: 0 <= j < |allies| ==> |allies[j].condition| == 5
    requires SatisfiesNone(p, allies)
    ensures Bonus(p, allies, k) == 0
  {
    if k > 0 { NoBonus(p, allies, k - 1); }
  }

  /** The ally after the look-round, when only player `q` can satisfy it. */
  function AwardedTo(a: Ally, q: Player): Ally
    requires HasCounts(q) && |a.condition| == 5
  {
    if !a.owned && Satisfies(q, a) then a.(owned := true, owner := q.id) else a
  }

  lemma {:induction false} AwardedToNobody(a: Ally, players: seq<Player>)
    requires |a.condition| == 5 && forall j :: 0 <= j < |players| ==> HasCounts(players[j])
    requires forall j :: 0 <= j < |players| ==> HasCounts(players[j]) && (a.owned || !Satisfies(players[j], a))
    ensures Awarded(a, players) == a
    decreases |players|
  {
    if players != [] { AwardedToNobody(a, players[..|players| - 1]); }
  }

  lemma {:induction false} AwardedIsToBuyer(a: Ally, players: seq<Player>, i: nat)
    requires |a.condition| == 5 && i < |players| && forall j :: 0 <= j < |players| ==> HasCounts(players[j])
    requires forall j :: 0 <= j < |players| && j != i ==>
               HasCounts(players[j]) && (a.owned || !Satisfies(players[j], a))
    ensures Awarded(a, players) == AwardedTo(a, players[i])
    decreases |players|
  {
    var n := |players| - 1;
    if i < n {
      AwardedIsToBuyer(a, players[..n], i);
    } else {
      AwardedToNobody(a, players[..n]);
    }
  }

  /** What the awards add to the owned reputation of player `id`. */
  lemma {:induction false} AwardsAdd(allies: seq<Ally>, awarded: seq<Ally>, q: Player, id: int, k: nat)
    requires HasCounts(q) && k <= |allies| == |awarded| && forall j :: 0 <= j < |allies| ==> |allies[j].condition| == 5
    requires forall j :: 0 <= j < |allies| ==> awarded[j] == AwardedTo(allies[j], q)
    ensures Owned(awarded, id, k) == Owned(allies, id, k) + if id == q.id then Bonus(q, allies, k) else 0
  {
    if k > 0 { AwardsAdd(allies, awarded, q, id, k - 1); }
  }

  /** The same player but for the status. */
  predicate SameButStatus(p: Player, q: Player) {
    p == q.(status := p.status)
  }

  lemma PassTurnKeeps(players: seq<Player>, i: nat)
    requires i < |players|
    ensures forall j :: 0 <= j < |players| ==> SameButStatus(PassTurn(players, i)[j], players[j])
  {
  }

  /** The allies and the players around a purchase: `players` before it, `mid` with the
      purchase made, `h` after the allies looked round. */
  ghost predicate Purchase(g: Game, mid: seq<Player>, i: nat) {
    && HasArrays(g) && i < |g.players| == |mid| && DistinctIds(mid)
    && (forall j :: 0 <= j < |mid| ==> HasCounts(mid[j]))
    && (forall j :: 0 <= j < |mid| && j != i ==> SameButStatus(mid[j], g.players[j]))
    && NoneSatisfied(g.allies, g.players)
  }

  lemma OthersSatisfyNone(g: Game, mid: seq<Player>, i: nat, j: nat)
    requires Purchase(g, mid, i) && j < |mid| && j != i
    ensures SatisfiesNone(mid[j], g.allies) && Credited(mid[j], g.allies) == mid[j]
  {
    forall k | 0 <= k < |g.allies| && !g.allies[k].owned ensures !Satisfies(mid[j], g.allies[k]) {
      assert SatisfiesNone(g.players[j], g.allies);
      assert mid[j].couponCount == g.players[j].couponCount;
    }
    NoBonus(mid[j], g.allies, |g.allies|);
  }

  /** Every ally goes to the buyer or to nobody, although the loop over the players does
      not stop at the first who satisfies it. */
  lemma OnlyBuyerIsAwarded(g: Game, mid: seq<Player>, i: nat)
    requires Purchase(g, mid, i)
    ensures var h := CheckAllies(g.(players := mid));
      && (forall k :: 0 <= k < |g.allies| ==> h.allies[k] == AwardedTo(g.allies[k], mid[i]))
      && (forall j :: 0 <= j < |mid| && j != i ==> h.players[j] == mid[j])
      && h.players[i] == Credited(mid[i], g.allies)
  {
    forall j | 0 <= j < |mid| && j != i
      ensures SatisfiesNone(mid[j], g.allies) && Credited(mid[j], g.allies) == mid[j]
    {
      OthersSatisfyNone(g, mid, i, j);
    }
    forall k | 0 <= k < |g.allies| ensures Awarded(g.allies[k], mid) == AwardedTo(g.allies[k], mid[i]) {
      AwardedIsToBuyer(g.allies[k], mid, i);
    }
  }

  /** After the look-round again nobody satisfies an ally without an owner. */
  lemma NoneLeftSatisfied(allies: seq<Ally>, awarded: seq<Ally>, players: seq<Player>, i: nat)
    requires i < |players| && |awarded| == |allies| && forall j :: 0 <= j < |players| ==> HasCounts(players[j])
    requires forall k :: 0 <= k < |allies| ==> |allies[k].condition| == 5
    requires forall k :: 0 <= k < |allies| ==> awarded[k] == AwardedTo(allies[k], players[i])
    requires forall j :: 0 <= j < |players| && j != i ==> SatisfiesNone(players[j], allies)
    ensures (forall k :: 0 <= k < |awarded| ==> |awarded[k].condition| == 5) && NoneSatisfied(awarded, players)
  {
    forall j | 0 <= j < |players| ensures SatisfiesNone(players[j], awarded) {
      forall k | 0 <= k < |awarded| && !awarded[k].owned ensures !Satisfies(players[j], awarded[k]) {
        assert awarded[k] == allies[k];
      }
    }
  }
}
