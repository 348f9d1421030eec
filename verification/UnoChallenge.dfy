/** Challenging a WILD_DRAW_4 in `Uno` (src/Uno.hpp). */
module UnoChallenge {
  import opened Shuffle
  import opened UnoRules
  import opened UnoInvariant
  import opened UnoDeal

  /** Stepping on and back. */
  lemma NextIsUndone(i: nat, reversed: bool, n: nat)
    requires i < n
    ensures Next(Next(i, reversed, n), !reversed, n) == i
  {
  }

  lemma PassIsUndone(g: Game)
    requires IsSeated(g)
    ensures LastPlayer(PassOn(g)) == g.turn
  {
    NextIsUndone(g.turn, g.reversed, |g.players|);
  }

  /** What the challenge will look at has not changed. */
  predicate SameCase(g: Game, h: Game) {
    && |h.players| == |g.players| && h.turn == g.turn && h.reversed == g.reversed && h.before == g.before
    && h.lastColor == g.lastColor && h.lastNumber == g.lastNumber
    && forall i :: 0 <= i < |g.players| ==> h.players[i].kept == g.players[i].kept && h.players[i].id == g.players[i].id
  }

  /** While a challenge is awaited, no call moves the turn or turns the direction; the
      two answers end the waiting. */
  lemma WaitingFreezes(g: Game, call: Call, id: int)
    requires IsSeated(g) && g.waitSuspect && (IsAccepted(g, call, id) ==> HasEnough(g, call, id))
    ensures var h := Step(g, call, id);
      if IsAccepted(g, call, id) && (call.CallSuspect? || call.CallDissuspect?) then !h.waitSuspect
      else h.waitSuspect && SameCase(g, h)
  {
  }

  /** `h` is reached from `g` by calls that leave the challenge open. */
  ghost predicate StaysOpen(g: Game, requests: seq<Request>, h: Game)
    decreases |requests|
  {
    if requests == [] then h == g
    else
      && IsSeated(g) && g.waitSuspect
      && (IsAccepted(g, requests[0].call, requests[0].id) ==> HasEnough(g, requests[0].call, requests[0].id))
      && StaysOpen(Step(g, requests[0].call, requests[0].id), requests[1..], h)
  }

  lemma {:induction false} OpenCaseIsSame(g: Game, requests: seq<Request>, h: Game)
    requires IsSeated(g) && g.waitSuspect && StaysOpen(g, requests, h) && h.waitSuspect
    ensures SameCase(g, h)
    decreases |requests|
  {
    if requests != [] {
      var next := Step(g, requests[0].call, requests[0].id);
      WaitingFreezes(g, requests[0].call, requests[0].id);
      if next.waitSuspect { OpenCaseIsSame(next, requests[1..], h); }
    }
  }

  /** The card laid down opens a case against its player, about the hand held before. */
  lemma PlayOpensCase(g: Game, card: Card, chosen: Color)
    requires IsSeated(g) && |g.players| >= 3 && card.content == WILD_DRAW_4 && |g.deck| + 1 >= PlayDraws(g, card)
    ensures var h := PlayCard(g, card, chosen);
      && h.waitSuspect && LastPlayer(h) == g.turn && h.before == Card(g.lastColor, g.lastNumber)
      && h.players[g.turn].kept == g.players[g.turn].hand
  {
    var penalized := Penalize(LayDown(g, card));
    PassIsUndone(penalized);
    assert penalized.players[g.turn].kept == g.players[g.turn].hand;
  }

  /** The player could have laid a card that is not black. */
  ghost predicate HadAlternative(hand: seq<Card>, color: Color, content: nat) {
    exists c :: c in hand && c.color != Black && Matches(c, color, content)
  }

  lemma TestIsMatch(c: Card, color: Color, content: nat)
    requires IsCard(c) && color != Black
    ensures Convicts(c, Card(color, content)) <==> c.color != Black && Matches(c, color, content)
  {
  }

  lemma GuiltyIff(h: Game, hand: seq<Card>, color: Color, content: nat)
    requires IsSeated(h) && h.players[LastPlayer(h)].kept == hand && h.before == Card(color, content)
    requires forall c :: c in hand ==> IsCard(c)
    ensures color != Black ==> (IsGuilty(h) <==> HadAlternative(hand, color, content))
  {
    if color != Black {
      forall c | c in hand ensures Convicts(c, h.before) <==> c.color != Black && Matches(c, color, content) {
        TestIsMatch(c, color, content);
      }
    }
  }

  // The verdict in every game.

  /** Only under a black card is black the colour to match, and then nothing but a black
      card may be laid. */
  lemma NothingMatchesBlack(g: Game, full: seq<Card>)
    requires AreCards(full) && Inv(g, multiset(full)) && g.lastColor == Black
    ensures forall hand :: AreCards(hand) ==> !HadAlternative(hand, g.lastColor, g.lastNumber)
  {
    assert Top(g) in multiset(g.deck);
    assert Top(g) in multiset(full);
    assert Top(g) in full;
    assert g.lastNumber >= WILD;
  }

  /** The verdict on a WILD_DRAW_4 that was held and laid in `g`. */
  lemma VerdictIs(g: Game, card: Card, h: Game, full: seq<Card>)
    requires IsSeated(g) && IsSeated(h) && AreCards(full) && Inv(g, multiset(full)) && AreCards(g.players[g.turn].hand)
    requires card in g.players[g.turn].hand && card.content == WILD_DRAW_4
    requires h.players[LastPlayer(h)].kept == g.players[g.turn].hand && h.before == Card(g.lastColor, g.lastNumber)
    ensures var hadAlternative := HadAlternative(g.players[g.turn].hand, g.lastColor, g.lastNumber);
      (IsGuilty(h) <==> hadAlternative) <==> g.lastColor != Black
  {
    if g.lastColor != Black {
      GuiltyIff(h, g.players[g.turn].hand, g.lastColor, g.lastNumber);
    } else {
      NothingMatchesBlack(g, full);
      assert IsCard(card);
      assert card in h.players[LastPlayer(h)].kept && Convicts(card, h.before);
    }
  }

  /** The deal `d` and the `requests` lead to `g`, where the player to move lays the card. */
  ghost predicate IsLaid(full: seq<Card>, ids: seq<int>, d: Draws, requests: seq<Request>, g: Game, id: int, card: Card)
  {
    && IsFullSet(full) && 3 <= |ids| <= 10
    && Reaches(Start(full, ids, d), requests, g) && AllHeld(Start(full, ids, d), requests, g)
    && IsSeated(g) && MayPlay(g, id, card) && card in g.players[g.turn].hand
    && |g.deck| + 1 >= PlayDraws(g, card)
  }

  /** In every game the challenge is judged by the hand held before the play, whatever is
      called in between: it succeeds iff that hand had a card that is not black and would
      have been accepted, if and only if the colour to match was not black. It is black
      when a player has chosen black for a WILD; then the WILD_DRAW_4 convicts itself. */
  lemma ChallengeIsJudged(full: seq<Card>, ids: seq<int>, d: Draws, requests: seq<Request>, g: Game,
      id: int, card: Card, chosen: Color, answers: seq<Request>, h: Game)
    requires IsLaid(full, ids, d, requests, g, id, card) && card.content == WILD_DRAW_4
    requires StaysOpen(PlayCard(g, card, chosen), answers, h) && h.waitSuspect
    ensures |h.players| == |g.players| && IsSeated(h) && LastPlayer(h) == g.turn
    ensures var hadAlternative := HadAlternative(g.players[g.turn].hand, g.lastColor, g.lastNumber);
      (IsGuilty(h) <==> hadAlternative) <==> g.lastColor != Black
  {
    EveryGame(full, ids, d, requests, g);
    PlayOpensCase(g, card, chosen);
    OpenCaseIsSame(PlayCard(g, card, chosen), answers, h);
    assert AreCards(g.players[g.turn].hand);
    VerdictIs(g, card, h, full);
  }

  // A game with a wrong verdict.

  lemma {:induction false} ShuffleInParts<T>(s: seq<T>, top: nat, mid: nat, draw: nat -> nat)
    requires mid <= top < |s|
    ensures Shuffled(s, top, 0, draw) == Shuffled(Shuffled(s, top, mid, draw), mid, 0, draw)
    decreases top
  {
    if top > mid { ShuffleInParts(Swap(s, top, Pick(draw(top), top)), top - 1, mid, draw); }
  }

  /** A slot that nobody swaps with keeps its card until its own turn. */
  lemma {:induction false} SlotWaits<T>(s: seq<T>, top: nat, stop: nat, draw: nat -> nat, k: nat)
    requires k <= stop <= top < |s| && forall i :: stop < i <= top ==> Pick(draw(i), i) != k
    ensures Shuffled(s, top, stop, draw)[k] == s[k]
    decreases top
  {
    if top > stop { SlotWaits(Swap(s, top, Pick(draw(top), top)), top - 1, stop, draw, k); }
  }

  /** Draws that swap the slots `a` and `a - 1` with `b - 1` and `b - 2`, those with `b` and
      `b - 1`, and all others with the first slot. */
  ghost predicate Fetches(draw: nat -> nat, n: nat, a: nat, b: nat) {
    forall i :: 0 < i < n ==>
      Pick(draw(i), i) == if i == a || i == b then b - 1 else if i == a - 1 || i == b - 1 then b - 2 else 0
  }

  /** The two turns that bring the cards of `top` and `top - 1` to the slots `k` and `k - 1`. */
  lemma TwoSwaps<T>(s: seq<T>, top: nat, k: nat, draw: nat -> nat)
    requires 1 < k < top - 1 && top < |s| && Pick(draw(top), top) == k && Pick(draw(top - 1), top - 1) == k - 1
    ensures var r := Swap(Swap(s, top, k), top - 1, k - 1);
      r[k] == s[top] && r[k - 1] == s[top - 1] && Shuffled(s, top, 0, draw) == Shuffled(r, top - 2, 0, draw)
  {
  }

  lemma LastSwaps<T>(s: seq<T>, b: nat, draw: nat -> nat)
    requires 2 < b < |s| && Pick(draw(b), b) == b - 1 && Pick(draw(b - 1), b - 1) == b - 2
    ensures var r := Shuffled(s, b, 0, draw);
      r[b] == s[b - 1] && r[b - 1] == s[b - 2]
  {
    var t := Swap(Swap(s, b, b - 1), b - 1, b - 2);
    assert Shuffled(s, b, 0, draw) == Shuffled(t, b - 2, 0, draw);
    ShuffleLeaves(t, b - 2, 0, draw, b);
    ShuffleLeaves(t, b - 2, 0, draw, b - 1);
  }

  /** Until the turn of slot `a` its card and the one below it wait. */
  lemma EarlyTurns<T>(s: seq<T>, a: nat, b: nat, draw: nat -> nat)
    requires 2 < b < a - 2 && a < |s| - 1 && Fetches(draw, |s|, a, b)
    ensures var early := Shuffled(s, |s| - 1, a, draw);
      early[a] == s[a] && early[a - 1] == s[a - 1]
  {
    SlotWaits(s, |s| - 1, a, draw, a);
    SlotWaits(s, |s| - 1, a, draw, a - 1);
  }

  lemma LateTurns<T>(s: seq<T>, a: nat, b: nat, draw: nat -> nat)
    requires 2 < b < a - 2 && a < |s| - 1 && Fetches(draw, |s|, a, b)
    ensures var late := Shuffled(s, a - 2, b, draw);
      late[b - 1] == s[b - 1] && late[b - 2] == s[b - 2]
  {
    SlotWaits(s, a - 2, b, draw, b - 1);
    SlotWaits(s, a - 2, b, draw, b - 2);
  }

  lemma TurnsOf(draw: nat -> nat, n: nat, a: nat, b: nat)
    requires 2 < b < a - 2 && a < n && Fetches(draw, n, a, b)
    ensures Pick(draw(a), a) == b - 1 && Pick(draw(a - 1), a - 1) == b - 2
    ensures Pick(draw(b), b) == b - 1 && Pick(draw(b - 1), b - 1) == b - 2
  {
  }

  /** From the turn of slot `a` on. */
  lemma FromTurn<T>(s: seq<T>, a: nat, b: nat, draw: nat -> nat) returns (r: seq<T>)
    requires 2 < b < a - 2 && a < |s| - 1 && Fetches(draw, |s|, a, b)
    ensures r == Shuffled(s, a, 0, draw) && r[b] == s[a] && r[b - 1] == s[a - 1]
  {
    TurnsOf(draw, |s|, a, b);
    TwoSwaps(s, a, b - 1, draw);
    var swapped := Swap(Swap(s, a, b - 1), a - 1, b - 2);
    ShuffleInParts(swapped, a - 2, b, draw);
    LateTurns(swapped, a, b, draw);
    LastSwaps(Shuffled(swapped, a - 2, b, draw), b, draw);
    r := Shuffled(s, a, 0, draw);
  }

  /** Such draws bring the cards of the slots `a` and `a - 1` to the slots `b` and `b - 1`. */
  lemma DrawsFetch<T>(s: seq<T>, a: nat, b: nat, draw: nat -> nat) returns (r: seq<T>)
    requires 2 < b < a - 2 && a < |s| - 1 && Fetches(draw, |s|, a, b)
    ensures r == Shuffled(s, |s| - 1, 0, draw) && r[b] == s[a] && r[b - 1] == s[a - 1]
  {
    var early := Shuffled(s, |s| - 1, a, draw);
    EarlyTurns(s, a, b, draw);
    r := FromTurn(early, a, b, draw);
    ShuffleInParts(s, |s| - 1, a, draw);
  }

  lemma SliceBehind<T>(s: seq<T>, k: nat)
    requires k + 14 <= |s|
    ensures s[7..][k..k + 7] == s[k + 7..k + 14]
  {
  }

  lemma {:induction false} DealtBefore(g: Game, i: nat, j: nat)
    requires j < i <= |g.players| && |g.deck| >= 7 * (|g.players| - i)
    ensures DealFrom(g, i).players[j] == g.players[j]
    decreases |g.players| - i
  {
    if i < |g.players| { DealtBefore(Give(g, i, 7), i + 1, j); }
  }

  /** What the player `j` is dealt. */
  lemma {:induction false} DealtTo(g: Game, i: nat, j: nat)
    requires i <= j < |g.players| && |g.deck| >= 7 * (|g.players| - i)
    ensures var k, p := 7 * (j - i), g.players[j];
      DealFrom(g, i).players[j] == p.(hand := p.hand + g.deck[k..k + 7])
    decreases |g.players| - i
  {
    var h := Give(g, i, 7);
    if i < j {
      DealtTo(h, i + 1, j);
      SliceBehind(g.deck, 7 * (j - i - 1));
    } else {
      DealtBefore(h, i + 1, j);
    }
  }

  /** The eight black cards come last. */
  lemma WildsComeLast()
    ensures |FullSet()| == 108
    ensures FullSet()[101] == Card(Black, WILD_DRAW_4) && FullSet()[102] == Card(Black, WILD)
  {
    FullSetIsFull();
    var wilds := Wilds(4);
    WildsAre(4);
    assert wilds[1] == Card(Black, WILD_DRAW_4);
    assert wilds[2..] == Wilds(3);
    assert wilds[2] == Wilds(3)[0];
    assert FullSet()[100..] == wilds;
  }

  /** Numbers that `rand()` may give while the cards are shuffled. */
  function BlackDraw(i: nat): nat {
    if i == 102 || i == 7 then 6 else if i == 101 || i == 6 then 5 else 0
  }

  lemma BlackDrawFetches()
    ensures Fetches(BlackDraw, 108, 102, 7)
  {
    forall i | 0 < i < 108 ensures Pick(BlackDraw(i), i) == BlackDraw(i) {
      SmallPick(BlackDraw(i), i);
    }
  }

  /** Once it is shuffled, the first player of the list is dealt a WILD_DRAW_4 and the
      second one a WILD. */
  ghost predicate DealsBlack(full: seq<Card>, draw: nat -> nat) {
    && |full| == 108
    && Shuffled(full, |full| - 1, 0, draw)[6] == Card(Black, WILD_DRAW_4)
    && Shuffled(full, |full| - 1, 0, draw)[7] == Card(Black, WILD)
  }

  lemma FetchedAreBlack(full: seq<Card>, a: nat, draw: nat -> nat)
    requires |full| == 108 && 9 < a < 107 && Fetches(draw, |full|, a, 7)
    requires full[a - 1] == Card(Black, WILD_DRAW_4) && full[a] == Card(Black, WILD)
    ensures DealsBlack(full, draw)
  {
    var r := DrawsFetch(full, a, 7, draw);
  }

  lemma FullSetDealsBlack()
    ensures IsFullSet(FullSet()) && DealsBlack(FullSet(), BlackDraw)
  {
    FullSetIsFull();
    WildsComeLast();
    BlackDrawFetches();
    FetchedAreBlack(FullSet(), 102, BlackDraw);
  }

  /** A table where the second player has the turn with a WILD in the hand, and the first
      one holds a WILD_DRAW_4. */
  ghost predicate IsSet(g: Game) {
    && |g.players| >= 3 && g.turn == 1 && !g.waitSuspect && !g.reversed && |g.deck| > 0
    && Card(Black, WILD) in g.players[1].hand && |g.players[1].hand| == 7 && !g.players[1].drawnOne
    && Card(Black, WILD_DRAW_4) in g.players[0].hand && |g.players[0].hand| == 7 && !g.players[0].drawnOne
  }

  lemma DealtIsSet(laid: Game)
    requires 3 <= |laid.players| <= 10 && |laid.deck| == 108 && laid.turn == 1 && !laid.waitSuspect && !laid.reversed
    requires IsFresh(laid.players[0]) && IsFresh(laid.players[1])
    requires laid.deck[6] == Card(Black, WILD_DRAW_4) && laid.deck[7] == Card(Black, WILD)
    ensures IsSet(DealFrom(laid, 0))
  {
    DealtTo(laid, 0, 0);
    DealtTo(laid, 0, 1);
    DealLeavesTurn(laid, 0);
    var hand0, hand1 := laid.deck[0..7], laid.deck[7..14];
    assert hand0[6] == laid.deck[6] && hand1[0] == laid.deck[7];
    assert [] + hand0 == hand0 && [] + hand1 == hand1;
  }

  lemma TurnedUpIsSet(g: Game)
    requires IsSet(g) && HasNumber(g.deck)
    ensures IsSet(TurnUp(g))
  {
  }

  lemma PickOne(n: nat)
    requires n > 1
    ensures Pick(1, n) == 1
  {
  }

  lemma SetUp(full: seq<Card>, ids: seq<int>, d: Draws)
    requires IsFullSet(full) && 3 <= |ids| <= 10 && Pick(d.first, |ids|) == 1 && DealsBlack(full, d.cards)
    ensures IsSet(Start(full, ids, d))
  {
    ShuffledSet(full, d.cards);
    var players, deck := Seats(ids, d.seats), Shuffled(full, |full| - 1, 0, d.cards);
    SeatsAre(ids, d.seats);
    DealtDeckHasNumber(players, deck, 1);
    DealtIsSet(Laid(players, deck, 1));
    TurnedUpIsSet(DealFrom(Laid(players, deck, 1), 0));
  }

  lemma StartMayBeSet(ids: seq<int>) returns (d: Draws)
    requires 3 <= |ids| <= 10
    ensures IsFullSet(FullSet()) && IsSet(Start(FullSet(), ids, d))
  {
    FullSetDealsBlack();
    d := Draws(BlackDraw, BlackDraw, 1);
    PickOne(|ids|);
    SetUp(FullSet(), ids, d);
  }

  lemma WildThenFour(g: Game)
    requires IsSet(g)
    ensures HasEnough(g, CallPlay(Card(Black, WILD), Black), g.players[1].id)
    ensures MayPlay(g, g.players[1].id, Card(Black, WILD))
    ensures var next := PlayCard(g, Card(Black, WILD), Black);
      && next.turn == 0 && next.lastColor == Black && next.lastNumber == WILD && |next.deck| > |g.deck|
      && next.players[0] == g.players[0] && !next.waitSuspect
  {
  }

  /** A WILD_DRAW_4 laid on black convicts itself. */
  lemma FourOnBlackConvicts(full: seq<Card>, ids: seq<int>, d: Draws, requests: seq<Request>, g: Game, id: int,
      card: Card, chosen: Color)
    requires IsLaid(full, ids, d, requests, g, id, card) && card.content == WILD_DRAW_4 && g.lastColor == Black
    ensures !HadAlternative(g.players[g.turn].hand, g.lastColor, g.lastNumber)
    ensures PlayCard(g, card, chosen).waitSuspect && IsGuilty(PlayCard(g, card, chosen))
  {
    var h := PlayCard(g, card, chosen);
    EveryGame(full, ids, d, requests, g);
    NothingMatchesBlack(g, full);
    assert AreCards(g.players[g.turn].hand);
    PlayOpensCase(g, card, chosen);
    assert StaysOpen(h, [], h);
    ChallengeIsJudged(full, ids, d, requests, g, id, card, chosen, [], h);
  }

  lemma OneCall(g: Game, request: Request)
    requires IsSeated(g) && IsProper(g, request.call, request.id) && Holds(g, request.call, request.id)
    ensures Reaches(g, [request], Step(g, request.call, request.id))
    ensures AllHeld(g, [request], Step(g, request.call, request.id))
  {
    var h := Step(g, request.call, request.id);
    assert [request][1..] == [];
    assert Reaches(h, [], h);
  }

  lemma SetIsPlayed(start: Game) returns (requests: seq<Request>, g: Game, id: int)
    requires IsSet(start)
    ensures Reaches(start, requests, g) && AllHeld(start, requests, g)
    ensures IsSeated(g) && MayPlay(g, id, Card(Black, WILD_DRAW_4)) && g.lastColor == Black
    ensures Card(Black, WILD_DRAW_4) in g.players[g.turn].hand
    ensures |g.deck| + 1 >= PlayDraws(g, Card(Black, WILD_DRAW_4))
  {
    var request := Request(CallPlay(Card(Black, WILD), Black), start.players[1].id);
    WildThenFour(start);
    OneCall(start, request);
    requests, g, id := [request], PlayCard(start, Card(Black, WILD), Black), start.players[0].id;
  }

  /** There are such games with the cards of the source, for any players: the second one
      lays a WILD and chooses black, the next one a WILD_DRAW_4, without an alternative,
      and is convicted. */
  lemma WrongVerdictIsReached(ids: seq<int>, chosen: Color)
    returns (d: Draws, requests: seq<Request>, g: Game, id: int)
    requires 3 <= |ids| <= 10
    ensures IsLaid(FullSet(), ids, d, requests, g, id, Card(Black, WILD_DRAW_4))
    ensures !HadAlternative(g.players[g.turn].hand, g.lastColor, g.lastNumber)
    ensures IsGuilty(PlayCard(g, Card(Black, WILD_DRAW_4), chosen))
  {
    d := StartMayBeSet(ids);
    requests, g, id := SetIsPlayed(Start(FullSet(), ids, d));
    FourOnBlackConvicts(FullSet(), ids, d, requests, g, id, Card(Black, WILD_DRAW_4), chosen);
  }
}
