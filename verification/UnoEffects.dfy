/** What the calls of a game of `Uno` (src/Uno.hpp) come to, seat by seat and card by card:
    when a call is accepted, whose turn it is then, and who holds what. */
module UnoEffects {
  import opened UnoRules
  import opened UnoInvariant
  import opened UnoDeal
  import opened Shuffle

  // Seats.

  /** The seat that many seats on in the direction of play; the indices go up when it is
      reversed. */
  function Along(i: nat, steps: nat, reversed: bool, n: nat): (j: nat)
    requires n > 0
  {
    (if reversed then i + steps else i - steps) % n
  }

  lemma OneAlong(i: nat, reversed: bool, n: nat)
    requires i < n
    ensures Next(i, reversed, n) == Along(i, 1, reversed, n)
  {
  }

  lemma TwoAlong(i: nat, reversed: bool, n: nat)
    requires i < n
    ensures Next(Next(i, reversed, n), reversed, n) == Along(i, 2, reversed, n)
  {
  }

  lemma OneBack(i: nat, reversed: bool, n: nat)
    requires i < n
    ensures Next(i, !reversed, n) == Along(i, 1, !reversed, n)
  {
  }

  // Playing a card. SKIP, DRAW_2, REVERSE and WILD_DRAW_4 are the contents 10, 11, 12 and 14.

  /** The place of the first card like `card` in a hand, or the end of the hand. */
  predicate IsPlace(hand: seq<Card>, card: Card, k: nat) {
    k <= |hand| && card !in hand[..k] && (k < |hand| ==> hand[k] == card)
  }

  /** The hand without the card at that place. */
  function Without(hand: seq<Card>, k: nat): seq<Card>
    requires k <= |hand|
  {
    if k == |hand| then hand else hand[..k] + hand[k + 1..]
  }

  lemma PlaceInTail(hand: seq<Card>, card: Card, k: nat)
    requires hand != [] && hand[0] != card && IsPlace(hand[1..], card, k)
    ensures IsPlace(hand, card, k + 1)
  {
    assert hand[..k + 1] == [hand[0]] + hand[1..][..k];
  }

  lemma WithoutInTail(hand: seq<Card>, k: nat)
    requires hand != [] && k < |hand|
    ensures [hand[0]] + Without(hand[1..], k) == Without(hand, k + 1)
  {
  }

  lemma {:induction false} RemovesFirst(hand: seq<Card>, card: Card) returns (k: nat)
    ensures IsPlace(hand, card, k) && RemoveFirst(hand, card) == Without(hand, k)
  {
    if hand == [] || hand[0] == card {
      k := 0;
    } else {
      k := RemovesFirst(hand[1..], card);
      PlaceInTail(hand, card, k);
      WithoutInTail(hand, k);
      k := k + 1;
    }
  }

  /** What may be laid: a black card, or one of the colour or the content on top; after
      drawing, only the card drawn. */
  predicate IsPlayable(g: Game, id: int, card: Card)
    requires g.turn < |g.players|
  {
    var p := g.players[g.turn];
    && !g.waitSuspect && p.id == id && (p.drawnOne ==> card == p.lastDrew)
    && (card.color == Black || card.color == g.lastColor || card.content == g.lastNumber)
  }

  /** Two cards for who is left with one and has not said so. */
  function PenaltyOf(p: Player, rest: seq<Card>): nat {
    if |rest| == 1 && !p.saidUno then 2 else 0
  }

  function WithMore(players: seq<Player>, i: nat, cards: seq<Card>): (r: seq<Player>)
    requires i < |players|
    ensures |r| == |players|
  {
    players[i := players[i].(hand := players[i].hand + cards)]
  }

  /** The card has gone from place `k` of the hand to the end of the deck, and the penalty
      from the front of the deck to the hand. */
  function AfterLaying(g: Game, card: Card, k: nat): (h: Game)
    requires g.turn < |g.players| && k <= |g.players[g.turn].hand|
    requires |g.deck| + 1 >= PenaltyOf(g.players[g.turn], Without(g.players[g.turn].hand, k))
    ensures |h.players| == |g.players| && h.turn == g.turn
  {
    var p, deck := g.players[g.turn], g.deck + [card];
    var rest := Without(p.hand, k);
    var m := PenaltyOf(p, rest);
    g.(players := g.players[g.turn := p.(hand := rest + deck[..m], drawnOne := false, saidUno := false,
                                         kept := if card.content == 14 then p.hand else p.kept)],
       deck := deck[m..])
  }

  /** A REVERSE has turned the direction; the turn has moved two seats for a SKIP or a
      DRAW_2 and one for any other card; the next seat has drawn two cards for a DRAW_2. */
  function AfterMoving(g: Game, card: Card, chosen: Color): Game
    requires g.turn < |g.players| && (card.content == 11 ==> |g.deck| >= 2)
  {
    var n, reversed := |g.players|, if card.content == 12 then !g.reversed else g.reversed;
    Game(if card.content == 11 then WithMore(g.players, Along(g.turn, 1, reversed, n), g.deck[..2]) else g.players,
         if card.content == 11 then g.deck[2..] else g.deck,
         if card.color == Black then chosen else card.color, card.content,
         if card.content == 14 then Card(g.lastColor, g.lastNumber) else g.before,
         reversed, g.waitSuspect || card.content == 14,
         Along(g.turn, if card.content == 10 || card.content == 11 then 2 else 1, reversed, n))
  }

  lemma LayingIs(g: Game, card: Card, k: nat, m: nat)
    requires IsSeated(g) && IsPlace(g.players[g.turn].hand, card, k)
    requires RemoveFirst(g.players[g.turn].hand, card) == Without(g.players[g.turn].hand, k)
    requires m == PenaltyOf(g.players[g.turn], Without(g.players[g.turn].hand, k)) <= |g.deck| + 1
    ensures ForgotUno(LayDown(g, card)) <==> m == 2
    ensures Penalize(LayDown(g, card)) == AfterLaying(g, card, k)
  {
    var laid := LayDown(g, card);
    var h := Penalize(laid);
    assert (g.deck + [card])[..0] == [] && (g.deck + [card])[0..] == g.deck + [card];
    assert h.players[g.turn].hand == Without(g.players[g.turn].hand, k) + (g.deck + [card])[..m];
    assert h.players == g.players[g.turn := h.players[g.turn]];
  }

  lemma MovingIs(g: Game, card: Card, chosen: Color)
    requires IsSeated(g) && (card.content == 11 ==> |g.deck| >= 2)
    ensures Declare(Effect(g, card), card, chosen) == AfterMoving(g, card, chosen)
  {
    var reversed := if card.content == 12 then !g.reversed else g.reversed;
    OneAlong(g.turn, reversed, |g.players|);
    TwoAlong(g.turn, reversed, |g.players|);
  }

  /** How many cards a play draws in all. */
  function CostOf(g: Game, card: Card, k: nat): nat
    requires g.turn < |g.players| && k <= |g.players[g.turn].hand|
  {
    PenaltyOf(g.players[g.turn], Without(g.players[g.turn].hand, k)) + if card.content == 11 then 2 else 0
  }

  lemma PlayCardIs(g: Game, card: Card, chosen: Color, k: nat)
    requires IsSeated(g) && IsPlace(g.players[g.turn].hand, card, k)
    requires RemoveFirst(g.players[g.turn].hand, card) == Without(g.players[g.turn].hand, k)
    requires |g.deck| + 1 >= CostOf(g, card, k)
    ensures PlayDraws(g, card) == CostOf(g, card, k)
    ensures ForgotUno(LayDown(g, card)) <==> PenaltyOf(g.players[g.turn], Without(g.players[g.turn].hand, k)) == 2
    ensures PlayCard(g, card, chosen) == AfterMoving(AfterLaying(g, card, k), card, chosen)
  {
    var m := PenaltyOf(g.players[g.turn], Without(g.players[g.turn].hand, k));
    LayingIs(g, card, k, m);
    MovingIs(Penalize(LayDown(g, card)), card, chosen);
  }

  lemma CostIs(g: Game, card: Card, k: nat)
    requires IsSeated(g) && IsPlace(g.players[g.turn].hand, card, k)
    requires RemoveFirst(g.players[g.turn].hand, card) == Without(g.players[g.turn].hand, k)
    ensures PlayDraws(g, card) == CostOf(g, card, k)
  {
  }

  /** A card is accepted exactly when it is playable, and then this is what it does. */
  lemma PlayIs(g: Game, id: int, card: Card, chosen: Color) returns (k: nat)
    requires IsSeated(g) && IsProper(g, CallPlay(card, chosen), id)
    ensures IsPlace(g.players[g.turn].hand, card, k)
    ensures IsAccepted(g, CallPlay(card, chosen), id) <==> IsPlayable(g, id, card)
    ensures IsPlayable(g, id, card) ==>
      && |g.deck| + 1 > CostOf(g, card, k)
      && (ForgotUno(LayDown(g, card)) <==> PenaltyOf(g.players[g.turn], Without(g.players[g.turn].hand, k)) == 2)
    ensures Step(g, CallPlay(card, chosen), id)
         == if IsPlayable(g, id, card) then AfterMoving(AfterLaying(g, card, k), card, chosen) else g
  {
    k := RemovesFirst(g.players[g.turn].hand, card);
    CostIs(g, card, k);
    if IsPlayable(g, id, card) { PlayCardIs(g, card, chosen, k); }
  }

  // The other calls.

  predicate HasTurn(g: Game, id: int)
    requires g.turn < |g.players|
  {
    g.players[g.turn].id == id
  }

  /** Player `i` has drawn from the front of the deck. */
  function AfterDrawing(g: Game, i: nat, count: nat): Game
    requires i < |g.players| && count <= |g.deck|
  {
    g.(players := WithMore(g.players, i, g.deck[..count]), deck := g.deck[count..])
  }

  /** One card, after two for who has said UNO too early; the last one drawn may be laid. */
  lemma DrawOneIs(g: Game, id: int)
    requires IsSeated(g) && IsProper(g, CallDrawOne, id)
    ensures var p := g.players[g.turn];
      var count := if p.saidUno then 3 else 1;
      var legal := !g.waitSuspect && HasTurn(g, id) && !p.drawnOne;
      && (IsAccepted(g, CallDrawOne, id) <==> legal) && (legal ==> count < |g.deck|)
      && Step(g, CallDrawOne, id)
         == if !legal then g
            else g.(players := g.players[g.turn := p.(hand := p.hand + g.deck[..count], drawnOne := true,
                                                      lastDrew := g.deck[count - 1], saidUno := false)],
                    deck := g.deck[count..])
  {
    var p := g.players[g.turn];
    if p.saidUno && |g.deck| > 3 {
      assert p.hand + g.deck[..2] + g.deck[2..][..1] == p.hand + g.deck[..3];
      assert g.deck[2..][1..] == g.deck[3..];
    }
  }

  /** Only after drawing the turn may be passed on. */
  lemma SkipIs(g: Game, id: int)
    requires IsSeated(g) && IsProper(g, CallSkip, id)
    ensures var p := g.players[g.turn];
      var legal := !g.waitSuspect && HasTurn(g, id) && p.drawnOne;
      && (IsAccepted(g, CallSkip, id) <==> legal)
      && Step(g, CallSkip, id)
         == if !legal then g
            else g.(players := g.players[g.turn := p.(drawnOne := false)],
                    turn := Along(g.turn, 1, g.reversed, |g.players|))
  {
    OneAlong(g.turn, g.reversed, |g.players|);
  }

  /** The first seat of that player, if there is one; |players| otherwise. */
  ghost predicate IsSeatOf(players: seq<Player>, id: int, i: nat) {
    && i <= |players| && (i < |players| ==> players[i].id == id)
    && forall j :: 0 <= j < i ==> players[j].id != id
  }

  /** Two cards for another player who says UNO, and for the one with the turn who does not
      hold two cards; a caller who is no player counts as the one with the turn. */
  lemma SayUnoIs(g: Game, id: int, i: nat)
    requires IsSeated(g) && IsProper(g, CallSayUno, id) && IsSeatOf(g.players, id, i)
    ensures var judged := HasTurn(g, id) || i == |g.players|;
      var right := judged && |g.players[g.turn].hand| == 2;
      && (Blamed(g, id) == |g.players| <==> right) && (!right ==> 2 < |g.deck|)
      && Step(g, CallSayUno, id)
         == if right then g.(players := g.players[g.turn := g.players[g.turn].(saidUno := true)])
            else AfterDrawing(g, if judged then g.turn else i, 2)
  {
    assert FindPlayer(g.players, id) == i;
  }

  /** The card that a kept hand is convicted by: one of the colour that was to match, or of
      the content unless that was a WILD or a WILD_DRAW_4. */
  predicate IsEvidence(c: Card, before: Card) {
    c.color == before.color || (before.content != 13 && before.content != 14 && c.content == before.content)
  }

  /** A challenge that finds evidence makes the player before draw four and stay; one that
      finds none makes the challenger draw six and lose the turn. */
  lemma SuspectIs(g: Game, id: int)
    requires IsSeated(g) && IsProper(g, CallSuspect, id)
    ensures var n := |g.players|;
      var last := Along(g.turn, 1, !g.reversed, n);
      var legal := g.waitSuspect && HasTurn(g, id);
      var guilty := exists c :: c in g.players[last].kept && IsEvidence(c, g.before);
      && (IsAccepted(g, CallSuspect, id) <==> legal) && LastPlayer(g) == last && (IsGuilty(g) <==> guilty)
      && (legal ==> (if guilty then 4 else 6) < |g.deck|)
      && Step(g, CallSuspect, id)
         == if !legal then g
            else if guilty then AfterDrawing(g, last, 4).(waitSuspect := false)
            else AfterDrawing(g, g.turn, 6).(waitSuspect := false, turn := Along(g.turn, 1, g.reversed, n))
  {
    OneAlong(g.turn, g.reversed, |g.players|);
    OneBack(g.turn, g.reversed, |g.players|);
    assert forall c :: Convicts(c, g.before) <==> IsEvidence(c, g.before);
  }

  /** Without a challenge the player draws four and loses the turn. */
  lemma DissuspectIs(g: Game, id: int)
    requires IsSeated(g) && IsProper(g, CallDissuspect, id)
    ensures var legal := g.waitSuspect && HasTurn(g, id);
      && (IsAccepted(g, CallDissuspect, id) <==> legal) && (legal ==> 4 < |g.deck|)
      && Step(g, CallDissuspect, id)
         == if !legal then g
            else AfterDrawing(g, g.turn, 4).(waitSuspect := false, turn := Along(g.turn, 1, g.reversed, |g.players|))
  {
    OneAlong(g.turn, g.reversed, |g.players|);
  }

  // Winning.

  lemma HandsGrow(g: Game, call: Call, id: int)
    requires IsSeated(g) && IsProper(g, call, id) && !(IsAccepted(g, call, id) && call.CallPlay?)
    ensures forall i :: 0 <= i < |g.players| ==> g.players[i].hand <= Step(g, call, id).players[i].hand
  {
  }

  lemma WithoutIsEmpty(hand: seq<Card>, card: Card, k: nat)
    requires IsPlace(hand, card, k)
    ensures Without(hand, k) == [] <==> hand == [] || hand == [card]
  {
    if hand == [card] { assert hand[0] == card && hand[..1][0] == card; }
  }

  lemma NextIsOther(i: nat, reversed: bool, n: nat)
    requires i < n && n >= 2
    ensures Along(i, 1, reversed, n) != i
  {
    OneAlong(i, reversed, n);
  }

  lemma LayingEmpties(g: Game, card: Card, k: nat)
    requires IsSeated(g) && IsPlace(g.players[g.turn].hand, card, k)
    requires |g.deck| + 1 >= PenaltyOf(g.players[g.turn], Without(g.players[g.turn].hand, k))
    ensures var h, hand := AfterLaying(g, card, k), g.players[g.turn].hand;
      (h.players[g.turn].hand == [] <==> hand == [] || hand == [card])
      && forall i :: 0 <= i < |g.players| && i != g.turn ==> h.players[i] == g.players[i]
  {
    WithoutIsEmpty(g.players[g.turn].hand, card, k);
  }

  lemma MovingGrows(g: Game, card: Card, chosen: Color)
    requires IsSeated(g) && (card.content == 11 ==> |g.deck| >= 2) && |g.players| >= 2
    ensures var h := AfterMoving(g, card, chosen);
      && |h.players| == |g.players| && h.players[g.turn] == g.players[g.turn]
      && forall i :: 0 <= i < |g.players| ==> g.players[i].hand <= h.players[i].hand
  {
    NextIsOther(g.turn, if card.content == 12 then !g.reversed else g.reversed, |g.players|);
  }

  lemma LaidHandEmpties(g: Game, id: int, card: Card, chosen: Color)
    requires IsSeated(g) && IsProper(g, CallPlay(card, chosen), id) && IsAccepted(g, CallPlay(card, chosen), id)
    requires |g.players| >= 2
    ensures var h := Step(g, CallPlay(card, chosen), id);
      && (h.players[g.turn].hand == [] <==> g.players[g.turn].hand == [] || g.players[g.turn].hand == [card])
      && forall i :: 0 <= i < |g.players| && i != g.turn ==> g.players[i].hand <= h.players[i].hand
  {
    var k := PlayIs(g, id, card, chosen);
    LayingEmpties(g, card, k);
    MovingGrows(AfterLaying(g, card, k), card, chosen);
  }

  /** The winner that is reported first is the player who has just laid the only card left. */
  lemma WinnerHasJustPlayed(g: Game, call: Call, id: int)
    requires IsSeated(g) && IsProper(g, call, id) && |g.players| >= 2 && FindWinner(g.players) == |g.players|
    ensures var h := Step(g, call, id);
      var last := IsAccepted(g, call, id) && call.CallPlay? && g.players[g.turn].hand == [call.card];
      FindWinner(h.players) == if last then g.turn else |h.players|
  {
    if IsAccepted(g, call, id) && call.CallPlay? {
      LaidHandEmpties(g, id, call.card, call.chosen);
    } else {
      HandsGrow(g, call, id);
    }
  }

  // The beginning.

  lemma CountOf(s: seq<Card>, t: seq<Card>, c: Card)
    ensures multiset(s + t)[c] == multiset(s)[c] + multiset(t)[c]
  {
  }

  lemma CountOfTwo(a: Card, b: Card, c: Card)
    ensures multiset([a, b])[c] == (if a == c then 1 else 0) + (if b == c then 1 else 0)
  {
    assert [a, b] == [a] + [b];
    CountOf([a], [b], c);
  }

  /** Two of each content from `content` to REVERSE. */
  ghost predicate ArePairs(s: seq<Card>, color: Color, content: nat) {
    forall c :: multiset(s)[c] == if c.color == color && content <= c.content <= 12 then 2 else 0
  }

  lemma OnePairMore(rest: seq<Card>, color: Color, content: nat)
    requires content <= 12 && ArePairs(rest, color, content + 1)
    ensures ArePairs([Card(color, content), Card(color, content)] + rest, color, content)
  {
    var x := Card(color, content);
    forall c ensures multiset([x, x] + rest)[c] == if c.color == color && content <= c.content <= 12 then 2 else 0 {
      CountOfTwo(x, x, c);
      CountOf([x, x], rest, c);
    }
  }

  lemma {:induction false} PairsArePairs(color: Color, content: nat)
    requires content <= 13
    ensures ArePairs(Pairs(color, content), color, content)
    decreases 13 - content
  {
    if content < 13 {
      PairsArePairs(color, content + 1);
      OnePairMore(Pairs(color, content + 1), color, content);
    }
  }

  lemma {:induction false} WildsCount(n: nat, c: Card)
    ensures multiset(Wilds(n))[c] == if c.color == Black && (c.content == 13 || c.content == 14) then n else 0
  {
    if n > 0 {
      WildsCount(n - 1, c);
      CountOfTwo(Card(Black, WILD), Card(Black, WILD_DRAW_4), c);
      CountOf([Card(Black, WILD), Card(Black, WILD_DRAW_4)], Wilds(n - 1), c);
    }
  }

  lemma CountOfFour(p: seq<Card>, q: seq<Card>, r: seq<Card>, s: seq<Card>, c: Card)
    ensures multiset(p + q + r + s)[c] == multiset(p)[c] + multiset(q)[c] + multiset(r)[c] + multiset(s)[c]
  {
    CountOf(p, q, c);
    CountOf(p + q, r, c);
    CountOf(p + q + r, s, c);
  }

  lemma ZerosCount(c: Card)
    ensures multiset([Card(Red, 0), Card(Yellow, 0), Card(Green, 0), Card(Blue, 0)])[c]
         == if c.color != Black && c.content == 0 then 1 else 0
  {
    CountOfTwo(Card(Red, 0), Card(Yellow, 0), c);
    CountOfTwo(Card(Green, 0), Card(Blue, 0), c);
    CountOf([Card(Red, 0), Card(Yellow, 0)], [Card(Green, 0), Card(Blue, 0)], c);
    assert [Card(Red, 0), Card(Yellow, 0), Card(Green, 0), Card(Blue, 0)]
        == [Card(Red, 0), Card(Yellow, 0)] + [Card(Green, 0), Card(Blue, 0)];
  }

  lemma SuitCount(color: Color, c: Card)
    ensures multiset(Suit(color))[c] == if c.color == color && 1 <= c.content <= 12 then 2 else 0
  {
    PairsArePairs(color, 1);
  }

  lemma SuitsCount(c: Card)
    ensures multiset(Suit(Red) + Suit(Yellow) + Suit(Green) + Suit(Blue))[c]
         == if c.color != Black && 1 <= c.content <= 12 then 2 else 0
  {
    SuitCount(Red, c);
    SuitCount(Yellow, c);
    SuitCount(Green, c);
    SuitCount(Blue, c);
    CountOfFour(Suit(Red), Suit(Yellow), Suit(Green), Suit(Blue), c);
  }

  /** How often each card is there: in each colour one zero and two of each other content
      up to REVERSE, and four of both black cards. */
  lemma FullSetCounts(c: Card)
    ensures multiset(FullSet())[c]
         == if c.color == Black then (if c.content == 13 || c.content == 14 then 4 else 0)
            else if c.content == 0 then 1
            else if c.content <= 12 then 2 else 0
  {
    var suits, zeros := Suit(Red) + Suit(Yellow) + Suit(Green) + Suit(Blue),
                        [Card(Red, 0), Card(Yellow, 0), Card(Green, 0), Card(Blue, 0)];
    SuitsCount(c);
    ZerosCount(c);
    WildsCount(4, c);
    CountOf(suits, zeros, c);
    CountOf(suits + zeros, Wilds(4), c);
  }

  /** The deck with its first `q` cards put under it. */
  function Rotated(s: seq<Card>, q: nat): seq<Card>
    requires q <= |s|
  {
    s[q..] + s[..q]
  }

  lemma FirstIs(s: seq<Card>, k: nat)
    requires k < |s| && IsNumber(s[k]) && forall j :: 0 <= j < k ==> !IsNumber(s[j])
    ensures FirstNumber(s) == k
  {
  }

  lemma TurnsOnce(s: seq<Card>)
    requires HasNumber(s) && !IsNumber(s[|s| - 1])
    ensures FirstNumber(s) < |s| && HasNumber(Turn(s)) && Turns(Turn(s)) == FirstNumber(s)
  {
    var k, t := FirstNumber(s), Turn(s);
    TurnHelps(s);
    if k > 0 {
      assert forall j :: 0 <= j < k ==> t[j] == s[j + 1];
      FirstIs(t, k - 1);
    }
  }

  lemma RotatedMore(s: seq<Card>, q: nat)
    requires q < |s|
    ensures Rotated(Turn(s), q) == Rotated(s, q + 1)
  {
  }

  lemma {:induction false} TurnedBy(s: seq<Card>)
    requires HasNumber(s)
    ensures Turns(s) <= |s| && TurnedUp(s) == Rotated(s, Turns(s))
    decreases Turns(s)
  {
    if !IsNumber(s[|s| - 1]) {
      TurnsOnce(s);
      TurnedBy(Turn(s));
      TurnedUpStep(s);
      RotatedMore(s, FirstNumber(s));
    }
  }

  /** Of a deck so many cards are put under it that a number card, or SKIP, comes to lie on
      top for the first time. */
  predicate IsTurning(deck: seq<Card>, r: nat)
    requires deck != []
  {
    if deck[|deck| - 1].content <= 10 then r == 0
    else 0 < r <= |deck| && deck[r - 1].content <= 10 && forall j :: 0 <= j < r - 1 ==> deck[j].content > 10
  }

  lemma TurningIs(deck: seq<Card>)
    requires HasNumber(deck)
    ensures IsTurning(deck, Turns(deck)) && TurnedUp(deck) == Rotated(deck, Turns(deck))
  {
    TurnedBy(deck);
  }

  lemma GivenTo(g: Game, i: nat, k: nat, a: nat)
    requires i < |g.players| && k < |g.players| && k != i && a + 14 <= |g.deck|
    ensures Give(g, i, 7).players[k] == g.players[k]
    ensures Give(g, i, 7).deck[a..a + 7] == g.deck[a + 7..a + 14]
  {
  }

  lemma GivenAt(g: Game, i: nat)
    requires i < |g.players| && 7 <= |g.deck|
    ensures Give(g, i, 7).players[i] == g.players[i].(hand := g.players[i].hand + g.deck[0..7])
  {
  }

  lemma {:induction false} DealtBefore(g: Game, i: nat, k: nat)
    requires k < i <= |g.players| && |g.deck| >= 7 * (|g.players| - i)
    ensures DealFrom(g, i).players[k] == g.players[k]
    decreases |g.players| - i
  {
    if i < |g.players| { DealtBefore(Give(g, i, 7), i + 1, k); }
  }

  /** Seat `k` after the deal from seat `i` on: seven cards, from `a` on. */
  lemma {:induction false} DealtHand(g: Game, i: nat, k: nat, a: nat)
    requires i <= k < |g.players| && |g.deck| >= 7 * (|g.players| - i) && a == 7 * (k - i)
    ensures a + 7 <= |g.deck|
    ensures DealFrom(g, i).players[k] == g.players[k].(hand := g.players[k].hand + g.deck[a..a + 7])
    decreases k - i
  {
    if i < k {
      DealtHand(Give(g, i, 7), i + 1, k, a - 7);
      GivenTo(g, i, k, a - 7);
    } else {
      DealtBefore(Give(g, i, 7), i + 1, k);
      GivenAt(g, i);
    }
  }

  lemma SeatIs(ids: seq<int>, draw: nat -> nat, k: nat)
    requires k < |ids|
    ensures Seats(ids, draw)[k] == NewPlayer(Shuffled(ids, |ids| - 1, 0, draw)[k])
  {
    OriginIsUniversal(seq(|ids|, i requires 0 <= i < |ids| => NewPlayer(ids[i])), draw);
    OriginIsUniversal(ids, draw);
  }

  lemma DealIs(players: seq<Player>, deck: seq<Card>, turn: nat, k: nat)
    requires k < |players| <= 10 && |deck| == 108 && Others(deck) == 24 && turn < |players| && players[k].hand == []
    ensures var g := DealFrom(Laid(players, deck, turn), 0);
      && HasNumber(g.deck) && g.deck == deck[7 * |players|..] && g.turn == turn && !g.reversed && !g.waitSuspect
      && g.players[k] == players[k].(hand := deck[7 * k..7 * k + 7])
  {
    var laid := Laid(players, deck, turn);
    DealtDeckHasNumber(players, deck, turn);
    DealKeeps(laid, 0);
    DealLeavesTurn(laid, 0);
    DealtHand(laid, 0, k, 7 * k);
  }

  lemma TurnUpIs(g: Game)
    requires HasNumber(g.deck)
    ensures var h, r := TurnUp(g), Turns(g.deck);
      && IsTurning(g.deck, r) && h.deck == Rotated(g.deck, r)
      && h.lastColor == h.deck[|h.deck| - 1].color && h.lastNumber == h.deck[|h.deck| - 1].content
      && h.players == g.players && h.turn == g.turn && h.reversed == g.reversed && h.waitSuspect == g.waitSuspect
  {
    TurningIs(g.deck);
  }

  lemma DealtAndTurned(players: seq<Player>, s: seq<Card>, turn: nat, k: nat, deck: seq<Card>) returns (r: nat)
    requires k < |players| <= 10 && |s| == 108 && Others(s) == 24 && turn < |players| && players[k].hand == []
    requires deck == s[7 * |players|..] && HasNumber(DealFrom(Laid(players, s, turn), 0).deck)
    ensures var g := TurnUp(DealFrom(Laid(players, s, turn), 0));
      && IsTurning(deck, r) && g.deck == Rotated(deck, r)
      && g.lastColor == g.deck[|g.deck| - 1].color && g.lastNumber == g.deck[|g.deck| - 1].content
      && g.players[k] == players[k].(hand := s[7 * k..7 * k + 7])
      && g.turn == turn && !g.reversed && !g.waitSuspect
  {
    DealIs(players, s, turn, k);
    r := Turns(deck);
    TurnUpIs(DealFrom(Laid(players, s, turn), 0));
  }

  lemma StartUnfolds(full: seq<Card>, ids: seq<int>, d: Draws, players: seq<Player>, s: seq<Card>, turn: nat)
    requires IsFullSet(full) && 3 <= |ids| <= 10
    requires players == Seats(ids, d.seats) && s == Shuffled(full, |full| - 1, 0, d.cards) && turn == d.first % |ids|
    ensures |s| == 108 && Others(s) == 24 && HasNumber(DealFrom(Laid(players, s, turn), 0).deck)
    ensures Start(full, ids, d) == TurnUp(DealFrom(Laid(players, s, turn), 0))
  {
    ShuffledSet(full, d.cards);
    DealtDeckHasNumber(players, s, turn);
  }

  /** How a game begins: the shuffled cards go out by sevens, what is left is turned until a
      number card or SKIP is on top, and that card is to be matched. */
  lemma StartIs(full: seq<Card>, ids: seq<int>, d: Draws, k: nat)
    returns (order: seq<int>, s: seq<Card>, deck: seq<Card>, r: nat)
    requires IsFullSet(full) && 3 <= |ids| <= 10 && k < |ids|
    ensures order == Shuffled(ids, |ids| - 1, 0, d.seats) && s == Shuffled(full, |full| - 1, 0, d.cards) && |s| == 108
    ensures deck == s[7 * |ids|..] && IsTurning(deck, r)
    ensures var g := Start(full, ids, d);
      && g.deck == Rotated(deck, r)
      && g.lastColor == g.deck[|g.deck| - 1].color && g.lastNumber == g.deck[|g.deck| - 1].content
      && g.players[k] == NewPlayer(order[k]).(hand := s[7 * k..7 * k + 7])
      && g.turn == d.first % |ids| && !g.reversed && !g.waitSuspect
  {
    var players, turn := Seats(ids, d.seats), d.first % |ids|;
    order, s := Shuffled(ids, |ids| - 1, 0, d.seats), Shuffled(full, |full| - 1, 0, d.cards);
    StartUnfolds(full, ids, d, players, s, turn);
    SeatIs(ids, d.seats, k);
    deck := s[7 * |ids|..];
    r := DealtAndTurned(players, s, turn, k, deck);
  }
}
