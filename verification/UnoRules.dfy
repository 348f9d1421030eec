/** The state of a game of `Uno` and what each call does to it (src/Uno.hpp). */
module UnoRules {

  datatype Color = Red | Yellow | Green | Blue | Black

  /** The contents 0 to 9 are numbers; those from WILD on are on black cards. */
  datatype Card = Card(color: Color, content: nat)

  const SKIP: nat := 10
  const DRAW_2: nat := 11
  const REVERSE: nat := 12
  const WILD: nat := 13
  const WILD_DRAW_4: nat := 14

  datatype Player = Player(id: int, hand: seq<Card>, kept: seq<Card>, drawnOne: bool, lastDrew: Card, saidUno: bool)

  /** The front of the deck is drawn from; its last card is the one played last. `kept`
      is a hand as it was when its player laid a WILD_DRAW_4, and `before` are the colour
      and the content that card was laid on. */
  datatype Game = Game(players: seq<Player>, deck: seq<Card>, lastColor: Color, lastNumber: nat, before: Card,
                       reversed: bool, waitSuspect: bool, turn: nat)

  predicate IsCard(c: Card) {
    c.content <= 14 && (c.color == Black <==> c.content >= WILD)
  }

  predicate IsSeated(g: Game) {
    g.turn < |g.players|
  }

  // Turns.

  function Next(i: nat, reversed: bool, n: nat): (j: nat)
    requires i < n
    ensures j < n
  {
    if reversed then (if i + 1 < n then i + 1 else 0) else (if i > 0 then i - 1 else n - 1)
  }

  function PassOn(g: Game): (h: Game)
    requires IsSeated(g)
    ensures IsSeated(h)
  {
    g.(turn := Next(g.turn, g.reversed, |g.players|))
  }

  /** The index that `get_last_player_ref` computes. */
  function LastPlayer(g: Game): (i: nat)
    requires IsSeated(g)
    ensures i < |g.players|
  {
    Next(g.turn, !g.reversed, |g.players|)
  }

  // Cards.

  function WithHand(players: seq<Player>, i: nat, hand: seq<Card>): (r: seq<Player>)
    requires i < |players|
    ensures |r| == |players|
  {
    players[i := players[i].(hand := hand)]
  }

  /** `give`: cards move from the front of the deck to the end of the hand. */
  function Give(g: Game, i: nat, count: nat): (h: Game)
    requires i < |g.players| && count <= |g.deck|
    ensures |h.players| == |g.players| && |h.deck| == |g.deck| - count
  {
    g.(players := WithHand(g.players, i, g.players[i].hand + g.deck[..count]), deck := g.deck[count..])
  }

  function RemoveFirst(hand: seq<Card>, card: Card): (r: seq<Card>)
    ensures |r| == if card in hand then |hand| - 1 else |hand|
  {
    if hand == [] then []
    else if hand[0] == card then hand[1..]
    else [hand[0]] + RemoveFirst(hand[1..], card)
  }

  // Playing.

  /** A card that may lie on the last one: black, or of its colour or content. */
  predicate Matches(card: Card, color: Color, content: nat) {
    card.color == Black || card.color == color || card.content == content
  }

  predicate MayPlay(g: Game, id: int, card: Card)
    requires IsSeated(g)
  {
    var p := g.players[g.turn];
    && !g.waitSuspect && Matches(card, g.lastColor, g.lastNumber) && id == p.id
    && !(p.drawnOne && p.lastDrew != card)
  }

  /** The card leaves the hand for the end of the deck. */
  function LayDown(g: Game, card: Card): (h: Game)
    requires IsSeated(g)
    ensures IsSeated(h) && |h.players| == |g.players| && |h.deck| == |g.deck| + 1
  {
    var p := g.players[g.turn];
    var q := p.(drawnOne := false, kept := if card.content == WILD_DRAW_4 then p.hand else p.kept,
                hand := RemoveFirst(p.hand, card));
    g.(players := g.players[g.turn := q], deck := g.deck + [card])
  }

  /** One card is left and nobody said so. */
  predicate ForgotUno(g: Game)
    requires IsSeated(g)
  {
    |g.players[g.turn].hand| == 1 && !g.players[g.turn].saidUno
  }

  function SetSaidUno(g: Game, said: bool): (h: Game)
    requires IsSeated(g)
    ensures IsSeated(h) && |h.players| == |g.players|
  {
    g.(players := g.players[g.turn := g.players[g.turn].(saidUno := said)])
  }

  function Penalize(g: Game): (h: Game)
    requires IsSeated(g) && (ForgotUno(g) ==> |g.deck| >= 2)
    ensures IsSeated(h) && |h.players| == |g.players|
    ensures |h.deck| == |g.deck| - if ForgotUno(g) then 2 else 0
  {
    SetSaidUno(if ForgotUno(g) then Give(g, g.turn, 2) else g, false)
  }

  /** What the card does to the direction, the turn and the next player. */
  function Effect(g: Game, card: Card): (h: Game)
    requires IsSeated(g) && (card.content == DRAW_2 ==> |g.deck| >= 2)
    ensures IsSeated(h) && |h.players| == |g.players|
    ensures |h.deck| == |g.deck| - if card.content == DRAW_2 then 2 else 0
  {
    var turned := if card.content == REVERSE then g.(reversed := !g.reversed) else g;
    var passed := PassOn(turned);
    if card.content == DRAW_2 then PassOn(Give(passed, passed.turn, 2))
    else if card.content == SKIP then PassOn(passed)
    else if card.content == WILD_DRAW_4 then
      passed.(waitSuspect := true, before := Card(passed.lastColor, passed.lastNumber))
    else passed
  }

  function Declare(g: Game, card: Card, chosen: Color): Game {
    g.(lastColor := if card.color == Black then chosen else card.color, lastNumber := card.content)
  }

  /** The cards that an accepted play draws from the deck. */
  function PlayDraws(g: Game, card: Card): nat
    requires IsSeated(g)
  {
    (if ForgotUno(LayDown(g, card)) then 2 else 0) + (if card.content == DRAW_2 then 2 else 0)
  }

  function PlayCard(g: Game, card: Card, chosen: Color): (h: Game)
    requires IsSeated(g) && |g.deck| + 1 >= PlayDraws(g, card)
    ensures IsSeated(h) && |h.players| == |g.players| && |h.deck| == |g.deck| + 1 - PlayDraws(g, card)
  {
    Declare(Effect(Penalize(LayDown(g, card)), card), card, chosen)
  }

  // The other calls.

  predicate MayDraw(g: Game, id: int)
    requires IsSeated(g)
  {
    !g.waitSuspect && id == g.players[g.turn].id && !g.players[g.turn].drawnOne
  }

  function DrawDraws(g: Game): nat
    requires IsSeated(g)
  {
    if g.players[g.turn].saidUno then 3 else 1
  }

  function DrawOne(g: Game): (h: Game)
    requires IsSeated(g) && |g.deck| >= DrawDraws(g)
    ensures IsSeated(h) && |h.players| == |g.players| && |h.deck| == |g.deck| - DrawDraws(g)
  {
    var paid := if g.players[g.turn].saidUno then SetSaidUno(Give(g, g.turn, 2), false) else g;
    var drew := Give(paid, g.turn, 1);
    drew.(players := drew.players[g.turn := drew.players[g.turn].(drawnOne := true, lastDrew := paid.deck[0])])
  }

  predicate MaySkip(g: Game, id: int)
    requires IsSeated(g)
  {
    !g.waitSuspect && id == g.players[g.turn].id && g.players[g.turn].drawnOne
  }

  function SkipTurn(g: Game): (h: Game)
    requires IsSeated(g)
    ensures IsSeated(h) && |h.players| == |g.players| && h.deck == g.deck
  {
    PassOn(g.(players := g.players[g.turn := g.players[g.turn].(drawnOne := false)]))
  }

  /** The first player of that number. */
  function FindPlayer(players: seq<Player>, id: int): (i: nat)
    ensures i <= |players| && (i < |players| ==> players[i].id == id)
    ensures forall j :: 0 <= j < i ==> players[j].id != id
  {
    if players == [] || players[0].id == id then 0 else 1 + FindPlayer(players[1..], id)
  }

  /** Whom `say_uno` makes draw two cards: another player who calls, or the player with
      the turn when the call is wrong; |players| for nobody. */
  function Blamed(g: Game, id: int): (i: nat)
    requires IsSeated(g)
    ensures i <= |g.players|
  {
    if id != g.players[g.turn].id && FindPlayer(g.players, id) < |g.players| then FindPlayer(g.players, id)
    else if |g.players[g.turn].hand| != 2 then g.turn
    else |g.players|
  }

  function SayUno(g: Game, id: int): (h: Game)
    requires IsSeated(g) && (Blamed(g, id) < |g.players| ==> |g.deck| >= 2)
    ensures IsSeated(h) && |h.players| == |g.players|
  {
    if Blamed(g, id) < |g.players| then Give(g, Blamed(g, id), 2) else SetSaidUno(g, true)
  }

  predicate MayAnswer(g: Game, id: int)
    requires IsSeated(g)
  {
    g.waitSuspect && id == g.players[g.turn].id
  }

  /** The test that `suspect` makes of one card. */
  predicate Convicts(card: Card, before: Card) {
    || card.color == before.color
    || (before.content != WILD && before.content != WILD_DRAW_4 && card.content == before.content)
  }

  predicate IsGuilty(g: Game)
    requires IsSeated(g)
  {
    exists c :: c in g.players[LastPlayer(g)].kept && Convicts(c, g.before)
  }

  function SuspectDraws(g: Game): nat
    requires IsSeated(g)
  {
    if IsGuilty(g) then 4 else 6
  }

  function Suspect(g: Game): (h: Game)
    requires IsSeated(g) && |g.deck| >= SuspectDraws(g)
    ensures IsSeated(h) && |h.players| == |g.players| && |h.deck| == |g.deck| - SuspectDraws(g)
  {
    if IsGuilty(g) then Give(g, LastPlayer(g), 4).(waitSuspect := false)
    else PassOn(Give(g, g.turn, 6)).(waitSuspect := false)
  }

  function Dissuspect(g: Game): (h: Game)
    requires IsSeated(g) && |g.deck| >= 4
    ensures IsSeated(h) && |h.players| == |g.players| && |h.deck| == |g.deck| - 4
  {
    PassOn(Give(g, g.turn, 4)).(waitSuspect := false)
  }

  /** `check_winner`: the first player without cards. */
  function FindWinner(players: seq<Player>): (i: nat)
    ensures i <= |players| && (i < |players| ==> players[i].hand == [])
    ensures forall j :: 0 <= j < i ==> players[j].hand != []
  {
    if players == [] || players[0].hand == [] then 0 else 1 + FindWinner(players[1..])
  }

  // Calls.

  datatype Call =
    | CallPlay(card: Card, chosen: Color)
    | CallDrawOne
    | CallSkip
    | CallSayUno
    | CallSuspect
    | CallDissuspect

  /** Whether the call goes through. */
  predicate IsAccepted(g: Game, call: Call, id: int)
    requires IsSeated(g)
  {
    match call
    case CallPlay(card, _) => MayPlay(g, id, card)
    case CallDrawOne => MayDraw(g, id)
    case CallSkip => MaySkip(g, id)
    case CallSayUno => true
    case CallSuspect => MayAnswer(g, id)
    case CallDissuspect => MayAnswer(g, id)
  }

  /** How many cards the call draws. */
  function Draws(g: Game, call: Call, id: int): nat
    requires IsSeated(g)
  {
    match call
    case CallPlay(card, _) => PlayDraws(g, card)
    case CallDrawOne => DrawDraws(g)
    case CallSkip => 0
    case CallSayUno => if Blamed(g, id) < |g.players| then 2 else 0
    case CallSuspect => SuspectDraws(g)
    case CallDissuspect => 4
  }

  /** The deck, with the card that is played, is larger than the draw. */
  predicate HasEnough(g: Game, call: Call, id: int)
    requires IsSeated(g)
  {
    |g.deck| + (if call.CallPlay? then 1 else 0) > Draws(g, call, id)
  }

  function Step(g: Game, call: Call, id: int): (h: Game)
    requires IsSeated(g) && (IsAccepted(g, call, id) ==> HasEnough(g, call, id))
    ensures IsSeated(h) && |h.players| == |g.players|
  {
    if !IsAccepted(g, call, id) then g
    else
      match call
      case CallPlay(card, chosen) => PlayCard(g, card, chosen)
      case CallDrawOne => DrawOne(g)
      case CallSkip => SkipTurn(g)
      case CallSayUno => SayUno(g, id)
      case CallSuspect => Suspect(g)
      case CallDissuspect => Dissuspect(g)
  }
}
