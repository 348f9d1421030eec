/** What every call keeps in a game of `Uno` (src/Uno.hpp): the cards, and the record of
    the card played last. */
module UnoInvariant {
  import opened Multisets
  import opened UnoRules

  // The cards.

  function Hands(players: seq<Player>): multiset<Card> {
    if players == [] then multiset{} else Hands(players[..|players| - 1]) + multiset(players[|players| - 1].hand)
  }

  /** All cards of the game. */
  function Cards(g: Game): multiset<Card> {
    Hands(g.players) + multiset(g.deck)
  }

  lemma {:induction false} HandsUpdate(players: seq<Player>, i: nat, q: Player)
    requires i < |players|
    ensures Hands(players[i := q]) + multiset(players[i].hand) == Hands(players) + multiset(q.hand)
    decreases |players|
  {
    var n := |players| - 1;
    if i < n {
      assert players[i := q][..n] == players[..n][i := q];
      HandsUpdate(players[..n], i, q);
      var last := multiset(players[n].hand);
      assert Hands(players[i := q]) == Hands(players[..n][i := q]) + last;
      AddBoth(Hands(players[..n][i := q]), multiset(players[i].hand), Hands(players[..n]), multiset(q.hand), last);
    } else {
      assert players[i := q][..n] == players[..n];
    }
  }

  lemma Cancel<T>(a: multiset<T>, b: multiset<T>, x: multiset<T>)
    requires a + x == b + x
    ensures a == b
  {
    assert a == (a + x) - x;
    assert b == (b + x) - x;
  }

  lemma SameHand(players: seq<Player>, i: nat, q: Player)
    requires i < |players| && q.hand == players[i].hand
    ensures Hands(players[i := q]) == Hands(players)
  {
    HandsUpdate(players, i, q);
    Cancel(Hands(players[i := q]), Hands(players), multiset(q.hand));
  }

  lemma SplitDeck<T>(s: seq<T>, k: nat)
    requires k <= |s|
    ensures multiset(s[..k]) + multiset(s[k..]) == multiset(s)
  {
    assert s == s[..k] + s[k..];
  }

  lemma Append<T>(s: seq<T>, t: seq<T>)
    ensures multiset(s + t) == multiset(s) + multiset(t)
  {
  }

  /** A hand that takes what the deck loses. */
  lemma Exchange<T>(hands: multiset<T>, others: multiset<T>, hand: multiset<T>, x: multiset<T>, deck: multiset<T>)
    requires others + hand == hands + (hand + x)
    ensures others + deck == hands + (x + deck)
  {
    assert hands + (hand + x) == hands + x + hand;
    Cancel(others, hands + x, hand);
    assert hands + x + deck == hands + (x + deck);
  }

  /** Dealing out loses no card. */
  lemma GiveKeeps(g: Game, i: nat, count: nat)
    requires i < |g.players| && count <= |g.deck|
    ensures Cards(Give(g, i, count)) == Cards(g)
  {
    var hand, drawn := g.players[i].hand, g.deck[..count];
    HandsUpdate(g.players, i, g.players[i].(hand := hand + drawn));
    SplitDeck(g.deck, count);
    Append(hand, drawn);
    Exchange(Hands(g.players), Hands(Give(g, i, count).players), multiset(hand), multiset(drawn),
             multiset(g.deck[count..]));
  }

  lemma {:induction false} RemoveOne(hand: seq<Card>, card: Card)
    ensures card in hand ==> multiset(RemoveFirst(hand, card)) + multiset{card} == multiset(hand)
    ensures card !in hand ==> RemoveFirst(hand, card) == hand
  {
    if hand != [] {
      assert hand == [hand[0]] + hand[1..];
      RemoveOne(hand[1..], card);
    }
  }

  lemma Lay<T>(a: multiset<T>, hand: multiset<T>, b: multiset<T>, rest: multiset<T>, x: multiset<T>, deck: multiset<T>)
    requires a + hand == b + rest && rest + x == hand
    ensures a + (deck + x) == b + deck
  {
    assert a + hand == a + x + rest;
    Cancel(a + x, b, rest);
    assert a + (deck + x) == a + x + deck;
  }

  /** Laying a card down keeps the cards of the game exactly when it was held; otherwise
      the game has one card more. */
  lemma LayDownKeeps(g: Game, card: Card)
    requires IsSeated(g)
    ensures Cards(LayDown(g, card)) == if card in g.players[g.turn].hand then Cards(g) else Cards(g) + multiset{card}
  {
    var hand := g.players[g.turn].hand;
    var q := LayDown(g, card).players[g.turn];
    RemoveOne(hand, card);
    HandsUpdate(g.players, g.turn, q);
    Append(g.deck, [card]);
    if card in hand {
      Lay(Hands(LayDown(g, card).players), multiset(hand), Hands(g.players), multiset(q.hand), multiset{card},
          multiset(g.deck));
    } else {
      SameHand(g.players, g.turn, q);
    }
  }

  lemma SetSaidUnoKeeps(g: Game, said: bool)
    requires IsSeated(g)
    ensures Cards(SetSaidUno(g, said)) == Cards(g)
  {
    SameHand(g.players, g.turn, SetSaidUno(g, said).players[g.turn]);
  }

  lemma PenalizeKeeps(g: Game)
    requires IsSeated(g) && (ForgotUno(g) ==> |g.deck| >= 2)
    ensures Cards(Penalize(g)) == Cards(g)
  {
    if ForgotUno(g) { GiveKeeps(g, g.turn, 2); }
    SetSaidUnoKeeps(if ForgotUno(g) then Give(g, g.turn, 2) else g, false);
  }

  lemma EffectKeeps(g: Game, card: Card)
    requires IsSeated(g) && (card.content == DRAW_2 ==> |g.deck| >= 2)
    ensures Cards(Effect(g, card)) == Cards(g)
  {
    if card.content == DRAW_2 { GiveKeeps(PassOn(g), PassOn(g).turn, 2); }
  }

  /** A play keeps the cards of the game when the card was held; otherwise the game has
      that card more, since nobody looks whether it is held. */
  lemma PlayKeepsCards(g: Game, card: Card, chosen: Color)
    requires IsSeated(g) && |g.deck| + 1 >= PlayDraws(g, card)
    ensures Cards(PlayCard(g, card, chosen))
         == if card in g.players[g.turn].hand then Cards(g) else Cards(g) + multiset{card}
  {
    LayDownKeeps(g, card);
    PenalizeKeeps(LayDown(g, card));
    EffectKeeps(Penalize(LayDown(g, card)), card);
  }

  lemma DrawOneKeeps(g: Game)
    requires IsSeated(g) && |g.deck| >= DrawDraws(g)
    ensures Cards(DrawOne(g)) == Cards(g)
  {
    var paid := g;
    if g.players[g.turn].saidUno {
      GiveKeeps(g, g.turn, 2);
      SetSaidUnoKeeps(Give(g, g.turn, 2), false);
      paid := SetSaidUno(Give(g, g.turn, 2), false);
    }
    GiveKeeps(paid, g.turn, 1);
    var drew := Give(paid, g.turn, 1);
    SameHand(drew.players, g.turn, DrawOne(g).players[g.turn]);
  }

  lemma SkipKeeps(g: Game)
    requires IsSeated(g)
    ensures Cards(SkipTurn(g)) == Cards(g)
  {
    SameHand(g.players, g.turn, SkipTurn(g).players[g.turn]);
  }

  // The card played last.

  function Top(g: Game): Card
    requires g.deck != []
  {
    g.deck[|g.deck| - 1]
  }

  /** The record agrees with the last card of the deck; only a black card leaves the
      colour to its player. */
  predicate RecordsTop(g: Game) {
    g.deck != [] && g.lastNumber == Top(g).content && (Top(g).color != Black ==> g.lastColor == Top(g).color)
  }

  /** The deck has lost cards at the front only, and the record is the same. */
  predicate OnlyDrawn(g: Game, h: Game) {
    && 0 < |h.deck| <= |g.deck| && h.deck == g.deck[|g.deck| - |h.deck|..]
    && h.lastColor == g.lastColor && h.lastNumber == g.lastNumber
  }

  lemma DrawingKeepsTop(g: Game, h: Game)
    requires OnlyDrawn(g, h)
    ensures Top(h) == Top(g) && (RecordsTop(g) ==> RecordsTop(h))
  {
  }

  lemma DrawnTwice(g: Game, mid: Game, h: Game)
    requires OnlyDrawn(g, mid) && OnlyDrawn(mid, h)
    ensures OnlyDrawn(g, h)
  {
    assert mid.deck[|mid.deck| - |h.deck|..] == g.deck[|g.deck| - |h.deck|..];
  }

  lemma EffectDraws(g: Game, card: Card)
    requires IsSeated(g) && |g.deck| > if card.content == DRAW_2 then 2 else 0
    ensures OnlyDrawn(g, Effect(g, card))
  {
  }

  lemma PenalizeDraws(g: Game)
    requires IsSeated(g) && |g.deck| > if ForgotUno(g) then 2 else 0
    ensures OnlyDrawn(g, Penalize(g))
  {
  }

  lemma DeclaredTop(laid: Game, h: Game, card: Card, chosen: Color)
    requires OnlyDrawn(laid, h) && laid.deck != [] && Top(laid) == card
    ensures Top(Declare(h, card, chosen)) == card && RecordsTop(Declare(h, card, chosen))
  {
    DrawingKeepsTop(laid, h);
  }

  lemma PlayRecords(g: Game, card: Card, chosen: Color)
    requires IsSeated(g) && |g.deck| + 1 > PlayDraws(g, card)
    ensures PlayCard(g, card, chosen).deck != [] && Top(PlayCard(g, card, chosen)) == card
    ensures RecordsTop(PlayCard(g, card, chosen))
  {
    var laid := LayDown(g, card);
    PenalizeDraws(laid);
    EffectDraws(Penalize(laid), card);
    DrawnTwice(laid, Penalize(laid), Effect(Penalize(laid), card));
    DeclaredTop(laid, Effect(Penalize(laid), card), card, chosen);
  }

  lemma DrawOneRecords(g: Game)
    requires IsSeated(g) && |g.deck| > DrawDraws(g)
    ensures OnlyDrawn(g, DrawOne(g))
  {
  }

  // Every call.

  lemma SayUnoKeeps(g: Game, id: int)
    requires IsSeated(g) && RecordsTop(g) && (Blamed(g, id) < |g.players| ==> |g.deck| > 2)
    ensures Cards(SayUno(g, id)) == Cards(g) && RecordsTop(SayUno(g, id))
  {
    if Blamed(g, id) < |g.players| {
      GiveKeeps(g, Blamed(g, id), 2);
      DrawingKeepsTop(g, Give(g, Blamed(g, id), 2));
    } else {
      SetSaidUnoKeeps(g, true);
    }
  }

  lemma SuspectKeeps(g: Game)
    requires IsSeated(g) && RecordsTop(g) && |g.deck| > SuspectDraws(g)
    ensures Cards(Suspect(g)) == Cards(g) && RecordsTop(Suspect(g))
  {
    if IsGuilty(g) {
      GiveKeeps(g, LastPlayer(g), 4);
      DrawingKeepsTop(g, Give(g, LastPlayer(g), 4));
    } else {
      GiveKeeps(g, g.turn, 6);
      DrawingKeepsTop(g, Give(g, g.turn, 6));
    }
  }

  ghost predicate Inv(g: Game, full: multiset<Card>) {
    3 <= |g.players| <= 10 && IsSeated(g) && Cards(g) == full && RecordsTop(g)
  }

  /** What a call is promised: enough cards to draw. */
  predicate IsProper(g: Game, call: Call, id: int)
    requires IsSeated(g)
  {
    IsAccepted(g, call, id) ==> HasEnough(g, call, id)
  }

  /** The call lays no card that the player to move does not hold. */
  predicate Holds(g: Game, call: Call, id: int)
    requires IsSeated(g)
  {
    IsAccepted(g, call, id) && call.CallPlay? ==> call.card in g.players[g.turn].hand
  }

  /** The card that the call brings into the game. */
  function Conjured(g: Game, call: Call, id: int): multiset<Card>
    requires IsSeated(g)
  {
    if Holds(g, call, id) then multiset{} else multiset{call.card}
  }

  lemma PlayStepKeeps(g: Game, card: Card, chosen: Color, id: int, full: multiset<Card>)
    requires Inv(g, full) && MayPlay(g, id, card) && |g.deck| + 1 > PlayDraws(g, card)
    ensures Inv(PlayCard(g, card, chosen), full + Conjured(g, CallPlay(card, chosen), id))
  {
    PlayKeepsCards(g, card, chosen);
    PlayRecords(g, card, chosen);
  }

  /** No call loses a card or loses track of the card played last, and only a card that is
      not held and played all the same is added. */
  lemma StepKeeps(g: Game, call: Call, id: int, full: multiset<Card>)
    requires Inv(g, full) && IsProper(g, call, id)
    ensures Inv(Step(g, call, id), full + Conjured(g, call, id))
  {
    if IsAccepted(g, call, id) {
      match call
      case CallPlay(card, chosen) => PlayStepKeeps(g, card, chosen, id, full);
      case CallDrawOne => DrawOneKeeps(g); DrawOneRecords(g); DrawingKeepsTop(g, DrawOne(g));
      case CallSkip => SkipKeeps(g); DrawingKeepsTop(g, SkipTurn(g));
      case CallSayUno => SayUnoKeeps(g, id);
      case CallSuspect => SuspectKeeps(g);
      case CallDissuspect => GiveKeeps(g, g.turn, 4); DrawingKeepsTop(g, Dissuspect(g));
    }
  }

  /** While the players choose real colours, the colour to match is a real one. */
  lemma ColorStaysNamed(g: Game, call: Call, id: int)
    requires IsSeated(g) && IsProper(g, call, id) && g.lastColor != Black
    requires call.CallPlay? ==> call.chosen != Black
    ensures Step(g, call, id).lastColor != Black
  {
  }

  datatype Request = Request(call: Call, id: int)

  /** `h` is reached from `g` by proper calls. */
  ghost predicate Reaches(g: Game, requests: seq<Request>, h: Game)
    decreases |requests|
  {
    if requests == [] then h == g
    else
      && IsSeated(g) && IsProper(g, requests[0].call, requests[0].id)
      && Reaches(Step(g, requests[0].call, requests[0].id), requests[1..], h)
  }

  /** The cards that the calls bring into the game. */
  ghost function AllConjured(g: Game, requests: seq<Request>): multiset<Card>
    decreases |requests|
  {
    if requests == [] || !IsSeated(g) || !IsProper(g, requests[0].call, requests[0].id) then multiset{}
    else
      Conjured(g, requests[0].call, requests[0].id)
      + AllConjured(Step(g, requests[0].call, requests[0].id), requests[1..])
  }

  /** Every card that is laid was held. */
  ghost predicate AllHeld(g: Game, requests: seq<Request>, h: Game)
    requires Reaches(g, requests, h)
    decreases |requests|
  {
    requests != [] ==>
      && Holds(g, requests[0].call, requests[0].id)
      && AllHeld(Step(g, requests[0].call, requests[0].id), requests[1..], h)
  }

  lemma {:induction false} NoneConjured(g: Game, requests: seq<Request>, h: Game)
    requires Reaches(g, requests, h)
    ensures AllConjured(g, requests) == multiset{} <==> AllHeld(g, requests, h)
    decreases |requests|
  {
    if requests != [] {
      NoneConjured(Step(g, requests[0].call, requests[0].id), requests[1..], h);
      if !Holds(g, requests[0].call, requests[0].id) {
        assert requests[0].call.card in AllConjured(g, requests);
      }
    }
  }

  lemma AddNothing<T>(a: multiset<T>, b: multiset<T>)
    ensures a + b == a <==> b == multiset{}
  {
    assert b == (a + b) - a;
    assert a - a == multiset{};
  }

  lemma SumUp<T>(a: multiset<T>, b: multiset<T>, c: multiset<T>)
    ensures a + b + c == a + (b + c)
  {
  }

  /** In every run the cards are those of the beginning and the conjured ones: the same as
      in the beginning if and only if every card that was laid was held. */
  lemma {:induction false} RunKeeps(g: Game, requests: seq<Request>, h: Game, full: multiset<Card>)
    requires Inv(g, full) && Reaches(g, requests, h)
    ensures Inv(h, full + AllConjured(g, requests))
    ensures Inv(h, full) <==> AllHeld(g, requests, h)
    decreases |requests|
  {
    AddNothing(full, AllConjured(g, requests));
    NoneConjured(g, requests, h);
    if requests != [] {
      var next, conjured := Step(g, requests[0].call, requests[0].id), Conjured(g, requests[0].call, requests[0].id);
      StepKeeps(g, requests[0].call, requests[0].id, full);
      RunKeeps(next, requests[1..], h, full + conjured);
      SumUp(full, conjured, AllConjured(next, requests[1..]));
    }
  }
}
