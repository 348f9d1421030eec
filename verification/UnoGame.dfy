/** `Uno` (src/Uno.hpp): the object that serves the calls of a game. */
module UnoGame {
  import opened Shuffle
  import opened UnoRules
  import opened UnoInvariant
  import opened UnoDeal

  class Uno {
    var players: seq<Player>
    var allCards: seq<Card>
    var deck: seq<Card>
    var lastColor: Color
    var lastNumber: nat
    var before: Card
    var reversed: bool
    var waitSuspect: bool
    var turn: nat

    ghost function State(): Game
      reads this
    {
      Game(players, deck, lastColor, lastNumber, before, reversed, waitSuspect, turn)
    }

    ghost predicate Valid()
      reads this
    {
      3 <= |players| <= 10 && IsSeated(State()) && RecordsTop(State())
    }

    // The deal.

    /** `full` is the list of cards that the constructor fills; `FullSet()` is one. */
    constructor (full: seq<Card>, ids: seq<int>, d: Draws)
      requires IsFullSet(full) && 3 <= |ids| <= 10
      ensures Valid() && State() == Start(full, ids, d)
      ensures Cards(State()) == multiset(allCards) == multiset(full)
    {
      players, deck, allCards := [], [], full;
      lastColor, lastNumber, before, reversed, waitSuspect, turn := Red, 0, Card(Red, 0), false, false, 0;
      new;
      Seat(ids, d.seats);
      Init(full, ids, d);
      ShuffledSet(full, d.cards);
      StartIsValid(full, ids, d);
    }

    method Seat(ids: seq<int>, draw: nat -> nat)
      requires ids != [] && players == []
      modifies this`players
      ensures players == Seats(ids, draw)
    {
      for i := 0 to |ids|
        invariant players == seq(i, k requires 0 <= k < i => NewPlayer(ids[k]))
      {
        players := players + [NewPlayer(ids[i])];
      }
      var ps := players;
      var a := new Player[|ps|](i requires 0 <= i < |ps| => ps[i]);
      assert a[..] == ps;
      ShuffleInPlace(a, |ps| - 1, 0, draw);
      players := a[..];
    }

    method ShuffleAll(draw: nat -> nat)
      requires allCards != []
      modifies this`allCards
      ensures allCards == Shuffled(old(allCards), |old(allCards)| - 1, 0, draw)
    {
      var cards := allCards;
      var a := new Card[|cards|](i requires 0 <= i < |cards| => cards[i]);
      assert a[..] == cards;
      ShuffleInPlace(a, |cards| - 1, 0, draw);
      allCards := a[..];
    }

    static lemma NothingGiven(g: Game, i: nat)
      requires i < |g.players|
      ensures Give(g, i, 0) == g
    {
      assert g.players[i].hand + g.deck[..0] == g.players[i].hand;
    }

    static lemma OneMoreGiven(g: Game, i: nat, k: nat)
      requires i < |g.players| && k < |g.deck|
      ensures var h := Give(g, i, k);
        Give(g, i, k + 1) == h.(players := WithHand(h.players, i, h.players[i].hand + [h.deck[0]]), deck := h.deck[1..])
    {
      var hand := g.players[i].hand;
      assert hand + g.deck[..k + 1] == hand + g.deck[..k] + [g.deck[k]];
      assert g.deck[k..][1..] == g.deck[k + 1..];
    }

    /** `give`: the last card that is drawn is returned. */
    method GiveCards(i: nat, count: nat) returns (res: Card)
      requires i < |players| && 0 < count <= |deck|
      modifies this`players, this`deck
      ensures State() == Give(old(State()), i, count)
      ensures res == old(deck)[count - 1]
    {
      res := Card(Red, 0);
      ghost var g := State();
      NothingGiven(g, i);
      for k := 0 to count
        invariant State() == Give(g, i, k)
        invariant k > 0 ==> res == g.deck[k - 1]
      {
        res := deck[0];
        players := players[i := players[i].(hand := players[i].hand + [res])];
        deck := deck[1..];
        OneMoreGiven(g, i, k);
      }
    }

    /** Seven cards to each player, from empty hands. */
    method DealHands()
      requires |deck| >= 7 * |players|
      requires forall i :: 0 <= i < |players| ==> IsFresh(players[i])
      modifies this`players, this`deck
      ensures State() == DealFrom(old(State()), 0)
    {
      ghost var g := State();
      for i := 0 to |players|
        invariant |players| == |g.players| && |deck| == |g.deck| - 7 * i
        invariant forall j :: i <= j < |players| ==> players[j] == g.players[j]
        invariant DealFrom(State(), i) == DealFrom(g, 0)
      {
        ghost var now := players;
        assert IsFresh(now[i]);
        players := players[i := players[i].(hand := [], drawnOne := false, saidUno := false)];
        assert players == now;
        var last := GiveCards(i, 7);
      }
    }

    method TurnDeck()
      requires deck != []
      modifies this`deck
      ensures deck == Turn(old(deck))
    {
      deck := deck + [deck[0]];
      deck := deck[1..];
    }

    method TurnUpNumber()
      requires HasNumber(deck)
      modifies this`deck
      ensures deck == TurnedUp(old(deck))
    {
      while deck[|deck| - 1].content > 10
        invariant HasNumber(deck) && TurnedUp(deck) == TurnedUp(old(deck))
        decreases Turns(deck)
      {
        TurnedUpStep(deck);
        TurnDeck();
      }
    }

    method TurnUpFirst()
      requires HasNumber(deck)
      modifies this`deck, this`lastColor, this`lastNumber, this`reversed
      ensures State() == TurnUp(old(State())).(reversed := false)
    {
      TurnUpNumber();
      lastColor := deck[|deck| - 1].color;
      lastNumber := deck[|deck| - 1].content;
      reversed := false;
    }

    /** `init` for the first game of the object. */
    method Init(ghost full: seq<Card>, ghost ids: seq<int>, d: Draws)
      requires 3 <= |ids| <= 10 && IsFullSet(full) && allCards == full && players == Seats(ids, d.seats)
      requires State() == Laid(players, [], 0)
      modifies this
      ensures allCards == Shuffled(full, |full| - 1, 0, d.cards)
      ensures State() == Start(full, ids, d)
    {
      ShuffledSet(full, d.cards);
      ShuffleAll(d.cards);
      deck := allCards;
      turn := Pick(d.first, |players|);
      ghost var table := Laid(players, deck, turn);
      SeatsAre(ids, d.seats);
      DealtDeckHasNumber(players, deck, turn);
      assert State() == table;
      DealHands();
      TurnUpFirst();
    }

    // Turns.

    static lemma WrapOnce(x: int, n: nat)
      requires 0 < n && -1 <= x <= n
      ensures (x + n) % n == if x == -1 then n - 1 else if x == n then 0 else x
    {
      var q := (x + n) / n;
      assert x + n == q * n + (x + n) % n;
      assert q == if x == -1 then 0 else if x == n then 2 else 1;
    }

    method GoNext()
      requires IsSeated(State())
      modifies this`turn
      ensures State() == PassOn(old(State()))
    {
      var index: int := turn;
      if reversed {
        index := index + 1;
      } else {
        index := index - 1;
      }
      WrapOnce(index, |players|);
      turn := (index + |players|) % |players|;
    }

    method GetLastPlayer() returns (i: nat)
      requires IsSeated(State())
      ensures i == LastPlayer(State())
    {
      var index: int := if reversed then turn - 1 else turn + 1;
      WrapOnce(index, |players|);
      i := (index + |players|) % |players|;
    }

    // Calls.

    method EraseFirst(hand: seq<Card>, card: Card) returns (rest: seq<Card>)
      ensures rest == RemoveFirst(hand, card)
    {
      var it := 0;
      while it != |hand|
        invariant it <= |hand| && RemoveFirst(hand, card) == hand[..it] + RemoveFirst(hand[it..], card)
        decreases |hand| - it
      {
        assert hand[it..][1..] == hand[it + 1..];
        if hand[it] == card {
          return hand[..it] + hand[it + 1..];
        }
        ghost var tail := RemoveFirst(hand[it + 1..], card);
        assert hand[..it] + ([hand[it]] + tail) == hand[..it + 1] + tail;
        it := it + 1;
      }
      assert hand[..it] == hand;
      rest := hand;
    }

    method PutDown(card: Card)
      requires IsSeated(State())
      modifies this`players, this`deck
      ensures State() == LayDown(old(State()), card)
    {
      var p := players[turn].(drawnOne := false);
      if card.content == WILD_DRAW_4 {
        p := p.(kept := p.hand);
      }
      deck := deck + [card];
      var rest := EraseFirst(p.hand, card);
      p := p.(hand := rest);
      players := players[turn := p];
    }

    method Punish() returns (punish: bool)
      requires IsSeated(State()) && (ForgotUno(State()) ==> |deck| >= 2)
      modifies this`players, this`deck
      ensures punish <==> old(ForgotUno(State()))
      ensures State() == Penalize(old(State()))
    {
      punish := false;
      if |players[turn].hand| == 1 && !players[turn].saidUno {
        punish := true;
        var res := GiveCards(turn, 2);
      }
      players := players[turn := players[turn].(saidUno := false)];
    }

    method TakeEffect(card: Card)
      requires IsSeated(State()) && (card.content == DRAW_2 ==> |deck| >= 2)
      modifies this`players, this`deck, this`turn, this`reversed, this`waitSuspect, this`before
      ensures State() == Effect(old(State()), card)
    {
      if card.content == REVERSE {
        reversed := !reversed;
      }
      GoNext();
      if card.content == DRAW_2 {
        var res := GiveCards(turn, 2);
        GoNext();
      } else if card.content == SKIP {
        GoNext();
      } else if card.content == WILD_DRAW_4 {
        waitSuspect := true;
        before := Card(lastColor, lastNumber);
      }
    }

    method Record(card: Card, chosen: Color)
      modifies this`lastColor, this`lastNumber
      ensures State() == Declare(old(State()), card, chosen)
    {
      if card.color == Black {
        lastColor := chosen;
      } else {
        lastColor := card.color;
      }
      lastNumber := card.content;
    }

    /** What an accepted play does. */
    method Lay(card: Card, chosen: Color) returns (punish: bool)
      requires IsSeated(State()) && |deck| + 1 >= PlayDraws(State(), card)
      modifies this`players, this`deck, this`turn, this`reversed, this`waitSuspect
      modifies this`before, this`lastColor, this`lastNumber
      ensures State() == PlayCard(old(State()), card, chosen)
      ensures punish <==> old(ForgotUno(LayDown(State(), card)))
    {
      PutDown(card);
      punish := Punish();
      TakeEffect(card);
      Record(card, chosen);
    }

    /** `play`: whether the card is accepted, and whether UNO was forgotten. */
    method Play(player: int, card: Card, chosen: Color) returns (ok: bool, punish: bool)
      requires IsSeated(State()) && (MayPlay(State(), player, card) ==> |deck| + 1 >= PlayDraws(State(), card))
      modifies this`players, this`deck, this`turn, this`reversed, this`waitSuspect
      modifies this`before, this`lastColor, this`lastNumber
      ensures ok <==> old(MayPlay(State(), player, card))
      ensures State() == if ok then PlayCard(old(State()), card, chosen) else old(State())
      ensures punish <==> ok && old(ForgotUno(LayDown(State(), card)))
    {
      punish := false;
      if waitSuspect {
        return false, false;
      }
      ok := if card.color == Black then true else card.color == lastColor || card.content == lastNumber;
      if !ok {
        return;
      }
      var p := players[turn];
      if player != p.id {
        return false, false;
      }
      if p.drawnOne && p.lastDrew != card {
        return false, false;
      }
      punish := Lay(card, chosen);
      ok := true;
    }

    method DrawACard(player: int) returns (ok: bool, punish: bool, card: Card)
      requires IsSeated(State()) && (MayDraw(State(), player) ==> |deck| >= DrawDraws(State()))
      modifies this`players, this`deck
      ensures ok <==> old(MayDraw(State(), player))
      ensures State() == if ok then DrawOne(old(State())) else old(State())
      ensures punish <==> ok && old(players[turn].saidUno)
      ensures ok ==> card == players[turn].lastDrew
    {
      punish, card := false, Card(Red, 0);
      if waitSuspect {
        return false, punish, card;
      }
      if player != players[turn].id {
        return false, punish, card;
      }
      if players[turn].drawnOne {
        return false, punish, card;
      }
      if players[turn].saidUno {
        punish := true;
        var res := GiveCards(turn, 2);
        players := players[turn := players[turn].(saidUno := false)];
      }
      players := players[turn := players[turn].(drawnOne := true)];
      card := GiveCards(turn, 1);
      players := players[turn := players[turn].(lastDrew := card)];
      ok := true;
    }

    method SkipAfterDrawingOne(player: int) returns (ok: bool)
      requires IsSeated(State())
      modifies this`players, this`turn
      ensures ok <==> old(MaySkip(State(), player))
      ensures State() == if ok then SkipTurn(old(State())) else old(State())
    {
      if waitSuspect {
        return false;
      }
      if player != players[turn].id {
        return false;
      }
      if !players[turn].drawnOne {
        return false;
      }
      players := players[turn := players[turn].(drawnOne := false)];
      GoNext();
      ok := true;
    }

    method FindIndex(id: int) returns (i: nat)
      ensures i == FindPlayer(players, id)
    {
      i := 0;
      while i < |players| && players[i].id != id
        invariant i <= |players| && FindPlayer(players, id) == i + FindPlayer(players[i..], id)
      {
        assert players[i..][1..] == players[i + 1..];
        i := i + 1;
      }
    }

    /** True only for the player with the turn, who has two cards left. */
    method SayUnoAloud(player: int) returns (ok: bool)
      requires IsSeated(State()) && (Blamed(State(), player) < |players| ==> |deck| >= 2)
      modifies this`players, this`deck
      ensures ok <==> old(Blamed(State(), player)) == |players|
      ensures State() == SayUno(old(State()), player)
    {
      if player != players[turn].id {
        var other := FindIndex(player);
        if other < |players| {
          var res := GiveCards(other, 2);
          return false;
        }
      }
      if |players[turn].hand| != 2 {
        var res := GiveCards(turn, 2);
        return false;
      }
      players := players[turn := players[turn].(saidUno := true)];
      ok := true;
    }

    method AnyConvicts(kept: seq<Card>) returns (success: bool)
      ensures success <==> exists c :: c in kept && Convicts(c, before)
    {
      success := false;
      for i := 0 to |kept|
        invariant forall j :: 0 <= j < i ==> !Convicts(kept[j], before)
      {
        var card := kept[i];
        if card.color == before.color
           || (before.content != WILD && before.content != WILD_DRAW_4 && card.content == before.content) {
          assert card in kept && Convicts(card, before);
          return true;
        }
      }
    }

    /** `suspect`: whether the call is valid, whether it succeeds, whom it suspects, and
        that player's cards. */
    method SuspectLast(player: int) returns (valid: bool, success: bool, suspect: int, cards: seq<Card>)
      requires IsSeated(State()) && (MayAnswer(State(), player) ==> |deck| >= SuspectDraws(State()))
      modifies this`players, this`deck, this`turn, this`waitSuspect
      ensures valid <==> old(MayAnswer(State(), player))
      ensures State() == if valid then Suspect(old(State())) else old(State())
      ensures valid ==> (success <==> old(IsGuilty(State())))
      ensures valid ==> var i := old(LastPlayer(State())); suspect == players[i].id && cards == players[i].hand
    {
      success, suspect, cards := false, 0, [];
      if !waitSuspect {
        return false, success, suspect, cards;
      }
      var last := GetLastPlayer();
      if player != players[turn].id {
        return false, success, suspect, cards;
      }
      valid := true;
      success := AnyConvicts(players[last].kept);
      if success {
        var res := GiveCards(last, 4);
      } else {
        var res := GiveCards(turn, 6);
        GoNext();
      }
      waitSuspect := false;
      suspect, cards := players[last].id, players[last].hand;
    }

    method DissuspectLast(player: int) returns (ok: bool)
      requires IsSeated(State()) && (MayAnswer(State(), player) ==> |deck| >= 4)
      modifies this`players, this`deck, this`turn, this`waitSuspect
      ensures ok <==> old(MayAnswer(State(), player))
      ensures State() == if ok then Dissuspect(old(State())) else old(State())
    {
      if !waitSuspect {
        return false;
      }
      if player != players[turn].id {
        return false;
      }
      var res := GiveCards(turn, 4);
      GoNext();
      waitSuspect := false;
      ok := true;
    }

    method CheckWinner() returns (won: bool, winner: int)
      ensures won <==> FindWinner(players) < |players|
      ensures won ==> winner == players[FindWinner(players)].id
    {
      won, winner := false, 0;
      for i := 0 to |players|
        invariant forall j :: 0 <= j < i ==> players[j].hand != []
      {
        if players[i].hand == [] {
          return true, players[i].id;
        }
      }
    }

    method Serve(call: Call, player: int) returns (ok: bool)
      requires IsSeated(State()) && IsProper(State(), call, player)
      modifies this`players, this`deck, this`turn, this`reversed, this`waitSuspect
      modifies this`before, this`lastColor, this`lastNumber
      ensures State() == Step(old(State()), call, player)
    {
      match call {
        case CallPlay(card, chosen) =>
          var punish;
          ok, punish := Play(player, card, chosen);
        case CallDrawOne =>
          var punish, card;
          ok, punish, card := DrawACard(player);
        case CallSkip => ok := SkipAfterDrawingOne(player);
        case CallSayUno => ok := SayUnoAloud(player);
        case CallSuspect =>
          var success, suspect, cards;
          ok, success, suspect, cards := SuspectLast(player);
        case CallDissuspect => ok := DissuspectLast(player);
      }
    }

    /** Serves a call of a player, as the room does. */
    method Process(call: Call, player: int) returns (ok: bool)
      requires Valid() && IsProper(State(), call, player)
      modifies this`players, this`deck, this`turn, this`reversed, this`waitSuspect
      modifies this`before, this`lastColor, this`lastNumber
      ensures Valid() && State() == Step(old(State()), call, player)
      ensures Cards(State()) == old(Cards(State()) + Conjured(State(), call, player))
    {
      StepKeeps(State(), call, player, Cards(State()));
      ok := Serve(call, player);
    }
  }
}
