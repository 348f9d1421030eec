/** The cards of `Uno` and the deal (src/Uno.hpp). */
module UnoDeal {
  import opened Shuffle
  import opened UnoRules
  import opened UnoInvariant

  // The full set of cards.

  /** Two cards of each content from `content` to REVERSE. */
  function Pairs(color: Color, content: nat): (s: seq<Card>)
    requires content <= 13
    decreases 13 - content
  {
    if content == 13 then [] else [Card(color, content), Card(color, content)] + Pairs(color, content + 1)
  }

  function Suit(color: Color): seq<Card> {
    Pairs(color, 1)
  }

  function Wilds(n: nat): (s: seq<Card>) {
    if n == 0 then [] else [Card(Black, WILD), Card(Black, WILD_DRAW_4)] + Wilds(n - 1)
  }

  /** The 108 cards. */
  function FullSet(): seq<Card> {
    Suit(Red) + Suit(Yellow) + Suit(Green) + Suit(Blue)
    + [Card(Red, 0), Card(Yellow, 0), Card(Green, 0), Card(Blue, 0)]
    + Wilds(4)
  }

  /** `is_number_card`; SKIP counts as one. */
  predicate IsNumber(c: Card) {
    c.content <= 10
  }

  /** How many cards are no number cards. */
  function Others(s: seq<Card>): nat {
    if s == [] then 0 else Others(s[..|s| - 1]) + if IsNumber(s[|s| - 1]) then 0 else 1
  }

  lemma {:induction false} OthersAppend(s: seq<Card>, t: seq<Card>)
    ensures Others(s + t) == Others(s) + Others(t)
    decreases |t|
  {
    if t == [] {
      assert s + t == s;
    } else {
      assert (s + t)[..|s + t| - 1] == s + t[..|t| - 1];
      OthersAppend(s, t[..|t| - 1]);
    }
  }

  lemma OthersOfOne(c: Card)
    ensures Others([c]) == if IsNumber(c) then 0 else 1
  {
    assert [c][..0] == [];
  }

  lemma OthersOfTwo(c: Card, d: Card)
    ensures Others([c, d]) == (if IsNumber(c) then 0 else 1) + (if IsNumber(d) then 0 else 1)
  {
    OthersOfOne(c);
    OthersOfOne(d);
    OthersAppend([c], [d]);
    assert [c, d] == [c] + [d];
  }

  ghost predicate AreCards(s: seq<Card>) {
    forall c :: c in s ==> IsCard(c)
  }

  lemma TwoMore(color: Color, content: nat, rest: seq<Card>)
    requires color != Black && content < WILD && AreCards(rest)
    ensures var s := [Card(color, content), Card(color, content)] + rest;
      AreCards(s) && |s| == 2 + |rest| && Others(s) == Others(rest) + if content <= 10 then 0 else 2
  {
    OthersOfTwo(Card(color, content), Card(color, content));
    OthersAppend([Card(color, content), Card(color, content)], rest);
  }

  lemma {:induction false} PairsAre(color: Color, content: nat)
    requires color != Black && 1 <= content <= 13
    ensures |Pairs(color, content)| == 2 * (13 - content) && AreCards(Pairs(color, content))
    ensures Others(Pairs(color, content)) == if content <= 11 then 4 else 2 * (13 - content)
    decreases 13 - content
  {
    if content < 13 {
      PairsAre(color, content + 1);
      TwoMore(color, content, Pairs(color, content + 1));
    }
  }

  lemma {:induction false} WildsAre(n: nat)
    ensures |Wilds(n)| == 2 * n && AreCards(Wilds(n)) && Others(Wilds(n)) == 2 * n
  {
    if n > 0 {
      var two := [Card(Black, WILD), Card(Black, WILD_DRAW_4)];
      WildsAre(n - 1);
      OthersAppend(two, Wilds(n - 1));
      OthersOfTwo(Card(Black, WILD), Card(Black, WILD_DRAW_4));
    }
  }

  /** A full set to play with: only 24 of its cards are no number cards. */
  ghost predicate IsFullSet(full: seq<Card>) {
    |full| == 108 && AreCards(full) && Others(full) == 24
  }

  lemma JoinSets(s: seq<Card>, t: seq<Card>, n: nat, m: nat, a: nat, b: nat)
    requires |s| == n && AreCards(s) && Others(s) == a && |t| == m && AreCards(t) && Others(t) == b
    ensures |s + t| == n + m && AreCards(s + t) && Others(s + t) == a + b
  {
    OthersAppend(s, t);
  }

  lemma ZerosAre(s: seq<Card>)
    requires s == [Card(Red, 0), Card(Yellow, 0), Card(Green, 0), Card(Blue, 0)]
    ensures |s| == 4 && AreCards(s) && Others(s) == 0
  {
    OthersOfTwo(s[0], s[1]);
    OthersOfTwo(s[2], s[3]);
    OthersAppend([s[0], s[1]], [s[2], s[3]]);
    assert s == [s[0], s[1]] + [s[2], s[3]];
  }

  lemma FullSetOf(red: seq<Card>, yellow: seq<Card>, green: seq<Card>, blue: seq<Card>, zeros: seq<Card>,
      wilds: seq<Card>)
    requires |red| == 24 && AreCards(red) && Others(red) == 4
    requires |yellow| == 24 && AreCards(yellow) && Others(yellow) == 4
    requires |green| == 24 && AreCards(green) && Others(green) == 4
    requires |blue| == 24 && AreCards(blue) && Others(blue) == 4
    requires |zeros| == 4 && AreCards(zeros) && Others(zeros) == 0
    requires |wilds| == 8 && AreCards(wilds) && Others(wilds) == 8
    ensures IsFullSet(red + yellow + green + blue + zeros + wilds)
  {
    JoinSets(red, yellow, 24, 24, 4, 4);
    JoinSets(red + yellow, green, 48, 24, 8, 4);
    JoinSets(red + yellow + green, blue, 72, 24, 12, 4);
    JoinSets(red + yellow + green + blue, zeros, 96, 4, 16, 0);
    JoinSets(red + yellow + green + blue + zeros, wilds, 100, 8, 16, 8);
  }

  lemma FullSetIsFull()
    ensures IsFullSet(FullSet())
  {
    var zeros := [Card(Red, 0), Card(Yellow, 0), Card(Green, 0), Card(Blue, 0)];
    PairsAre(Red, 1);
    PairsAre(Yellow, 1);
    PairsAre(Green, 1);
    PairsAre(Blue, 1);
    ZerosAre(zeros);
    WildsAre(4);
    FullSetOf(Suit(Red), Suit(Yellow), Suit(Green), Suit(Blue), zeros, Wilds(4));
  }

  // Shuffling does not change how many cards are no numbers.

  lemma {:induction false} OthersUpdate(s: seq<Card>, i: nat, c: Card)
    requires i < |s|
    ensures Others(s[i := c]) == Others(s) - Others([s[i]]) + Others([c])
    decreases |s|
  {
    var n := |s| - 1;
    assert [s[i]][..0] == [] && [c][..0] == [];
    if i < n {
      assert s[i := c][..n] == s[..n][i := c];
      OthersUpdate(s[..n], i, c);
    } else {
      assert s[i := c][..n] == s[..n];
    }
  }

  lemma {:induction false} OthersShuffled(s: seq<Card>, top: nat, draw: nat -> nat)
    requires top < |s|
    ensures Others(Shuffled(s, top, 0, draw)) == Others(s)
    decreases top
  {
    if top > 0 {
      var j := Pick(draw(top), top);
      OthersUpdate(s, top, s[j]);
      OthersUpdate(s[top := s[j]], j, s[top]);
      OthersShuffled(Swap(s, top, j), top - 1, draw);
    }
  }

  lemma {:induction false} ManyCardsHaveNumber(s: seq<Card>) returns (i: nat)
    requires |s| > Others(s)
    ensures i < |s| && IsNumber(s[i])
    decreases |s|
  {
    var n := |s| - 1;
    if IsNumber(s[n]) {
      i := n;
    } else {
      i := ManyCardsHaveNumber(s[..n]);
    }
  }

  // Turning the deck until a number card is on top.

  ghost predicate HasNumber(s: seq<Card>) {
    exists i :: 0 <= i < |s| && IsNumber(s[i])
  }

  function FirstNumber(s: seq<Card>): (i: nat)
    ensures i <= |s| && (i < |s| ==> IsNumber(s[i])) && forall j :: 0 <= j < i ==> !IsNumber(s[j])
  {
    if s == [] || IsNumber(s[0]) then 0 else 1 + FirstNumber(s[1..])
  }

  /** How often the deck is turned. */
  function Turns(s: seq<Card>): nat
    requires s != []
  {
    if IsNumber(s[|s| - 1]) then 0 else 1 + FirstNumber(s)
  }

  function Turn(s: seq<Card>): (r: seq<Card>)
    requires s != []
    ensures |r| == |s|
  {
    s[1..] + [s[0]]
  }

  lemma TurnHelps(s: seq<Card>)
    requires HasNumber(s) && !IsNumber(s[|s| - 1])
    ensures HasNumber(Turn(s)) && Turns(Turn(s)) < Turns(s) && multiset(Turn(s)) == multiset(s)
  {
    var i := FirstNumber(s);
    assert s == [s[0]] + s[1..];
    assert i < |s|;
    if i > 0 { assert IsNumber(Turn(s)[i - 1]); } else { assert IsNumber(Turn(s)[|s| - 1]); }
  }

  function TurnedUp(s: seq<Card>): (r: seq<Card>)
    requires HasNumber(s)
    ensures |r| == |s| && IsNumber(r[|r| - 1]) && multiset(r) == multiset(s)
    decreases Turns(s)
  {
    if IsNumber(s[|s| - 1]) then s
    else
      TurnHelps(s);
      TurnedUp(Turn(s))
  }

  lemma TurnedUpStep(s: seq<Card>)
    requires HasNumber(s) && !IsNumber(s[|s| - 1])
    ensures HasNumber(Turn(s)) && Turns(Turn(s)) < Turns(s) && TurnedUp(s) == TurnedUp(Turn(s))
  {
    TurnHelps(s);
  }

  // The deal.

  /** The numbers drawn by one game. */
  datatype Draws = Draws(seats: nat -> nat, cards: nat -> nat, first: nat)

  function NewPlayer(id: int): Player {
    Player(id, [], [], false, Card(Red, 0), false)
  }

  predicate IsFresh(p: Player) {
    p.hand == [] && !p.drawnOne && !p.saidUno
  }

  function Seats(ids: seq<int>, draw: nat -> nat): (players: seq<Player>)
    requires ids != []
    ensures |players| == |ids|
  {
    Shuffled(seq(|ids|, i requires 0 <= i < |ids| => NewPlayer(ids[i])), |ids| - 1, 0, draw)
  }

  /** Seven cards to each player from `i` on. */
  function DealFrom(g: Game, i: nat): (h: Game)
    requires i <= |g.players| && |g.deck| >= 7 * (|g.players| - i)
    ensures |h.players| == |g.players| && |h.deck| == |g.deck| - 7 * (|g.players| - i)
    decreases |g.players| - i
  {
    if i == |g.players| then g else DealFrom(Give(g, i, 7), i + 1)
  }

  lemma DropTwice<T>(s: seq<T>, a: nat, b: nat)
    requires a + b <= |s|
    ensures s[a..][b..] == s[a + b..]
  {
  }

  lemma {:induction false} DealKeeps(g: Game, i: nat)
    requires i <= |g.players| && |g.deck| >= 7 * (|g.players| - i)
    ensures Cards(DealFrom(g, i)) == Cards(g)
    ensures DealFrom(g, i).deck == g.deck[7 * (|g.players| - i)..]
    decreases |g.players| - i
  {
    if i < |g.players| {
      GiveKeeps(g, i, 7);
      DealKeeps(Give(g, i, 7), i + 1);
      DropTwice(g.deck, 7, 7 * (|g.players| - i - 1));
    }
  }

  /** The table before the deal. */
  function Laid(players: seq<Player>, deck: seq<Card>, turn: nat): Game {
    Game(players, deck, Red, 0, Card(Red, 0), false, false, turn)
  }

  lemma {:induction false} TailHasNumber(s: seq<Card>, k: nat)
    requires k <= |s| && |s| - k > Others(s)
    ensures HasNumber(s[k..])
  {
    assert s == s[..k] + s[k..];
    OthersAppend(s[..k], s[k..]);
    var i := ManyCardsHaveNumber(s[k..]);
  }

  /** The deck that is left after the deal holds a number card, for up to ten players. */
  lemma DealtDeckHasNumber(players: seq<Player>, deck: seq<Card>, turn: nat)
    requires |players| <= 10 && |deck| == 108 && Others(deck) == 24
    ensures HasNumber(DealFrom(Laid(players, deck, turn), 0).deck)
  {
    DealKeeps(Laid(players, deck, turn), 0);
    TailHasNumber(deck, 7 * |players|);
  }

  lemma ShuffledSet(full: seq<Card>, draw: nat -> nat)
    requires IsFullSet(full)
    ensures var s := Shuffled(full, |full| - 1, 0, draw);
      |s| == 108 && Others(s) == 24 && multiset(s) == multiset(full)
  {
    OthersShuffled(full, |full| - 1, draw);
    ShuffleKeeps(full, |full| - 1, 0, draw);
  }

  /** The first card is turned up and recorded. */
  function TurnUp(g: Game): (h: Game)
    requires HasNumber(g.deck)
    ensures h.players == g.players && |h.deck| == |g.deck|
  {
    var deck := TurnedUp(g.deck);
    g.(deck := deck, lastColor := deck[|deck| - 1].color, lastNumber := deck[|deck| - 1].content)
  }

  /** The game after `init`. */
  function Start(full: seq<Card>, ids: seq<int>, d: Draws): (g: Game)
    requires IsFullSet(full) && 3 <= |ids| <= 10
    ensures |g.players| == |ids| && |g.deck| == 108 - 7 * |ids|
  {
    ShuffledSet(full, d.cards);
    var players, deck := Seats(ids, d.seats), Shuffled(full, |full| - 1, 0, d.cards);
    var laid := Laid(players, deck, Pick(d.first, |ids|));
    DealtDeckHasNumber(players, deck, Pick(d.first, |ids|));
    var dealt := DealFrom(laid, 0);
    TurnUp(dealt)
  }

  lemma {:induction false} SeatsAreEmpty(players: seq<Player>)
    requires forall i :: 0 <= i < |players| ==> IsFresh(players[i])
    ensures Hands(players) == multiset{}
    decreases |players|
  {
    if players != [] { SeatsAreEmpty(players[..|players| - 1]); }
  }

  lemma SeatsAre(ids: seq<int>, draw: nat -> nat)
    requires ids != []
    ensures forall i :: 0 <= i < |ids| ==> IsFresh(Seats(ids, draw)[i])
  {
    OriginIsUniversal(seq(|ids|, i requires 0 <= i < |ids| => NewPlayer(ids[i])), draw);
  }

  lemma TurnUpKeeps(g: Game)
    requires HasNumber(g.deck)
    ensures Cards(TurnUp(g)) == Cards(g) && RecordsTop(TurnUp(g)) && IsNumber(Top(TurnUp(g)))
  {
  }

  lemma {:induction false} DealLeavesTurn(g: Game, i: nat)
    requires i <= |g.players| && |g.deck| >= 7 * (|g.players| - i)
    ensures DealFrom(g, i).turn == g.turn && DealFrom(g, i).waitSuspect == g.waitSuspect
    ensures DealFrom(g, i).reversed == g.reversed
    decreases |g.players| - i
  {
    if i < |g.players| { DealLeavesTurn(Give(g, i, 7), i + 1); }
  }

  lemma TopIsFromSet(full: seq<Card>, g: Game)
    requires AreCards(full) && Cards(g) == multiset(full) && g.deck != [] && IsNumber(Top(g))
    ensures Top(g).color != Black
  {
    assert Top(g) in multiset(g.deck);
    assert Top(g) in multiset(full);
    assert Top(g) in full;
  }

  /** A game starts with all 108 cards and with a coloured number card (or SKIP) on top. */
  lemma StartIsValid(full: seq<Card>, ids: seq<int>, d: Draws)
    requires IsFullSet(full) && 3 <= |ids| <= 10
    ensures var g := Start(full, ids, d);
      && Inv(g, multiset(full)) && IsNumber(Top(g))
      && Top(g).color != Black && g.lastColor == Top(g).color
  {
    ShuffledSet(full, d.cards);
    var players, deck, turn := Seats(ids, d.seats), Shuffled(full, |full| - 1, 0, d.cards), Pick(d.first, |ids|);
    var laid := Laid(players, deck, turn);
    SeatsAre(ids, d.seats);
    SeatsAreEmpty(players);
    DealKeeps(laid, 0);
    DealLeavesTurn(laid, 0);
    DealtDeckHasNumber(players, deck, turn);
    TurnUpKeeps(DealFrom(laid, 0));
    TopIsFromSet(full, Start(full, ids, d));
  }

  lemma {:induction false} HandIsHeld(players: seq<Player>, i: nat, c: Card)
    requires i < |players| && c in players[i].hand
    ensures c in Hands(players)
    decreases |players|
  {
    var n := |players| - 1;
    if i < n {
      HandIsHeld(players[..n], i, c);
    } else {
      assert c in multiset(players[i].hand);
    }
  }

  lemma HandsAreCards(full: seq<Card>, h: Game)
    requires Cards(h) == multiset(full)
    ensures forall i, c :: 0 <= i < |h.players| && c in h.players[i].hand ==> c in full
  {
    forall i, c | 0 <= i < |h.players| && c in h.players[i].hand ensures c in full {
      HandIsHeld(h.players, i, c);
      assert c in Cards(h);
      assert c in multiset(full);
    }
  }

  /** Every game, whatever is drawn and whatever is called: the turn is in range, the record
      is right, and no card of the full set is lost. The game has the cards of the set and
      no more if and only if every card that was laid was held; then the hands hold cards of
      the set. */
  lemma EveryGame(full: seq<Card>, ids: seq<int>, d: Draws, requests: seq<Request>, h: Game)
    requires IsFullSet(full) && 3 <= |ids| <= 10 && Reaches(Start(full, ids, d), requests, h)
    ensures Inv(h, multiset(full) + AllConjured(Start(full, ids, d), requests))
    ensures Inv(h, multiset(full)) <==> AllHeld(Start(full, ids, d), requests, h)
    ensures AllHeld(Start(full, ids, d), requests, h)
        ==> forall i, c :: 0 <= i < |h.players| && c in h.players[i].hand ==> c in full && IsCard(c)
  {
    StartIsValid(full, ids, d);
    RunKeeps(Start(full, ids, d), requests, h, multiset(full));
    if AllHeld(Start(full, ids, d), requests, h) { HandsAreCards(full, h); }
  }
}
