/** The cards and the allies that a game of `Splendor` is played with, and the deal
    (src/Splendor.hpp). */
module SplendorBox {
  import opened SplendorState
  import opened SplendorRules
  import opened SplendorCoupons
  import opened SplendorMines
  import opened SplendorAllies
  import opened SplendorInvariant
  import opened Shuffle

  /** A row of cards of one level and one mine, numbered from `first`. */
  ghost predicate IsRow(s: seq<Coupon>, level: nat, first: int) {
    forall i :: 0 <= i < |s| ==> IsCard(s[i]) && s[i].level == level && s[i].idx == first + i
  }

  lemma JoinRows(a: seq<Coupon>, b: seq<Coupon>, level: nat, first: int)
    requires IsRow(a, level, first) && IsRow(b, level, first + |a|)
    ensures IsRow(a + b, level, first)
  {
  }

  function Copper1(): (s: seq<Coupon>)
    ensures |s| == 8 && IsRow(s, 1, 1)
  {
    [
      Coupon(0, [0, 0, 0, 3, 0], 0, 1, 1),
      Coupon(0, [1, 0, 0, 1, 3], 0, 1, 2),
      Coupon(0, [0, 2, 1, 0, 0], 0, 1, 3),
      Coupon(0, [0, 0, 1, 2, 2], 0, 1, 4),
      Coupon(0, [0, 1, 1, 2, 1], 0, 1, 5),
      Coupon(0, [0, 1, 1, 1, 1], 0, 1, 6),
      Coupon(0, [2, 0, 0, 2, 0], 0, 1, 7),
      Coupon(1, [0, 0, 0, 4, 0], 0, 1, 8)
    ]
  }

  function Diamond1(): (s: seq<Coupon>)
    ensures |s| == 8 && IsRow(s, 1, 9)
  {
    [
      Coupon(0, [0, 0, 0, 1, 2], 1, 1, 9),
      Coupon(0, [2, 0, 1, 1, 1], 1, 1, 10),
      Coupon(0, [1, 0, 1, 1, 1], 1, 1, 11),
      Coupon(0, [1, 1, 3, 0, 0], 1, 1, 12),
      Coupon(0, [0, 0, 0, 0, 3], 1, 1, 13),
      Coupon(0, [2, 0, 2, 1, 0], 1, 1, 14),
      Coupon(0, [0, 0, 2, 0, 2], 1, 1, 15),
      Coupon(1, [0, 0, 0, 0, 4], 1, 1, 16)
    ]
  }

  function Emerald1(): (s: seq<Coupon>)
    ensures |s| == 8 && IsRow(s, 1, 17)
  {
    [
      Coupon(0, [0, 1, 0, 2, 0], 2, 1, 17),
      Coupon(0, [2, 2, 0, 0, 0], 2, 1, 18),
      Coupon(0, [0, 3, 1, 1, 0], 2, 1, 19),
      Coupon(0, [1, 1, 0, 1, 1], 2, 1, 20),
      Coupon(0, [1, 1, 0, 1, 2], 2, 1, 21),
      Coupon(0, [2, 1, 0, 0, 2], 2, 1, 22),
      Coupon(0, [3, 0, 0, 0, 0], 2, 1, 23),
      Coupon(1, [0, 0, 0, 0, 4], 2, 1, 24)
    ]
  }

  function Iron1(): (s: seq<Coupon>)
    ensures |s| == 8 && IsRow(s, 1, 25)
  {
    [
      Coupon(0, [0, 2, 2, 0, 1], 3, 1, 25),
      Coupon(0, [2, 0, 0, 0, 1], 3, 1, 26),
      Coupon(0, [1, 1, 1, 0, 1], 3, 1, 27),
      Coupon(0, [0, 3, 0, 0, 0], 3, 1, 28),
      Coupon(0, [0, 2, 0, 0, 2], 3, 1, 29),
      Coupon(0, [1, 1, 2, 0, 1], 3, 1, 30),
      Coupon(0, [0, 1, 0, 0, 1], 3, 1, 31),
      Coupon(1, [0, 0, 4, 0, 0], 3, 1, 32)
    ]
  }

  function Netherite1(): (s: seq<Coupon>)
    ensures |s| == 8 && IsRow(s, 1, 33)
  {
    [
      Coupon(0, [1, 1, 1, 1, 0], 4, 1, 33),
      Coupon(0, [1, 0, 2, 0, 0], 4, 1, 34),
      Coupon(0, [0, 0, 2, 2, 0], 4, 1, 35),
      Coupon(0, [3, 0, 1, 0, 1], 4, 1, 36),
      Coupon(0, [0, 0, 3, 0, 0], 4, 1, 37),
      Coupon(0, [1, 2, 1, 1, 0], 4, 1, 38),
      Coupon(0, [1, 2, 0, 1, 0], 4, 1, 39),
      Coupon(1, [0, 4, 0, 0, 0], 4, 1, 40)
    ]
  }

  function Copper2(): (s: seq<Coupon>)
    ensures |s| == 6 && IsRow(s, 2, 41)
  {
    [
      Coupon(1, [2, 3, 0, 0, 3], 0, 2, 41),
      Coupon(1, [2, 0, 0, 2, 3], 0, 2, 42),
      Coupon(2, [0, 4, 2, 1, 0], 0, 2, 43),
      Coupon(2, [0, 0, 0, 3, 5], 0, 2, 44),
      Coupon(2, [0, 0, 0, 0, 5], 0, 2, 45),
      Coupon(3, [6, 0, 0, 0, 0], 0, 2, 46)
    ]
  }

  function Diamond2(): (s: seq<Coupon>)
    ensures |s| == 6 && IsRow(s, 2, 47)
  {
    [
      Coupon(1, [3, 2, 2, 0, 0], 1, 2, 47),
      Coupon(1, [0, 2, 3, 0, 3], 1, 2, 48),
      Coupon(2, [0, 3, 0, 5, 0], 1, 2, 49),
      Coupon(2, [0, 5, 0, 0, 0], 1, 2, 50),
      Coupon(2, [1, 0, 0, 2, 4], 1, 2, 51),
      Coupon(3, [0, 6, 0, 0, 0], 1, 2, 52)
    ]
  }

  function Emerald2(): (s: seq<Coupon>)
    ensures |s| == 6 && IsRow(s, 2, 53)
  {
    [
      Coupon(1, [3, 0, 2, 3, 0], 2, 2, 53),
      Coupon(1, [0, 3, 0, 3, 2], 2, 2, 54),
      Coupon(2, [0, 2, 0, 4, 1], 2, 2, 55),
      Coupon(2, [0, 0, 5, 0, 0], 2, 2, 56),
      Coupon(2, [0, 5, 3, 0, 0], 2, 2, 57),
      Coupon(3, [0, 0, 6, 0, 0], 2, 2, 58)
    ]
  }

  function Iron2(): (s: seq<Coupon>)
    ensures |s| == 6 && IsRow(s, 2, 59)
  {
    [
      Coupon(1, [2, 0, 3, 0, 2], 3, 2, 59),
      Coupon(1, [3, 3, 0, 2, 0], 3, 2, 60),
      Coupon(2, [4, 0, 1, 0, 2], 3, 2, 61),
      Coupon(2, [5, 0, 0, 0, 0], 3, 2, 62),
      Coupon(2, [5, 0, 0, 0, 3], 3, 2, 63),
      Coupon(3, [0, 0, 0, 6, 0], 3, 2, 64)
    ]
  }

  function Netherite2(): (s: seq<Coupon>)
    ensures |s| == 6 && IsRow(s, 2, 65)
  {
    [
      Coupon(1, [0, 2, 2, 3, 0], 4, 2, 65),
      Coupon(1, [0, 0, 3, 3, 2], 4, 2, 66),
      Coupon(2, [2, 1, 4, 0, 0], 4, 2, 67),
      Coupon(2, [0, 0, 0, 5, 0], 4, 2, 68),
      Coupon(2, [3, 0, 5, 0, 0], 4, 2, 69),
      Coupon(3, [0, 0, 0, 0, 6], 4, 2, 70)
    ]
  }

  function Copper3(): (s: seq<Coupon>)
    ensures |s| == 4 && IsRow(s, 3, 71)
  {
    [
      Coupon(3, [0, 5, 3, 3, 3], 0, 3, 71),
      Coupon(4, [0, 0, 7, 0, 0], 0, 3, 72),
      Coupon(4, [3, 3, 6, 0, 0], 0, 3, 73),
      Coupon(5, [3, 0, 7, 0, 0], 0, 3, 74)
    ]
  }

  function Diamond3(): (s: seq<Coupon>)
    ensures |s| == 4 && IsRow(s, 3, 75)
  {
    [
      Coupon(3, [3, 0, 3, 3, 5], 1, 3, 75),
      Coupon(4, [0, 0, 0, 7, 0], 1, 3, 76),
      Coupon(4, [0, 3, 0, 6, 3], 1, 3, 77),
      Coupon(5, [0, 3, 0, 7, 0], 1, 3, 78)
    ]
  }

  function Emerald3(): (s: seq<Coupon>)
    ensures |s| == 4 && IsRow(s, 3, 79)
  {
    [
      Coupon(3, [3, 3, 0, 5, 3], 2, 3, 79),
      Coupon(4, [0, 6, 3, 3, 0], 2, 3, 80),
      Coupon(4, [0, 7, 0, 0, 0], 2, 3, 81),
      Coupon(5, [0, 7, 3, 0, 0], 2, 3, 82)
    ]
  }

  function Iron3(): (s: seq<Coupon>)
    ensures |s| == 4 && IsRow(s, 3, 83)
  {
    [
      Coupon(3, [5, 3, 3, 0, 3], 3, 3, 83),
      Coupon(4, [0, 0, 0, 0, 7], 3, 3, 84),
      Coupon(4, [3, 0, 0, 3, 6], 3, 3, 85),
      Coupon(5, [0, 0, 0, 3, 7], 3, 3, 86)
    ]
  }

  function Netherite3(): (s: seq<Coupon>)
    ensures |s| == 4 && IsRow(s, 3, 87)
  {
    [
      Coupon(3, [3, 3, 5, 3, 0], 4, 3, 87),
      Coupon(4, [7, 0, 0, 0, 0], 4, 3, 88),
      Coupon(4, [6, 0, 3, 0, 3], 4, 3, 89),
      Coupon(5, [7, 0, 0, 0, 3], 4, 3, 90)
    ]
  }

  function Level1(): (s: seq<Coupon>)
    ensures |s| == 40 && IsRow(s, 1, 1)
  {
    JoinRows(Copper1(), Diamond1(), 1, 1);
    JoinRows(Copper1() + Diamond1(), Emerald1(), 1, 1);
    JoinRows(Copper1() + Diamond1() + Emerald1(), Iron1(), 1, 1);
    JoinRows(Copper1() + Diamond1() + Emerald1() + Iron1(), Netherite1(), 1, 1);
    Copper1() + Diamond1() + Emerald1() + Iron1() + Netherite1()
  }

  function Level2(): (s: seq<Coupon>)
    ensures |s| == 30 && IsRow(s, 2, 41)
  {
    JoinRows(Copper2(), Diamond2(), 2, 41);
    JoinRows(Copper2() + Diamond2(), Emerald2(), 2, 41);
    JoinRows(Copper2() + Diamond2() + Emerald2(), Iron2(), 2, 41);
    JoinRows(Copper2() + Diamond2() + Emerald2() + Iron2(), Netherite2(), 2, 41);
    Copper2() + Diamond2() + Emerald2() + Iron2() + Netherite2()
  }

  function Level3(): (s: seq<Coupon>)
    ensures |s| == 20 && IsRow(s, 3, 71)
  {
    JoinRows(Copper3(), Diamond3(), 3, 71);
    JoinRows(Copper3() + Diamond3(), Emerald3(), 3, 71);
    JoinRows(Copper3() + Diamond3() + Emerald3(), Iron3(), 3, 71);
    JoinRows(Copper3() + Diamond3() + Emerald3() + Iron3(), Netherite3(), 3, 71);
    Copper3() + Diamond3() + Emerald3() + Iron3() + Netherite3()
  }

  /** Nobody owns the ally, and it asks for some coupon. */
  predicate IsFreeAlly(a: Ally) {
    && IsAlly(a) && !a.owned
    && (a.condition[0] > 0 || a.condition[1] > 0 || a.condition[2] > 0 || a.condition[3] > 0 || a.condition[4] > 0)
  }

  function AllAllies(): (s: seq<Ally>)
    ensures |s| == 10 && forall i :: 0 <= i < 10 ==> IsFreeAlly(s[i])
  {
    [
      Ally(3, [0, 4, 4, 0, 0], 1, 0, false),
      Ally(3, [3, 3, 3, 0, 0], 2, 0, false),
      Ally(3, [0, 3, 3, 3, 0], 3, 0, false),
      Ally(3, [3, 0, 0, 3, 3], 4, 0, false),
      Ally(3, [3, 0, 3, 0, 3], 5, 0, false),
      Ally(3, [4, 0, 4, 0, 0], 6, 0, false),
      Ally(3, [4, 0, 0, 0, 4], 7, 0, false),
      Ally(3, [0, 4, 0, 4, 0], 8, 0, false),
      Ally(3, [0, 3, 0, 3, 3], 9, 0, false),
      Ally(3, [0, 0, 0, 4, 4], 10, 0, false)
    ]
  }

  // The deal, from any box of this make.

  ghost predicate AreFree(allies: seq<Ally>) {
    forall k :: 0 <= k < |allies| ==> IsFreeAlly(allies[k])
  }

  datatype Box = Box(level1: seq<Coupon>, level2: seq<Coupon>, level3: seq<Coupon>, allies: seq<Ally>)

  predicate IsSized(box: Box) {
    |box.level1| == 40 && |box.level2| == 30 && |box.level3| == 20 && |box.allies| == 10
  }

  ghost predicate IsBox(box: Box) {
    && IsSized(box) && IsRow(box.level1, 1, 1) && IsRow(box.level2, 2, 41) && IsRow(box.level3, 3, 71)
    && AreFree(box.allies)
  }

  /** The cards and allies listed in the source. */
  function TheBox(): (box: Box)
    ensures IsBox(box)
  {
    Box(Level1(), Level2(), Level3(), AllAllies())
  }

  /** The ninety cards. */
  function Cards(box: Box): seq<Coupon> {
    box.level1 + box.level2 + box.level3
  }

  lemma CardsAreNumbered(box: Box)
    requires IsBox(box)
    ensures |Cards(box)| == 90 && AreCards(Cards(box)) && NumbersDiffer(Cards(box))
    ensures forall i :: 0 <= i < 90 ==> Cards(box)[i].idx == i + 1
  {
  }

  /** The numbers drawn by one game. */
  datatype Draws = Draws(first: nat, allies: nat -> nat, level1: nat -> nat, level2: nat -> nat, level3: nat -> nat)

  /** Cards of one level. */
  ghost predicate IsPile(s: seq<Coupon>, level: nat) {
    forall i :: 0 <= i < |s| ==> IsCard(s[i]) && s[i].level == level
  }

  lemma RowIsShuffled(s: seq<Coupon>, level: nat, first: int, draw: nat -> nat)
    requires IsRow(s, level, first) && s != []
    ensures IsPile(Shuffled(s, |s| - 1, 0, draw), level)
  {
    OriginIsUniversal(s, draw);
  }

  function Pile1(box: Box, d: Draws): (s: seq<Coupon>)
    requires IsSized(box)
    ensures |s| == 40
  {
    Shuffled(box.level1, |box.level1| - 1, 0, d.level1)
  }

  function Pile2(box: Box, d: Draws): (s: seq<Coupon>)
    requires IsSized(box)
    ensures |s| == 30
  {
    Shuffled(box.level2, |box.level2| - 1, 0, d.level2)
  }

  function Pile3(box: Box, d: Draws): (s: seq<Coupon>)
    requires IsSized(box)
    ensures |s| == 20
  {
    Shuffled(box.level3, |box.level3| - 1, 0, d.level3)
  }

  function StartMarket(box: Box, d: Draws): seq<Coupon>
    requires IsSized(box)
  {
    Pile1(box, d)[36..] + Pile2(box, d)[26..] + Pile3(box, d)[16..]
  }

  function StartDeck(box: Box, d: Draws): seq<Coupon>
    requires IsSized(box)
  {
    Pile1(box, d)[..36] + Pile2(box, d)[..26] + Pile3(box, d)[..16]
  }

  /** The last `n` of ten, the last one first. */
  function FromTop<T>(ten: seq<T>, n: nat): (s: seq<T>)
    requires |ten| == 10 && n <= 10
    ensures |s| == n
  {
    seq(n, k requires 0 <= k < n => ten[9 - k])
  }

  lemma OneMoreFromTop<T>(ten: seq<T>, n: nat)
    requires |ten| == 10 && n < 10
    ensures FromTop(ten, n + 1) == FromTop(ten, n) + [ten[9 - n]]
  {
  }

  /** One ally more than there are players, from the top of the shuffled ten. */
  function StartAllies(box: Box, n: nat, d: Draws): (s: seq<Ally>)
    requires IsSized(box) && n <= 8
    ensures |s| == n + 1
  {
    FromTop(Shuffled(box.allies, |box.allies| - 1, 8 - n, d.allies), n + 1)
  }

  function StartBank(n: nat): (s: seq<int>)
    ensures |s| == 6
  {
    var each := if n == 2 then 4 else if n == 3 then 5 else if n == 4 then 7 else 0;
    [each, each, each, each, each, 5]
  }

  function NewPlayer(id: int): Player {
    Player(id, [], [], Zeros(5), Zeros(6), 0, Waiting)
  }

  function StartPlayers(ids: seq<int>, first: nat): (s: seq<Player>)
    requires ids != []
    ensures |s| == |ids|
  {
    WithStatus(seq(|ids|, i requires 0 <= i < |ids| => NewPlayer(ids[i])), Pick(first, |ids|), Action)
  }

  function Start(box: Box, ids: seq<int>, d: Draws): Game
    requires IsSized(box) && 0 < |ids| <= 8
  {
    Game(StartBank(|ids|), StartMarket(box, d), StartDeck(box, d), StartAllies(box, |ids|, d),
         StartPlayers(ids, d.first))
  }

  ghost predicate AreSeats(ids: seq<int>) {
    2 <= |ids| <= 4 && forall i, j :: 0 <= i < j < |ids| ==> ids[i] != ids[j]
  }

  // The start satisfies the invariant.

  lemma PilesAreDealt(a: seq<Coupon>, b: seq<Coupon>, c: seq<Coupon>)
    requires |a| == 40 && |b| == 30 && |c| == 20 && IsPile(a, 1) && IsPile(b, 2) && IsPile(c, 3)
    ensures var market := a[36..] + b[26..] + c[16..]; IsMarket(market) && AreCards(market)
    ensures AreCards(a[..36] + b[..26] + c[..16])
  {
  }

  lemma {:induction false} InPlayOfCards(s: seq<Coupon>)
    requires AreCards(s)
    ensures InPlay(s) == multiset(s)
    decreases |s|
  {
    if s != [] {
      InPlayOfCards(s[..|s| - 1]);
      assert s == s[..|s| - 1] + [s[|s| - 1]];
    }
  }

  lemma Cut<T>(s: seq<T>, k: nat)
    requires k <= |s|
    ensures multiset(s[k..]) + multiset(s[..k]) == multiset(s)
  {
    assert s == s[..k] + s[k..];
  }

  lemma SumOfSix<T>(a: multiset<T>, b: multiset<T>, c: multiset<T>, x: multiset<T>, y: multiset<T>, z: multiset<T>)
    ensures (a + b + c) + (x + y + z) == (a + x) + (b + y) + (c + z)
  {
  }

  lemma PilesAreAll(a: seq<Coupon>, b: seq<Coupon>, c: seq<Coupon>)
    requires |a| == 40 && |b| == 30 && |c| == 20
    ensures multiset(a[36..] + b[26..] + c[16..]) + multiset(a[..36] + b[..26] + c[..16])
         == multiset(a) + multiset(b) + multiset(c)
  {
    Cut(a, 36);
    Cut(b, 26);
    Cut(c, 16);
    SumOfSix(multiset(a[36..]), multiset(b[26..]), multiset(c[16..]),
             multiset(a[..36]), multiset(b[..26]), multiset(c[..16]));
  }

  /** The decks and the slots together are the box. */
  lemma StartIsBox(box: Box, d: Draws)
    requires IsBox(box)
    ensures IsMarket(StartMarket(box, d)) && AreCards(StartDeck(box, d))
    ensures InPlay(StartMarket(box, d)) + multiset(StartDeck(box, d)) == multiset(Cards(box))
    ensures EmptyOnlyAtEnd(StartMarket(box, d), StartDeck(box, d))
  {
    RowIsShuffled(box.level1, 1, 1, d.level1);
    RowIsShuffled(box.level2, 2, 41, d.level2);
    RowIsShuffled(box.level3, 3, 71, d.level3);
    PilesAreDealt(Pile1(box, d), Pile2(box, d), Pile3(box, d));
    InPlayOfCards(StartMarket(box, d));
    PilesAreAll(Pile1(box, d), Pile2(box, d), Pile3(box, d));
    ShuffleKeeps(box.level1, |box.level1| - 1, 0, d.level1);
    ShuffleKeeps(box.level2, |box.level2| - 1, 0, d.level2);
    ShuffleKeeps(box.level3, |box.level3| - 1, 0, d.level3);
  }

  lemma {:induction false} AlliesStayFree(s: seq<Ally>, top: nat, stop: nat, draw: nat -> nat)
    requires (top < |s| || top <= stop) && forall i :: 0 <= i < |s| ==> IsFreeAlly(s[i])
    ensures forall i :: 0 <= i < |s| ==> IsFreeAlly(Shuffled(s, top, stop, draw)[i])
    decreases top
  {
    if top > stop { AlliesStayFree(Swap(s, top, Pick(draw(top), top)), top - 1, stop, draw); }
  }

  lemma {:induction false} NobodyOwns(allies: seq<Ally>, id: int, k: nat)
    requires k <= |allies| && forall i :: 0 <= i < |allies| ==> !allies[i].owned
    ensures Owned(allies, id, k) == 0
  {
    if k > 0 { NobodyOwns(allies, id, k - 1); }
  }

  lemma NewPlayerAccounts(p: Player, allies: seq<Ally>)
    requires p == NewPlayer(p.id).(status := p.status) && forall i :: 0 <= i < |allies| ==> IsFreeAlly(allies[i])
    ensures IsPlayer(p) && Total(p.mineCount) == 0 && Hand(p) == multiset{}
    ensures (forall k :: 0 <= k < |allies| ==> |allies[k].condition| == 5) && SatisfiesNone(p, allies)
    ensures CountsAreTallies(p) && ReputationAdds(p, allies)
  {
    NobodyOwns(allies, p.id, |allies|);
    forall k | 0 <= k < |allies| ensures !Satisfies(p, allies[k]) {
      assert IsFreeAlly(allies[k]);
      var c := if allies[k].condition[0] > 0 then 0 else if allies[k].condition[1] > 0 then 1
               else if allies[k].condition[2] > 0 then 2 else if allies[k].condition[3] > 0 then 3 else 4;
      assert p.couponCount[c] < allies[k].condition[c];
    }
  }

  ghost predicate IsNew(p: Player) {
    p == NewPlayer(p.id).(status := p.status)
  }

  ghost predicate AreNew(players: seq<Player>) {
    forall i :: 0 <= i < |players| ==> IsNew(players[i])
  }

  lemma {:induction false} EmptyHands(players: seq<Player>, m: nat)
    requires m < 6 && AreNew(players)
    ensures Hands(players) == multiset{}
    ensures (forall i :: 0 <= i < |players| ==> HasCounts(players[i])) && Held(players, m) == 0
    decreases |players|
  {
    if players != [] {
      assert IsNew(players[|players| - 1]);
      EmptyHands(players[..|players| - 1], m);
    }
  }

  lemma PlayersStart(ids: seq<int>, first: nat)
    requires AreSeats(ids)
    ensures var players := StartPlayers(ids, first);
      && AreNew(players) && DistinctIds(players)
      && (forall i :: 0 <= i < |players| ==> HasCounts(players[i]))
      && HasTurn(players, Pick(first, |ids|))
  {
  }

  lemma AlliesStart(box: Box, n: nat, d: Draws)
    requires IsBox(box) && n <= 8
    ensures AreFree(StartAllies(box, n, d))
  {
    AlliesStayFree(box.allies, |box.allies| - 1, 8 - n, d.allies);
  }

  lemma NewAccounts(g: Game)
    requires AreNew(g.players) && |g.bank| == 6 && forall k :: 0 <= k < |g.allies| ==> IsFreeAlly(g.allies[k])
    ensures HasArrays(g) && Accounted(g) && forall i :: 0 <= i < |g.players| ==> IsPlayer(g.players[i])
  {
    forall i | 0 <= i < |g.players|
      ensures IsPlayer(g.players[i])
      ensures SatisfiesNone(g.players[i], g.allies)
      ensures CountsAreTallies(g.players[i]) && ReputationAdds(g.players[i], g.allies)
    {
      NewPlayerAccounts(g.players[i], g.allies);
    }
  }

  lemma StartConserves(g: Game, box: multiset<Coupon>, bank: seq<int>)
    requires AreNew(g.players) && g.bank == bank && |bank| == 6 && (forall m :: 0 <= m < 6 ==> bank[m] >= 0)
    requires Shaped(g) && EmptyOnlyAtEnd(g.market, g.deck) && InPlay(g.market) + multiset(g.deck) == box
    ensures Conserved(g, box, bank)
  {
    EmptyHands(g.players, 0);
    forall m | 0 <= m < 6 ensures Supply(g, m) == bank[m] {
      EmptyHands(g.players, m);
    }
  }

  ghost predicate TableReady(g: Game, box: multiset<Coupon>) {
    && IsMarket(g.market) && AreCards(g.deck) && EmptyOnlyAtEnd(g.market, g.deck)
    && InPlay(g.market) + multiset(g.deck) == box
  }

  ghost predicate SeatsReady(g: Game, t: nat) {
    && 2 <= |g.players| <= 4 && AreNew(g.players) && DistinctIds(g.players)
    && (forall i :: 0 <= i < |g.players| ==> HasCounts(g.players[i])) && HasTurn(g.players, t)
  }

  ghost predicate IsBank(bank: seq<int>) {
    |bank| == 6 && forall m :: 0 <= m < 6 ==> bank[m] >= 0
  }

  lemma BankStart(n: nat)
    ensures IsBank(StartBank(n))
  {
  }

  lemma FreshGame(g: Game, box: multiset<Coupon>, t: nat)
    requires TableReady(g, box) && SeatsReady(g, t) && IsBank(g.bank) && AreFree(g.allies)
    ensures Inv(g, box, g.bank, t)
  {
    NewAccounts(g);
    StartConserves(g, box, g.bank);
  }

  lemma SeatsStart(box: Box, ids: seq<int>, d: Draws)
    requires IsBox(box) && AreSeats(ids)
    ensures SeatsReady(Start(box, ids, d), Pick(d.first, |ids|))
  {
    PlayersStart(ids, d.first);
  }

  lemma TableStart(box: Box, ids: seq<int>, d: Draws)
    requires IsBox(box) && AreSeats(ids)
    ensures TableReady(Start(box, ids, d), multiset(Cards(box)))
  {
    StartIsBox(box, d);
  }

  /** A game starts with the ninety cards, the mines of the bank, and the turn at the
      player who was drawn. */
  lemma StartIsValid(box: Box, ids: seq<int>, d: Draws)
    requires IsBox(box) && AreSeats(ids)
    ensures Inv(Start(box, ids, d), multiset(Cards(box)), StartBank(|ids|), Pick(d.first, |ids|))
  {
    var g := Start(box, ids, d);
    TableStart(box, ids, d);
    SeatsStart(box, ids, d);
    AlliesStart(box, |ids|, d);
    BankStart(|ids|);
    FreshGame(g, multiset(Cards(box)), Pick(d.first, |ids|));
  }
}
