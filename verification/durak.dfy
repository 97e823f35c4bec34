/** Card rules of a two-team game of durak: four players in two teams of
    two, a 52-card deck (13 values in 4 suits) with one trump suit, a
    table with the attack cards to beat, the cards beaten this round and
    the discard pile, and a bank to draw from. The game driver (who attacks
    whom, the random attack of the second team) is not part of this model. */
module Durak {
  import opened Wrappers

  /** A card: its value (0 to 12), its suit, and whether it is a trump. */
  datatype Card = Card(value: int, color: int, adm: bool)

  /** A player: id, hand, whether it leads its team, whether it is out. */
  datatype Agent = Agent(id: int, hand: seq<Card>, leader: bool, done: bool)

  /** beaten: the discard pile; atk: attack cards still to beat; temp:
      attack and defence cards of the current round, in pairs. */
  datatype Table = Table(beaten: seq<Card>, atk: seq<Card>, temp: seq<Card>)

  /** The cards left to draw and the trump suit. */
  datatype Bank = Bank(arr: seq<Card>, adm: int)

  /** The whole game: agents[party][k] is player k of team `party`. */
  datatype Game = Game(agents: seq<seq<Agent>>, table: Table, bank: Bank)

  /** Two teams of two. */
  ghost predicate Shaped(g: Game) {
    |g.agents| == 2 && forall p :: 0 <= p < 2 ==> |g.agents[p]| == 2
  }

  function Hand(g: Game, p: int, k: int): seq<Card>
    requires Shaped(g) && 0 <= p < 2 && 0 <= k < 2
  {
    g.agents[p][k].hand
  }

  /** The game with one player's hand replaced; nothing else changes. */
  function SetHand(g: Game, p: int, k: int, h: seq<Card>): (r: Game)
    requires Shaped(g) && 0 <= p < 2 && 0 <= k < 2
    ensures Shaped(r) && Hand(r, p, k) == h
    ensures r.table == g.table && r.bank == g.bank
    ensures r.agents[p][k] == g.agents[p][k].(hand := h)
    ensures forall q, j :: 0 <= q < 2 && 0 <= j < 2 && (q, j) != (p, k) ==> r.agents[q][j] == g.agents[q][j]
  {
    g.(agents := g.agents[p := g.agents[p][k := g.agents[p][k].(hand := h)]])
  }

  // ---------------------------------------------------------------------
  // The deck and the deal
  // ---------------------------------------------------------------------

  /** What tells two cards apart: value and suit. */
  function Face(c: Card): (int, int) {
    (c.value, c.color)
  }

  /** No two positions hold a card of the same value and suit. */
  ghost predicate Distinct(s: seq<Card>) {
    forall i, j :: 0 <= i < |s| && 0 <= j < |s| && i != j ==> Face(s[i]) != Face(s[j])
  }

  /** Every card has a value below 13 and a suit below 4. */
  ghost predicate Valid(s: seq<Card>) {
    forall i :: 0 <= i < |s| ==> 0 <= s[i].value < 13 && 0 <= s[i].color < 4
  }

  /** The deck as init lays it out, suit after suit, none a trump yet. */
  function FreshDeck(): (d: seq<Card>)
    ensures |d| == 52 && Distinct(d) && Valid(d)
    ensures forall k :: 0 <= k < 52 ==> !d[k].adm
  {
    seq(52, k requires 0 <= k < 52 => Card(k % 13, k / 13, false))
  }

  function SwapAt(s: seq<Card>, i: int, k: int): (r: seq<Card>)
    requires 0 <= i < |s| && 0 <= k < |s|
    ensures |r| == |s| && multiset(r) == multiset(s)
    ensures forall t :: 0 <= t < |s| ==> r[t] == s[Swapped(t, i, k)]
  {
    s[i := s[k]][k := s[i]]
  }

  /** The position whose card a swap of i and k brings to t. */
  function Swapped(t: int, i: int, k: int): int {
    if t == i then k else if t == k then i else t
  }

  /** A swap keeps the cards distinct, valid and free of trump flags. */
  lemma SwapKeeps(s: seq<Card>, i: int, k: int)
    requires 0 <= i < |s| && 0 <= k < |s|
    ensures Distinct(s) ==> Distinct(SwapAt(s, i, k))
    ensures Valid(s) ==> Valid(SwapAt(s, i, k))
    ensures (forall t :: 0 <= t < |s| ==> !s[t].adm) ==> forall t :: 0 <= t < |s| ==> !SwapAt(s, i, k)[t].adm
  {
    var r := SwapAt(s, i, k);
    if Distinct(s) {
      forall x, y | 0 <= x < |r| && 0 <= y < |r| && x != y
        ensures Face(r[x]) != Face(r[y])
      {
        assert Swapped(x, i, k) != Swapped(y, i, k);
      }
    }
  }

  /** The shuffle: a Fisher-Yates pass from the last card down, swapping
      card i with the card the generator picks among the first i + 1.
      `draw(i)` stands for the generator's output at step i. */
  method Shuffle(d: seq<Card>, draw: nat -> nat) returns (s: seq<Card>)
    ensures |s| == |d| && multiset(s) == multiset(d)
    ensures Distinct(d) ==> Distinct(s)
    ensures Valid(d) ==> Valid(s)
    ensures (forall k :: 0 <= k < |d| ==> !d[k].adm) ==> forall k :: 0 <= k < |s| ==> !s[k].adm
  {
    s := d;
    var i := |s| - 1;
    while i > 0
      invariant -1 <= i < |s| && |s| == |d| && multiset(s) == multiset(d)
      invariant Distinct(d) ==> Distinct(s)
      invariant Valid(d) ==> Valid(s)
      invariant (forall k :: 0 <= k < |d| ==> !d[k].adm) ==> forall k :: 0 <= k < |s| ==> !s[k].adm
    {
      SwapKeeps(s, i, draw(i) % (i + 1));
      s := SwapAt(s, i, draw(i) % (i + 1));
      i := i - 1;
    }
  }

  /** Flags exactly the cards of the trump suit. */
  function MarkTrumps(d: seq<Card>, trump: int): (r: seq<Card>)
    ensures |r| == |d|
    ensures forall k :: 0 <= k < |d| ==> Face(r[k]) == Face(d[k])
    ensures forall k :: 0 <= k < |d| ==> r[k].adm == (d[k].adm || d[k].color == trump)
  {
    seq(|d|, k requires 0 <= k < |d| => if d[k].color == trump then d[k].(adm := true) else d[k])
  }

  /** Player k of team p as init creates it, with the given hand. */
  function Seat(p: int, k: int, hand: seq<Card>): Agent {
    Agent(2 * p + k, hand, k == 0, false)
  }

  /** The hand of the player at seat `seat` (0 to 3, in dealing order)
      after `rounds` rounds of the deal. */
  function Dealt(deck: seq<Card>, rounds: nat, seat: int): (h: seq<Card>)
    requires 0 <= seat < 4 && 4 * rounds <= |deck|
    ensures |h| == rounds
  {
    seq(rounds, t requires 0 <= t < rounds => deck[4 * t + seat])
  }

  /** init: lays out the 52 cards, seats the four players (the first of
      each team leads), shuffles, takes the suit of the last card as trump
      and flags every trump, then deals six rounds of one card to each
      player in seat order from the front; the bank keeps the other 28.
      `deck` is the marked, shuffled deck the deal drew from. */
  method Init(draw: nat -> nat) returns (g: Game, deck: seq<Card>)
    ensures |deck| == 52 && Distinct(deck) && Valid(deck)
    ensures g.bank.adm == deck[51].color
    ensures forall k :: 0 <= k < 52 ==> (deck[k].adm <==> deck[k].color == g.bank.adm)
    ensures Shaped(g)
    ensures forall p, k :: 0 <= p < 2 && 0 <= k < 2 ==> g.agents[p][k] == Seat(p, k, Dealt(deck, 6, 2 * p + k))
    ensures g.bank.arr == deck[24..]
    ensures g.table == Table([], [], [])
  {
    var laid := FreshDeck();
    var shuffled := Shuffle(laid, draw);
    var trump := shuffled[|shuffled| - 1].color;
    deck := MarkTrumps(shuffled, trump);
    var h0, h1, h2, h3 := [], [], [], [];
    var rest := deck;
    var j := 0;
    while j < 6
      invariant 0 <= j <= 6
      invariant rest == deck[4 * j..]
      invariant h0 == Dealt(deck, j, 0) && h1 == Dealt(deck, j, 1)
      invariant h2 == Dealt(deck, j, 2) && h3 == Dealt(deck, j, 3)
    {
      h0 := h0 + [rest[0]];
      h1 := h1 + [rest[1]];
      h2 := h2 + [rest[2]];
      h3 := h3 + [rest[3]];
      rest := rest[4..];
      j := j + 1;
    }
    var agents := [[Seat(0, 0, h0), Seat(0, 1, h1)], [Seat(1, 0, h2), Seat(1, 1, h3)]];
    g := Game(agents, Table([], [], []), Bank(rest, trump));
  }

  // ---------------------------------------------------------------------
  // Single-card rules
  // ---------------------------------------------------------------------

  /** Removal the way deleteCard does it, used for hands and for the
      attack pile: card i is swapped with the first card, and the first card
      is erased. */
  function RemoveAt(s: seq<Card>, i: int): (r: seq<Card>)
    requires 0 <= i < |s|
    ensures |r| == |s| - 1
  {
    s[0 := s[i]][i := s[0]][1..]
  }

  /** Removal takes out card i and nothing else. */
  lemma RemoveAtCards(s: seq<Card>, i: int)
    requires 0 <= i < |s|
    ensures multiset(RemoveAt(s, i)) + multiset{s[i]} == multiset(s)
  {
    var swapped := s[0 := s[i]][i := s[0]];
    assert swapped == [s[i]] + swapped[1..];
    assert multiset(swapped) == multiset(s);
  }

  /** deleteCard: removes card i from one player's hand. */
  function DeleteCard(g: Game, p: int, k: int, i: int): (r: Game)
    requires Shaped(g) && 0 <= p < 2 && 0 <= k < 2 && 0 <= i < |Hand(g, p, k)|
    ensures Shaped(r)
    ensures multiset(Hand(r, p, k)) + multiset{Hand(g, p, k)[i]} == multiset(Hand(g, p, k))
    ensures r == SetHand(g, p, k, Hand(r, p, k))
  {
    RemoveAtCards(Hand(g, p, k), i);
    SetHand(g, p, k, RemoveAt(Hand(g, p, k), i))
  }

  /** canBeat: the defence card beats the attack card when it is higher
      in the same suit, or when it is a trump and the attack card is not. */
  predicate CanBeat(atk: Card, def: Card) {
    (def.value > atk.value && def.color == atk.color) || (def.adm && !atk.adm)
  }

  /** Cards whose trump flag follows their suit, as init leaves them. */
  ghost predicate Marked(c: Card, trump: int) {
    c.adm <==> c.color == trump
  }

  /** Among marked cards, beating is a strict order: no card beats itself,
      two cards never beat each other, and beating is transitive. */
  lemma CanBeatOrder(x: Card, y: Card, z: Card, trump: int)
    requires Marked(x, trump) && Marked(y, trump) && Marked(z, trump)
    ensures !CanBeat(x, x)
    ensures CanBeat(x, y) ==> !CanBeat(y, x)
    ensures CanBeat(x, y) && CanBeat(y, z) ==> CanBeat(x, z)
  {
  }

  // ---------------------------------------------------------------------
  // Defence
  // ---------------------------------------------------------------------

  /** The three piles the defence loop works on. */
  datatype Fight = Fight(hand: seq<Card>, atk: seq<Card>, temp: seq<Card>)

  function Cards(f: Fight): multiset<Card> {
    multiset(f.hand) + multiset(f.atk) + multiset(f.temp)
  }

  /** Attack and defence cards laid down in pairs, each defence card
      beating the attack card before it. */
  ghost predicate BeatenPairs(s: seq<Card>) {
    |s| % 2 == 0 && forall k :: 0 <= k < |s| / 2 ==> CanBeat(s[2 * k], s[2 * k + 1])
  }

  lemma PairsAppend(s: seq<Card>, a: Card, d: Card, rest: seq<Card>)
    requires BeatenPairs(s) && CanBeat(a, d) && BeatenPairs(rest)
    ensures BeatenPairs(s + [a, d] + rest)
  {
    var t := s + [a, d] + rest;
    forall k | 0 <= k < |t| / 2
      ensures CanBeat(t[2 * k], t[2 * k + 1])
    {
      if k < |s| / 2 {
        assert t[2 * k] == s[2 * k] && t[2 * k + 1] == s[2 * k + 1];
      } else if k == |s| / 2 {
      } else {
        var k' := k - |s| / 2 - 1;
        assert t[2 * k] == rest[2 * k'] && t[2 * k + 1] == rest[2 * k' + 1];
      }
    }
  }

  /** One beat: attack card j and hand card i go to temp, in that order,
      and both are removed with RemoveAt. */
  function Strike(f: Fight, i: nat, j: nat): (r: Fight)
    requires i < |f.hand| && j < |f.atk|
    ensures |r.hand| == |f.hand| - 1 && |r.atk| == |f.atk| - 1
    ensures r.temp == f.temp + [f.atk[j], f.hand[i]]
  {
    Fight(RemoveAt(f.hand, i), RemoveAt(f.atk, j), f.temp + [f.atk[j], f.hand[i]])
  }

  /** A beat moves two cards and creates or loses none. */
  lemma StrikeCards(f: Fight, i: nat, j: nat)
    requires i < |f.hand| && j < |f.atk|
    ensures Cards(Strike(f, i, j)) == Cards(f)
  {
    RemoveAtCards(f.hand, i);
    RemoveAtCards(f.atk, j);
  }

  /** temp grew from `before` by beaten pairs only. */
  ghost predicate GrewByPairs(before: seq<Card>, after: seq<Card>) {
    |after| >= |before| && after[..|before|] == before && BeatenPairs(after[|before|..])
  }

  lemma GrewByPairsStep(t: seq<Card>, a: Card, d: Card, after: seq<Card>)
    requires CanBeat(a, d) && GrewByPairs(t + [a, d], after)
    ensures GrewByPairs(t, after)
  {
    var rest := after[|t| + 2..];
    assert after == t + [a, d] + rest;
    PairsAppend([], a, d, rest);
    assert after[|t|..] == [] + [a, d] + rest;
  }

  /** The nested loop of deffend, at hand card i and attack card j. Each
      hand card is tried against the attack cards in turn; when it beats
      one, the pair is struck and the scan goes on with the next attack
      index. A strike can leave i at the end of the hand while attack
      cards remain: as written the loop then reads hand[i] past the end,
      shown here as None. With `guarded`, the inner loop also stops there. */
  function Scan(f: Fight, i: nat, j: nat, guarded: bool): (r: Option<Fight>)
    requires i <= |f.hand| && j <= |f.atk| + 1
    ensures guarded ==> r.Some?
    decreases |f.hand| - i, |f.atk| + 1 - j
  {
    if j >= |f.atk| then
      if i + 1 < |f.hand| then Scan(f, i + 1, 0, guarded) else Some(f)
    else if i >= |f.hand| then
      if guarded then Some(f) else None
    else if CanBeat(f.atk[j], f.hand[i]) then Scan(Strike(f, i, j), i, j + 1, guarded)
    else Scan(f, i, j + 1, guarded)
  }

  /** The scan creates and loses no card. */
  lemma {:induction false} ScanKeepsCards(f: Fight, i: nat, j: nat, guarded: bool)
    requires i <= |f.hand| && j <= |f.atk| + 1
    requires Scan(f, i, j, guarded).Some?
    ensures Cards(Scan(f, i, j, guarded).value) == Cards(f)
    decreases |f.hand| - i, |f.atk| + 1 - j
  {
    if j >= |f.atk| {
      if i + 1 < |f.hand| {
        ScanKeepsCards(f, i + 1, 0, guarded);
      }
    } else if i >= |f.hand| {
    } else if CanBeat(f.atk[j], f.hand[i]) {
      var s := Strike(f, i, j);
      assert Scan(f, i, j, guarded) == Scan(s, i, j + 1, guarded);
      StrikeCards(f, i, j);
      ScanKeepsCards(s, i, j + 1, guarded);
    } else {
      ScanKeepsCards(f, i, j + 1, guarded);
    }
  }

  /** The scan only appends to temp, and only beaten pairs. */
  lemma {:induction false} ScanKeepsPairs(f: Fight, i: nat, j: nat, guarded: bool)
    requires i <= |f.hand| && j <= |f.atk| + 1
    requires Scan(f, i, j, guarded).Some?
    ensures GrewByPairs(f.temp, Scan(f, i, j, guarded).value.temp)
    decreases |f.hand| - i, |f.atk| + 1 - j
  {
    if j >= |f.atk| {
      if i + 1 < |f.hand| {
        ScanKeepsPairs(f, i + 1, 0, guarded);
      }
    } else if i >= |f.hand| {
      assert f.temp[..|f.temp|] == f.temp && f.temp[|f.temp|..] == [];
    } else if CanBeat(f.atk[j], f.hand[i]) {
      var s := Strike(f, i, j);
      assert Scan(f, i, j, guarded) == Scan(s, i, j + 1, guarded);
      ScanKeepsPairs(s, i, j + 1, guarded);
      GrewByPairsStep(f.temp, f.atk[j], f.hand[i], Scan(s, i, j + 1, guarded).value.temp);
    } else {
      ScanKeepsPairs(f, i, j + 1, guarded);
    }
  }

  /** Where the loop as written does not read past the hand, the guarded
      loop does exactly the same. */
  lemma {:induction false} ScanAgrees(f: Fight, i: nat, j: nat)
    requires i <= |f.hand| && j <= |f.atk| + 1
    requires Scan(f, i, j, false).Some?
    ensures Scan(f, i, j, true) == Scan(f, i, j, false)
    decreases |f.hand| - i, |f.atk| + 1 - j
  {
    if j >= |f.atk| {
      if i + 1 < |f.hand| {
        assert Scan(f, i, j, false) == Scan(f, i + 1, 0, false);
        ScanAgrees(f, i + 1, 0);
      }
    } else if i >= |f.hand| {
    } else if CanBeat(f.atk[j], f.hand[i]) {
      var s := Strike(f, i, j);
      assert Scan(f, i, j, false) == Scan(s, i, j + 1, false);
      ScanAgrees(s, i, j + 1);
      assert Scan(f, i, j, true) == Scan(s, i, j + 1, true);
    } else {
      assert Scan(f, i, j, false) == Scan(f, i, j + 1, false);
      ScanAgrees(f, i, j + 1);
    }
  }

  /** The whole beating loop, from the first hand card. */
  function Beat(f: Fight, guarded: bool): (r: Option<Fight>)
    ensures guarded ==> r.Some?
    ensures r.Some? ==> Cards(r.value) == Cards(f) && GrewByPairs(f.temp, r.value.temp)
  {
    if |f.hand| > 0 then
      var r := Scan(f, 0, 0, guarded);
      if r.Some? then ScanKeepsCards(f, 0, 0, guarded); ScanKeepsPairs(f, 0, 0, guarded); r else r
    else
      assert f.temp[..|f.temp|] == f.temp && f.temp[|f.temp|..] == [];
      Some(f)
  }

  lemma BeatAgrees(f: Fight)
    requires Beat(f, false).Some?
    ensures Beat(f, true) == Beat(f, false)
  {
    if |f.hand| > 0 {
      ScanAgrees(f, 0, 0);
    }
  }

  /** The end of deffend, after the loop: if attack cards remain, the
      defender takes them and temp into the hand and the result is false;
      otherwise temp goes to the discard pile and the result is true. */
  function Settle(g: Game, p: int, k: int, f: Fight): (r: (bool, Game))
    requires Shaped(g) && 0 <= p < 2 && 0 <= k < 2
  {
    if |f.atk| > 0 then
      var g1 := SetHand(g, p, k, f.hand + f.atk + f.temp);
      (false, g1.(table := g1.table.(atk := [], temp := [])))
    else
      var g1 := SetHand(g, p, k, f.hand);
      (true, g1.(table := Table(g.table.beaten + f.temp, f.atk, [])))
  }

  function FightOf(g: Game, p: int, k: int): Fight
    requires Shaped(g) && 0 <= p < 2 && 0 <= k < 2
  {
    Fight(Hand(g, p, k), g.table.atk, g.table.temp)
  }

  /** deffend as written: None where it reads past the defender's hand. */
  function DeffendAsWritten(g: Game, p: int, k: int): (r: Option<(bool, Game)>)
    requires Shaped(g) && 0 <= p < 2 && 0 <= k < 2
    ensures r.Some? ==> r == Some(Deffend(g, p, k))
  {
    var f := Beat(FightOf(g, p, k), false);
    if f.None? then None
    else
      BeatAgrees(FightOf(g, p, k));
      Some(Settle(g, p, k, f.value))
  }

  /** deffend, with the beating loop stopped where the hand has run out.
      On failure the defender's hand gains every attack card and every
      card of temp and both piles are empty; on success the attack pile is
      empty, temp has gone to the discard pile, and the cards the defender
      laid down beat the attack cards they were paired with. Either way no
      card is created or lost, and only the defender's hand and the table
      change. */
  function Deffend(g: Game, p: int, k: int): (r: (bool, Game))
    requires Shaped(g) && 0 <= p < 2 && 0 <= k < 2
    ensures Shaped(r.1) && r.1.bank == g.bank
    ensures forall q, j :: 0 <= q < 2 && 0 <= j < 2 && (q, j) != (p, k) ==> r.1.agents[q][j] == g.agents[q][j]
    ensures r.1.agents[p][k] == g.agents[p][k].(hand := Hand(r.1, p, k))
    ensures r.1.table.atk == [] && r.1.table.temp == []
    ensures !r.0 ==>
      && multiset(Hand(r.1, p, k)) == multiset(Hand(g, p, k)) + multiset(g.table.atk) + multiset(g.table.temp)
      && r.1.table.beaten == g.table.beaten
    ensures r.0 ==>
      && |r.1.table.beaten| >= |g.table.beaten| + |g.table.temp|
      && r.1.table.beaten[..|g.table.beaten| + |g.table.temp|] == g.table.beaten + g.table.temp
      && BeatenPairs(r.1.table.beaten[|g.table.beaten| + |g.table.temp|..])
    ensures multiset(Hand(r.1, p, k)) + multiset(r.1.table.beaten) ==
      multiset(Hand(g, p, k)) + multiset(g.table.atk) + multiset(g.table.temp) + multiset(g.table.beaten)
  {
    var f := Beat(FightOf(g, p, k), true).value;
    SettleTakes(g, p, k, f);
    SettleDiscards(g, p, k, f);
    Settle(g, p, k, f)
  }

  /** A failed defence: the defender's hand gains the attack pile and
      temp, and the cards stay in the defender's hand and the discard pile
      together. */
  lemma SettleTakes(g: Game, p: int, k: int, f: Fight)
    requires Shaped(g) && 0 <= p < 2 && 0 <= k < 2
    requires Cards(f) == Cards(FightOf(g, p, k))
    ensures var r := Settle(g, p, k, f);
      !r.0 ==>
      && multiset(Hand(r.1, p, k)) == multiset(Hand(g, p, k)) + multiset(g.table.atk) + multiset(g.table.temp)
      && r.1.table.beaten == g.table.beaten
  {
  }

  /** A successful defence: temp, grown by beaten pairs, goes onto the
      discard pile, and no card is created or lost. */
  lemma SettleDiscards(g: Game, p: int, k: int, f: Fight)
    requires Shaped(g) && 0 <= p < 2 && 0 <= k < 2
    requires Cards(f) == Cards(FightOf(g, p, k)) && GrewByPairs(g.table.temp, f.temp)
    ensures var r := Settle(g, p, k, f);
      && (r.0 ==>
        && |r.1.table.beaten| >= |g.table.beaten| + |g.table.temp|
        && r.1.table.beaten[..|g.table.beaten| + |g.table.temp|] == g.table.beaten + g.table.temp
        && BeatenPairs(r.1.table.beaten[|g.table.beaten| + |g.table.temp|..]))
      && multiset(Hand(r.1, p, k)) + multiset(r.1.table.beaten) ==
        multiset(Hand(g, p, k)) + multiset(g.table.atk) + multiset(g.table.temp) + multiset(g.table.beaten)
  {
    var r := Settle(g, p, k, f);
    if r.0 {
      assert f.temp == g.table.temp + f.temp[|g.table.temp|..];
      assert r.1.table.beaten == g.table.beaten + f.temp;
      assert r.1.table.beaten[|g.table.beaten| + |g.table.temp|..] == f.temp[|g.table.temp|..];
    }
  }

  // ---------------------------------------------------------------------
  // End of round
  // ---------------------------------------------------------------------

  /** check: marks every player whose hand is empty as out; nothing else
      changes and no mark is ever cleared. */
  function Check(g: Game): (r: Game)
    requires Shaped(g)
    ensures Shaped(r) && r.table == g.table && r.bank == g.bank
    ensures forall p, k :: 0 <= p < 2 && 0 <= k < 2 ==>
      r.agents[p][k] == g.agents[p][k].(done := g.agents[p][k].done || g.agents[p][k].hand == [])
  {
    var mark := (a: Agent) => a.(done := a.done || a.hand == []);
    g.(agents := [[mark(g.agents[0][0]), mark(g.agents[0][1])], [mark(g.agents[1][0]), mark(g.agents[1][1])]])
  }

  /** A second check changes nothing. */
  lemma CheckIdempotent(g: Game)
    requires Shaped(g)
    ensures Check(Check(g)) == Check(g)
  {
    var r := Check(g);
    var rr := Check(r);
    assert rr.agents[0] == r.agents[0] && rr.agents[1] == r.agents[1];
  }

  /** hasWinner: despite its name, false exactly when both players of
      some team are out. */
  function HasWinner(g: Game): (r: bool)
    requires Shaped(g)
    ensures !r <==> exists p :: 0 <= p < 2 && g.agents[p][0].done && g.agents[p][1].done
  {
    !(g.agents[0][0].done && g.agents[0][1].done) && !(g.agents[1][0].done && g.agents[1][1].done)
  }

  /** Once both players of a team have empty hands, the check after the
      round ends the game. */
  lemma TeamOutEndsGame(g: Game, p: int)
    requires Shaped(g) && 0 <= p < 2
    requires Hand(g, p, 0) == [] && Hand(g, p, 1) == []
    ensures !HasWinner(Check(g))
  {
  }

  // ---------------------------------------------------------------------
  // Adding attack cards and refilling hands
  // ---------------------------------------------------------------------

  /** Some card of temp has the value of c. */
  predicate Matches(c: Card, temp: seq<Card>) {
    exists j :: 0 <= j < |temp| && temp[j].value == c.value
  }

  /** Moves card i of player k's hand onto the attack pile. */
  function Throw(g: Game, p: int, k: int, i: int): (r: Game)
    requires Shaped(g) && 0 <= p < 2 && 0 <= k < 2 && 0 <= i < |Hand(g, p, k)|
  {
    var g1 := DeleteCard(g, p, k, i);
    g1.(table := g1.table.(atk := g.table.atk + [Hand(g, p, k)[i]]))
  }

  /** `after` is g with one card thrown from a hand of team p whose value
      matches a card of temp. */
  ghost predicate Thrown(g: Game, p: int, after: Game)
    requires Shaped(g) && 0 <= p < 2
  {
    exists k, c :: 0 <= k < 2 && 0 <= c < |Hand(g, p, k)| &&
      Matches(Hand(g, p, k)[c], g.table.temp) && after == Throw(g, p, k, c)
  }

  /** The loop of addToTable at card index i, with `who` the player whose
      hand bounds the loop. Card i of that hand is thrown if its value is
      in temp; otherwise `who` switches to the partner (for this and the
      following indices) and the partner's card i is tried. As written,
      the partner's card i is read even when the partner has fewer cards,
      shown here as None; with `guarded` that read is skipped. */
  function TableScan(g: Game, p: int, who: int, i: nat, guarded: bool): (r: Option<(bool, Game)>)
    requires Shaped(g) && 0 <= p < 2 && 0 <= who < 2
    decreases |Hand(g, p, 0)| + |Hand(g, p, 1)| - i
  {
    if i >= |Hand(g, p, who)| then Some((false, g))
    else if Matches(Hand(g, p, who)[i], g.table.temp) then Some((true, Throw(g, p, who, i)))
    else
      var other := 1 - who;
      if |g.table.temp| == 0 then TableScan(g, p, other, i + 1, guarded)
      else if i >= |Hand(g, p, other)| then
        if guarded then TableScan(g, p, other, i + 1, guarded) else None
      else if Matches(Hand(g, p, other)[i], g.table.temp) then Some((true, Throw(g, p, other, i)))
      else TableScan(g, p, other, i + 1, guarded)
  }

  lemma {:induction false} TableScanAgrees(g: Game, p: int, who: int, i: nat)
    requires Shaped(g) && 0 <= p < 2 && 0 <= who < 2
    requires TableScan(g, p, who, i, false).Some?
    ensures TableScan(g, p, who, i, true) == TableScan(g, p, who, i, false)
    decreases |Hand(g, p, 0)| + |Hand(g, p, 1)| - i
  {
    if i < |Hand(g, p, who)| && !Matches(Hand(g, p, who)[i], g.table.temp) {
      var other := 1 - who;
      if |g.table.temp| == 0 || (i < |Hand(g, p, other)| && !Matches(Hand(g, p, other)[i], g.table.temp)) {
        TableScanAgrees(g, p, other, i + 1);
      }
    }
  }

  /** The guarded loop either throws exactly one card whose value lies on
      the table, taken from one of the attacking team's hands, or changes
      nothing. */
  lemma {:induction false} TableScanThrows(g: Game, p: int, who: int, i: nat)
    requires Shaped(g) && 0 <= p < 2 && 0 <= who < 2
    ensures var r := TableScan(g, p, who, i, true);
      && r.Some?
      && (!r.value.0 ==> r.value.1 == g)
      && (r.value.0 ==> Thrown(g, p, r.value.1))
    decreases |Hand(g, p, 0)| + |Hand(g, p, 1)| - i
  {
    if i < |Hand(g, p, who)| && !Matches(Hand(g, p, who)[i], g.table.temp) {
      TableScanThrows(g, p, 1 - who, i + 1);
    }
  }

  /** addToTable as written: None where it reads past the partner's hand. */
  function AddToTableAsWritten(g: Game, p: int, k: int): (r: Option<(bool, Game)>)
    requires Shaped(g) && 0 <= p < 2 && 0 <= k < 2
    ensures r.Some? ==> r == Some(AddToTable(g, p, k))
  {
    var r := TableScan(g, p, k, 0, false);
    if r.Some? then TableScanAgrees(g, p, k, 0); r else r
  }

  /** addToTable, with the partner's card read only when it exists: it
      throws at most one card whose value matches a card of temp, from
      the attacker's or the partner's hand, and reports whether it did. */
  function AddToTable(g: Game, p: int, k: int): (r: (bool, Game))
    requires Shaped(g) && 0 <= p < 2 && 0 <= k < 2
    ensures !r.0 ==> r.1 == g
    ensures r.0 ==> Thrown(g, p, r.1)
  {
    TableScanThrows(g, p, k, 0);
    TableScan(g, p, k, 0, true).value
  }

  /** The inner loop of addToHand for one player: draw from the front of
      the bank until the hand has six cards. As written an empty bank is
      read, shown here as None; with `guarded` drawing stops there. The
      cards move in order: hand and bank together read as before. */
  function Fill(hand: seq<Card>, bank: seq<Card>, guarded: bool): (r: Option<(seq<Card>, seq<Card>)>)
    ensures guarded ==> r.Some?
    ensures r.Some? ==> r.value.0 + r.value.1 == hand + bank
    ensures r.Some? ==> |r.value.0| >= |hand| && r.value.0[..|hand|] == hand
    ensures r.Some? ==> |r.value.0| >= 6 || r.value.1 == []
    decreases 6 - |hand|
  {
    if |hand| >= 6 then Some((hand, bank))
    else if bank == [] then (if guarded then Some((hand, bank)) else None)
    else
      var r := Fill(hand + [bank[0]], bank[1..], guarded);
      assert hand + [bank[0]] + bank[1..] == hand + bank;
      assert r.Some? ==> r.value.0[..|hand|] == (hand + [bank[0]])[..|hand|];
      r
  }

  lemma {:induction false} FillAgrees(hand: seq<Card>, bank: seq<Card>)
    requires Fill(hand, bank, false).Some?
    ensures Fill(hand, bank, true) == Fill(hand, bank, false)
    decreases 6 - |hand|
  {
    if |hand| < 6 && bank != [] {
      FillAgrees(hand + [bank[0]], bank[1..]);
    }
  }

  /** Every card in the four hands and the bank. */
  function HandsAndBank(g: Game): multiset<Card>
    requires Shaped(g)
  {
    multiset(Hand(g, 0, 0)) + multiset(Hand(g, 0, 1)) + multiset(Hand(g, 1, 0)) + multiset(Hand(g, 1, 1))
      + multiset(g.bank.arr)
  }

  /** Moving cards between one hand and the bank keeps the cards in hands
      and bank together. */
  lemma HandsAndBankMove(g: Game, p: int, k: int, hand: seq<Card>, bank: seq<Card>)
    requires Shaped(g) && 0 <= p < 2 && 0 <= k < 2
    requires multiset(hand) + multiset(bank) == multiset(Hand(g, p, k)) + multiset(g.bank.arr)
    ensures HandsAndBank(SetHand(g, p, k, hand).(bank := g.bank.(arr := bank))) == HandsAndBank(g)
  {
    var g1 := SetHand(g, p, k, hand).(bank := g.bank.(arr := bank));
    forall z
      ensures HandsAndBank(g1)[z] == HandsAndBank(g)[z]
    {
      assert (multiset(hand) + multiset(bank))[z] == (multiset(Hand(g, p, k)) + multiset(g.bank.arr))[z];
    }
    assert HandsAndBank(g1) == HandsAndBank(g);
  }

  /** `r` differs from g only by cards drawn from the bank into hands:
      the table and the trump suit are as before, no card is created or
      lost, and the bank did not grow. */
  ghost predicate Drawn(g: Game, r: Game)
    requires Shaped(g) && Shaped(r)
  {
    && r.table == g.table && r.bank.adm == g.bank.adm
    && HandsAndBank(r) == HandsAndBank(g) && |r.bank.arr| <= |g.bank.arr|
  }

  /** Every hand of g is a prefix of the same hand in r. */
  ghost predicate Grown(g: Game, r: Game)
    requires Shaped(g) && Shaped(r)
  {
    forall p, k :: 0 <= p < 2 && 0 <= k < 2 ==>
      |Hand(r, p, k)| >= |Hand(g, p, k)| && Hand(r, p, k)[..|Hand(g, p, k)|] == Hand(g, p, k)
  }

  /** From seat `seat` on (seat 2p + k is player k of team p), every hand
      has six cards, unless the bank is empty. */
  ghost predicate FullFrom(r: Game, seat: int)
    requires Shaped(r)
  {
    forall p, k :: 0 <= p < 2 && 0 <= k < 2 && 2 * p + k >= seat ==> |Hand(r, p, k)| >= 6 || r.bank.arr == []
  }

  /** The inner loop of addToHand for the player at seat `seat`: that hand
      grows by cards drawn from the bank until it has six or the bank is
      empty. */
  function FillSeat(g: Game, seat: nat, guarded: bool): (r: Option<Game>)
    requires Shaped(g) && seat < 4
    ensures guarded ==> r.Some?
    ensures r.Some? ==> Shaped(r.value) && Drawn(g, r.value) && Grown(g, r.value)
    ensures r.Some? ==> |Hand(r.value, seat / 2, seat % 2)| >= 6 || r.value.bank.arr == []
  {
    var p, k := seat / 2, seat % 2;
    var f := Fill(Hand(g, p, k), g.bank.arr, guarded);
    if f.None? then None
    else
      var g1 := SetHand(g, p, k, f.value.0).(bank := g.bank.(arr := f.value.1));
      DrawInto(g, p, k, f.value.0, f.value.1);
      Some(g1)
  }

  /** Moving cards from the front of the bank to the end of one hand is a
      draw that only grows hands. */
  lemma DrawInto(g: Game, p: int, k: int, hand: seq<Card>, bank: seq<Card>)
    requires Shaped(g) && 0 <= p < 2 && 0 <= k < 2
    requires hand + bank == Hand(g, p, k) + g.bank.arr
    requires |hand| >= |Hand(g, p, k)| && hand[..|Hand(g, p, k)|] == Hand(g, p, k)
    ensures var g1 := SetHand(g, p, k, hand).(bank := g.bank.(arr := bank));
      Shaped(g1) && Drawn(g, g1) && Grown(g, g1)
  {
    assert multiset(hand) + multiset(bank) == multiset(Hand(g, p, k)) + multiset(g.bank.arr) by {
      assert multiset(hand + bank) == multiset(Hand(g, p, k) + g.bank.arr);
    }
    HandsAndBankMove(g, p, k, hand, bank);
    assert |hand| + |bank| == |Hand(g, p, k)| + |g.bank.arr|;
  }

  /** The hands filled in turn from seat `seat` to the last. */
  function RefillFrom(g: Game, seat: nat, guarded: bool): (r: Option<Game>)
    requires Shaped(g) && seat <= 4
    ensures guarded ==> r.Some?
    ensures r.Some? ==> Shaped(r.value) && Drawn(g, r.value) && Grown(g, r.value) && FullFrom(r.value, seat)
    decreases 4 - seat
  {
    if seat == 4 then Some(g)
    else
      var g1 := FillSeat(g, seat, guarded);
      if g1.None? then None
      else
        var r := RefillFrom(g1.value, seat + 1, guarded);
        if r.Some? then RefillStep(g, g1.value, r.value, seat); r else r
  }

  /** Filling one seat and then the seats after it fills every seat from
      this one on. */
  lemma RefillStep(g: Game, g1: Game, r: Game, seat: int)
    requires Shaped(g) && Shaped(g1) && Shaped(r) && 0 <= seat < 4
    requires Drawn(g, g1) && Grown(g, g1) && (|Hand(g1, seat / 2, seat % 2)| >= 6 || g1.bank.arr == [])
    requires Drawn(g1, r) && Grown(g1, r) && FullFrom(r, seat + 1)
    ensures Drawn(g, r) && Grown(g, r) && FullFrom(r, seat)
  {
    PrefixOfPrefix(g, g1, r);
    var p, k := seat / 2, seat % 2;
    assert |Hand(r, p, k)| >= |Hand(g1, p, k)|;
    forall q, j | 0 <= q < 2 && 0 <= j < 2 && 2 * q + j >= seat
      ensures |Hand(r, q, j)| >= 6 || r.bank.arr == []
    {
      if 2 * q + j == seat {
        assert q == p && j == k;
      }
    }
  }

  /** The cards in the four hands and the bank, counted. */
  lemma HandsAndBankSize(g: Game)
    requires Shaped(g)
    ensures |HandsAndBank(g)| == |Hand(g, 0, 0)| + |Hand(g, 0, 1)| + |Hand(g, 1, 0)| + |Hand(g, 1, 1)| + |g.bank.arr|
  {
  }

  /** Hands that only grow, twice over, only grow. */
  lemma PrefixOfPrefix(g: Game, g1: Game, g2: Game)
    requires Shaped(g) && Shaped(g1) && Shaped(g2)
    requires Grown(g, g1) && Grown(g1, g2)
    ensures Grown(g, g2)
  {
    forall p, k | 0 <= p < 2 && 0 <= k < 2
      ensures Hand(g2, p, k)[..|Hand(g, p, k)|] == Hand(g, p, k)
    {
      assert Hand(g2, p, k)[..|Hand(g, p, k)|] == Hand(g2, p, k)[..|Hand(g1, p, k)|][..|Hand(g, p, k)|];
    }
  }

  lemma {:induction false} RefillAgrees(g: Game, seat: nat)
    requires Shaped(g) && seat <= 4
    requires RefillFrom(g, seat, false).Some?
    ensures RefillFrom(g, seat, true) == RefillFrom(g, seat, false)
    decreases 4 - seat
  {
    if seat < 4 {
      FillAgrees(Hand(g, seat / 2, seat % 2), g.bank.arr);
      RefillAgrees(FillSeat(g, seat, false).value, seat + 1);
    }
  }

  /** addToHand as written: None where it reads an empty bank. */
  function AddToHandAsWritten(g: Game): (r: Option<Game>)
    requires Shaped(g)
    ensures r.Some? ==> r == Some(AddToHand(g))
  {
    if g.bank.arr == [] then Some(g)
    else
      var r := RefillFrom(g, 0, false);
      if r.Some? then RefillAgrees(g, 0); r else r
  }

  /** addToHand, with drawing stopped once the bank is empty. When the
      bank is not empty, the players draw in seat order. Each hand grows
      only by cards from the bank, no card is created or lost, the table
      is untouched, and afterwards every hand has six cards or the bank is
      empty. */
  function AddToHand(g: Game): (r: Game)
    requires Shaped(g)
    ensures Shaped(r) && r.table == g.table && r.bank.adm == g.bank.adm
    ensures HandsAndBank(r) == HandsAndBank(g)
    ensures forall p, k :: 0 <= p < 2 && 0 <= k < 2 ==>
      |Hand(r, p, k)| >= |Hand(g, p, k)| && Hand(r, p, k)[..|Hand(g, p, k)|] == Hand(g, p, k)
    ensures forall p, k :: 0 <= p < 2 && 0 <= k < 2 ==> |Hand(r, p, k)| >= 6 || r.bank.arr == []
  {
    if g.bank.arr == [] then g else RefillFrom(g, 0, true).value
  }

  // ---------------------------------------------------------------------
  // Inputs on which the loops as written read past the end
  // ---------------------------------------------------------------------

  /** A game in which only the first team holds cards. */
  function TwoHands(h0: seq<Card>, h1: seq<Card>, table: Table, bank: seq<Card>): (g: Game)
    ensures Shaped(g) && Hand(g, 0, 0) == h0 && Hand(g, 0, 1) == h1
    ensures Hand(g, 1, 0) == [] && Hand(g, 1, 1) == []
    ensures g.table == table && g.bank.arr == bank
  {
    Game([[Agent(0, h0, true, false), Agent(1, h1, false, false)],
          [Agent(2, [], true, false), Agent(3, [], false, false)]], table, Bank(bank, 0))
  }

  /** The defender holds a 0 of suit 1 and a 6 of suit 0 against a 5 of
      suit 0, a 6 of suit 1 and a 7 of suit 2. The 6 beats the 5 and is
      the last hand card, yet the inner loop goes on to the next attack
      card and reads the defender's second card of a one-card hand. The
      guarded deffend instead gives up and takes the two cards left. */
  lemma DeffendReadsPastHand() returns (g: Game)
    ensures Shaped(g)
    ensures DeffendAsWritten(g, 0, 0) == None
    ensures !Deffend(g, 0, 0).0
  {
    var c0, c1 := Card(0, 1, false), Card(6, 0, false);
    var a0, a1, a2 := Card(5, 0, false), Card(6, 1, false), Card(7, 2, false);
    g := TwoHands([c0, c1], [], Table([], [a0, a1, a2], []), []);
    var f := FightOf(g, 0, 0);
    assert f == Fight([c0, c1], [a0, a1, a2], []);
    assert !CanBeat(a0, c0) && !CanBeat(a1, c0) && !CanBeat(a2, c0) && CanBeat(a0, c1);
    ScanStuck(f);
    assert Strike(f, 1, 0).atk == [a1, a2];
  }

  /** The scan on a two-card hand against three attack cards, where only
      the second hand card beats, and beats the first attack card. */
  lemma ScanStuck(f: Fight)
    requires |f.hand| == 2 && |f.atk| == 3
    requires !CanBeat(f.atk[0], f.hand[0]) && !CanBeat(f.atk[1], f.hand[0]) && !CanBeat(f.atk[2], f.hand[0])
    requires CanBeat(f.atk[0], f.hand[1])
    ensures Scan(f, 0, 0, false) == None
    ensures Scan(f, 0, 0, true) == Some(Strike(f, 1, 0))
  {
    var s := Strike(f, 1, 0);
    assert Scan(f, 0, 2, false) == Scan(f, 0, 3, false) == Scan(f, 1, 0, false);
    assert Scan(f, 0, 0, false) == Scan(f, 0, 1, false) == Scan(f, 0, 2, false);
    assert Scan(f, 1, 0, false) == Scan(s, 1, 1, false) == None;
    assert Scan(f, 0, 2, true) == Scan(f, 0, 3, true) == Scan(f, 1, 0, true);
    assert Scan(f, 0, 0, true) == Scan(f, 0, 1, true) == Scan(f, 0, 2, true);
    assert Scan(f, 1, 0, true) == Scan(s, 1, 1, true) == Some(s);
  }

  /** The attacker holds one card that matches nothing on the table and
      the partner holds none: after the switch, the partner's first card
      is read from an empty hand. */
  lemma AddToTableReadsPastPartner() returns (g: Game)
    ensures Shaped(g)
    ensures AddToTableAsWritten(g, 0, 0) == None
    ensures AddToTable(g, 0, 0) == (false, g)
  {
    var x, t := Card(3, 0, false), Card(9, 1, false);
    g := TwoHands([x], [], Table([], [], [t]), []);
    assert !Matches(x, [t]);
    assert TableScan(g, 0, 1, 1, true) == Some((false, g));
  }

  /** With one card left in the bank and four cards in the first hand,
      the first hand draws the last card and then reads the empty bank.
      The guarded addToHand stops with five cards in that hand. */
  lemma AddToHandReadsEmptyBank() returns (g: Game)
    ensures Shaped(g)
    ensures AddToHandAsWritten(g) == None
    ensures |Hand(AddToHand(g), 0, 0)| == 5 && AddToHand(g).bank.arr == []
  {
    var c := Card(0, 0, false);
    var last := Card(1, 0, false);
    g := TwoHands([c, c, c, c], [], Table([], [], []), [last]);
    var h := [c, c, c, c];
    assert h + [[last][0]] == [c, c, c, c, last] && [last][1..] == [];
    assert Fill(h, [last], false) == Fill([c, c, c, c, last], [], false) == None;
    assert FillSeat(g, 0, false) == None;
    var r := AddToHand(g);
    HandsAndBankSize(g);
    HandsAndBankSize(r);
    assert |Hand(r, 0, 0)| >= 4 && |Hand(r, 0, 1)| >= 0;
    assert |Hand(r, 0, 0)| >= 6 || r.bank.arr == [];
  }
}
