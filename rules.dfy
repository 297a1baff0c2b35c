/** The rules of the number-pair game: the players, the two-entry score board,
    the game node the search explores, the pair bonus, the list of legal moves,
    the successor function, the evaluator and the outcome rule. */
module Rules {

  datatype Option<T> = None | Some(value: T)

  /** The players, numbered 1 and 2 in the game; player 2 is the bot. */
  datatype Player = One | Two

  /** The player who moves after `p`: the turn passes to the other one. */
  function Other(p: Player): (q: Player)
    ensures q != p
  {
    if p == Two then One else Two
  }

  /** The score board: one score per player. */
  datatype Scores = Scores(one: int, two: int) {

    function Get(p: Player): int {
      if p == One then one else two
    }

    /** A new board with `bonus` added to the score of `p`; the other score
        stays as it was. */
    function Add(p: Player, bonus: int): (s: Scores)
      ensures s.Get(p) == Get(p) + bonus
      ensures s.Get(Other(p)) == Get(Other(p))
    {
      if p == One then Scores(one + bonus, two) else Scores(one, two + bonus)
    }

    function Total(): int {
      one + two
    }
  }

  /** A position: the remaining numbers, the scores and whose turn it is. */
  datatype Node = Node(numbers: seq<int>, scores: Scores, currentPlayer: Player)

  /** A move names two positions of the remaining numbers. */
  type Move = (nat, nat)

  /** The three-tier bonus for removing a pair whose values are `a` and `b`. */
  function PairBonus(a: int, b: int): (bonus: int)
    ensures 1 <= bonus <= 3
    ensures bonus == 3 <==> a + b > 7
    ensures bonus == 2 <==> a + b == 7
    ensures bonus == 1 <==> a + b < 7
  {
    if a + b > 7 then 3 else if a + b == 7 then 2 else 1
  }

  /** Every adjacent pair `(i, i + 1)`, in ascending order of `i`. */
  function PossibleMoves(numbers: seq<int>): (moves: seq<Move>)
    ensures |moves| == if |numbers| <= 1 then 0 else |numbers| - 1
    ensures forall i :: 0 <= i < |moves| ==> moves[i] == (i, i + 1)
  {
    if |numbers| <= 1 then []
    else seq(|numbers| - 1, i requires 0 <= i < |numbers| - 1 => (i, i + 1))
  }

  /** The legal moves are exactly the in-range adjacent pairs. */
  lemma PossibleMovesAreAdjacentPairs(numbers: seq<int>, m: Move)
    ensures m in PossibleMoves(numbers) <==> m.1 == m.0 + 1 && m.1 < |numbers|
  {
    var moves := PossibleMoves(numbers);
    if m.1 == m.0 + 1 && m.1 < |numbers| {
      assert moves[m.0] == m;
    }
  }

  /** The successor of `node` after `player` removes the numbers at positions
      `move.0` and `move.1`; the parent node is a value and is left as it was. */
  function ChildNode(node: Node, move: Move, player: Player): (child: Node)
    requires move.0 < move.1 < |node.numbers|
    ensures |child.numbers| == |node.numbers| - 2
    ensures forall k :: 0 <= k < move.0 ==> child.numbers[k] == node.numbers[k]
    ensures forall k :: move.0 <= k < move.1 - 1 ==> child.numbers[k] == node.numbers[k + 1]
    ensures forall k :: move.1 - 1 <= k < |child.numbers| ==> child.numbers[k] == node.numbers[k + 2]
    ensures child.scores.Get(player)
            == node.scores.Get(player) + PairBonus(node.numbers[move.0], node.numbers[move.1])
    ensures child.scores.Get(Other(player)) == node.scores.Get(Other(player))
    ensures child.currentPlayer == Other(player)
  {
    var s := node.numbers;
    var bonus := PairBonus(s[move.0], s[move.1]);
    Node(s[..move.0] + s[move.0 + 1..move.1] + s[move.1 + 1..], node.scores.Add(player, bonus), Other(player))
  }

  /** The numbers of the child are those of the parent less the two removed. */
  lemma ChildNodeRemovesExactlyThePair(node: Node, move: Move, player: Player)
    requires move.0 < move.1 < |node.numbers|
    ensures multiset(ChildNode(node, move, player).numbers)
            + multiset{node.numbers[move.0], node.numbers[move.1]}
            == multiset(node.numbers)
  {
    var s := node.numbers;
    var i, j := move.0, move.1;
    assert s == s[..i] + [s[i]] + s[i + 1..j] + [s[j]] + s[j + 1..];
    assert ChildNode(node, move, player).numbers == s[..i] + s[i + 1..j] + s[j + 1..];
  }

  /** The evaluation from the bot's side: score difference plus a tenth of the
      count of remaining numbers. */
  function Heuristic(node: Node): (h: real)
    ensures (node.scores.two - node.scores.one) as real <= h
    ensures h < (node.scores.two - node.scores.one + 1) as real <==> |node.numbers| < 10
  {
    (node.scores.two - node.scores.one) as real + (|node.numbers| as real) / 10.0
  }

  /** One ply moves the evaluation by the bonus, up for the bot and down for
      player 1, less two tenths for the two numbers removed. */
  lemma HeuristicAfterMove(node: Node, move: Move, player: Player)
    requires move.0 < move.1 < |node.numbers|
    ensures var bonus := PairBonus(node.numbers[move.0], node.numbers[move.1]);
            Heuristic(ChildNode(node, move, player))
            == Heuristic(node) + (if player == Two then bonus else -bonus) as real - 0.2
  {
  }

  /** Between nodes with equally many numbers left, the evaluation orders by
      score difference alone. */
  lemma HeuristicOrdersByDifference(x: Node, y: Node)
    requires |x.numbers| == |y.numbers|
    ensures Heuristic(x) < Heuristic(y)
            <==> x.scores.two - x.scores.one < y.scores.two - y.scores.one
  {
  }

  datatype Outcome = PlayerOneWins | PlayerTwoWins | Draw

  /** The outcome rule applied when at most one number is left. */
  function Winner(scores: Scores): (o: Outcome)
    ensures o == PlayerOneWins <==> scores.one > scores.two
    ensures o == PlayerTwoWins <==> scores.two > scores.one
    ensures o == Draw <==> scores.one == scores.two
  {
    if scores.one > scores.two then PlayerOneWins
    else if scores.two > scores.one then PlayerTwoWins
    else Draw
  }

  function Mirror(o: Outcome): Outcome {
    match o
    case PlayerOneWins => PlayerTwoWins
    case PlayerTwoWins => PlayerOneWins
    case Draw => Draw
  }

  /** The rule favours neither player: exchanging the scores exchanges the winner. */
  lemma WinnerIsSymmetric(scores: Scores)
    ensures Winner(Scores(scores.two, scores.one)) == Mirror(Winner(scores))
  {
  }

  /** The node reached when the player to move takes the pair `(i, i + 1)` for
      each `i` of `picks` in turn; `None` once a pick is out of range. */
  function Replay(node: Node, picks: seq<nat>): Option<Node>
    decreases |picks|
  {
    if picks == [] then Some(node)
    else if picks[0] + 1 < |node.numbers| then
      Replay(ChildNode(node, (picks[0], picks[0] + 1), node.currentPlayer), picks[1..])
    else None
  }

  /** One turn: the player to move gains the pair bonus, the other player's
      score stays, two numbers go and the turn passes. */
  lemma TurnStep(node: Node, i: nat)
    requires i + 1 < |node.numbers|
    ensures var child := ChildNode(node, (i, i + 1), node.currentPlayer);
            && |child.numbers| == |node.numbers| - 2
            && node.scores.one <= child.scores.one
            && node.scores.two <= child.scores.two
            && 1 <= child.scores.Total() - node.scores.Total() <= 3
            && child.currentPlayer == Other(node.currentPlayer)
  {
    var child := ChildNode(node, (i, i + 1), node.currentPlayer);
    var bonus := PairBonus(node.numbers[i], node.numbers[i + 1]);
    if node.currentPlayer == One {
      assert child.scores.one == node.scores.one + bonus && child.scores.two == node.scores.two;
    } else {
      assert child.scores.two == node.scores.two + bonus && child.scores.one == node.scores.one;
    }
  }

  /** Parity of a count of turns; `Even` and `EvenAlternates` are proof steps
      of `ReplayInvariants`, not claims about the game. */
  predicate Even(n: nat) {
    n % 2 == 0
  }

  lemma EvenAlternates(n: nat)
    requires n > 0
    ensures Even(n) <==> !Even(n - 1)
  {
  }

  /** Over a run of turns: two numbers go per turn, no score ever decreases,
      the total grows by 1 to 3 per turn, and the turn alternates. */
  lemma {:induction false} ReplayInvariants(node: Node, picks: seq<nat>, last: Node)
    requires Replay(node, picks) == Some(last)
    ensures |last.numbers| == |node.numbers| - 2 * |picks|
    ensures node.scores.one <= last.scores.one && node.scores.two <= last.scores.two
    ensures |picks| <= last.scores.Total() - node.scores.Total() <= 3 * |picks|
    ensures last.currentPlayer == if Even(|picks|) then node.currentPlayer else Other(node.currentPlayer)
    decreases |picks|
  {
    if picks != [] {
      var child := ChildNode(node, (picks[0], picks[0] + 1), node.currentPlayer);
      TurnStep(node, picks[0]);
      ReplayInvariants(child, picks[1..], last);
      EvenAlternates(|picks|);
    }
  }
}
