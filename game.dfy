/** The live game: the state the players change turn by turn. */
module Game {
  import opened Rules
  import Search

  /** How far apart two positions are. */
  function Distance(index1: nat, index2: nat): (d: nat)
    ensures d == 1 <==> index2 == index1 + 1 || index1 == index2 + 1
    ensures d == 0 <==> index1 == index2
  {
    if index1 < index2 then index2 - index1 else index1 - index2
  }

  /** The list with the entry at `i` taken out: the later entries move down
      one place. */
  function Delete(numbers: seq<int>, i: nat): (rest: seq<int>)
    requires i < |numbers|
    ensures |rest| == |numbers| - 1
    ensures forall k :: 0 <= k < i ==> rest[k] == numbers[k]
    ensures forall k :: i <= k < |rest| ==> rest[k] == numbers[k + 1]
  {
    numbers[..i] + numbers[i + 1..]
  }

  class NumberPairGame {
    var numbers: seq<int>
    var scores: Scores
    var currentPlayer: Player

    /** A fresh game over the given numbers, both scores zero; player 1 or
        the bot moves first. */
    constructor (initial: seq<int>, playerStarts: bool)
      ensures numbers == initial
      ensures scores == Scores(0, 0)
      ensures currentPlayer == if playerStarts then One else Two
    {
      numbers := initial;
      scores := Scores(0, 0);
      currentPlayer := if playerStarts then One else Two;
    }

    /** The game seen as a search node. */
    function State(): Node
      reads this
    {
      Node(numbers, scores, currentPlayer)
    }

    /** Takes the pair at `index1` and `index2` for the player to move. A pair
        that is not adjacent is ignored; an adjacent pair, picked in either
        order, has the same effect as the search's successor function on the
        lower and the higher index. */
    method ProcessTurn(index1: nat, index2: nat)
      requires Distance(index1, index2) == 1 ==> index1 < |numbers| && index2 < |numbers|
      modifies this
      ensures Distance(index1, index2) != 1 ==> State() == old(State())
      ensures Distance(index1, index2) == 1 ==>
                var lo := if index1 < index2 then index1 else index2;
                State() == ChildNode(old(State()), (lo, lo + 1), old(currentPlayer))
      ensures Distance(index1, index2) == 1 ==>
                && |numbers| == |old(numbers)| - 2
                && scores.Get(old(currentPlayer))
                   == old(scores).Get(old(currentPlayer)) + PairBonus(old(numbers)[index1], old(numbers)[index2])
                && scores.Get(currentPlayer) == old(scores).Get(currentPlayer)
                && currentPlayer == Other(old(currentPlayer))
    {
      if Distance(index1, index2) != 1 {
        return;
      }
      var num1, num2 := numbers[index1], numbers[index2];
      var bonus := PairBonus(num1, num2);
      scores := scores.Add(currentPlayer, bonus);
      if index1 < index2 {
        numbers := Delete(numbers, index2);
        numbers := Delete(numbers, index1);
      } else {
        numbers := Delete(numbers, index1);
        numbers := Delete(numbers, index2);
      }
      currentPlayer := Other(currentPlayer);
      ghost var lo := if index1 < index2 then index1 else index2;
      // The same three slices as `ChildNode` takes; the middle one is empty
      // for an adjacent pair.
      assert numbers == old(numbers)[..lo] + old(numbers)[lo + 1..lo + 1] + old(numbers)[lo + 2..];
    }

    /** The bot's turn. With fewer than two numbers left there is no move and
        the game ends with the outcome of the scores. Otherwise the bot
        searches three plies from its own side, with minimax or with
        alpha-beta from the full window, and plays the move found; either
        algorithm leaves the game in the same state, the one minimax's first
        best move leads to. */
    method BotPlay(useAlphaBeta: bool) returns (outcome: Option<Outcome>)
      modifies this
      ensures |old(numbers)| < 2 ==> outcome == Some(Winner(old(scores))) && State() == old(State())
      ensures |old(numbers)| >= 2 ==>
                var best := Search.BestMove(Node(old(numbers), old(scores), Two), 3, true);
                && outcome == None
                && best.Some?
                && State() == ChildNode(old(State()), best.value, old(currentPlayer))
    {
      if |numbers| < 2 {
        return Some(Winner(scores));
      }
      var best := Search.BotSearch(Node(numbers, scores, Two), useAlphaBeta);
      if best.Some? {
        ProcessTurn(best.value.0, best.value.1);
      }
      outcome := None;
    }
  }
}
