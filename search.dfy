/** Depth-bounded game-tree search for the bot: plain minimax and fail-soft
    alpha-beta. Both maximise for player 2 and minimise for player 1, evaluate
    every leaf from player 2's side, and keep the first of equally good moves. */
module Search {
  import opened Rules

  /** A search bound: minus infinity, a finite value, or plus infinity. */
  datatype Ext = NegInf | Fin(r: real) | PosInf

  predicate Le(x: Ext, y: Ext) {
    x == NegInf || y == PosInf || (x.Fin? && y.Fin? && x.r <= y.r)
  }

  predicate Lt(x: Ext, y: Ext) {
    !Le(y, x)
  }

  function Max(x: Ext, y: Ext): Ext {
    if Le(x, y) then y else x
  }

  function Min(x: Ext, y: Ext): Ext {
    if Le(x, y) then x else y
  }

  /** The player whose move the search tries at a node: hard-wired to the bot
      at maximising nodes and to player 1 at minimising ones. */
  function Mover(maximizing: bool): (p: Player)
    ensures maximizing <==> p == Two
    ensures !maximizing <==> p == One
  {
    if maximizing then Two else One
  }

  /** The move that takes the numbers at `i` and `i + 1`. */
  function PairAt(i: nat): Move {
    (i, i + 1)
  }

  /** The search stops here: the depth is spent or no move is left. */
  predicate IsLeaf(node: Node, depth: nat): (leaf: bool)
    ensures leaf <==> depth == 0 || PossibleMoves(node.numbers) == []
  {
    depth == 0 || |node.numbers| < 2
  }

  // ---------------------------------------------------------------------------
  // The minimax value and move, defined without any loop: the reference that
  // both searches are proved against.
  // ---------------------------------------------------------------------------

  function MaxOf(vs: seq<real>): (m: real)
    requires |vs| > 0
    ensures forall i :: 0 <= i < |vs| ==> vs[i] <= m
    ensures exists i :: 0 <= i < |vs| && vs[i] == m
  {
    if |vs| == 1 then vs[0]
    else
      var rest := MaxOf(vs[1..]);
      assert forall i :: 1 <= i < |vs| ==> vs[i] == vs[1..][i - 1];
      if vs[0] > rest then vs[0] else rest
  }

  function MinOf(vs: seq<real>): (m: real)
    requires |vs| > 0
    ensures forall i :: 0 <= i < |vs| ==> m <= vs[i]
    ensures exists i :: 0 <= i < |vs| && vs[i] == m
  {
    if |vs| == 1 then vs[0]
    else
      var rest := MinOf(vs[1..]);
      assert forall i :: 1 <= i < |vs| ==> vs[i] == vs[1..][i - 1];
      if vs[0] < rest then vs[0] else rest
  }

  /** The first position at which `x` occurs in `vs`. */
  function FirstIndex(vs: seq<real>, x: real): (i: nat)
    requires x in vs
    ensures i < |vs| && vs[i] == x
    ensures forall j :: 0 <= j < i ==> vs[j] != x
  {
    if vs[0] == x then 0 else 1 + FirstIndex(vs[1..], x)
  }

  /** The minimax value of a node searched to `depth` plies. */
  function Value(node: Node, depth: nat, maximizing: bool): real
    decreases depth, 2
  {
    if IsLeaf(node, depth) then Heuristic(node)
    else if maximizing then MaxOf(ChildValues(node, depth, maximizing))
    else MinOf(ChildValues(node, depth, maximizing))
  }

  /** The minimax values of the children, one per move in enumeration order. */
  function ChildValues(node: Node, depth: nat, maximizing: bool): (vs: seq<real>)
    requires !IsLeaf(node, depth)
    ensures |vs| == |node.numbers| - 1
    decreases depth, 1
  {
    ChildValuesFrom(node, depth, maximizing, 0)
  }

  /** The minimax values of the children reached by the moves `(i, i + 1)`
      onwards. */
  function ChildValuesFrom(node: Node, depth: nat, maximizing: bool, i: nat): (vs: seq<real>)
    requires !IsLeaf(node, depth) && i < |node.numbers|
    ensures |vs| == |node.numbers| - 1 - i
    decreases depth, 0, |node.numbers| - i
  {
    if i + 1 == |node.numbers| then []
    else
      [Value(ChildNode(node, (i, i + 1), Mover(maximizing)), depth - 1, !maximizing)]
      + ChildValuesFrom(node, depth, maximizing, i + 1)
  }

  /** The move minimax picks: none at a leaf, otherwise the first move whose
      child attains the node's value. */
  function BestMove(node: Node, depth: nat, maximizing: bool): (best: Option<Move>)
    ensures best == None <==> IsLeaf(node, depth)
    ensures best.Some? ==>
              var i := best.value.0;
              && best.value == (i, i + 1)
              && i + 1 < |node.numbers|
              && ChildValues(node, depth, maximizing)[i] == Value(node, depth, maximizing)
              && forall j :: 0 <= j < i ==>
                   ChildValues(node, depth, maximizing)[j] != Value(node, depth, maximizing)
  {
    if IsLeaf(node, depth) then None
    else
      var i := FirstIndex(ChildValues(node, depth, maximizing), Value(node, depth, maximizing));
      Some((i, i + 1))
  }

  /** The `k`-th child value is the minimax value of the child reached by the
      move `(k, k + 1)`. */
  lemma ChildValueAt(node: Node, depth: nat, maximizing: bool, k: nat)
    requires !IsLeaf(node, depth) && k + 1 < |node.numbers|
    ensures ChildValues(node, depth, maximizing)[k]
            == Value(ChildNode(node, (k, k + 1), Mover(maximizing)), depth - 1, !maximizing)
  {
    ChildValueFromAt(node, depth, maximizing, 0, k);
  }

  lemma {:induction false} ChildValueFromAt(node: Node, depth: nat, maximizing: bool, i: nat, k: nat)
    requires !IsLeaf(node, depth) && i <= k && k + 1 < |node.numbers|
    ensures ChildValuesFrom(node, depth, maximizing, i)[k - i]
            == Value(ChildNode(node, (k, k + 1), Mover(maximizing)), depth - 1, !maximizing)
    decreases k - i
  {
    if i < k {
      ChildValueFromAt(node, depth, maximizing, i + 1, k);
    }
  }

  /** At an inner node the value is the best child value: the largest at a
      maximising node and the smallest at a minimising one. */
  lemma ValueIsBestChild(node: Node, depth: nat, maximizing: bool)
    requires !IsLeaf(node, depth)
    ensures var vs, v := ChildValues(node, depth, maximizing), Value(node, depth, maximizing);
            && (exists i :: 0 <= i < |vs| && vs[i] == v)
            && (maximizing ==> forall i :: 0 <= i < |vs| ==> vs[i] <= v)
            && (!maximizing ==> forall i :: 0 <= i < |vs| ==> v <= vs[i])
  {
  }

  // ---------------------------------------------------------------------------
  // The left-to-right scans the searches run over the children: keeping a
  // value only when it is strictly better, they end on the best value and on
  // the first position holding it.
  // ---------------------------------------------------------------------------

  /** `m` and `bi` are what a scan of `vs[..k]` for a larger value holds. */
  ghost predicate ScannedMax(vs: seq<real>, k: nat, m: Ext, bi: nat) {
    && k <= |vs|
    && (k == 0 ==> m == NegInf)
    && (k > 0 ==>
          && m.Fin? && bi < k && vs[bi] == m.r
          && (forall j :: 0 <= j < k ==> vs[j] <= m.r)
          && (forall j :: 0 <= j < bi ==> vs[j] < m.r))
  }

  /** `m` and `bi` are what a scan of `vs[..k]` for a smaller value holds. */
  ghost predicate ScannedMin(vs: seq<real>, k: nat, m: Ext, bi: nat) {
    && k <= |vs|
    && (k == 0 ==> m == PosInf)
    && (k > 0 ==>
          && m.Fin? && bi < k && vs[bi] == m.r
          && (forall j :: 0 <= j < k ==> m.r <= vs[j])
          && (forall j :: 0 <= j < bi ==> m.r < vs[j]))
  }

  /** One step of the scan for a larger value: `vs[k]` replaces the value kept
      only when it is strictly larger. */
  lemma ScanMaxStep(vs: seq<real>, k: nat, m: Ext, bi: nat)
    requires ScannedMax(vs, k, m, bi) && k < |vs|
    ensures Lt(m, Fin(vs[k])) ==> ScannedMax(vs, k + 1, Fin(vs[k]), k)
    ensures !Lt(m, Fin(vs[k])) ==> ScannedMax(vs, k + 1, m, bi)
  {
  }

  lemma ScanMinStep(vs: seq<real>, k: nat, m: Ext, bi: nat)
    requires ScannedMin(vs, k, m, bi) && k < |vs|
    ensures Lt(Fin(vs[k]), m) ==> ScannedMin(vs, k + 1, Fin(vs[k]), k)
    ensures !Lt(Fin(vs[k]), m) ==> ScannedMin(vs, k + 1, m, bi)
  {
  }

  /** A finished scan for a larger value holds the maximum and the first
      position where it occurs. */
  lemma ScanMaxDone(vs: seq<real>, m: Ext, bi: nat)
    requires |vs| > 0 && ScannedMax(vs, |vs|, m, bi)
    ensures m == Fin(MaxOf(vs)) && bi == FirstIndex(vs, MaxOf(vs))
  {
    assert FirstIndex(vs, m.r) == bi;
  }

  lemma ScanMinDone(vs: seq<real>, m: Ext, bi: nat)
    requires |vs| > 0 && ScannedMin(vs, |vs|, m, bi)
    ensures m == Fin(MinOf(vs)) && bi == FirstIndex(vs, MinOf(vs))
  {
    assert FirstIndex(vs, m.r) == bi;
  }

  // ---------------------------------------------------------------------------
  // The window guarantee of fail-soft alpha-beta (Knuth and Moore): a result
  // `r` found in the window `(alpha, beta)` stands in for the true value `v`.
  // ---------------------------------------------------------------------------

  /** A result at or below `alpha` bounds the true value from above, one at or
      above `beta` bounds it from below, and one strictly inside is exact. */
  predicate FailSoft(alpha: Ext, beta: Ext, r: Ext, v: Ext) {
    && (Le(r, alpha) ==> Le(v, r))
    && (Lt(alpha, r) && Lt(r, beta) ==> v == r)
    && (Le(beta, r) ==> Le(r, v))
  }

  /** `x` cut down to the window `[alpha, beta]`. */
  function Clamp(alpha: Ext, beta: Ext, x: Ext): Ext {
    Max(alpha, Min(beta, x))
  }

  /** The fail-soft guarantee implies the classic one: cut down to the window,
      the result and the true value agree. */
  lemma FailSoftAgreesInWindow(alpha: Ext, beta: Ext, r: Ext, v: Ext)
    requires Lt(alpha, beta) && FailSoft(alpha, beta, r, v)
    ensures Clamp(alpha, beta, r) == Clamp(alpha, beta, v)
  {
  }

  /** In the window `(-inf, +inf)` the result is the value itself. */
  lemma FailSoftFullWindow(r: real, v: real)
    requires FailSoft(NegInf, PosInf, Fin(r), Fin(v))
    ensures r == v
  {
  }

  /** One child at a maximising node. Before it, the node holds `m` and the
      children so far are worth `vmax` (as a scan for a larger value keeps
      them); the child, searched in the window `(max(alpha, m), beta)`,
      returns `e` and is worth `v`. The node's new result stays within the
      guarantee against the new true maximum. */
  lemma FailSoftMaxStep(alpha: Ext, beta: Ext, m: Ext, vmax: Ext, e: real, v: real)
    requires Lt(alpha, beta) && m != PosInf && vmax != PosInf
    requires FailSoft(alpha, beta, m, vmax)
    requires Lt(Max(alpha, m), beta)
    requires FailSoft(Max(alpha, m), beta, Fin(e), Fin(v))
    ensures FailSoft(alpha, beta,
                     if Lt(m, Fin(e)) then Fin(e) else m,
                     if Lt(vmax, Fin(v)) then Fin(v) else vmax)
  {
  }

  /** The same at a minimising node, with the window `(alpha, min(beta, m))`. */
  lemma FailSoftMinStep(alpha: Ext, beta: Ext, m: Ext, vmin: Ext, e: real, v: real)
    requires Lt(alpha, beta) && m != NegInf && vmin != NegInf
    requires FailSoft(alpha, beta, m, vmin)
    requires Lt(alpha, Min(beta, m))
    requires FailSoft(alpha, Min(beta, m), Fin(e), Fin(v))
    ensures FailSoft(alpha, beta,
                     if Lt(Fin(e), m) then Fin(e) else m,
                     if Lt(Fin(v), vmin) then Fin(v) else vmin)
  {
  }

  /** Searched from the window `(-inf, +inf)`, a maximising node keeps each
      child's window at `(m, +inf)`, where the child's result is strictly
      better exactly when its value is, and then equals it. */
  lemma FullWindowMaxChild(m: Ext, e: real, v: real)
    requires m != PosInf && FailSoft(m, PosInf, Fin(e), Fin(v))
    ensures Lt(m, Fin(e)) <==> Lt(m, Fin(v))
    ensures Lt(m, Fin(e)) ==> e == v
  {
  }

  lemma FullWindowMinChild(m: Ext, e: real, v: real)
    requires m != NegInf && FailSoft(NegInf, m, Fin(e), Fin(v))
    ensures Lt(Fin(e), m) <==> Lt(Fin(v), m)
    ensures Lt(Fin(e), m) ==> e == v
  {
  }

  /** What a maximising node of alpha-beta holds after its first `k`
      children, none cut yet: its result `m` against the true maximum `vmax`
      of those children (at position `bi`). */
  ghost predicate MaxNodeAfter(alpha: Ext, beta: Ext, vs: seq<real>, k: nat, m: Ext, vmax: Ext, bi: nat) {
    && ScannedMax(vs, k, vmax, bi)
    && (k == 0 ==> m == NegInf)
    && (k > 0 ==> m.Fin?)
    && (Lt(alpha, beta) ==> FailSoft(alpha, beta, m, vmax))
    && (alpha == NegInf && beta == PosInf ==> m == vmax)
  }

  /** The same at a minimising node, with the true minimum `vmin`. */
  ghost predicate MinNodeAfter(alpha: Ext, beta: Ext, vs: seq<real>, k: nat, m: Ext, vmin: Ext, bi: nat) {
    && ScannedMin(vs, k, vmin, bi)
    && (k == 0 ==> m == PosInf)
    && (k > 0 ==> m.Fin?)
    && (Lt(alpha, beta) ==> FailSoft(alpha, beta, m, vmin))
    && (alpha == NegInf && beta == PosInf ==> m == vmin)
  }

  /** Child `k` of a maximising node: searched in `(max(alpha, m), beta)`, it
      returns `e`; keeping `e` when strictly larger keeps the node's state, and
      from the full window `e` is kept exactly when the scan over the true
      values keeps `vs[k]`. */
  lemma MaxNodeStep(alpha: Ext, beta: Ext, vs: seq<real>, k: nat, m: Ext, vmax: Ext, bi: nat, e: real)
    requires MaxNodeAfter(alpha, beta, vs, k, m, vmax, bi) && k < |vs|
    requires k > 0 ==> Lt(Max(alpha, m), beta)
    requires Lt(Max(alpha, m), beta) ==> FailSoft(Max(alpha, m), beta, Fin(e), Fin(vs[k]))
    ensures MaxNodeAfter(alpha, beta, vs, k + 1,
                         if Lt(m, Fin(e)) then Fin(e) else m,
                         if Lt(vmax, Fin(vs[k])) then Fin(vs[k]) else vmax,
                         if Lt(vmax, Fin(vs[k])) then k else bi)
    ensures alpha == NegInf && beta == PosInf ==> (Lt(m, Fin(e)) <==> Lt(vmax, Fin(vs[k])))
  {
    ScanMaxStep(vs, k, vmax, bi);
    if Lt(alpha, beta) {
      FailSoftMaxStep(alpha, beta, m, vmax, e, vs[k]);
    }
    if alpha == NegInf && beta == PosInf {
      FullWindowMaxChild(m, e, vs[k]);
    }
  }

  lemma MinNodeStep(alpha: Ext, beta: Ext, vs: seq<real>, k: nat, m: Ext, vmin: Ext, bi: nat, e: real)
    requires MinNodeAfter(alpha, beta, vs, k, m, vmin, bi) && k < |vs|
    requires k > 0 ==> Lt(alpha, Min(beta, m))
    requires Lt(alpha, Min(beta, m)) ==> FailSoft(alpha, Min(beta, m), Fin(e), Fin(vs[k]))
    ensures MinNodeAfter(alpha, beta, vs, k + 1,
                         if Lt(Fin(e), m) then Fin(e) else m,
                         if Lt(Fin(vs[k]), vmin) then Fin(vs[k]) else vmin,
                         if Lt(Fin(vs[k]), vmin) then k else bi)
    ensures alpha == NegInf && beta == PosInf ==> (Lt(Fin(e), m) <==> Lt(Fin(vs[k]), vmin))
  {
    ScanMinStep(vs, k, vmin, bi);
    if Lt(alpha, beta) {
      FailSoftMinStep(alpha, beta, m, vmin, e, vs[k]);
    }
    if alpha == NegInf && beta == PosInf {
      FullWindowMinChild(m, e, vs[k]);
    }
  }

  /** A maximising node that has seen all its children, or was cut after
      `k` of them, returns within the guarantee against the maximum of all
      of them; from the full window it is never cut and returns the maximum
      and the first child attaining it. */
  lemma MaxNodeDone(alpha: Ext, beta: Ext, vs: seq<real>, k: nat, m: Ext, vmax: Ext, bi: nat)
    requires MaxNodeAfter(alpha, beta, vs, k, m, vmax, bi) && 0 < k <= |vs|
    requires k == |vs| || Le(beta, Max(alpha, m))
    ensures Lt(alpha, beta) ==> FailSoft(alpha, beta, m, Fin(MaxOf(vs)))
    ensures alpha == NegInf && beta == PosInf ==> m == Fin(MaxOf(vs)) && bi == FirstIndex(vs, MaxOf(vs))
  {
    if k == |vs| {
      ScanMaxDone(vs, vmax, bi);
    } else {
      assert vs[bi] <= MaxOf(vs);
    }
  }

  lemma MinNodeDone(alpha: Ext, beta: Ext, vs: seq<real>, k: nat, m: Ext, vmin: Ext, bi: nat)
    requires MinNodeAfter(alpha, beta, vs, k, m, vmin, bi) && 0 < k <= |vs|
    requires k == |vs| || Le(Min(beta, m), alpha)
    ensures Lt(alpha, beta) ==> FailSoft(alpha, beta, m, Fin(MinOf(vs)))
    ensures alpha == NegInf && beta == PosInf ==> m == Fin(MinOf(vs)) && bi == FirstIndex(vs, MinOf(vs))
  {
    if k == |vs| {
      ScanMinDone(vs, vmin, bi);
    } else {
      assert MinOf(vs) <= vs[bi];
    }
  }

  // ---------------------------------------------------------------------------
  // The two searches of the bot.
  // ---------------------------------------------------------------------------

  /** Plain minimax: a leaf is evaluated; otherwise every move is tried. */
  method Minimax(node: Node, depth: nat, maximizing: bool) returns (value: real, best: Option<Move>)
    ensures value == Value(node, depth, maximizing)
    ensures best == BestMove(node, depth, maximizing)
    decreases depth, 1
  {
    var moves := PossibleMoves(node.numbers);
    if depth == 0 || moves == [] {
      return Heuristic(node), None;
    }
    if maximizing {
      value, best := MinimaxMaximizing(node, depth);
    } else {
      value, best := MinimaxMinimizing(node, depth);
    }
  }

  /** The bot's turn in minimax: the first child of largest value wins. */
  method MinimaxMaximizing(node: Node, depth: nat) returns (value: real, best: Option<Move>)
    requires !IsLeaf(node, depth)
    ensures value == Value(node, depth, true)
    ensures best == BestMove(node, depth, true)
    decreases depth, 0
  {
    var moves := PossibleMoves(node.numbers);
    ghost var vs := ChildValues(node, depth, true);
    var maxEval := NegInf;
    best := None;
    ghost var bi: nat := 0;
    for k := 0 to |moves|
      invariant |moves| == |vs|
      invariant ScannedMax(vs, k, maxEval, bi)
      invariant best == if k == 0 then None else Some(PairAt(bi))
    {
      var child := ChildNode(node, moves[k], Two);
      var eval, childBest := Minimax(child, depth - 1, false);
      ChildValueAt(node, depth, true, k);
      ScanMaxStep(vs, k, maxEval, bi);
      if Lt(maxEval, Fin(eval)) {
        maxEval := Fin(eval);
        best := Some(moves[k]);
        bi := k;
      }
    }
    ScanMaxDone(vs, maxEval, bi);
    value := maxEval.r;
  }

  /** Player 1's turn in minimax: the first child of smallest value wins. */
  method MinimaxMinimizing(node: Node, depth: nat) returns (value: real, best: Option<Move>)
    requires !IsLeaf(node, depth)
    ensures value == Value(node, depth, false)
    ensures best == BestMove(node, depth, false)
    decreases depth, 0
  {
    var moves := PossibleMoves(node.numbers);
    ghost var vs := ChildValues(node, depth, false);
    var minEval := PosInf;
    best := None;
    ghost var bi: nat := 0;
    for k := 0 to |moves|
      invariant |moves| == |vs|
      invariant ScannedMin(vs, k, minEval, bi)
      invariant best == if k == 0 then None else Some(PairAt(bi))
    {
      var child := ChildNode(node, moves[k], One);
      var eval, childBest := Minimax(child, depth - 1, true);
      ChildValueAt(node, depth, false, k);
      ScanMinStep(vs, k, minEval, bi);
      if Lt(Fin(eval), minEval) {
        minEval := Fin(eval);
        best := Some(moves[k]);
        bi := k;
      }
    }
    ScanMinDone(vs, minEval, bi);
    value := minEval.r;
  }

  /** Fail-soft alpha-beta: the same search as minimax, cutting the remaining
      siblings once `beta <= alpha`. */
  method AlphaBeta(node: Node, depth: nat, alpha: Ext, beta: Ext, maximizing: bool)
    returns (value: real, best: Option<Move>)
    ensures IsLeaf(node, depth) ==> value == Heuristic(node) && best == None
    ensures !IsLeaf(node, depth) ==> best.Some? && best.value.0 + 1 < |node.numbers|
                                     && best.value.1 == best.value.0 + 1
    ensures Lt(alpha, beta) ==> FailSoft(alpha, beta, Fin(value), Fin(Value(node, depth, maximizing)))
    ensures alpha == NegInf && beta == PosInf ==>
              value == Value(node, depth, maximizing) && best == BestMove(node, depth, maximizing)
    decreases depth, 2
  {
    var moves := PossibleMoves(node.numbers);
    if depth == 0 || moves == [] {
      return Heuristic(node), None;
    }
    if maximizing {
      value, best := AlphaBetaMaximizing(node, depth, alpha, beta);
    } else {
      value, best := AlphaBetaMinimizing(node, depth, alpha, beta);
    }
    if alpha == NegInf && beta == PosInf {
      FailSoftFullWindow(value, Value(node, depth, maximizing));
    }
  }

  /** Searches the child reached by the pair `(k, k + 1)` in the window
      `(alpha, beta)`: the fail-soft guarantee against that child's minimax
      value. */
  method SearchChild(node: Node, depth: nat, maximizing: bool, k: nat, alpha: Ext, beta: Ext)
    returns (eval: real)
    requires !IsLeaf(node, depth) && k + 1 < |node.numbers|
    ensures Lt(alpha, beta) ==> FailSoft(alpha, beta, Fin(eval), Fin(ChildValues(node, depth, maximizing)[k]))
    decreases depth, 0
  {
    var child := ChildNode(node, (k, k + 1), Mover(maximizing));
    var childBest;
    eval, childBest := AlphaBeta(child, depth - 1, alpha, beta, !maximizing);
    ChildValueAt(node, depth, maximizing, k);
  }

  /** The bot's decision: a three-ply search for the bot, with minimax or
      with alpha-beta from the window `(-inf, +inf)`; both give the first
      best move, an adjacent pair in range. */
  method BotSearch(root: Node, useAlphaBeta: bool) returns (best: Option<Move>)
    requires |root.numbers| >= 2
    ensures best == BestMove(root, 3, true)
    ensures best.Some? && best.value.1 == best.value.0 + 1 && best.value.1 < |root.numbers|
  {
    var value;
    if useAlphaBeta {
      value, best := AlphaBeta(root, 3, NegInf, PosInf, true);
    } else {
      value, best := Minimax(root, 3, true);
    }
  }

  /** The bot's turn in alpha-beta: raises `alpha` with every child and stops
      once it reaches `beta`. */
  method AlphaBetaMaximizing(node: Node, depth: nat, alpha: Ext, beta: Ext)
    returns (value: real, best: Option<Move>)
    requires !IsLeaf(node, depth)
    ensures best.Some? && best.value.0 + 1 < |node.numbers| && best.value.1 == best.value.0 + 1
    ensures Lt(alpha, beta) ==> FailSoft(alpha, beta, Fin(value), Fin(Value(node, depth, true)))
    ensures alpha == NegInf && beta == PosInf ==>
              value == Value(node, depth, true) && best == BestMove(node, depth, true)
    decreases depth, 1
  {
    var moves := PossibleMoves(node.numbers);
    ghost var vs := ChildValues(node, depth, true);
    ghost var full := alpha == NegInf && beta == PosInf;
    var maxEval := NegInf;
    var a := alpha;
    best := None;
    ghost var vmax := NegInf;
    ghost var bi: nat := 0;
    ghost var bj: nat := 0;
    var k := 0;
    while k < |moves|
      invariant |moves| == |vs| && k <= |moves|
      invariant a == Max(alpha, maxEval)
      invariant k > 0 ==> Lt(a, beta)
      invariant MaxNodeAfter(alpha, beta, vs, k, maxEval, vmax, bi)
      invariant best == if k == 0 then None else Some(PairAt(bj))
      invariant k > 0 ==> bj < k
      invariant full ==> bj == bi
    {
      var eval := SearchChild(node, depth, true, k, a, beta);
      MaxNodeStep(alpha, beta, vs, k, maxEval, vmax, bi, eval);
      if Lt(vmax, Fin(vs[k])) {
        vmax, bi := Fin(vs[k]), k;
      }
      if Lt(maxEval, Fin(eval)) {
        maxEval := Fin(eval);
        best := Some(moves[k]);
        bj := k;
      }
      a := Max(a, Fin(eval));
      k := k + 1;
      if Le(beta, a) {
        break;
      }
    }
    MaxNodeDone(alpha, beta, vs, k, maxEval, vmax, bi);
    value := maxEval.r;
  }

  /** Player 1's turn in alpha-beta: lowers `beta` with every child and stops
      once it reaches `alpha`. */
  method AlphaBetaMinimizing(node: Node, depth: nat, alpha: Ext, beta: Ext)
    returns (value: real, best: Option<Move>)
    requires !IsLeaf(node, depth)
    ensures best.Some? && best.value.0 + 1 < |node.numbers| && best.value.1 == best.value.0 + 1
    ensures Lt(alpha, beta) ==> FailSoft(alpha, beta, Fin(value), Fin(Value(node, depth, false)))
    ensures alpha == NegInf && beta == PosInf ==>
              value == Value(node, depth, false) && best == BestMove(node, depth, false)
    decreases depth, 1
  {
    var moves := PossibleMoves(node.numbers);
    ghost var vs := ChildValues(node, depth, false);
    ghost var full := alpha == NegInf && beta == PosInf;
    var minEval := PosInf;
    var b := beta;
    best := None;
    ghost var vmin := PosInf;
    ghost var bi: nat := 0;
    ghost var bj: nat := 0;
    var k := 0;
    while k < |moves|
      invariant |moves| == |vs| && k <= |moves|
      invariant b == Min(beta, minEval)
      invariant k > 0 ==> Lt(alpha, b)
      invariant MinNodeAfter(alpha, beta, vs, k, minEval, vmin, bi)
      invariant best == if k == 0 then None else Some(PairAt(bj))
      invariant k > 0 ==> bj < k
      invariant full ==> bj == bi
    {
      var eval := SearchChild(node, depth, false, k, alpha, b);
      MinNodeStep(alpha, beta, vs, k, minEval, vmin, bi, eval);
      if Lt(Fin(vs[k]), vmin) {
        vmin, bi := Fin(vs[k]), k;
      }
      if Lt(Fin(eval), minEval) {
        minEval := Fin(eval);
        best := Some(moves[k]);
        bj := k;
      }
      b := Min(b, Fin(eval));
      k := k + 1;
      if Le(b, alpha) {
        break;
      }
    }
    MinNodeDone(alpha, beta, vs, k, minEval, vmin, bi);
    value := minEval.r;
  }
}
