/**
 * The alpha-beta search (src/engine/engine_search.py): the per-node rules
 * (extensions, late-move reduction, the bookkeeping of the move loop, the
 * aspiration window) as pure functions with their properties, and the
 * recursive `search` and the iterative-deepening `search_main` as methods of
 * a `Searcher` that owns the module's globals: the node counter, the
 * principal variation, the transposition table and the search's own hasher.
 */
module Search {
  import opened Wrappers
  import opened Chess
  import opened Bits
  import opened Zobrist
  import opened TT

  // ---------------------------------------------------------------------
  // Depth arithmetic
  // ---------------------------------------------------------------------

  /** `clamp(x, lo, hi)`, taken as `min(max(x, lo), hi)`. */
  function Clamp(x: int, lo: int, hi: int): (r: int)
    ensures lo <= hi ==> lo <= r <= hi
    ensures lo <= x <= hi ==> r == x
    ensures x < lo <= hi ==> r == lo
    ensures lo <= hi < x ==> r == hi
  {
    var m := if x < lo then lo else x;
    if m > hi then hi else m
  }

  /** The singular-extension branch is taken for the TT move of a deep enough hit. */
  predicate SingularCandidate(ttHit: bool, isTTMove: bool, depth: int, ttDepth: int)
  {
    ttHit && isTTMove && depth >= 4 && ttDepth >= depth - 3
  }

  /**
   * The extension of the singular branch, given the value `probe` of the
   * reduced search around `singularBeta = ttValue - 2 * depth`; `eval != 100`
   * is the truth value of `Eval - 100`.
   */
  function SingularExtension(depth: int, ttValue: int, probe: int, beta: int, pvNode: bool, eval: int): (ext: int)
    ensures -2 <= ext <= 2
    ensures ttValue >= beta ==> ext == -2
    ensures ttValue < beta && ttValue <= probe ==> ext == -1
    ensures ext > 0 ==> ttValue < beta && probe < ttValue - 2 * depth
    ensures ext == 2 ==> !pvNode && probe <= ttValue - 2 * depth - 20
    ensures ext == 0 ==> ttValue < beta && probe >= ttValue - 2 * depth && probe < ttValue && !(depth > 6 && eval != 100)
  {
    var singularBeta := ttValue - 2 * depth;
    var fromProbe := if probe < singularBeta then (if !pvNode && probe <= singularBeta - 20 then 2 else 1) else 0;
    if ttValue >= beta then -2
    else if ttValue <= probe then -1
    else if depth > 6 && eval != 100 then -1
    else fromProbe
  }

  /** Outside the singular branch: one ply more for a checking move at depth 8 or more. */
  function CheckExtension(givesCheck: bool, depth: int): (ext: int)
    ensures ext == 0 || ext == 1
    ensures ext == 1 <==> givesCheck && depth >= 8
  {
    if givesCheck && depth >= 8 then 1 else 0
  }

  /** The extension of one move (`probe` is only looked at in the singular branch). */
  function Extension(ttHit: bool, isTTMove: bool, ttDepth: int, depth: int, ttValue: int, probe: int,
                     beta: int, pvNode: bool, eval: int, givesCheck: bool): (ext: int)
    ensures -2 <= ext <= 2
    ensures ext < 0 ==> SingularCandidate(ttHit, isTTMove, depth, ttDepth) && depth >= 4
    ensures depth >= 1 ==> depth + ext >= 1
    ensures !SingularCandidate(ttHit, isTTMove, depth, ttDepth) ==> (ext == 1 <==> givesCheck && depth >= 8) && ext >= 0
    ensures SingularCandidate(ttHit, isTTMove, depth, ttDepth) && ttValue >= beta ==> ext == -2
  {
    if SingularCandidate(ttHit, isTTMove, depth, ttDepth) then SingularExtension(depth, ttValue, probe, beta, pvNode, eval)
    else CheckExtension(givesCheck, depth)
  }

  /** `r`: one less at PV nodes, one more for the TT move. */
  function Reduction(pvNode: bool, isTTMove: bool): (r: int)
    ensures -1 <= r <= 1
    ensures r == 1 <==> !pvNode && isTTMove
    ensures r == -1 <==> pvNode && !isTTMove
  {
    (if pvNode then -1 else 0) + (if isTTMove then 1 else 0)
  }

  /** The depth of the null-window child search, `clamp(newDepth - r, 1, newDepth + 1)`. */
  function ReducedDepth(newDepth: int, pvNode: bool, isTTMove: bool): (d: int)
    ensures newDepth >= 0 ==> 1 <= d <= newDepth + 1
    ensures newDepth >= 1 && !isTTMove ==> d >= newDepth
    ensures newDepth >= 0 && pvNode && !isTTMove ==> d == newDepth + 1
    ensures newDepth >= 2 && !pvNode && isTTMove ==> d == newDepth - 1
    ensures newDepth >= 1 && (pvNode <==> isTTMove) ==> d == newDepth
  {
    Clamp(newDepth - Reduction(pvNode, isTTMove), 1, newDepth + 1)
  }

  /**
   * Depth is not a termination measure: away from the TT move the child is
   * searched at least as deep as its parent, and a quiet move at a non-PV
   * node is searched at exactly the parent's depth.
   */
  lemma ChildDepthDoesNotShrink(ttHit: bool, ttDepth: int, depth: int, ttValue: int, probe: int,
                                beta: int, pvNode: bool, eval: int, givesCheck: bool)
    requires depth >= 1
    ensures var newDepth := depth + Extension(ttHit, false, ttDepth, depth, ttValue, probe, beta, pvNode, eval, givesCheck);
            ReducedDepth(newDepth, pvNode, false) >= depth
    ensures !pvNode && depth < 8 ==>
            ReducedDepth(depth + Extension(ttHit, false, ttDepth, depth, ttValue, probe, beta, pvNode, eval, givesCheck),
                         pvNode, false) == depth
  {
  }

  /**
   * Below a node at depth 1 or more every search is again at depth 1 or
   * more: the singular probe (only at depth 4 or more), the null-window
   * search at the reduced depth and the full-window re-search at `newDepth`.
   * So the evaluator at the horizon is reached only from an outside call at
   * depth 0 or less, and the iterative deepening starts at depth 1.
   */
  lemma ChildDepthsPositive(ttHit: bool, isTTMove: bool, ttDepth: int, depth: int, ttValue: int, probe: int,
                            beta: int, pvNode: bool, eval: int, givesCheck: bool)
    requires depth >= 1
    ensures SingularCandidate(ttHit, isTTMove, depth, ttDepth) ==> (depth - 1) / 2 >= 1
    ensures var newDepth := depth + Extension(ttHit, isTTMove, ttDepth, depth, ttValue, probe, beta, pvNode, eval, givesCheck);
            newDepth >= 1 && ReducedDepth(newDepth, pvNode, isTTMove) >= 1
  {
  }

  // ---------------------------------------------------------------------
  // The move loop
  // ---------------------------------------------------------------------

  /** The loop's running state: `bestValue`, `bestMove`, `alpha`, and whether it broke on a fail high. */
  datatype Bookkeeping = Bookkeeping(bestValue: int, bestMove: Option<Move>, alpha: int, cutoff: bool)

  /** A move the loop looked at and the value its searches returned. */
  datatype Examined = Examined(move: Move, value: int)

  function StartLoop(alpha: int, inf: int): Bookkeeping
  {
    Bookkeeping(-inf, None, alpha, false)
  }

  /** One pass of the update after the child searches. */
  function Record(b: Bookkeeping, move: Move, value: int, beta: int): Bookkeeping
  {
    if value > b.bestValue then
      if value > b.alpha then
        if value >= beta then b.(bestValue := value, bestMove := Some(move), cutoff := true)
        else b.(bestValue := value, bestMove := Some(move), alpha := value)
      else b.(bestValue := value)
    else b
  }

  /** The bookkeeping after the examined moves, in order. */
  function RunLoop(start: Bookkeeping, ex: seq<Examined>, beta: int): Bookkeeping
    decreases |ex|
  {
    if ex == [] then start else Record(RunLoop(start, ex[..|ex| - 1], beta), ex[|ex| - 1].move, ex[|ex| - 1].value, beta)
  }

  /** The loop only goes on to another move while it has not broken. */
  predicate NoEarlyCutoff(start: Bookkeeping, ex: seq<Examined>, beta: int)
    decreases |ex|
  {
    ex == [] || (NoEarlyCutoff(start, ex[..|ex| - 1], beta) && !RunLoop(start, ex[..|ex| - 1], beta).cutoff)
  }

  function Values(ex: seq<Examined>): (vs: seq<int>)
    ensures |vs| == |ex| && forall k | 0 <= k < |ex| :: vs[k] == ex[k].value
  {
    seq(|ex|, k requires 0 <= k < |ex| => ex[k].value)
  }

  /** The largest of `init` and the values. */
  function MaxOf(init: int, vs: seq<int>): (m: int)
    ensures init <= m
    ensures forall k | 0 <= k < |vs| :: vs[k] <= m
    ensures m == init || exists k | 0 <= k < |vs| :: vs[k] == m
    decreases |vs|
  {
    if vs == [] then init
    else
      var m0 := MaxOf(init, vs[..|vs| - 1]);
      assert forall k | 0 <= k < |vs| - 1 :: vs[..|vs| - 1][k] == vs[k];
      if vs[|vs| - 1] > m0 then vs[|vs| - 1] else m0
  }

  /** `bestValue` is the maximum of the start value and every value examined. */
  lemma {:induction false} BestValueIsMax(start: Bookkeeping, ex: seq<Examined>, beta: int)
    ensures RunLoop(start, ex, beta).bestValue == MaxOf(start.bestValue, Values(ex))
  {
    if ex != [] {
      var pre := ex[..|ex| - 1];
      BestValueIsMax(start, pre, beta);
      assert Values(ex)[..|ex| - 1] == Values(pre);
    }
  }

  /**
   * The loop from a window `-inf <= alpha0 < beta`: it breaks exactly at the
   * first value reaching `beta`; until then `bestValue <= alpha < beta` and
   * `alpha` is the largest of `alpha0` and the values seen; `alpha` never
   * falls below `alpha0`; a best move is set exactly when some value beat
   * `alpha0`, and it is an examined move carrying `bestValue`.
   */
  lemma {:induction false} MoveLoopWindow(alpha0: int, inf: int, beta: int, ex: seq<Examined>)
    requires -inf <= alpha0 < beta
    requires NoEarlyCutoff(StartLoop(alpha0, inf), ex, beta)
    ensures var b := RunLoop(StartLoop(alpha0, inf), ex, beta);
            && (forall k | 0 <= k < |ex| - 1 :: ex[k].value < beta)
            && (b.cutoff <==> ex != [] && ex[|ex| - 1].value >= beta)
            && (!b.cutoff ==> b.bestValue <= b.alpha < beta && b.alpha == MaxOf(alpha0, Values(ex)))
            && (!b.cutoff && b.bestMove.Some? ==> b.bestValue == b.alpha)
            && alpha0 <= b.alpha
            && (b.bestMove.Some? <==> exists k | 0 <= k < |ex| :: ex[k].value > alpha0)
            && (b.bestMove.Some? ==> Examined(b.bestMove.value, b.bestValue) in ex)
  {
    if ex != [] {
      var n := |ex|;
      var pre := ex[..n - 1];
      var x := ex[n - 1];
      assert ex == pre + [x];
      MoveLoopWindow(alpha0, inf, beta, pre);
      var p := RunLoop(StartLoop(alpha0, inf), pre, beta);
      assert !p.cutoff;
      assert Values(ex)[..n - 1] == Values(pre);
      var b := RunLoop(StartLoop(alpha0, inf), ex, beta);
      assert b == Record(p, x.move, x.value, beta);
      if x.value > alpha0 && !p.bestMove.Some? {
        assert forall k | 0 <= k < |pre| :: Values(pre)[k] <= alpha0;
        assert p.alpha == alpha0;
      }
      if b.bestMove.Some? && !p.bestMove.Some? {
        assert ex[n - 1].value > alpha0;
      }
      if p.bestMove.Some? {
        var k :| 0 <= k < |pre| && pre[k].value > alpha0;
        assert ex[k] == pre[k];
      }
    }
  }

  /** The moves examined are the first legal moves in generation order, all of them unless the loop broke. */
  predicate Explored(moves: seq<Move>, ex: seq<Examined>, cutoff: bool)
  {
    && |ex| <= |moves|
    && (forall k | 0 <= k < |ex| :: ex[k].move == moves[k])
    && (cutoff || |ex| == |moves|)
  }

  // ---------------------------------------------------------------------
  // The aspiration window of `search_main`
  // ---------------------------------------------------------------------

  datatype Window = Window(alpha: int, beta: int)

  /** A window inside the infinite bounds, possibly empty. */
  predicate WithinBounds(w: Window, inf: int)
  {
    -inf <= w.alpha <= w.beta <= inf
  }

  /** The window update after a root iteration returned `bestValue`. */
  function Aspiration(w: Window, bestValue: int, inf: int): (r: Window)
    ensures WithinBounds(w, inf) ==> WithinBounds(r, inf)
    ensures -inf <= w.alpha < w.beta <= inf && !(bestValue <= w.alpha && w.alpha == -inf && w.beta == -inf + 1)
            ==> r.alpha < r.beta
    ensures w.alpha < bestValue < w.beta ==> r == w
    ensures -inf <= w.alpha < w.beta && bestValue <= w.alpha
            ==> r.alpha <= w.alpha && w.alpha <= r.beta < w.beta
    ensures w.alpha < w.beta <= inf && bestValue >= w.beta
            ==> r.alpha == w.alpha && w.beta <= r.beta && (bestValue + 10 <= inf ==> bestValue < r.beta)
  {
    if bestValue <= w.alpha then
      Window(if bestValue - 10 > -inf then bestValue - 10 else -inf, (w.alpha + w.beta) / 2)
    else if bestValue >= w.beta then
      Window(w.alpha, if bestValue + 10 < inf then bestValue + 10 else inf)
    else w
  }

  /** Repeated fail-lows from the lower bound close the window completely. */
  lemma WindowCanClose(inf: int)
    requires inf > 0
    ensures Aspiration(Window(-inf, -inf + 1), -inf, inf) == Window(-inf, -inf)
  {
  }

  /** The root depths `range(1, depth)`: how many iterations `search_main` runs. */
  function RootIterations(depth: int): (n: nat)
    ensures depth >= 1 ==> n == depth - 1
    ensures depth <= 1 ==> n == 0
  {
    if depth > 1 then depth - 1 else 0
  }

  /** The `info depth` line of one root iteration, with the window it was searched in. */
  datatype Report = Report(depth: int, score: int, nodes: nat, pv: seq<Option<Move>>, window: Window)

  /** The window the next root iteration is searched in: infinite at first, then the update of the last one. */
  function NextWindow(reports: seq<Report>, inf: int): Window
  {
    if reports == [] then Window(-inf, inf)
    else Aspiration(reports[|reports| - 1].window, reports[|reports| - 1].score, inf)
  }

  /**
   * The reports of the root iterations so far: one per depth 1, 2, ..., each
   * printing the PV as it stood then (one move per completed iteration, a
   * prefix of the final PV), each searched in a window inside the bounds
   * that the aspiration update derived from the previous iteration.
   */
  predicate RootReports(reports: seq<Report>, pv: seq<Option<Move>>, inf: int)
  {
    && |pv| == |reports|
    && (forall k | 0 <= k < |reports| :: reports[k].depth == k + 1 && |reports[k].pv| == k + 1 && reports[k].pv <= pv)
    && (forall k | 0 <= k < |reports| :: WithinBounds(reports[k].window, inf))
    && (forall k | 0 <= k < |reports| :: reports[k].window == NextWindow(reports[..k], inf))
  }

  /** The node counter as the last report printed it, 0 before any report. */
  function LastNodes(reports: seq<Report>): nat
  {
    if reports == [] then 0 else reports[|reports| - 1].nodes
  }

  /**
   * The node counts the reports print: every iteration visits at least one
   * node, so they increase strictly from one report to the next, and none
   * exceeds the counter `nodes`.
   */
  predicate NodeCounts(reports: seq<Report>, nodes: nat)
  {
    && (forall j, k | 0 <= j < k < |reports| :: reports[j].nodes < reports[k].nodes)
    && (forall k | 0 <= k < |reports| :: 0 < reports[k].nodes <= nodes)
  }

  /** A report printed at a counter beyond the last one keeps the counts increasing. */
  lemma NodeCountsExtend(reports: seq<Report>, r: Report, nodes: nat)
    requires NodeCounts(reports, LastNodes(reports))
    requires LastNodes(reports) < r.nodes == nodes
    ensures NodeCounts(reports + [r], nodes) && LastNodes(reports + [r]) == nodes
  {
    var all := reports + [r];
    forall j, k | 0 <= j < k < |all|
      ensures all[j].nodes < all[k].nodes
    {
      if k == |reports| && j < |reports| - 1 {
        assert reports[j].nodes < reports[|reports| - 1].nodes;
      }
    }
  }

  /** A completed root iteration extends the reports. */
  lemma RootReportsExtend(reports: seq<Report>, pv: seq<Option<Move>>, pv': seq<Option<Move>>,
                          score: int, nodes: nat, inf: int)
    requires inf > 0 && RootReports(reports, pv, inf)
    requires pv <= pv' && |pv'| == |pv| + 1
    ensures WithinBounds(NextWindow(reports, inf), inf)
    ensures RootReports(reports + [Report(|reports| + 1, score, nodes, pv', NextWindow(reports, inf))], pv', inf)
  {
    var r := Report(|reports| + 1, score, nodes, pv', NextWindow(reports, inf));
    var all := reports + [r];
    assert forall k | 0 <= k < |reports| :: all[..k] == reports[..k];
    assert all[..|reports|] == reports;
  }

  // ---------------------------------------------------------------------
  // Transposition-table entries written by the search
  // ---------------------------------------------------------------------

  /**
   * What a slot of the table can hold while only the search writes it:
   * nothing, an evaluation memo (no move, no value, depth 0), or a search
   * result (a value, depth at least 1); an occupied slot's key is its own
   * index, because the search saves at the slot it uses as key.
   */
  predicate EntryKind(e: TTEntry, slot: int)
  {
    || e == EmptyEntry()
    || (e.key == Some(slot) && e.move.None? && e.value.None? && e.eval.Some? && e.depth == Some(0) && !e.isPv)
    || (e.key == Some(slot) && e.value.Some? && e.eval.Some? && e.depth.Some? && e.depth.value >= 1 && !e.isPv)
  }

  /** Every slot of a table's contents holds a kind the search writes. */
  predicate KindsOk(s: seq<TTEntry>)
  {
    forall i | 0 <= i < |s| :: EntryKind(s[i], i)
  }

  /** Saving an entry of the right kind for its slot keeps every slot well kinded. */
  lemma KindsOkUpdate(s: seq<TTEntry>, k: int, e: TTEntry)
    requires KindsOk(s) && 0 <= k < |s| && EntryKind(e, k)
    ensures KindsOk(s[k := e])
  {
  }

  /** The fields a node reads from its probe of the table, and its two evaluations. */
  datatype Probe = Probe(ttHit: bool, ttValue: Option<int>, ttDepth: int, ttMove: Option<Move>, staticEval: int, eval: int)

  /**
   * The probe as the node reads it: a miss gives no value, depth 0, no move
   * and the evaluator's score; a hit takes the stored evaluation (or the
   * evaluator's when none is stored) and prefers a stored value as `Eval`.
   */
  function ReadEntry(e: TTEntry, evaluated: int): (pr: Probe)
    ensures pr.ttHit == !e.IsNone()
    ensures !pr.ttHit ==> pr == Probe(false, None, 0, None, evaluated, evaluated)
    ensures pr.ttHit ==> pr.ttValue == e.value && pr.ttMove == e.move
    ensures pr.ttHit && e.value.Some? ==> pr.eval == e.value.value
    ensures pr.ttHit && e.value.None? ==> pr.eval == pr.staticEval
  {
    if e.IsNone() then Probe(false, None, 0, None, evaluated, evaluated)
    else
      var staticEval := if e.eval.Some? then e.eval.value else evaluated;
      Probe(true, e.value, if e.depth.Some? then e.depth.value else 0, e.move, staticEval,
            if e.value.Some? then e.value.value else staticEval)
  }

  /** A hit deep enough for the singular branch has a stored value, so `ttValue - 2 * depth` is defined. */
  lemma DeepHitHasValue(e: TTEntry, slot: int, evaluated: int)
    requires EntryKind(e, slot)
    ensures var pr := ReadEntry(e, evaluated);
            pr.ttHit ==> pr.ttDepth >= 0 && (pr.ttDepth >= 1 ==> pr.ttValue.Some?)
  {
  }

  /** The memo saved on a miss: `TTEntry(posKey, move=None, value=None, eval=staticEval, depth=0)`. */
  function EvalMemo(posKey: int, staticEval: int): (e: TTEntry)
    ensures EntryKind(e, posKey) && !e.IsNone() && e.depth == Some(0)
  {
    TTEntry(Some(posKey), None, None, Some(staticEval), Some(0), false)
  }

  /** The entry saved at the end of a node: `TTEntry(posKey, bestMove, bestValue, Eval, depth)`. */
  function ResultEntry(posKey: int, b: Bookkeeping, eval: int, depth: int): (e: TTEntry)
    requires depth >= 1
    ensures EntryKind(e, posKey) && !e.IsNone() && e.depth == Some(depth)
  {
    TTEntry(Some(posKey), b.bestMove, Some(b.bestValue), Some(eval), Some(depth), false)
  }

  // ---------------------------------------------------------------------
  // The two hashers
  // ---------------------------------------------------------------------

  /** With the same keys and a table of `Hash` slots, the table's slot is the search's key. */
  lemma SameKeysSameSlot(keys: Keys, pos: Position, hashOption: int)
    requires hashOption > 0
    ensures Slot(keys, pos, hashOption, hashOption) == Fingerprint(keys, pos, hashOption)
  {
    var f := Fingerprint(keys, pos, hashOption);
    ReduceInRange(f, hashOption);
  }

  /** A value already in [0, m) is unchanged by a second reduction modulo m. */
  lemma ReduceInRange(f: int, m: int)
    requires 0 <= f < m
    ensures f % m == f
  {
  }

  function KeysWithSide(side: Word): Keys
  {
    Keys(seq(12, _ => seq(64, _ => Zero())), side, seq(8, _ => Zero()), seq(16, _ => Zero()))
  }

  function BareBoard(turn: Color): Position
  {
    Position(seq(64, _ => None), turn, None, seq(16, _ => false))
  }

  /**
   * Two key sets that differ only in the side key send the same position to
   * different slots: the search saves Black's bare board at slot 0 while the
   * table looks it up at slot 1.
   */
  lemma TwoHashersDisagree()
    ensures Fingerprint(KeysWithSide(Zero()), BareBoard(Black), 2) == 0
    ensures Slot(KeysWithSide(One()), BareBoard(Black), 2, 2) == 1
  {
    var p := BareBoard(Black);
    BareBoardHash(KeysWithSide(Zero()), p);
    BareBoardHash(KeysWithSide(One()), p);
    ValueOfZeroAndOne();
  }

  /**
   * `get` does not compare keys: two different positions can share a slot,
   * and the entry saved for one is then a hit for the other.
   */
  lemma AliasedPositionsShareEntry()
    ensures BareBoard(White) != BareBoard(Black)
    ensures Slot(KeysWithSide(Zero()), BareBoard(White), 2, 2) == Slot(KeysWithSide(Zero()), BareBoard(Black), 2, 2)
  {
    BareBoardHash(KeysWithSide(Zero()), BareBoard(White));
    BareBoardHash(KeysWithSide(Zero()), BareBoard(Black));
  }

  /**
   * For every key set, `Hash` option and table size: repainting one piece
   * gives a different position with the same slot, so `get` hands each of
   * the two positions whatever was saved for the other.
   */
  lemma RepaintedPieceAliases(keys: Keys, p: Position, sq: Square, hashOption: int, size: int)
    requires hashOption > 0 && size > 0 && p.board[sq].Some?
    ensures var pc := p.board[sq].value;
            var q := p.(board := p.board[sq := Some(pc.(color := Opponent(pc.color)))]);
            q != p && Slot(keys, q, hashOption, size) == Slot(keys, p, hashOption, size)
  {
    var pc := p.board[sq].value;
    var q := p.(board := p.board[sq := Some(pc.(color := Opponent(pc.color)))]);
    assert q.board[sq] != p.board[sq];
    assert forall s: Square :: SameType(p.board[s], q.board[s]);
    ColourIgnored(keys, p, q);
  }

  // ---------------------------------------------------------------------
  // The searcher
  // ---------------------------------------------------------------------

  /**
   * The module's globals: `NODES`, `PV`, `ttTable` and the hasher `Z`, with
   * the `Hash` option, `VALUE_INFINITE`, `MAX_DEPTH` and the game as
   * constants.
   */
  class Searcher {
    const game: Game
    const z: Keys
    const hashOption: int
    const inf: int
    const maxDepth: int
    var nodes: nat
    var pv: seq<Option<Move>>
    var tt: TranspositionTable

    ghost predicate Valid()
      reads this, tt
    {
      hashOption > 0 && inf > 0 && tt.Valid() && tt.size == hashOption
    }

    /** Every slot holds what the search writes, or nothing. */
    ghost predicate TableWellFormed()
      reads this, tt, tt.table
    {
      KindsOk(tt.table[..])
    }

    /** Module load: no nodes, an empty PV, an empty table of `Hash` slots with its own keys. */
    constructor (game: Game, z: Keys, hashOption: int, inf: int, maxDepth: int, ttKeys: Keys)
      requires hashOption > 0 && inf > 0
      ensures Valid() && TableWellFormed() && fresh(tt) && fresh(tt.table)
      ensures this.game == game && this.z == z && this.hashOption == hashOption
      ensures this.inf == inf && this.maxDepth == maxDepth
      ensures nodes == 0 && pv == [] && tt.zobrist == ttKeys
      ensures forall i | 0 <= i < tt.table.Length :: tt.table[i] == EmptyEntry()
      ensures tt.HashfullCount() == 0
    {
      this.game := game;
      this.z := z;
      this.hashOption := hashOption;
      this.inf := inf;
      this.maxDepth := maxDepth;
      nodes := 0;
      pv := [];
      tt := new TranspositionTable(hashOption, ttKeys);
    }

    /**
     * The node's table probe: read the slot the table's own hasher picks,
     * key the node by the search's hasher, and on a miss save an evaluation
     * memo under that key.
     */
    method ProbeTable(pos: Position) returns (pr: Probe, posKey: int)
      requires Valid() && TableWellFormed()
      modifies tt.table
      ensures Valid() && TableWellFormed()
      ensures posKey == Fingerprint(z, pos, hashOption)
      ensures pr == ReadEntry(old(tt.table[Slot(tt.zobrist, pos, hashOption, tt.size)]), game.evaluate(pos))
      ensures pr.ttHit ==> tt.table[..] == old(tt.table[..])
      ensures !pr.ttHit ==> tt.table[..] == old(tt.table[..])[posKey := EvalMemo(posKey, pr.staticEval)]
      ensures pr.ttHit && pr.ttDepth >= 1 ==> pr.ttValue.Some?
    {
      var ttEntry := tt.Get(pos, hashOption);
      DeepHitHasValue(ttEntry, Slot(tt.zobrist, pos, hashOption, tt.size), game.evaluate(pos));
      pr := ReadEntry(ttEntry, game.evaluate(pos));
      posKey := Zobrist.Hash(z, pos, hashOption);
      if !pr.ttHit {
        KindsOkUpdate(tt.table[..], posKey, EvalMemo(posKey, pr.staticEval));
        tt.Save(posKey, EvalMemo(posKey, pr.staticEval));
      }
    }

    /**
     * `search`: `None` when the fuel runs out before the node is finished
     * (the source's recursion has no bound). At depth 0 or less it is the
     * evaluator and touches neither table nor PV; otherwise the result is the
     * bookkeeping of the move loop, that result is saved at the search's key,
     * and a root node appends its best move to the PV.
     */
    method Search(pos: Position, depth: int, alpha: int, beta: int, pvNode: bool, rootNode: bool, fuel: nat)
      returns (result: Option<int>, ghost examined: seq<Examined>)
      requires Valid() && TableWellFormed()
      modifies this`nodes, this`pv, tt.table
      decreases fuel, 2
      ensures Valid() && TableWellFormed()
      ensures nodes > old(nodes)
      ensures depth <= 0 ==> result == Some(game.evaluate(pos)) && tt.table[..] == old(tt.table[..]) && pv == old(pv)
      ensures !(rootNode && depth > 0 && result.Some?) ==> pv == old(pv)
      ensures depth > 0 && result.Some? ==>
        var key := Fingerprint(z, pos, hashOption);
        var b := RunLoop(StartLoop(alpha, inf), examined, beta);
        && result.value == b.bestValue
        && Explored(game.legalMoves(pos), examined, b.cutoff)
        && NoEarlyCutoff(StartLoop(alpha, inf), examined, beta)
        && tt.table[key] == ResultEntry(key, b,
             ReadEntry(old(tt.table[Slot(tt.zobrist, pos, hashOption, tt.size)]), game.evaluate(pos)).eval, depth)
        && (rootNode ==> pv == old(pv) + [b.bestMove])
    {
      nodes := nodes + 1;
      examined := [];
      if depth <= 0 {
        result := Some(game.evaluate(pos));
        return;
      }
      if fuel == 0 {
        result := None;
        return;
      }
      var isPv := rootNode || pvNode;
      var pr, posKey := ProbeTable(pos);
      var b;
      b, examined := MovesLoop(pos, depth, alpha, beta, isPv, rootNode, pr, fuel);
      if b.None? {
        result := None;
        return;
      }
      var entry := ResultEntry(posKey, b.value, pr.eval, depth);
      KindsOkUpdate(tt.table[..], posKey, entry);
      tt.Save(posKey, entry);
      if rootNode {
        pv := pv + [b.value.bestMove];
      }
      result := Some(b.value.bestValue);
    }

    /**
     * The `for move in pos.legal_moves` loop of a node at `depth >= 1`: the
     * moves are taken in generation order and the loop stops after the first
     * fail high; `None` when a child search ran out of fuel.
     */
    method MovesLoop(pos: Position, depth: int, alpha: int, beta: int, pvNode: bool, rootNode: bool,
                     pr: Probe, fuel: nat)
      returns (b: Option<Bookkeeping>, ghost examined: seq<Examined>)
      requires Valid() && TableWellFormed()
      requires depth >= 1 && fuel >= 1
      requires pr.ttHit && pr.ttDepth >= 1 ==> pr.ttValue.Some?
      modifies this`nodes, this`pv, tt.table
      decreases fuel, 1
      ensures Valid() && TableWellFormed()
      ensures pv == old(pv) && nodes >= old(nodes)
      ensures b.Some? ==>
        && b.value == RunLoop(StartLoop(alpha, inf), examined, beta)
        && Explored(game.legalMoves(pos), examined, b.value.cutoff)
        && NoEarlyCutoff(StartLoop(alpha, inf), examined, beta)
    {
      var start := StartLoop(alpha, inf);
      var cur := start;
      var moves := game.legalMoves(pos);
      examined := [];
      var i := 0;
      while i < |moves| && !cur.cutoff
        invariant 0 <= i <= |moves| && |examined| == i
        invariant forall k | 0 <= k < i :: examined[k].move == moves[k]
        invariant cur == RunLoop(start, examined, beta)
        invariant NoEarlyCutoff(start, examined, beta)
        invariant Valid() && TableWellFormed()
        invariant pv == old(pv) && nodes >= old(nodes)
        decreases |moves| - i
      {
        var v := SearchMove(pos, moves[i], depth, cur.alpha, beta, pvNode, rootNode, pr, fuel);
        if v.None? {
          return None, examined;
        }
        var next := examined + [Examined(moves[i], v.value)];
        assert next[..i] == examined;
        cur := Record(cur, moves[i], v.value, beta);
        examined := next;
        i := i + 1;
      }
      b := Some(cur);
    }

    /**
     * One iteration of the move loop, up to the value of the move: the
     * singular probe on the unchanged position when the branch applies, the
     * extension, the null-window search of the child at the reduced depth,
     * and at PV nodes the full-window re-search at `newDepth`.
     */
    method SearchMove(pos: Position, move: Move, depth: int, alpha: int, beta: int, pvNode: bool, rootNode: bool,
                      pr: Probe, fuel: nat)
      returns (value: Option<int>)
      requires Valid() && TableWellFormed()
      requires depth >= 1 && fuel >= 1
      requires pr.ttHit && pr.ttDepth >= 1 ==> pr.ttValue.Some?
      modifies this`nodes, this`pv, tt.table
      decreases fuel, 0
      ensures Valid() && TableWellFormed()
      ensures pv == old(pv) && nodes > old(nodes)
    {
      var isTTMove := pr.ttMove == Some(move);
      var ttValue := 0;
      var probe := 0;
      if SingularCandidate(pr.ttHit, isTTMove, depth, pr.ttDepth) {
        ttValue := pr.ttValue.value;
        var singularBeta := ttValue - 2 * depth;
        var r, _ := Search(pos, (depth - 1) / 2, singularBeta - 1, singularBeta, false, false, fuel - 1);
        if r.None? {
          return None;
        }
        probe := r.value;
      }
      var ext := Extension(pr.ttHit, isTTMove, pr.ttDepth, depth, ttValue, probe, beta, pvNode, pr.eval,
                           game.givesCheck(pos, move));
      var newDepth := depth + ext;
      var child := game.apply(pos, move);
      var d := ReducedDepth(newDepth, pvNode, isTTMove);
      var r1, _ := Search(child, d, -(alpha + 1), -alpha, false, false, fuel - 1);
      if r1.None? {
        return None;
      }
      value := Some(-r1.value);
      if pvNode && -r1.value > alpha && (rootNode || -r1.value < beta) {
        var r2, _ := Search(child, newDepth, -beta, -alpha, true, false, fuel - 1);
        if r2.None? {
          return None;
        }
        value := Some(-r2.value);
      }
    }

    /**
     * `search_main`: reset the counter, the PV and the table (a new table
     * with new keys), then search the root at depths 1 .. depth-1 (`MAX_DEPTH`
     * when no depth is given) with the aspiration window. `completed` is
     * false when a root search ran out of fuel.
     */
    method SearchMain(rootPos: Position, depthLimit: Option<int>, ttKeys: Keys, fuel: nat)
      returns (reports: seq<Report>, completed: bool)
      requires Valid()
      modifies this
      ensures Valid() && TableWellFormed() && fresh(tt) && tt.zobrist == ttKeys
      ensures var depth := if depthLimit.Some? then depthLimit.value else maxDepth;
              && (completed ==> |reports| == RootIterations(depth))
              && (!completed ==> |reports| < RootIterations(depth))
      ensures RootReports(reports, pv, inf)
      ensures NodeCounts(reports, nodes)
      ensures completed ==> nodes == LastNodes(reports)
      ensures !completed ==> nodes > LastNodes(reports)
    {
      nodes := 0;
      pv := [];
      tt := new TranspositionTable(hashOption, ttKeys);
      var depth := if depthLimit.Some? then depthLimit.value else maxDepth;
      reports := [];
      var w := NextWindow(reports, inf);
      completed := true;
      var rootDepth := 1;
      while rootDepth < depth
        invariant 1 <= rootDepth && |reports| == rootDepth - 1
        invariant depth >= 1 ==> rootDepth <= depth
        invariant depth < 1 ==> rootDepth == 1
        invariant Valid() && TableWellFormed() && fresh(tt) && fresh(tt.table) && tt.zobrist == ttKeys
        invariant RootReports(reports, pv, inf) && w == NextWindow(reports, inf)
        invariant NodeCounts(reports, nodes) && nodes == LastNodes(reports)
        decreases depth - rootDepth
      {
        ghost var pvBefore := pv;
        var bestValue, _ := Search(rootPos, rootDepth, w.alpha, w.beta, true, true, fuel);
        if bestValue.None? {
          completed := false;
          return;
        }
        RootReportsExtend(reports, pvBefore, pv, bestValue.value, nodes, inf);
        NodeCountsExtend(reports, Report(rootDepth, bestValue.value, nodes, pv, w), nodes);
        reports := reports + [Report(rootDepth, bestValue.value, nodes, pv, w)];
        w := NextWindow(reports, inf);
        rootDepth := rootDepth + 1;
      }
    }
  }
}
