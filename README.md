# PVplayer-AB search core in Dafny

This project models the alpha-beta core of the PVplayer-AB chess engine:

- the Zobrist hasher, `Zobrist.hash`;
- the direct-mapped transposition table, `TranspositionTable` with `TTEntry`;
- the recursive `search` and the iterative-deepening driver `search_main`.

The board is abstract: 64 squares that each hold a piece or nothing, the side to move, an optional en-passant square and the 16 castling-rights answers. Move generation, making a move, check detection and the external evaluator are functions the search is given (`Chess.Game`).

Modules, one per file:

- `Bits` (bits.dfy): 64-bit words as bit strings, their exclusive or, and the integer a word denotes.
- `Zobrist` (zobrist.dfy):
  - the XOR-fold specification of a fingerprint;
  - the loop method `Hash`, proved against that specification;
  - what each part of the position contributes to the fingerprint.
- `TT` (tt.dfy): the class `TranspositionTable`, whose entries live in an `array`. `Save` writes a slot in place; the constructor and `Clear` build a fresh array.
- `Search` (search.dfy):
  - pure functions for the extension, the reduction, the move-loop bookkeeping and the aspiration window, with their lemmas;
  - the class `Searcher`, which holds the module's globals (`NODES`, `PV`, `ttTable`, the hasher `Z`);
  - the methods `Search`, `MovesLoop`, `SearchMove` and `SearchMain`.

Two behaviours of the code are kept as written:

- **Two hashers.** The search keys every save by its own hasher `Z`. The table's `get` picks its slot with the table's own hasher. Their keys are independent, so they are two `Keys` values here: `Searcher.z` and `tt.zobrist`. `TwoHashersDisagree` shows one position landing in different slots under the two hashers. `SameKeysSameSlot` shows the slots agree when the keys are equal.
- **No termination measure.** A move other than the TT move is searched at least as deep as its parent (`ChildDepthDoesNotShrink`), so nothing in the code bounds the recursion. `Search` carries a `fuel` parameter instead, and returns `None` when the fuel runs out. Nor does the search ever reach its horizon from inside: below a node at depth 1 or more every search is again at depth 1 or more (`ChildDepthsPositive`), and `search_main` starts at depth 1. The evaluator at depth 0 (lines 36-37) runs only for an outside call at depth 0 or less, so a node with legal moves returns only after some descendant without legal moves has returned.

## Model

| member | source | states |
|---|---|---|
| Zobrist.Hash | src/engine/engine_zobrist.py:16-29 | The two loops compute the XOR fold of the keys of every occupied square (row chosen by piece type), the side key when Black is to move, the en-passant key of the square's file and the keys of the held castling rights, reduced modulo `Hash`. The result lies in [0, Hash). |
| Zobrist.Fingerprint | src/engine/engine_zobrist.py:29 | The fingerprint lies in [0, Hash) for a positive `Hash`. |
| Zobrist.RawHashBelow2To64 | src/engine/engine_zobrist.py:17-28 | With 64-bit keys, the value before the modulus stays below 2^64. |
| Zobrist.PieceFoldTypesOnly | src/engine/engine_zobrist.py:18-21 | Boards with the same piece types on the same squares give the same piece contribution. |
| Zobrist.ColourIgnored | src/engine/engine_zobrist.py:19-21 | Two positions that differ only in the colours of pieces hash the same. |
| Zobrist.PlacePiece | src/engine/engine_zobrist.py:18-21 | Putting a piece on an empty square XORs the pre-modulus value with exactly that type's key for that square. |
| Zobrist.FlipSide | src/engine/engine_zobrist.py:22-23 | Changing the side to move XORs the pre-modulus value with the side key. |
| Zobrist.EpFile | src/engine/engine_zobrist.py:25 | The en-passant key index `ep_square % 8` lies in [0, 8) and is the square's file. |
| Zobrist.AddEpSquare | src/engine/engine_zobrist.py:24-25 | With no en-passant square nothing is added; setting square `sq` XORs in the key of file `sq % 8`. |
| Zobrist.ToggleCastlingRight | src/engine/engine_zobrist.py:26-28 | Gaining or losing castling right `j` XORs the value with `castling[j]` and changes nothing else. The contribution is the XOR over exactly the rights held. |
| Zobrist.XorAllPermutation | src/engine/engine_zobrist.py:17-28 | Two sequences of keys with equal multisets have equal XORs. |
| Zobrist.OrderIndependent | src/engine/engine_zobrist.py:17-28 | Any visiting order of the selected keys gives the same pre-modulus value. |
| Zobrist.BareBoardHash | src/engine/engine_zobrist.py:17-28 | An empty board with no castling rights and no en-passant square hashes to the side key alone. |
| TT.EmptyEntry | src/engine/engine_tt.py:9-19 | A default `TTEntry()` is `is_none()`. |
| TT.CountOccupiedBounds | src/engine/engine_tt.py:26-27 | The occupied count lies between 0 and the length. It is 0 exactly when every slot is empty, and equals the length exactly when none is. |
| TT.CountOccupiedUpdate | src/engine/engine_tt.py:38-39 | Overwriting one slot changes the count only by what leaves and what enters that slot. |
| TT.TranspositionTable.constructor | src/engine/engine_tt.py:21-24 | The new table has exactly `size` slots, all empty, a fresh array and the given keys. `hashfull_count` is 0. |
| TT.TranspositionTable.HashfullCount | src/engine/engine_tt.py:26-27 | The number of slots whose key is not None lies between 0 and `size`. It is 0 exactly when every slot is empty. |
| TT.Slot | src/engine/engine_tt.py:32-33 | The table's index is in [0, size). |
| TT.TranspositionTable.Hash | src/engine/engine_tt.py:32-33 | The index is the table's own hasher's fingerprint modulo `size`, in [0, size). |
| TT.TranspositionTable.Get | src/engine/engine_tt.py:35-36 | Returns the entry at that index, whatever key the entry holds. |
| TT.TranspositionTable.Save | src/engine/engine_tt.py:38-39 | Slot `k` becomes `e`; the length and every other slot are unchanged. A read of slot `k` then yields `e`. The occupied count changes by what left and entered slot `k`. |
| TT.TranspositionTable.Clear | src/engine/engine_tt.py:41-42 | A fresh array of `size` empty slots; `hashfull_count` becomes 0. |
| Search.RepaintedPieceAliases | src/engine/engine_tt.py:35-36 | For every key set and table size, repainting one piece gives a different position in the same slot, so `get` cannot tell the two apart. |
| Search.AliasedPositionsShareEntry | src/engine/engine_tt.py:35-36 | Two different positions can map to the same slot, so `get` hands one position the entry saved for the other. |
| Search.Clamp | src/engine/engine_search.py:115 | For `lo <= hi` the result lies in [lo, hi]: it is `x` when `x` is inside, `lo` below and `hi` above. |
| Search.SingularExtension | src/engine/engine_search.py:85-98 | The extension is in {-2..2}; `ttValue >= beta` forces -2; otherwise `ttValue <= value` forces -1. A positive extension needs the probe below `singularBeta`; +2 needs a non-PV node and the probe 20 below `singularBeta`. |
| Search.CheckExtension | src/engine/engine_search.py:99-102 | +1 exactly for a checking move at depth 8 or more, otherwise 0. |
| Search.Extension | src/engine/engine_search.py:84-104 | In {-2..2}. Negative only in the singular branch, hence only at depth >= 4, so `newDepth >= 1` whenever `depth >= 1`. Outside that branch, only a checking move at depth >= 8 gets +1. |
| Search.Reduction | src/engine/engine_search.py:110-112 | `r` is in {-1, 0, 1}: +1 exactly for the TT move at a non-PV node, -1 exactly for another move at a PV node. |
| Search.ReducedDepth | src/engine/engine_search.py:115 | `1 <= d <= newDepth + 1`. Only the TT move is reduced. A non-TT move at a PV node is searched one ply deeper. |
| Search.ChildDepthsPositive | src/engine/engine_search.py:84-116 | At a node of depth >= 1, the singular probe's `(depth - 1) // 2` is >= 1 (that branch needs depth >= 4), `newDepth` is >= 1 and the reduced depth is >= 1: no child search is at depth 0 or less. |
| Search.ChildDepthDoesNotShrink | src/engine/engine_search.py:104-116 | For a move other than the TT move, the child depth is at least the parent's depth. Below depth 8, such a move at a non-PV node is searched at exactly the parent's depth. |
| Search.BestValueIsMax | src/engine/engine_search.py:128-129 | `bestValue` is the maximum of its start value and every value examined, so `-VALUE_INFINITE` with no legal moves. |
| Search.MoveLoopWindow | src/engine/engine_search.py:67-140 | Starting from `-inf <= alpha < beta`, the loop breaks exactly at the first value `>= beta`. Until then `bestValue <= alpha < beta`, and `alpha` is the maximum of the initial alpha and the values, so it never decreases. `bestMove` is set exactly when some value beat the initial alpha, and it is an examined move carrying `bestValue`; with no moves it stays None. |
| Search.ReadEntry | src/engine/engine_search.py:42-62 | A miss gives no value, depth 0 and no move, and both evaluations are the evaluator's. A hit returns the stored value and move, and `Eval` prefers the stored value over the static evaluation. |
| Search.DeepHitHasValue | src/engine/engine_search.py:85-86 | On a table holding only what the search writes, a hit with depth >= 1 has a value, so `ttValue - 2 * depth` is defined whenever the singular branch is taken. |
| Search.EvalMemo | src/engine/engine_search.py:64-65 | The miss-time entry is an evaluation memo: no move, no value, depth 0, keyed by its own slot. |
| Search.ResultEntry | src/engine/engine_search.py:145-146 | The end-of-node entry holds the node's depth (>= 1), its value and its move, keyed by its own slot. |
| Search.KindsOkUpdate | src/engine/engine_search.py:145-146 | Saving either kind of entry at its own key keeps every slot empty, a memo or a search result. |
| Search.SameKeysSameSlot | src/engine/engine_search.py:49 | With equal keys and `size == Hash`, the table's slot equals the search's `posKey`. |
| Search.TwoHashersDisagree | src/engine/engine_search.py:42-49 | Keys that differ only in the side key put one position in slot 0 for the search's hasher and slot 1 for the table's. |
| Search.Searcher.constructor | src/engine/engine_search.py:16-24 | `NODES` is 0, `PV` is empty, and the table has `Hash` slots, every one an empty entry (`hashfull_count` 0), with its own keys. |
| Search.Searcher.ProbeTable | src/engine/engine_search.py:42-65 | The probe reads the slot chosen by the table's hasher and keys the node by `Z`. On a miss it saves an evaluation memo at that key and changes nothing else; on a hit the table is unchanged. |
| Search.Searcher.Search | src/engine/engine_search.py:27-151 | Every call counts a node. At depth <= 0 the result is the evaluator's value, and the table and PV are untouched. Otherwise the result is `bestValue` of the move loop run over the legal moves in order, stopping only at a fail high. The entry at the `Z` key is then the result entry, and a root node appends `bestMove` to the PV exactly once. |
| Search.Searcher.MovesLoop | src/engine/engine_search.py:70-140 | The bookkeeping is the fold of `Record` over the examined moves. Those moves are the first legal moves in order: all of them, unless the loop broke on its last. |
| Search.Searcher.SearchMove | src/engine/engine_search.py:83-126 | The singular probe, the null-window and full-window child searches keep the table well kinded and the PV unchanged. |
| Search.Aspiration | src/engine/engine_search.py:194-198 | The window stays inside [-inf, inf], and stays non-empty except in one case: a fail-low from `(-inf, -inf+1)`. A fail-low lowers alpha and moves beta down to the midpoint. A fail-high keeps alpha and raises beta past the score when there is room. Otherwise the window is unchanged. |
| Search.WindowCanClose | src/engine/engine_search.py:194-196 | A fail-low from `(-inf, -inf+1)` gives the empty window `(-inf, -inf)`. |
| Search.RootIterations | src/engine/engine_search.py:192 | `range(1, depth)` runs `depth - 1` iterations, none when `depth <= 1`. |
| Search.RootReportsExtend | src/engine/engine_search.py:192-204 | A completed root iteration adds the report for the next depth, with a PV one move longer and the aspiration window derived from the previous report. |
| Search.Searcher.SearchMain | src/engine/engine_search.py:154-204 | Resets the counter, the PV and the table (fresh, with new keys). It reports depths 1 .. depth-1, or `MAX_DEPTH`-1 when no depth is given, each with a window derived from the last. The PV gains exactly one move per completed root iteration. The counter restarts at 0: with no iteration it stays 0; the printed node counts are positive, strictly increasing and at most `NODES`, and after the last completed iteration `NODES` is the last printed count. |

## Left out

- Random key generation in `Zobrist.__init__` (engine_zobrist.py:7-14): the key tables are inputs.
- Table size 0: `__init__` accepts a size of 0 and builds an empty list; the first `hash` then fails with a modulo by zero. The constructor accepts 0; `Hash`, `Get` and `Searcher` require a positive size, so that failure is not modelled.
- `Zobrist.Hash`: the code reads `position.board.ep_square` on line 25. The model uses the evident intent, the en-passant square's file.
- `has_castling_rights(i)` for i in 0..15 is an abstract sequence of 16 independent answers. python-chess's `has_castling_rights` takes a colour: `i == 1` equals `WHITE` and asks about White's rights, and every other `i` asks about Black's. In a real position the 15 answers for `i != 1` are therefore equal; the model over-approximates this, and its castling lemmas hold for every sequence of answers, the real ones included.
- `hashfull()` is left out: it returns a float.
- `__str__` is left out: it only prints.
- `Search.Searcher.Search`: the fuel parameter and the `None` result have no counterpart in the code, whose recursion is unbounded.
- `Search.Searcher.Search`: the values of the examined moves are not specified beyond the loop bookkeeping. Their relation to the children's results (negation, re-search) is modelled in `SearchMove` but not stated in a contract.
- `Search.Searcher.SearchMove` states only what it preserves, not the value it returns.
- `push`/`pop` are modelled as moving to the value `apply(pos, move)` and back to the unchanged `pos`. In-place mutation of the board is not modelled.
- `VALUE_INFINITE`, `MAX_DEPTH` and `clamp` come from `engine_search_h`, which is not part of this model. The first two are constants of `Searcher` (`inf > 0`); `clamp` is `min(max(x, lo), hi)`.
- Scores are unbounded integers. The Value type's mate-score encoding is not part of this model.
- `Eval - 100` used as a condition (line 97) is modelled as `Eval != 100`.
- The evaluator (`evaluate`, engine_engine.py) runs an external engine. It is the function `Game.evaluate`, and its node budget is fixed.
- Timers, the stop flags and `stop_search` (lines 176-187, 207-214) are left out: they involve threads and are never polled by the search. The `timeman`/`movetime` set-up that feeds them (lines 170-175) is left out with them.
- `timeman`, wall clock, nps, `last_output`, `moveCount` and every `print` line are left out. `SearchMain` returns the `info depth` data as reports instead.
- `default_nodes`, `MAX_MOVES`, `MAX_ITERS`, `nodes`, `mate` and `movetime` of `search_main` are left out: they feed only the evaluator's budget or the timers.
- The singular probe is modelled only through its returned integer. It also writes to the table, as any search does.
- The alternate orchestrator `src/engine_search.py` is not part of this model.
