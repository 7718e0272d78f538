/**
 * The Zobrist position hasher (src/engine/engine_zobrist.py).
 *
 * A `Zobrist` instance owns four tables of 64-bit keys, drawn at random once
 * by its constructor; here they are given as a `Keys` value. `hash` XORs
 * together one key per board feature and reduces the result modulo the
 * `Hash` option. The XOR fold is specified by `RawHash`, the loop that
 * computes it is the method `Hash`, and the lemmas below state what the fold
 * depends on and what it ignores.
 */
module Zobrist {
  import opened Wrappers
  import opened Chess
  import opened Bits

  /** 12 rows of 64 piece-square keys (`self.pieces`). */
  type PieceKeys = s: seq<seq<Word>> | |s| == 12 && forall i | 0 <= i < 12 :: |s[i]| == 64
    witness seq(12, _ => seq(64, _ => Zero()))

  /** One key per en-passant file (`self.en_passant`). */
  type EpKeys = s: seq<Word> | |s| == 8 witness seq(8, _ => Zero())

  /** One key per castling-rights index (`self.castling`). */
  type CastlingKeys = s: seq<Word> | |s| == 16 witness seq(16, _ => Zero())

  /** The key tables of one hasher instance; every key is a 64-bit word, so below 2^64. */
  datatype Keys = Keys(pieces: PieceKeys, side: Word, enPassant: EpKeys, castling: CastlingKeys)

  // ---------------------------------------------------------------------------
  // Specification of the fold
  // ---------------------------------------------------------------------------

  /** The key an occupied square contributes: its row is the piece TYPE, whatever its colour. */
  function PieceKey(keys: Keys, board: Board, sq: Square): Word
  {
    match board[sq]
    case None => Zero()
    case Some(p) => keys.pieces[p.pieceType][sq]
  }

  /** XOR of the piece keys of squares 0 .. n-1. */
  function PieceFold(keys: Keys, board: Board, n: nat): Word
    requires n <= 64
  {
    if n == 0 then Zero() else Xor(PieceFold(keys, board, n - 1), PieceKey(keys, board, n - 1))
  }

  /** The side key, present exactly when Black is to move. */
  function SideKey(keys: Keys, pos: Position): Word
  {
    if pos.turn == Black then keys.side else Zero()
  }

  /** The file of an en-passant square, which selects its key. */
  function EpFile(sq: Square): (f: int)
    ensures 0 <= f < 8
    ensures sq == 8 * (sq / 8) + f
  {
    sq % 8
  }

  /** The en-passant key, present only when the position has an en-passant square. */
  function EpKey(keys: Keys, pos: Position): Word
  {
    match pos.epSquare
    case None => Zero()
    case Some(sq) => keys.enPassant[EpFile(sq)]
  }

  /** The castling key of index i when right i is held, else nothing. */
  function CastlingKey(keys: Keys, rights: CastlingRights, i: int): Word
    requires 0 <= i < 16
  {
    if rights[i] then keys.castling[i] else Zero()
  }

  /** XOR of the castling keys of the held rights among indices 0 .. n-1. */
  function CastlingFold(keys: Keys, rights: CastlingRights, n: nat): Word
    requires n <= 16
  {
    if n == 0 then Zero() else Xor(CastlingFold(keys, rights, n - 1), CastlingKey(keys, rights, n - 1))
  }

  /** The fingerprint before the modulus: all selected keys XORed together. */
  function RawHash(keys: Keys, pos: Position): Word
  {
    Xor(Xor(Xor(PieceFold(keys, pos.board, |pos.board|), SideKey(keys, pos)), EpKey(keys, pos)),
        CastlingFold(keys, pos.castling, |pos.castling|))
  }

  /** What `hash` returns: the raw fingerprint, as an integer, reduced modulo the `Hash` option. */
  function Fingerprint(keys: Keys, pos: Position, hashOption: int): (h: int)
    requires hashOption > 0
    ensures 0 <= h < hashOption
  {
    Value(RawHash(keys, pos)) % hashOption
  }

  /** XORing keys below 2^64 never leaves that range, so the modulus sees a value below 2^64. */
  lemma RawHashBelow2To64(keys: Keys, pos: Position)
    ensures Value(RawHash(keys, pos)) < Pow2(64)
  {
    ValueBound(RawHash(keys, pos));
  }

  // ---------------------------------------------------------------------------
  // The hash loop
  // ---------------------------------------------------------------------------

  /** `Zobrist.hash`: accumulate the keys square by square, then side, en passant, castling. */
  method Hash(keys: Keys, pos: Position, hashOption: int) returns (h: int)
    requires hashOption > 0
    ensures h == Fingerprint(keys, pos, hashOption)
    ensures 0 <= h < hashOption
  {
    var acc := Zero();
    for i := 0 to |pos.board|
      invariant acc == PieceFold(keys, pos.board, i)
    {
      var piece := pos.board[i];
      if piece.Some? {
        acc := Xor(acc, keys.pieces[piece.value.pieceType][i]);
      } else {
        XorZero(acc);
      }
    }
    if pos.turn == Black {
      acc := Xor(acc, keys.side);
    } else {
      XorZero(acc);
    }
    if pos.epSquare.Some? {
      acc := Xor(acc, keys.enPassant[pos.epSquare.value % 8]);
    } else {
      XorZero(acc);
    }
    ghost var beforeCastling := acc;
    XorZero(acc);
    for i := 0 to |pos.castling|
      invariant acc == Xor(beforeCastling, CastlingFold(keys, pos.castling, i))
    {
      XorAssoc(beforeCastling, CastlingFold(keys, pos.castling, i), CastlingKey(keys, pos.castling, i));
      if pos.castling[i] {
        acc := Xor(acc, keys.castling[i]);
      } else {
        XorZero(acc);
      }
    }
    h := Value(acc) % hashOption;
  }

  // ---------------------------------------------------------------------------
  // What the fingerprint depends on
  // ---------------------------------------------------------------------------

  /** Two square contents of the same piece type (or both empty), colours aside. */
  predicate SameType(a: Option<Piece>, b: Option<Piece>)
  {
    (a.None? && b.None?) || (a.Some? && b.Some? && a.value.pieceType == b.value.pieceType)
  }

  lemma {:induction false} PieceFoldTypesOnly(keys: Keys, b1: Board, b2: Board, n: nat)
    requires n <= 64
    requires forall sq: Square :: SameType(b1[sq], b2[sq])
    ensures PieceFold(keys, b1, n) == PieceFold(keys, b2, n)
  {
    if n > 0 {
      PieceFoldTypesOnly(keys, b1, b2, n - 1);
      assert SameType(b1[n - 1], b2[n - 1]);
    }
  }

  /** Pieces are keyed by type only: positions whose boards differ only in colours hash alike. */
  lemma ColourIgnored(keys: Keys, p: Position, q: Position)
    requires forall sq: Square :: SameType(p.board[sq], q.board[sq])
    requires p.turn == q.turn && p.epSquare == q.epSquare && p.castling == q.castling
    ensures RawHash(keys, p) == RawHash(keys, q)
  {
    PieceFoldTypesOnly(keys, p.board, q.board, |p.board|);
  }

  /** A key XORed into the first of the four parts can be XORed in last instead. */
  lemma PullOut(a: Word, k: Word, b: Word, c: Word, d: Word)
    ensures Xor(Xor(Xor(Xor(a, k), b), c), d) == Xor(Xor(Xor(Xor(a, b), c), d), k)
  {
    XorSwap(a, k, b);
    XorSwap(Xor(a, b), k, c);
    XorSwap(Xor(Xor(a, b), c), k, d);
  }

  lemma {:induction false} PieceFoldPlace(keys: Keys, b: Board, sq: Square, pc: Piece, n: nat)
    requires n <= 64
    requires b[sq].None?
    ensures PieceFold(keys, b[sq := Some(pc)], n)
         == Xor(PieceFold(keys, b, n), if sq < n then keys.pieces[pc.pieceType][sq] else Zero())
  {
    var k := keys.pieces[pc.pieceType][sq];
    if n == 0 {
      XorZero(Zero());
    } else {
      PieceFoldPlace(keys, b, sq, pc, n - 1);
      var prev := PieceFold(keys, b, n - 1);
      XorZero(prev);
      if sq < n - 1 {
        XorSwap(prev, k, PieceKey(keys, b, n - 1));
      } else if sq == n - 1 {
        XorZero(Xor(prev, k));
      } else {
        XorZero(PieceFold(keys, b, n));
      }
    }
  }

  /** Putting a piece on an empty square changes the raw fingerprint by exactly that piece-square key. */
  lemma PlacePiece(keys: Keys, p: Position, sq: Square, pc: Piece)
    requires p.board[sq].None?
    ensures RawHash(keys, p.(board := p.board[sq := Some(pc)]))
         == Xor(RawHash(keys, p), keys.pieces[pc.pieceType][sq])
  {
    PieceFoldPlace(keys, p.board, sq, pc, |p.board|);
    PullOut(PieceFold(keys, p.board, |p.board|), keys.pieces[pc.pieceType][sq],
            SideKey(keys, p), EpKey(keys, p), CastlingFold(keys, p.castling, |p.castling|));
  }

  function Opponent(c: Color): Color
  {
    if c == White then Black else White
  }

  /** Flipping the side to move changes the raw fingerprint by XOR with the side key. */
  lemma FlipSide(keys: Keys, p: Position)
    ensures RawHash(keys, p.(turn := Opponent(p.turn))) == Xor(RawHash(keys, p), keys.side)
  {
    var q := p.(turn := Opponent(p.turn));
    var a := PieceFold(keys, p.board, |p.board|);
    XorZero(keys.side);
    XorSelf(keys.side);
    assert SideKey(keys, q) == Xor(SideKey(keys, p), keys.side);
    XorAssoc(a, SideKey(keys, p), keys.side);
    XorSwap(Xor(a, SideKey(keys, p)), keys.side, EpKey(keys, p));
    XorSwap(Xor(Xor(a, SideKey(keys, p)), EpKey(keys, p)), keys.side, CastlingFold(keys, p.castling, |p.castling|));
  }

  /** The en-passant key enters only with an en-passant square, through that square's file. */
  lemma AddEpSquare(keys: Keys, p: Position, sq: Square)
    requires p.epSquare.None?
    ensures EpKey(keys, p) == Zero()
    ensures RawHash(keys, p.(epSquare := Some(sq))) == Xor(RawHash(keys, p), keys.enPassant[sq % 8])
  {
    var ab := Xor(PieceFold(keys, p.board, |p.board|), SideKey(keys, p));
    var k := keys.enPassant[sq % 8];
    XorZero(ab);
    XorZero(k);
    XorSwap(ab, k, CastlingFold(keys, p.castling, |p.castling|));
  }

  lemma {:induction false} CastlingFoldToggle(keys: Keys, r: CastlingRights, j: int, n: nat)
    requires 0 <= j < 16 && n <= 16
    ensures CastlingFold(keys, r[j := !r[j]], n)
         == Xor(CastlingFold(keys, r, n), if j < n then keys.castling[j] else Zero())
  {
    var r' := r[j := !r[j]];
    var k := keys.castling[j];
    if n == 0 {
      XorZero(Zero());
    } else {
      CastlingFoldToggle(keys, r, j, n - 1);
      var prev := CastlingFold(keys, r, n - 1);
      XorZero(prev);
      if j < n - 1 {
        XorSwap(prev, k, CastlingKey(keys, r, n - 1));
      } else if j == n - 1 {
        XorZero(k);
        XorSelf(k);
        XorAssoc(prev, CastlingKey(keys, r, j), k);
        assert CastlingKey(keys, r', j) == Xor(CastlingKey(keys, r, j), k);
      } else {
        XorZero(CastlingFold(keys, r, n));
      }
    }
  }

  /**
   * Gaining or losing castling right j changes the raw fingerprint by exactly
   * castling key j: the castling contribution is the XOR over the held rights.
   */
  lemma ToggleCastlingRight(keys: Keys, p: Position, j: int)
    requires 0 <= j < 16
    ensures RawHash(keys, p.(castling := p.castling[j := !p.castling[j]]))
         == Xor(RawHash(keys, p), keys.castling[j])
  {
    CastlingFoldToggle(keys, p.castling, j, |p.castling|);
    var abc := Xor(Xor(PieceFold(keys, p.board, |p.board|), SideKey(keys, p)), EpKey(keys, p));
    XorAssoc(abc, CastlingFold(keys, p.castling, |p.castling|), keys.castling[j]);
  }

  // ---------------------------------------------------------------------------
  // Independence of the visiting order
  // ---------------------------------------------------------------------------

  /** XOR of a list of keys, folded from the left. */
  function XorAll(s: seq<Word>): Word
  {
    if s == [] then Zero() else Xor(XorAll(s[..|s| - 1]), s[|s| - 1])
  }

  lemma {:induction false} XorAllAppend(a: seq<Word>, b: seq<Word>)
    ensures XorAll(a + b) == Xor(XorAll(a), XorAll(b))
  {
    if b == [] {
      assert a + b == a;
      XorZero(XorAll(a));
    } else {
      var b' := b[..|b| - 1];
      assert (a + b)[..|a + b| - 1] == a + b';
      XorAllAppend(a, b');
      XorAssoc(XorAll(a), XorAll(b'), b[|b| - 1]);
    }
  }

  lemma XorAllSingle(x: Word)
    ensures XorAll([x]) == x
  {
    assert [x][..0] == [];
    XorZero(x);
  }

  /** The XOR of a list does not depend on the order of its elements. */
  lemma {:induction false} XorAllPermutation(s: seq<Word>, t: seq<Word>)
    requires multiset(s) == multiset(t)
    ensures XorAll(s) == XorAll(t)
    decreases |s|
  {
    if s == [] {
      assert |t| == |multiset(t)| == 0;
    } else {
      var x := s[|s| - 1];
      var s' := s[..|s| - 1];
      assert s == s' + [x];
      assert x in multiset(t);
      var j :| 0 <= j < |t| && t[j] == x;
      var t1, t2 := t[..j], t[j + 1..];
      var t' := t1 + t2;
      assert t == t1 + [x] + t2;
      assert multiset(t') == multiset(t) - multiset{x};
      assert multiset(s') == multiset(s) - multiset{x};
      XorAllPermutation(s', t');
      XorAllAppend(t1 + [x], t2);
      XorAllAppend(t1, [x]);
      XorAllAppend(t1, t2);
      XorAllSingle(x);
      XorSwap(XorAll(t1), x, XorAll(t2));
    }
  }

  function PieceTerms(keys: Keys, board: Board, n: nat): (s: seq<Word>)
    requires n <= 64
    ensures |s| == n
  {
    if n == 0 then [] else PieceTerms(keys, board, n - 1) + [PieceKey(keys, board, n - 1)]
  }

  function CastlingTerms(keys: Keys, rights: CastlingRights, n: nat): (s: seq<Word>)
    requires n <= 16
    ensures |s| == n
  {
    if n == 0 then [] else CastlingTerms(keys, rights, n - 1) + [CastlingKey(keys, rights, n - 1)]
  }

  /** Every key the hash loop may XOR in, in the loop's order (absent features contribute 0). */
  function Contributions(keys: Keys, pos: Position): seq<Word>
  {
    PieceTerms(keys, pos.board, |pos.board|) + [SideKey(keys, pos), EpKey(keys, pos)]
      + CastlingTerms(keys, pos.castling, |pos.castling|)
  }

  lemma {:induction false} PieceFoldIsXorAll(keys: Keys, board: Board, n: nat)
    requires n <= 64
    ensures PieceFold(keys, board, n) == XorAll(PieceTerms(keys, board, n))
  {
    if n > 0 {
      PieceFoldIsXorAll(keys, board, n - 1);
      var s := PieceTerms(keys, board, n);
      assert s[..n - 1] == PieceTerms(keys, board, n - 1);
    }
  }

  lemma {:induction false} CastlingFoldIsXorAll(keys: Keys, rights: CastlingRights, n: nat)
    requires n <= 16
    ensures CastlingFold(keys, rights, n) == XorAll(CastlingTerms(keys, rights, n))
  {
    if n > 0 {
      CastlingFoldIsXorAll(keys, rights, n - 1);
      var s := CastlingTerms(keys, rights, n);
      assert s[..n - 1] == CastlingTerms(keys, rights, n - 1);
    }
  }

  /** The raw fingerprint is the XOR of the contributions in the loop's order. */
  lemma ContributionsXor(keys: Keys, pos: Position)
    ensures XorAll(Contributions(keys, pos)) == RawHash(keys, pos)
  {
    var pt := PieceTerms(keys, pos.board, |pos.board|);
    var side, ep := SideKey(keys, pos), EpKey(keys, pos);
    var ct := CastlingTerms(keys, pos.castling, |pos.castling|);
    PieceFoldIsXorAll(keys, pos.board, |pos.board|);
    CastlingFoldIsXorAll(keys, pos.castling, |pos.castling|);
    assert Contributions(keys, pos) == pt + [side] + [ep] + ct;
    XorAllAppend(pt + [side] + [ep], ct);
    XorAllAppend(pt + [side], [ep]);
    XorAllAppend(pt, [side]);
    XorAllSingle(side);
    XorAllSingle(ep);
  }

  /** The raw fingerprint is the XOR of the contributions, taken in ANY order. */
  lemma OrderIndependent(keys: Keys, pos: Position, visited: seq<Word>)
    requires multiset(visited) == multiset(Contributions(keys, pos))
    ensures XorAll(visited) == RawHash(keys, pos)
  {
    ContributionsXor(keys, pos);
    XorAllPermutation(visited, Contributions(keys, pos));
  }

  lemma {:induction false} EmptyBoardFold(keys: Keys, board: Board, n: nat)
    requires n <= 64
    requires forall sq: Square :: board[sq].None?
    ensures PieceFold(keys, board, n) == Zero()
  {
    if n > 0 {
      EmptyBoardFold(keys, board, n - 1);
      XorZero(Zero());
    }
  }

  lemma {:induction false} NoRightsFold(keys: Keys, rights: CastlingRights, n: nat)
    requires n <= 16
    requires forall i | 0 <= i < 16 :: !rights[i]
    ensures CastlingFold(keys, rights, n) == Zero()
  {
    if n > 0 {
      NoRightsFold(keys, rights, n - 1);
      XorZero(Zero());
    }
  }

  /** With an empty board and no castling rights or en-passant square, only the side key remains. */
  lemma BareBoardHash(keys: Keys, p: Position)
    requires forall sq: Square :: p.board[sq].None?
    requires forall i | 0 <= i < 16 :: !p.castling[i]
    requires p.epSquare.None?
    ensures RawHash(keys, p) == SideKey(keys, p)
  {
    EmptyBoardFold(keys, p.board, |p.board|);
    NoRightsFold(keys, p.castling, |p.castling|);
    XorZero(SideKey(keys, p));
  }
}
