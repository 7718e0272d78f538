/**
 * The board abstraction the search core consumes. Only what the hasher and
 * the search read of a python-chess `Board` is kept: the piece on each of the
 * 64 squares, the side to move, the en-passant target square and the 16
 * castling-rights queries. Moves are opaque values compared for equality.
 */
module Chess {
  import opened Wrappers

  /** A square index, 0 (a1) to 63 (h8). */
  type Square = s: int | 0 <= s < 64

  /** python-chess piece types: PAWN = 1, KNIGHT, BISHOP, ROOK, QUEEN, KING = 6. */
  type PieceType = t: int | 1 <= t <= 6 witness 1

  datatype Color = White | Black

  datatype Piece = Piece(pieceType: PieceType, color: Color)

  /** The contents of the 64 squares. */
  type Board = b: seq<Option<Piece>> | |b| == 64 witness seq(64, _ => None)

  /** The answers of `has_castling_rights(i)` for i in 0..15. */
  type CastlingRights = r: seq<bool> | |r| == 16 witness seq(16, _ => false)

  datatype Position = Position(
    board: Board,
    turn: Color,
    epSquare: Option<Square>,
    castling: CastlingRights)

  datatype Move = Move(from: Square, to: Square, promotion: Option<PieceType>)

  /**
   * The capabilities the search uses: move generation (in generation order),
   * making a move (`push`; `pop` restores the position, so a child is the
   * value `apply(p, m)`), check detection and the external evaluator with
   * its node budget fixed.
   */
  datatype Game = Game(
    legalMoves: Position -> seq<Move>,
    apply: (Position, Move) -> Position,
    givesCheck: (Position, Move) -> bool,
    evaluate: Position -> int)
}
