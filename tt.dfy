/**
 * The transposition table (src/engine/engine_tt.py): a fixed-size list of
 * entries, direct-mapped by fingerprint modulo the table size. `save`
 * overwrites a slot unconditionally, `get` returns whatever the probed slot
 * holds without comparing its stored key, and `clear` rebuilds the list with
 * empty entries. The table owns its own hasher instance.
 */
module TT {
  import opened Wrappers
  import opened Chess
  import Zobrist

  /**
   * `TTEntry`: every field of a freshly constructed entry is None (and
   * `is_pv` False); `is_none` looks only at the key.
   */
  datatype TTEntry = TTEntry(
    key: Option<int>,
    move: Option<Move>,
    value: Option<int>,
    eval: Option<int>,
    depth: Option<int>,
    isPv: bool)
  {
    predicate IsNone()
    {
      key.None?
    }
  }

  /** `TTEntry()` with every argument defaulted. */
  function EmptyEntry(): (e: TTEntry)
    ensures e.IsNone()
  {
    TTEntry(None, None, None, None, None, false)
  }

  /** Number of occupied entries, the list comprehension of `hashfull_count`. */
  function CountOccupied(s: seq<TTEntry>): nat
  {
    if s == [] then 0 else CountOccupied(s[..|s| - 1]) + (if s[|s| - 1].IsNone() then 0 else 1)
  }

  /** The count is between 0 and the length; it is 0 exactly when every slot is empty. */
  lemma {:induction false} CountOccupiedBounds(s: seq<TTEntry>)
    ensures CountOccupied(s) <= |s|
    ensures CountOccupied(s) == 0 <==> forall i | 0 <= i < |s| :: s[i].IsNone()
    ensures CountOccupied(s) == |s| <==> forall i | 0 <= i < |s| :: !s[i].IsNone()
  {
    if s != [] {
      var s' := s[..|s| - 1];
      CountOccupiedBounds(s');
      assert forall i | 0 <= i < |s'| :: s'[i] == s[i];
    }
  }

  /** Overwriting slot k changes the count by what leaves and what enters that slot only. */
  lemma {:induction false} CountOccupiedUpdate(s: seq<TTEntry>, k: int, e: TTEntry)
    requires 0 <= k < |s|
    ensures CountOccupied(s[k := e])
         == CountOccupied(s) - (if s[k].IsNone() then 0 else 1) + (if e.IsNone() then 0 else 1)
  {
    var t := s[k := e];
    var n := |s|;
    if k < n - 1 {
      assert t[..n - 1] == s[..n - 1][k := e];
      CountOccupiedUpdate(s[..n - 1], k, e);
    } else {
      assert t[..n - 1] == s[..n - 1];
    }
  }

  /** `hash` of the table: its own hasher's fingerprint, reduced again modulo the size. */
  function Slot(keys: Zobrist.Keys, pos: Position, hashOption: int, size: int): (i: int)
    requires hashOption > 0 && size > 0
    ensures 0 <= i < size
  {
    Zobrist.Fingerprint(keys, pos, hashOption) % size
  }

  class TranspositionTable {
    const size: nat
    const zobrist: Zobrist.Keys
    var table: array<TTEntry>

    ghost predicate Valid()
      reads this
    {
      table.Length == size
    }

    /** `__init__`: `size` empty slots; the hasher's keys are given rather than drawn. */
    constructor (size: nat, zobrist: Zobrist.Keys)
      ensures Valid() && fresh(table)
      ensures this.size == size && this.zobrist == zobrist
      ensures forall i | 0 <= i < table.Length :: table[i] == EmptyEntry()
      ensures HashfullCount() == 0
    {
      this.size := size;
      this.zobrist := zobrist;
      table := new TTEntry[size](_ => EmptyEntry());
      new;
      CountOccupiedBounds(table[..]);
    }

    /** `hashfull_count`: the number of slots whose key is not None. */
    function HashfullCount(): (n: nat)
      requires Valid()
      reads this, table
      ensures n <= size
      ensures n == 0 <==> forall i | 0 <= i < size :: table[i].IsNone()
    {
      CountOccupiedBounds(table[..]);
      CountOccupied(table[..])
    }

    /** `hash`: the slot a position maps to, in [0, size). */
    method Hash(pos: Position, hashOption: int) returns (idx: int)
      requires size > 0 && hashOption > 0
      ensures idx == Slot(zobrist, pos, hashOption, size)
      ensures 0 <= idx < size
    {
      var h := Zobrist.Hash(zobrist, pos, hashOption);
      idx := h % size;
    }

    /**
     * `get`: the entry stored at the position's slot, whatever key it carries;
     * two positions that share a slot get the same entry.
     */
    method Get(pos: Position, hashOption: int) returns (e: TTEntry)
      requires Valid() && size > 0 && hashOption > 0
      ensures e == table[Slot(zobrist, pos, hashOption, size)]
    {
      var idx := Hash(pos, hashOption);
      e := table[idx];
    }

    /** `save`: overwrite slot k, whatever it held; no other slot changes. */
    method Save(k: int, e: TTEntry)
      requires Valid() && 0 <= k < size
      modifies table
      ensures Valid()
      ensures table[..] == old(table[..])[k := e]
      ensures table[k] == e
      ensures HashfullCount()
           == old(HashfullCount()) - (if old(table[k]).IsNone() then 0 else 1) + (if e.IsNone() then 0 else 1)
    {
      CountOccupiedUpdate(table[..], k, e);
      table[k] := e;
    }

    /** `clear`: a new list of `size` empty slots. */
    method Clear()
      requires Valid()
      modifies this
      ensures Valid() && fresh(table)
      ensures forall i | 0 <= i < table.Length :: table[i] == EmptyEntry()
      ensures HashfullCount() == 0
    {
      table := new TTEntry[size](_ => EmptyEntry());
      CountOccupiedBounds(table[..]);
    }
  }
}
