/** Positions in the block table of a deque and the arithmetic of its iterators.
    A position is a pair (block number, element number within the block); its
    absolute offset is block * BlockSize + elem. */
module Iterators {

  /** Number of element slots in every block. */
  const BlockSize: nat := 32

  /** A (blockNumber, elemNumber) pair, as held by an iterator. */
  datatype Pos = Pos(block: int, elem: int)

  /** Result of the three-way comparison of two iterators. */
  datatype Ordering = Less | Equal | Greater

  /** A position whose element number names a slot of its block. */
  predicate Normal(p: Pos) {
    0 <= p.elem < BlockSize
  }

  /** The absolute (linear) offset of a position. */
  function Abs(p: Pos): int {
    p.block * BlockSize + p.elem
  }

  /** Two normal positions are the same position exactly when their absolute offsets agree. */
  lemma AbsInjective(p: Pos, q: Pos)
    requires Normal(p) && Normal(q)
    ensures p == q <==> Abs(p) == Abs(q)
  {
  }

  /** The iterator built from an absolute offset: block = a / 32, elem = a % 32. The divisor
      is unsigned, so a negative offset still yields an element number in [0, 32) and the
      block below it, which is Dafny's Euclidean division. */
  function FromAbs(a: int): (p: Pos)
    ensures Normal(p) && (a >= 0 ==> p.block >= 0)
    ensures Abs(p) == a
  {
    Pos(a / BlockSize, a % BlockSize)
  }

  /** Building an iterator from the offset of a normal position gives that position back. */
  lemma FromAbsOfAbs(p: Pos)
    requires Normal(p)
    ensures FromAbs(Abs(p)) == p
  {
    AbsInjective(FromAbs(Abs(p)), p);
  }

  /** Moving an offset by whole blocks moves only the block number. */
  lemma FromAbsShift(a: int, blocks: int)
    ensures FromAbs(a + blocks * BlockSize) == Pos(FromAbs(a).block + blocks, FromAbs(a).elem)
  {
    AbsInjective(FromAbs(a + blocks * BlockSize), Pos(FromAbs(a).block + blocks, FromAbs(a).elem));
  }

  /** Prefix ++: step to the next slot, carrying into the next block after the last slot. */
  function Next(p: Pos): (r: Pos)
    requires Normal(p)
    ensures Normal(r) && Abs(r) == Abs(p) + 1
  {
    var e := (p.elem + 1) % BlockSize;
    if e == 0 then Pos(p.block + 1, e) else Pos(p.block, e)
  }

  /** Prefix --: step to the previous slot, borrowing the last slot of the previous block at slot 0. */
  function Prev(p: Pos): (r: Pos)
    requires Normal(p)
    ensures Normal(r) && Abs(r) == Abs(p) - 1
  {
    if p.elem == 0 then Pos(p.block - 1, BlockSize - 1) else Pos(p.block, p.elem - 1)
  }

  /** ++ then -- (and -- then ++) come back to the same (block, elem). */
  lemma NextPrev(p: Pos)
    requires Normal(p)
    ensures Prev(Next(p)) == p && Next(Prev(p)) == p
  {
    AbsInjective(Prev(Next(p)), p);
    AbsInjective(Next(Prev(p)), p);
  }

  /** it + d (and +=): re-derive the position from the absolute offset moved by d. */
  function Add(p: Pos, d: int): (r: Pos)
    ensures Normal(r) && Abs(r) == Abs(p) + d
  {
    FromAbs(p.block * BlockSize + p.elem + d)
  }

  /** it - d (and -=): the same as it + (-d). */
  function Sub(p: Pos, d: int): (r: Pos)
    ensures Normal(r) && Abs(r) == Abs(p) - d
  {
    Add(p, -d)
  }

  /** Difference of two iterators: the signed number of elements from q to p. */
  function Diff(p: Pos, q: Pos): (r: int)
    ensures r == Abs(p) - Abs(q)
  {
    -((q.block - p.block) * BlockSize + q.elem - p.elem)
  }

  /** Three-way comparison, decided by the sign of the difference. */
  function Compare(p: Pos, q: Pos): (r: Ordering)
    ensures r == Less <==> Abs(p) < Abs(q)
    ensures r == Equal <==> Abs(p) == Abs(q)
    ensures r == Greater <==> Abs(p) > Abs(q)
  {
    var diff := Diff(p, q);
    if diff == 0 then Equal else if diff > 0 then Greater else Less
  }

  /** (it + d) - it == d. */
  lemma AddThenDiff(p: Pos, d: int)
    ensures Diff(Add(p, d), p) == d
  {
  }

  /** (it + d) - d == it for a normal position. */
  lemma AddThenSub(p: Pos, d: int)
    requires Normal(p)
    ensures Sub(Add(p, d), d) == p
  {
    AbsInjective(Sub(Add(p, d), d), p);
  }

  /** it + d compares greater than it exactly when d > 0, equal when d == 0, less when d < 0. */
  lemma CompareAfterAdd(p: Pos, d: int)
    ensures Compare(Add(p, d), p) == Greater <==> d > 0
    ensures Compare(Add(p, d), p) == Equal <==> d == 0
    ensures Compare(Add(p, d), p) == Less <==> d < 0
  {
  }

  /** The position reached from p by k applications of ++. */
  function Steps(p: Pos, k: nat): (r: Pos)
    requires Normal(p)
    ensures Normal(r) && Abs(r) == Abs(p) + k
    decreases k
  {
    if k == 0 then p else Steps(Next(p), k - 1)
  }

  /** k applications of ++ land where + k lands: iterator walking and offset arithmetic agree. */
  lemma StepsIsAdd(p: Pos, k: nat)
    requires Normal(p)
    ensures Steps(p, k) == Add(p, k)
  {
    AbsInjective(Steps(p, k), Add(p, k));
  }

  /** A mutable iterator: its ++, --, += and -= update the position in place. */
  class Iterator {
    var blockNumber: int
    var elemNumber: int

    /** The position the iterator holds. */
    function Position(): Pos
      reads this
    {
      Pos(blockNumber, elemNumber)
    }

    /** The iterator built from an explicit (block, elem) pair. */
    constructor (block: int, elem: int)
      ensures Position() == Pos(block, elem)
    {
      blockNumber, elemNumber := block, elem;
    }

    /** The iterator built from an absolute offset. */
    constructor FromOffset(absolute: int)
      ensures Position() == FromAbs(absolute)
    {
      blockNumber, elemNumber := absolute / BlockSize, absolute % BlockSize;
    }

    /** Prefix ++. */
    method Increment()
      requires Normal(Position())
      modifies this
      ensures Position() == Next(old(Position()))
    {
      elemNumber := (elemNumber + 1) % BlockSize;
      if elemNumber == 0 {
        blockNumber := blockNumber + 1;
      }
    }

    /** Postfix ++: advances and returns the position held before. */
    method PostIncrement() returns (before: Pos)
      requires Normal(Position())
      modifies this
      ensures before == old(Position()) && Position() == Next(before)
    {
      before := Position();
      Increment();
    }

    /** Prefix --. */
    method Decrement()
      requires Normal(Position())
      modifies this
      ensures Position() == Prev(old(Position()))
    {
      if elemNumber == 0 {
        blockNumber := blockNumber - 1;
        elemNumber := BlockSize;
      }
      elemNumber := elemNumber - 1;
    }

    /** Postfix --: steps back and returns the position held before. */
    method PostDecrement() returns (before: Pos)
      requires Normal(Position())
      modifies this
      ensures before == old(Position()) && Position() == Prev(before)
    {
      before := Position();
      Decrement();
    }

    /** += d, through the absolute offset. */
    method AddAssign(d: int)
      modifies this
      ensures Position() == Add(old(Position()), d)
    {
      var absoluteNumber := blockNumber * BlockSize + elemNumber + d;
      blockNumber := absoluteNumber / BlockSize;
      elemNumber := absoluteNumber % BlockSize;
    }

    /** -= d, as += (-d). */
    method SubAssign(d: int)
      modifies this
      ensures Position() == Sub(old(Position()), d)
    {
      AddAssign(-d);
    }
  }
}
