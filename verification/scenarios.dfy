/** Client programs that drive a deque through the operations and observe it through at(),
    size() and the layout fields: bounds checking, the growth policy on the first blocks,
    growth on a full table, insert and erase, and copies that keep their elements when the
    original changes. */
module Scenarios {
  import opened Iterators
  import opened Deques

  /** Deque(5, 7): index 4 is the last element, index 5 is out of range. */
  method FilledAccess() returns (inside: Access<int>, outside: Access<int>)
    ensures inside == Found(7)
    ensures outside == OutOfRange("Wrong index")
  {
    var d := new Deque.Filled(5, 7);
    inside := d.At(4);
    outside := d.At(5);
  }

  /** reserve on a deque with no table: reserve(1) replaces only the null table and returns
      nothing; reserve(2) bootstraps to one block and returns that one-block table while
      growing to 3 blocks with first_block moved up by 1. */
  method ReserveFromNoTable() returns (one: bool, two: bool, capacity: nat, firstBlock: nat)
    ensures !one && two && capacity == 3 && firstBlock == 1
  {
    var d := new Deque<int>();
    var r1 := d.Reserve(1);
    one := r1.Some?;
    var e := new Deque<int>();
    var r2 := e.Reserve(2);
    two := r2.Some?;
    capacity := e.capacity;
    firstBlock := e.firstBlock;
  }

  /** Deque(64) asks reserve for two blocks; the empty table is bootstrapped to one block
      and then tripled, so three blocks are allocated and the elements start at block 0. */
  method SizedCapacity() returns (capacity: nat, firstBlock: nat, size: nat)
    ensures capacity == 3 && firstBlock == 0 && size == 64
  {
    var d := new Deque.Sized(64, 0);
    capacity := d.capacity;
    firstBlock := d.firstBlock;
    size := d.Size();
  }

  /** push_front on an empty deque: three blocks, the element in the last slot of block 1. */
  method PushFrontOnEmpty() returns (capacity: nat, firstBlock: nat, firstElem: nat, front: Access<int>)
    ensures capacity == 3 && firstBlock == 1 && firstElem == 31
    ensures front == Found(4)
  {
    var d := new Deque();
    d.PushFront(4);
    capacity := d.capacity;
    firstBlock := d.firstBlock;
    firstElem := d.firstElem;
    front := d.At(0);
  }

  /** Pushes at both ends, then pops from both ends. */
  method PushesAndPops() returns (first: Access<int>, last: Access<int>, size: nat, remaining: Access<int>)
    ensures first == Found(0) && last == Found(2) && size == 3
    ensures remaining == Found(1)
  {
    var d := new Deque();
    d.PushBack(1);
    d.PushBack(2);
    d.PushFront(0);
    first := d.At(0);
    last := d.At(2);
    size := d.Size();
    d.PopFront();
    d.PopBack();
    remaining := d.At(0);
  }

  /** push_back on a full one-block deque triples the table; the old block becomes block 1
      and every element keeps its index. */
  method GrowOnFull() returns (capacity: nat, firstBlock: nat, old0: Access<int>, added: Access<int>)
    ensures capacity == 3 && firstBlock == 1
    ensures old0 == Found(1) && added == Found(2)
  {
    var d := new Deque.Filled(32, 1);
    d.PushBack(2);
    capacity := d.capacity;
    firstBlock := d.firstBlock;
    old0 := d.At(0);
    added := d.At(32);
  }

  /** Deque(3, 5): insert 9 at index 1 gives [5, 9, 5, 5]; erase at index 1 gives back
      [5, 5, 5], which erasing at any other index would not. */
  method InsertThenErase() returns (inserted: Access<int>, after: seq<Access<int>>, size: nat)
    ensures inserted == Found(9) && size == 3
    ensures after == [Found(5), Found(5), Found(5), OutOfRange("Wrong index")]
  {
    var d := new Deque.Filled(3, 5);
    d.Insert(Pos(0, 1), 9);
    inserted := d.At(1);
    d.Erase(Pos(0, 1));
    after := [d.At(0), d.At(1), d.At(2), d.At(3)];
    size := d.Size();
  }

  /** push_back(1), push_back(2), push_front(0) give [0, 1, 2]; pop_front() gives [1, 2];
      insert(begin() + 1, 9) gives [1, 9, 2]; erase(begin()) gives [9, 2]. */
  method MixedOperations() returns (front: Access<int>, back: Access<int>, beyond: Access<int>, size: nat)
    ensures front == Found(9) && back == Found(2) && size == 2
    ensures beyond == OutOfRange("Wrong index")
  {
    var d := new Deque();
    d.PushBack(1);
    d.PushBack(2);
    d.PushFront(0);
    d.PopFront();
    d.Insert(Add(d.Begin(), 1), 9);
    d.Erase(d.Begin());
    front := d.At(0);
    back := d.At(1);
    beyond := d.At(2);
    size := d.Size();
  }

  /** A copy, and an assignment, keep their elements when the original changes afterwards:
      erase(begin()) overwrites the original's first slot with its second element and
      push_front(9) stores before it, yet both copies still read [1, 2]. Blocks are values
      here, so this holds for any copy of the table; it does not distinguish a deep copy of
      the blocks from one that shares them. */
  method CopiesAreIndependent() returns (original: seq<Access<int>>, copied: seq<Access<int>>, viaAssign: seq<Access<int>>)
    ensures original == [Found(9), Found(2), OutOfRange("Wrong index")]
    ensures copied == [Found(1), Found(2), OutOfRange("Wrong index")]
    ensures viaAssign == [Found(1), Found(2), OutOfRange("Wrong index")]
  {
    var d := new Deque();
    d.PushBack(1);
    d.PushBack(2);
    var copy := new Deque.Copy(d);
    var target := new Deque();
    target.Assign(d);
    d.Erase(d.Begin());
    d.PushFront(9);
    original := [d.At(0), d.At(1), d.At(2)];
    copied := [copy.At(0), copy.At(1), copy.At(2)];
    viaAssign := [target.At(0), target.At(1), target.At(2)];
  }

  /** insert at offset p followed by erase at offset p gives back the original elements,
      also when insert had to grow the table and the window moved: the position of offset p
      is recomputed from the new begin(). */
  method InsertThenEraseRestores<T(0)>(d: Deque<T>, place: Pos, v: T)
    requires d.Valid() && Normal(place) && d.Start() <= Abs(place) <= d.Start() + |d.Elements()|
    modifies d
    ensures d.Valid() && d.Elements() == old(d.Elements())
  {
    var p := Abs(place) - d.Start();
    d.Insert(place, v);
    var again := Add(d.Begin(), p);
    d.Erase(again);
    EraseAfterInsert(old(d.Elements()), p, v);
  }

  /** push_back then pop_back gives back the original elements. */
  method PushBackThenPopBack<T(0)>(d: Deque<T>, v: T)
    requires d.Valid()
    modifies d
    ensures d.Valid() && d.Elements() == old(d.Elements())
  {
    d.PushBack(v);
    d.PopBack();
  }

  /** push_front then pop_front gives back the original elements. */
  method PushFrontThenPopFront<T(0)>(d: Deque<T>, v: T)
    requires d.Valid()
    modifies d
    ensures d.Valid() && d.Elements() == old(d.Elements())
  {
    d.PushFront(v);
    d.PopFront();
  }
}
