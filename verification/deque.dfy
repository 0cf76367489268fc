/** The deque container: a table of 32-slot blocks, the live window located by
    (firstBlock, firstElem) and size, the centred growth policy of reserve, and the
    container operations built on them. */
module Deques {
  import opened Iterators

  /** What at() yields: the element, or the out_of_range error it throws. */
  datatype Access<T> = Found(value: T) | OutOfRange(message: string)

  /** What reserve returns: nothing when no reallocation happened, else the table it replaced. */
  datatype Option<T> = None | Some(value: T)

  function Max(a: int, b: int): int {
    if a >= b then a else b
  }

  /** Capacity, in blocks, after reserve(n) on a table of c blocks: unchanged when c >= n;
      otherwise max(3 * c, n), where an empty table asked for more than one block is first
      bootstrapped to one block. */
  function GrownCapacity(c: nat, n: nat): (r: nat)
    ensures r >= c && r >= n
    ensures c >= n ==> r == c
    ensures c < n ==> r >= 3 * c && (r == n || r == 3 * c || (c == 0 && n > 1 && r == 3))
    ensures c != 2 ==> r != 2
  {
    if c >= n then c
    else if c == 0 && n > 1 then Max(3, n)
    else Max(3 * c, n)
  }

  /** How many blocks reserve(n) moves the existing blocks (and first_block) up the table. */
  function GrowthShift(c: nat, n: nat): (r: nat)
    ensures c >= n ==> r == 0
    ensures c < n ==> 2 * r + c <= GrownCapacity(c, n) && (c > 0 ==> r == c)
    ensures c == 0 && n > 1 ==> r == 1
  {
    if c >= n then 0
    else if c == 0 && n > 1 then 1
    else c
  }

  /** A table that has been through reserve never has exactly two blocks, so copying it
      through reserve(capacity) reproduces its capacity. */
  lemma CopyCapacity(c: nat)
    requires c != 2
    ensures GrownCapacity(0, c) == c
  {
  }

  /** The element sequence s with v inserted at offset p. */
  function InsertAt<T>(s: seq<T>, p: nat, v: T): (r: seq<T>)
    requires p <= |s|
    ensures |r| == |s| + 1 && r[p] == v
    ensures forall k :: 0 <= k < p ==> r[k] == s[k]
    ensures forall k :: p < k < |r| ==> r[k] == s[k - 1]
  {
    s[..p] + [v] + s[p..]
  }

  /** The element sequence s with the element at offset p removed. */
  function EraseAt<T>(s: seq<T>, p: nat): (r: seq<T>)
    requires p < |s|
    ensures |r| == |s| - 1
    ensures forall k :: 0 <= k < p ==> r[k] == s[k]
    ensures forall k :: p <= k < |r| ==> r[k] == s[k + 1]
  {
    s[..p] + s[p + 1..]
  }

  /** Erasing at the offset just inserted at restores the original sequence. */
  lemma EraseAfterInsert<T>(s: seq<T>, p: nat, v: T)
    requires p <= |s|
    ensures EraseAt(InsertAt(s, p, v), p) == s
  {
  }

  /** Every block of the table has BlockSize slots. */
  ghost predicate Uniform<T>(table: seq<seq<T>>) {
    forall i :: 0 <= i < |table| ==> |table[i]| == BlockSize
  }

  /** The slot at absolute offset a of a table: slot a % 32 of block a / 32. */
  function Cell<T>(table: seq<seq<T>>, a: nat): T
    requires Uniform(table) && a < |table| * BlockSize
  {
    var p := FromAbs(a);
    table[p.block][p.elem]
  }

  /** The element at position p (*it): slot p.elem of block p.block. */
  function Slot<T>(table: seq<seq<T>>, p: Pos): (r: T)
    requires Uniform(table) && Normal(p) && 0 <= p.block < |table|
    ensures r == Cell(table, Abs(p))
  {
    FromAbsOfAbs(p);
    table[p.block][p.elem]
  }

  /** The n elements of a table from offset start on. */
  ghost function Window<T>(table: seq<seq<T>>, start: nat, n: nat): (r: seq<T>)
    requires Uniform(table) && start + n <= |table| * BlockSize
  {
    seq(n, k requires 0 <= k < n => Cell(table, start + k))
  }

  /** The table after storing v at position p (*it = v): that slot holds v and every other
      slot keeps its element. */
  function Stored<T>(table: seq<seq<T>>, p: Pos, v: T): (r: seq<seq<T>>)
    requires Uniform(table) && Normal(p) && 0 <= p.block < |table|
    ensures |r| == |table| && Uniform(r)
    ensures Cell(r, Abs(p)) == v
    ensures forall a: nat :: a < |table| * BlockSize && a != Abs(p) ==> Cell(r, a) == Cell(table, a)
  {
    FromAbsOfAbs(p);
    table[p.block := table[p.block][p.elem := v]]
  }

  /** A normal position whose offset lies inside the table names one of its blocks. */
  lemma InTable(p: Pos, blocks: nat)
    requires Normal(p) && 0 <= Abs(p) < blocks * BlockSize
    ensures 0 <= p.block < blocks
  {
  }

  /** A window is its first m elements followed by the n elements after them. */
  lemma WindowSplit<T>(table: seq<seq<T>>, start: nat, m: nat, n: nat)
    requires Uniform(table) && start + m + n <= |table| * BlockSize
    ensures Window(table, start, m + n) == Window(table, start, m) + Window(table, start + m, n)
  {
  }

  /** A store outside a window leaves the window unchanged. */
  lemma WindowStoredOutside<T>(table: seq<seq<T>>, start: nat, n: nat, p: Pos, v: T)
    requires Uniform(table) && start + n <= |table| * BlockSize
    requires Normal(p) && 0 <= p.block < |table| && (Abs(p) < start || Abs(p) >= start + n)
    ensures Window(Stored(table, p, v), start, n) == Window(table, start, n)
  {
  }

  /** Storing v at the slot just past a window extends the window by v (push_back, and one
      step of a construction loop). */
  lemma WindowAppend<T>(table: seq<seq<T>>, start: nat, n: nat, p: Pos, v: T)
    requires Uniform(table) && Normal(p) && Abs(p) == start + n && start + n < |table| * BlockSize
    ensures 0 <= p.block < |table|
    ensures Window(Stored(table, p, v), start, n + 1) == Window(table, start, n) + [v]
  {
    InTable(p, |table|);
    WindowSplit(Stored(table, p, v), start, n, 1);
    WindowStoredOutside(table, start, n, p, v);
  }

  /** Storing v at the slot just before a window extends the window at the front by v
      (push_front, and one step of insert's shifting loop). */
  lemma WindowPrepend<T>(table: seq<seq<T>>, start: nat, n: nat, p: Pos, v: T)
    requires Uniform(table) && Normal(p) && Abs(p) >= 0 && Abs(p) + 1 == start
    requires start + n <= |table| * BlockSize
    ensures 0 <= p.block < |table|
    ensures Window(Stored(table, p, v), start - 1, n + 1) == [v] + Window(table, start, n)
  {
    InTable(p, |table|);
    WindowSplit(Stored(table, p, v), start - 1, 1, n);
    WindowStoredOutside(table, start, n, p, v);
  }

  /** After the old table is moved up by C blocks, the slot at offset a is found at
      offset a + C * 32. */
  lemma CellShifted<T>(oldTable: seq<seq<T>>, table: seq<seq<T>>, a: nat)
    requires Uniform(oldTable) && Uniform(table) && |table| >= 2 * |oldTable|
    requires forall i :: 0 <= i < |oldTable| ==> table[i + |oldTable|] == oldTable[i]
    requires a < |oldTable| * BlockSize
    ensures Cell(table, a + |oldTable| * BlockSize) == Cell(oldTable, a)
  {
    FromAbsShift(a, |oldTable|);
  }

  /** After the old table is moved up by C blocks, the window that started at offset start
      starts at start + C * 32 and holds the same elements. */
  lemma WindowShifted<T>(oldTable: seq<seq<T>>, table: seq<seq<T>>, start: nat, n: nat)
    requires Uniform(oldTable) && Uniform(table) && |table| >= 2 * |oldTable|
    requires forall i :: 0 <= i < |oldTable| ==> table[i + |oldTable|] == oldTable[i]
    requires start + n <= |oldTable| * BlockSize
    ensures Window(table, start + |oldTable| * BlockSize, n) == Window(oldTable, start, n)
  {
    var moved := Window(table, start + |oldTable| * BlockSize, n);
    forall k | 0 <= k < n
      ensures moved[k] == Window(oldTable, start, n)[k]
    {
      CellShifted(oldTable, table, start + k);
    }
  }

  /** A window's first m elements and the rest, as slices of the whole window. */
  lemma WindowSplitAt<T>(table: seq<seq<T>>, start: nat, n: nat, m: nat)
    requires Uniform(table) && m <= n && start + n <= |table| * BlockSize
    ensures Window(table, start, m) == Window(table, start, n)[..m]
    ensures Window(table, start + m, n - m) == Window(table, start, n)[m..]
  {
    WindowSplit(table, start, m, n - m);
  }

  /** A store inside a window replaces exactly the element at its offset. */
  lemma WindowStored<T>(table: seq<seq<T>>, start: nat, n: nat, p: Pos, v: T)
    requires Uniform(table) && start + n <= |table| * BlockSize
    requires Normal(p) && start <= Abs(p) < start + n
    ensures 0 <= p.block < |table|
    ensures Window(Stored(table, p, v), start, n) == Window(table, start, n)[Abs(p) - start := v]
  {
    InTable(p, |table|);
  }

  /** One step of a construction loop: with the first k elements in place, storing s[k]
      at offset k puts the first k + 1 in place. */
  lemma FilledPrefixStep<T>(w: seq<T>, s: seq<T>, k: nat)
    requires |w| == |s| && k < |s| && w[..k] == s[..k]
    ensures w[k := s[k]][..k + 1] == s[..k + 1]
  {
    assert w[k := s[k]][..k + 1] == w[..k] + [s[k]];
    assert s[..k + 1] == s[..k] + [s[k]];
  }

  /** One step of insert's loop over the n + 1 slots w of a window holding the n elements s:
      with s[..h] before slot h and s[h..] after it, *help = *(help.prev()) copies w[h - 1]
      into slot h, which leaves s[..h - 1] before slot h - 1 and s[h - 1..] after it. */
  lemma ShiftRightStep<T>(w: seq<T>, s: seq<T>, h: nat)
    requires |w| == |s| + 1 && 0 < h <= |s|
    requires w[..h] == s[..h] && w[h + 1..] == s[h..]
    ensures w[h - 1] == s[h - 1]
    ensures w[h := w[h - 1]][..h - 1] == s[..h - 1]
    ensures w[h := w[h - 1]][h..] == s[h - 1..]
  {
    assert w[h - 1] == w[..h][h - 1];
    assert w[..h - 1] == w[..h][..h - 1];
    assert w[h := w[h - 1]][h..] == [w[h - 1]] + w[h + 1..];
    assert s[h - 1..] == [s[h - 1]] + s[h..];
  }

  /** The last store of insert: with s[..p] before slot p and s[p..] after it, storing v
      at slot p gives InsertAt(s, p, v). */
  lemma InsertFinish<T>(w: seq<T>, s: seq<T>, p: nat, v: T)
    requires |w| == |s| + 1 && p <= |s|
    requires w[..p] == s[..p] && w[p + 1..] == s[p..]
    ensures w[p := v] == InsertAt(s, p, v)
  {
    assert w[p := v] == w[..p] + [v] + w[p + 1..];
  }

  /** The state of erase's loop before its first step: s is r[..p] followed by s[p..]. */
  lemma ShiftLeftStart<T>(s: seq<T>, p: nat)
    requires p < |s|
    ensures EraseAt(s, p)[..p] + s[p..] == s
  {
    assert EraseAt(s, p)[..p] == s[..p];
  }

  /** One step of erase's loop over the n + 1 slots of a window, r being the n elements
      after erasing: *help = *(help.next()) copies s[h + 1] into slot h, which extends the
      erased prefix by one. */
  lemma ShiftLeftStep<T>(r: seq<T>, s: seq<T>, h: nat)
    requires |s| == |r| + 1 && h < |r| && r[h] == s[h + 1]
    ensures (r[..h] + s[h..])[h + 1] == s[h + 1]
    ensures (r[..h] + s[h..])[h := s[h + 1]] == r[..h + 1] + s[h + 1..]
  {
    assert r[..h + 1] == r[..h] + [r[h]];
    assert s[h..] == [s[h]] + s[h + 1..];
  }

  /** The construction loop of Deque(n) and Deque(n, value): from begin() (position first)
      to end(), construct value in every slot. */
  method FillWindow<T>(table0: seq<seq<T>>, first: Pos, n: nat, value: T) returns (table: seq<seq<T>>)
    requires Uniform(table0) && Normal(first) && Abs(first) >= 0
    requires Abs(first) + n <= |table0| * BlockSize
    ensures |table| == |table0| && Uniform(table)
    ensures Window(table, Abs(first), n) == seq(n, _ => value)
  {
    var start := Abs(first);
    ghost var s := seq(n, _ => value);
    table := table0;
    var tmp := first;
    var end := FromAbs(start + n);
    while tmp != end
      invariant |table| == |table0| && Uniform(table)
      invariant Normal(tmp) && start <= Abs(tmp) <= start + n
      invariant Window(table, start, n)[..Abs(tmp) - start] == s[..Abs(tmp) - start]
      decreases start + n - Abs(tmp)
    {
      AbsInjective(tmp, end);
      FilledPrefixStep(Window(table, start, n), s, Abs(tmp) - start);
      WindowStored(table, start, n, tmp, value);
      table := Stored(table, tmp, value);
      tmp := Next(tmp);
    }
    AbsInjective(tmp, end);
  }

  /** The construction loop of the copy constructor: walking tmp over this deque and
      otherTmp over the source from the same begin() position, copy *otherTmp into *tmp. */
  method CopyWindow<T>(table0: seq<seq<T>>, source: seq<seq<T>>, first: Pos, n: nat) returns (table: seq<seq<T>>)
    requires Uniform(table0) && Uniform(source) && Normal(first) && Abs(first) >= 0
    requires Abs(first) + n <= |table0| * BlockSize && Abs(first) + n <= |source| * BlockSize
    ensures |table| == |table0| && Uniform(table)
    ensures Window(table, Abs(first), n) == Window(source, Abs(first), n)
  {
    var start := Abs(first);
    ghost var s := Window(source, start, n);
    table := table0;
    var tmp := first;
    var otherTmp := first;
    var end := FromAbs(start + n);
    while tmp != end
      invariant |table| == |table0| && Uniform(table)
      invariant Normal(tmp) && start <= Abs(tmp) <= start + n && otherTmp == tmp
      invariant Window(table, start, n)[..Abs(tmp) - start] == s[..Abs(tmp) - start]
      decreases start + n - Abs(tmp)
    {
      AbsInjective(tmp, end);
      InTable(otherTmp, |source|);
      var v := Slot(source, otherTmp);
      FilledPrefixStep(Window(table, start, n), s, Abs(tmp) - start);
      WindowStored(table, start, n, tmp, v);
      table := Stored(table, tmp, v);
      tmp := Next(tmp);
      otherTmp := Next(otherTmp);
    }
    AbsInjective(tmp, end);
  }

  /** One step of insert's loop on the table: *help = *(help.prev()) stores s[h - 1] at
      offset start + h, which moves the split point of the n + 1 slots from h to h - 1. */
  lemma ShiftRightStored<T>(table: seq<seq<T>>, start: nat, n: nat, s: seq<T>, help: Pos, h: nat)
    requires Uniform(table) && start + n + 1 <= |table| * BlockSize
    requires |s| == n && 0 < h <= n
    requires Normal(help) && Abs(help) == start + h
    requires Window(table, start, n + 1)[..h] == s[..h]
    requires Window(table, start, n + 1)[h + 1..] == s[h..]
    ensures 0 <= help.block < |table| && 0 <= Prev(help).block < |table|
    ensures Slot(table, Prev(help)) == s[h - 1]
    ensures Window(Stored(table, help, s[h - 1]), start, n + 1)[..h - 1] == s[..h - 1]
    ensures Window(Stored(table, help, s[h - 1]), start, n + 1)[h..] == s[h - 1..]
  {
    InTable(Prev(help), |table|);
    var w := Window(table, start, n + 1);
    ShiftRightStep(w, s, h);
    assert w[h - 1] == Cell(table, start + h - 1);
    WindowStored(table, start, n + 1, help, s[h - 1]);
  }

  /** One step of erase's loop on the table: *help = *(help.next()) stores s[h + 1] at
      offset start + h, and the n + 1 slots from start go from r[..h] + s[h..] to
      r[..h + 1] + s[h + 1..]. */
  lemma ShiftLeftStored<T>(table: seq<seq<T>>, start: nat, n: nat, r: seq<T>, s: seq<T>, help: Pos, h: nat)
    requires Uniform(table) && start + n + 1 <= |table| * BlockSize
    requires |s| == n + 1 && |r| == n && h < n && r[h] == s[h + 1]
    requires Normal(help) && Abs(help) == start + h
    requires Window(table, start, n + 1) == r[..h] + s[h..]
    ensures 0 <= help.block < |table| && 0 <= Next(help).block < |table|
    ensures Slot(table, Next(help)) == s[h + 1]
    ensures Window(Stored(table, help, s[h + 1]), start, n + 1) == r[..h + 1] + s[h + 1..]
  {
    InTable(Next(help), |table|);
    ShiftLeftStep(r, s, h);
    assert Window(table, start, n + 1)[h + 1] == Cell(table, start + h + 1);
    WindowStored(table, start, n + 1, help, s[h + 1]);
  }

  /** insert's shifting loop: from end() (offset start + n) down to place, *help =
      *(help.prev()). Of the n + 1 slots from start, those before place keep their
      elements, those after place receive the elements from place on, moved one slot right. */
  method ShiftRight<T>(table0: seq<seq<T>>, start: nat, n: nat, place: Pos) returns (table: seq<seq<T>>)
    requires Uniform(table0) && start + n + 1 <= |table0| * BlockSize
    requires Normal(place) && start <= Abs(place) <= start + n
    ensures |table| == |table0| && Uniform(table)
    ensures Window(table, start, n + 1)[..Abs(place) - start] == Window(table0, start, n)[..Abs(place) - start]
    ensures Window(table, start, n + 1)[Abs(place) - start + 1..] == Window(table0, start, n)[Abs(place) - start..]
  {
    ghost var s := Window(table0, start, n);
    ghost var p := Abs(place) - start;
    WindowSplitAt(table0, start, n + 1, n);
    table := table0;
    var help := FromAbs(start + n);
    ghost var h: nat := n;
    while help != place
      invariant |table| == |table0| && Uniform(table)
      invariant Normal(help) && Abs(help) == start + h && p <= h <= n
      invariant Window(table, start, n + 1)[..h] == s[..h]
      invariant Window(table, start, n + 1)[h + 1..] == s[h..]
      decreases h
    {
      AbsInjective(help, place);
      ShiftRightStored(table, start, n, s, help, h);
      var from := Prev(help);
      table := Stored(table, help, Slot(table, from));
      help := from;
      h := h - 1;
    }
    AbsInjective(help, place);
  }

  /** erase's shifting loop, run after the size has dropped to n: from place up to end()
      (offset start + n), *help = *(help.next()). The n + 1 elements lose the one at place. */
  method ShiftLeft<T>(table0: seq<seq<T>>, start: nat, n: nat, place: Pos) returns (table: seq<seq<T>>)
    requires Uniform(table0) && start + n + 1 <= |table0| * BlockSize
    requires Normal(place) && start <= Abs(place) <= start + n
    ensures |table| == |table0| && Uniform(table)
    ensures Window(table, start, n) == EraseAt(Window(table0, start, n + 1), Abs(place) - start)
  {
    ghost var s := Window(table0, start, n + 1);
    ghost var p := Abs(place) - start;
    ghost var r := EraseAt(s, p);
    ShiftLeftStart(s, p);
    table := table0;
    var help := place;
    var end := FromAbs(start + n);
    ghost var h: nat := p;
    while help != end
      invariant |table| == |table0| && Uniform(table)
      invariant Normal(help) && Abs(help) == start + h && p <= h <= n
      invariant Window(table, start, n + 1) == r[..h] + s[h..]
      decreases n - h
    {
      AbsInjective(help, end);
      ShiftLeftStored(table, start, n, r, s, help, h);
      var from := Next(help);
      table := Stored(table, help, Slot(table, from));
      help := from;
      h := h + 1;
    }
    AbsInjective(help, end);
    WindowSplitAt(table, start, n + 1, n);
  }

  /** The allocation loop of reserve: a table of newCapacity blocks whose entries [C, 2C) are
      the C old blocks and whose every other entry is a newly allocated block. */
  method NewTable<T(0)>(oldTable: seq<seq<T>>, newCapacity: nat) returns (table: seq<seq<T>>)
    requires Uniform(oldTable) && newCapacity >= 2 * |oldTable|
    ensures |table| == newCapacity && Uniform(table)
    ensures forall i :: 0 <= i < |oldTable| ==> table[i + |oldTable|] == oldTable[i]
  {
    var c := |oldTable|;
    table := [];
    for i := 0 to newCapacity
      invariant |table| == i && Uniform(table)
      invariant forall j :: c <= j < i && j < 2 * c ==> table[j] == oldTable[j - c]
    {
      if i < c || i >= 2 * c {
        var block := new T[BlockSize];
        table := table + [block[..]];
      } else {
        table := table + [oldTable[i - c]];
      }
    }
  }

  class Deque<T(0)> {
    var size: nat
    var capacity: nat
    /** The block table: capacity blocks of BlockSize slots. */
    var arr: seq<seq<T>>
    var firstBlock: nat
    var firstElem: nat

    /** The table is capacity blocks of BlockSize slots each. */
    ghost predicate TableValid()
      reads this
    {
      |arr| == capacity && Uniform(arr)
    }

    /** Absolute offset of the first element. */
    function Start(): nat
      reads this
    {
      firstBlock * BlockSize + firstElem
    }

    /** The object invariant: a well-formed table whose capacity reserve can produce,
        first_elem < 32, and the live window inside the table. */
    ghost predicate Valid()
      reads this
    {
      TableValid() &&
      capacity != 2 &&
      firstElem < BlockSize &&
      Start() + size <= capacity * BlockSize
    }

    /** The elements, front to back: the size slots from offset Start() on. */
    ghost function Elements(): seq<T>
      reads this
      requires Valid()
    {
      Window(arr, Start(), size)
    }

    /** size(). */
    function Size(): (r: nat)
      reads this
      requires Valid()
      ensures r == |Elements()|
    {
      size
    }

    /** begin(): the position of the first element. */
    function Begin(): (r: Pos)
      reads this
      requires firstElem < BlockSize
      ensures Normal(r) && Abs(r) == Start()
    {
      Pos(firstBlock, firstElem)
    }

    /** end(): the position one past the last element. */
    function End(): (r: Pos)
      reads this
      ensures Normal(r) && Abs(r) == Start() + size
      ensures firstElem < BlockSize ==> Diff(r, Begin()) == size
    {
      FromAbs(BlockSize * firstBlock + firstElem + size)
    }

    /** full(): the growth trigger of push_back and insert. */
    function Full(): (r: bool)
      reads this
      requires Valid()
      ensures r <==> End().block == capacity
      ensures r <==> Start() + |Elements()| == capacity * BlockSize
    {
      capacity * BlockSize == size + firstBlock * BlockSize + firstElem
    }

    /** operator[]: unchecked indexed access. */
    function Get(index: nat): (r: T)
      reads this
      requires Valid() && index < |Elements()|
      ensures r == Elements()[index]
    {
      var i := index + firstBlock * BlockSize + firstElem;
      assert Elements()[index] == Cell(arr, i);
      arr[i / BlockSize][i % BlockSize]
    }

    /** at(): checked access through begin() + index. */
    function At(index: nat): (r: Access<T>)
      reads this
      requires Valid()
      ensures r.OutOfRange? <==> index >= |Elements()|
      ensures r.OutOfRange? ==> r.message == "Wrong index"
      ensures r.Found? ==> r.value == Elements()[index]
    {
      if index >= size then OutOfRange("Wrong index")
      else Found(Slot(arr, Add(Begin(), index)))
    }

    /** Indexed access and iterator access agree: deque[i] == *(begin() + i). */
    lemma IndexAgreesWithIterator(i: nat)
      requires Valid() && i < |Elements()|
      ensures Add(Begin(), i).block < capacity
      ensures Get(i) == Slot(arr, Add(Begin(), i)) && At(i) == Found(Get(i))
    {
    }

    /** Deque(): empty, with no table. */
    constructor ()
      ensures Valid() && Elements() == []
      ensures capacity == 0 && firstBlock == 0 && firstElem == 0
    {
      size, capacity, arr, firstBlock, firstElem := 0, 0, [], 0, 0;
    }

    /** Deque(n): n default-constructed elements; defaultValue stands for T(). */
    constructor Sized(n: nat, defaultValue: T)
      ensures Valid() && Elements() == seq(n, _ => defaultValue)
      ensures firstBlock == 0 && firstElem == 0
      ensures capacity == GrownCapacity(0, (n + BlockSize - 1) / BlockSize)
    {
      size, capacity, arr, firstBlock, firstElem := n, 0, [], 0, 0;
      new;
      var _ := Reserve((n + BlockSize - 1) / BlockSize);
      firstBlock := 0;
      arr := FillWindow(arr, Begin(), size, defaultValue);
    }

    /** Deque(n, value): n copies of value. */
    constructor Filled(n: nat, value: T)
      ensures Valid() && Elements() == seq(n, _ => value)
      ensures firstBlock == 0 && firstElem == 0
      ensures capacity == GrownCapacity(0, (n + BlockSize - 1) / BlockSize)
    {
      size, capacity, arr, firstBlock, firstElem := n, 0, [], 0, 0;
      new;
      var _ := Reserve((n + BlockSize - 1) / BlockSize);
      firstBlock := 0;
      arr := FillWindow(arr, Begin(), size, value);
    }

    /** reserve(n): make the table hold at least n blocks. When it grows, the new table has
        GrownCapacity blocks, the old blocks sit right after the first old-capacity entries,
        and first_block moves up by the same amount, so every element keeps its place in the
        sequence. The replaced table is returned; a table of no blocks is the null table, so
        growing from it returns None, as no growth does. */
    method Reserve(n: nat) returns (previous: Option<seq<seq<T>>>)
      requires TableValid()
      modifies this
      ensures TableValid()
      ensures capacity == GrownCapacity(old(capacity), n)
      ensures firstBlock == old(firstBlock) + GrowthShift(old(capacity), n)
      ensures size == old(size) && firstElem == old(firstElem)
      ensures previous.None? <==> old(capacity) >= n || (old(capacity) == 0 && n == 1)
      ensures old(capacity) >= n ==> arr == old(arr)
      ensures previous.Some? && old(capacity) > 0 ==> previous.value == old(arr)
      ensures forall i :: 0 <= i < old(capacity) ==> arr[i + GrowthShift(old(capacity), n)] == old(arr)[i]
      ensures old(Valid()) ==> Valid() && Elements() == old(Elements())
      decreases n
    {
      if capacity == 0 && n > 1 {
        var _ := Reserve(1);
      }
      if capacity >= n {
        return None;
      }
      var c := capacity;
      var newCapacity := Max(3 * c, n);
      var table := NewTable(arr, newCapacity);
      if Valid() {
        WindowShifted(arr, table, Start(), size);
      }
      previous := if c > 0 then Some(arr) else None;
      firstBlock := firstBlock + c;
      capacity := newCapacity;
      arr := table;
    }

    /** Deque(const Deque&): the same elements in the same window of a table of the same
        capacity. */
    constructor Copy(other: Deque<T>)
      requires other.Valid()
      ensures Valid() && Elements() == other.Elements()
      ensures firstBlock == other.firstBlock && firstElem == other.firstElem
      ensures capacity == other.capacity
    {
      size, capacity, arr, firstBlock, firstElem := other.size, 0, [], other.firstBlock, other.firstElem;
      new;
      var _ := Reserve(other.capacity);
      CopyCapacity(other.capacity);
      firstBlock := other.firstBlock;
      firstElem := other.firstElem;
      arr := CopyWindow(arr, other.arr, Begin(), size);
    }

    /** swap(): exchange all five fields with other. */
    method Swap(other: Deque<T>)
      requires Valid() && other.Valid()
      modifies this, other
      ensures Valid() && other.Valid()
      ensures Elements() == old(other.Elements()) && other.Elements() == old(Elements())
      ensures arr == old(other.arr) && other.arr == old(arr)
      ensures size == old(other.size) && other.size == old(size)
      ensures capacity == old(other.capacity) && other.capacity == old(capacity)
      ensures firstBlock == old(other.firstBlock) && other.firstBlock == old(firstBlock)
      ensures firstElem == old(other.firstElem) && other.firstElem == old(firstElem)
    {
      var helpArr := arr;
      arr := other.arr;
      other.arr := helpArr;
      size, other.size := other.size, size;
      capacity, other.capacity := other.capacity, capacity;
      firstBlock, other.firstBlock := other.firstBlock, firstBlock;
      firstElem, other.firstElem := other.firstElem, firstElem;
    }

    /** operator=(Deque other): copy-and-swap; this ends up with a copy of other. */
    method Assign(other: Deque<T>)
      requires Valid() && other.Valid()
      modifies this
      ensures Valid() && Elements() == old(other.Elements())
      ensures firstBlock == old(other.firstBlock) && firstElem == old(other.firstElem)
      ensures capacity == old(other.capacity)
    {
      var copy := new Deque.Copy(other);
      Swap(copy);
    }

    /** push_back(): append value, first tripling the table when it is full. */
    method PushBack(value: T)
      requires Valid()
      modifies this
      ensures Valid() && Elements() == old(Elements()) + [value]
      ensures capacity == (if old(Full()) then Max(3 * old(capacity), 1) else old(capacity))
      ensures Start() == old(Start()) + (if old(Full()) then old(capacity) * BlockSize else 0)
      ensures firstElem == old(firstElem)
    {
      if Full() {
        var _ := Reserve(if capacity > 0 then capacity * 3 else 1);
      }
      var e := End();
      WindowAppend(arr, Start(), size, e, value);
      arr := Stored(arr, e, value);
      size := size + 1;
    }

    /** push_front(): prepend value. When the window starts at slot 0 of block 0 the table is
        grown first: an empty table by reserve(2) followed by one more first_block++, any
        other by reserve(3 * capacity). */
    method PushFront(value: T)
      requires Valid()
      modifies this
      ensures Valid() && Elements() == [value] + old(Elements())
      ensures var grew := old(firstBlock) == 0 && old(firstElem) == 0;
        capacity == (if !grew then old(capacity) else if old(capacity) == 0 then 3 else 3 * old(capacity))
      ensures var grew := old(firstBlock) == 0 && old(firstElem) == 0;
        Start() + 1 == old(Start()) +
          (if !grew then 0 else if old(capacity) == 0 then 2 * BlockSize else old(capacity) * BlockSize)
      ensures firstElem == (if old(firstElem) == 0 then BlockSize - 1 else old(firstElem) - 1)
    {
      if firstBlock == 0 && firstElem == 0 {
        if capacity == 0 {
          var _ := Reserve(2);
          firstBlock := firstBlock + 1;
        } else {
          var _ := Reserve(capacity * 3);
        }
      }
      var it := Prev(Begin());
      WindowPrepend(arr, Start(), size, it, value);
      arr := Stored(arr, it, value);
      if firstElem == 0 {
        firstBlock := firstBlock - 1;
        firstElem := BlockSize;
      }
      firstElem := firstElem - 1;
      size := size + 1;
      assert Start() == Abs(it);
    }

    /** pop_front(): drop the first element, carrying first_elem into the next block at 32. */
    method PopFront()
      requires Valid() && |Elements()| > 0
      modifies this
      ensures Valid() && Elements() == old(Elements())[1..]
      ensures arr == old(arr) && capacity == old(capacity)
      ensures Start() == old(Start()) + 1
      ensures firstElem == (if old(firstElem) == BlockSize - 1 then 0 else old(firstElem) + 1)
    {
      WindowSplit(arr, Start(), 1, size - 1);
      firstElem := firstElem + 1;
      if firstElem == BlockSize {
        firstElem := 0;
        firstBlock := firstBlock + 1;
      }
      size := size - 1;
    }

    /** pop_back(): drop the last element; the window start does not move. */
    method PopBack()
      requires Valid() && |Elements()| > 0
      modifies this`size
      ensures Valid() && Elements() == old(Elements())[..|old(Elements())| - 1]
    {
      WindowSplit(arr, Start(), size - 1, 1);
      size := size - 1;
    }

    /** insert(place, value): shift the elements from place to the end one slot right, then
        store value at place. A full table is grown first and place rebased by the old
        capacity. */
    method Insert(place: Pos, value: T)
      requires Valid() && Normal(place) && Start() <= Abs(place) <= Start() + |Elements()|
      modifies this
      ensures Valid() && Elements() == InsertAt(old(Elements()), Abs(place) - old(Start()), value)
      ensures capacity == (if old(Full()) then Max(3 * old(capacity), 1) else old(capacity))
      ensures Start() == old(Start()) + (if old(Full()) then old(capacity) * BlockSize else 0)
      ensures firstElem == old(firstElem)
    {
      var pl := place;
      if Full() {
        var oldCapacity := capacity;
        var _ := Reserve(if capacity > 0 then 3 * capacity else 1);
        pl := Pos(pl.block + oldCapacity, pl.elem);
      }
      StoreShifted(pl, value);
    }

    /** The body of insert once the table has a free slot after the last element: the
        shifting loop, then *place = value. */
    method StoreShifted(pl: Pos, value: T)
      requires Valid() && Normal(pl) && Start() <= Abs(pl) <= Start() + |Elements()|
      requires Start() + |Elements()| < capacity * BlockSize
      modifies this`arr, this`size
      ensures Valid() && Elements() == InsertAt(old(Elements()), Abs(pl) - Start(), value)
    {
      ghost var s := Elements();
      ghost var p := Abs(pl) - Start();
      var table := ShiftRight(arr, Start(), size, pl);
      InsertFinish(Window(table, Start(), size + 1), s, p, value);
      WindowStored(table, Start(), size + 1, pl, value);
      arr := Stored(table, pl, value);
      size := size + 1;
    }

    /** erase(place): shift the elements after place one slot left over it. */
    method Erase(place: Pos)
      requires Valid() && Normal(place) && Start() <= Abs(place) < Start() + |Elements()|
      modifies this`arr, this`size
      ensures Valid() && Elements() == EraseAt(old(Elements()), Abs(place) - old(Start()))
    {
      size := size - 1;
      arr := ShiftLeft(arr, Start(), size, place);
    }
  }
}
