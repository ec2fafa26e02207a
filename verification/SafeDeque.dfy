/**
  The array deque of include/safequeue.h: a buffer of `capacity` cells in which the
  elements occupy the `count` cells from `header` on.  The pointer arithmetic of the
  four bulk operations is kept branch by branch; what each call does is stated on the
  sequence of elements, and what it does to the three sizes on a value `Shape`, over
  which module DequeRuns proves the memory bound and the amortised copying bound.
*/
module SafeDeque {

  const INITIAL_CAPACITY: nat := 128

  /** The three sizes of a deque. */
  datatype Shape = Shape(capacity: nat, header: nat, count: nat) {
    ghost predicate Valid() {
      header + count <= capacity && (count == 0 ==> header == 0)
    }
  }

  /** What a push does to the sizes, and how many elements already held it has to copy. */
  datatype Growth = Growth(shape: Shape, copied: nat) {
    function After(before: nat): Growth {
      this.(copied := before + copied)
    }
  }

  function PushBackGrowth(s: Shape, n: nat): Growth
    requires s.Valid()
  {
    var tail := s.capacity - (s.header + s.count);
    if n <= tail then Growth(s.(count := s.count + n), 0)
    else if s.count + n < tail + s.header then Growth(Shape(s.capacity, 0, s.count + n), s.count)
    else Growth(Shape(n + s.capacity * 2, 0, s.count + n), s.count)
  }

  function PushFrontGrowth(s: Shape, n: nat): Growth
    requires s.Valid()
  {
    var space := s.capacity - s.count;
    if n <= s.header then Growth(Shape(s.capacity, s.header - n, s.count + n), 0)
    else if n < space && s.count < s.capacity / 2 then
      Growth(Shape(s.capacity, space - n, s.count + n), s.count)
    else
      Growth(Shape(n + s.capacity * 2, s.capacity * 2 - s.count, s.count + n), s.count)
  }

  function PopFrontShape(s: Shape, n: nat): Shape {
    if s.count <= n then Shape(s.capacity, 0, 0) else Shape(s.capacity, s.header + n, s.count - n)
  }

  function PopBackShape(s: Shape, n: nat): Shape {
    if s.count <= n then Shape(s.capacity, 0, 0) else Shape(s.capacity, s.header, s.count - n)
  }

  function Min(a: nat, b: nat): nat {
    if a <= b then a else b
  }

  class SafeDeque<T(0)> {
    var capacity: nat
    var header: nat
    var count: nat
    var cells: array<T>
    /** Elements already in the deque that some push had to copy, since construction. */
    ghost var copied: nat

    function Sizes(): Shape
      reads this
    {
      Shape(capacity, header, count)
    }

    ghost predicate InBounds()
      reads this
    {
      cells.Length == capacity && header + count <= capacity
    }

    ghost predicate Valid()
      reads this
    {
      InBounds() && (count == 0 ==> header == 0)
    }

    ghost function Contents(): seq<T>
      reads this, cells
      requires InBounds()
    {
      cells[header..header + count]
    }

    lemma Parts(k: nat)
      requires InBounds() && k <= count
      ensures cells[header..header + k] == Contents()[..k] && cells[header + k..header + count] == Contents()[k..]
    {
    }

    constructor (initialCapacity: nat)
      ensures Valid() && fresh(cells)
      ensures Contents() == [] && copied == 0
      ensures capacity == if initialCapacity == 0 then INITIAL_CAPACITY else initialCapacity
    {
      var n := if initialCapacity == 0 then INITIAL_CAPACITY else initialCapacity;
      capacity, header, count, copied := n, 0, 0, 0;
      cells := new T[n];
    }

    /** memmove (and memcpy, which the callers only use between different buffers). */
    static method CopyCells(src: array<T>, start: nat, dst: array<T>, to: nat, n: nat)
      requires start + n <= src.Length && to + n <= dst.Length
      modifies dst
      ensures dst[to..to + n] == old(src[start..start + n])
      ensures forall i :: 0 <= i < to || to + n <= i < dst.Length ==> dst[i] == old(dst[i])
    {
      forall i | 0 <= i < n {
        dst[to + i] := src[start + i];
      }
    }

    /** Slides the elements within the buffer so that they start at cell `to`. */
    method Slide(to: nat)
      requires InBounds() && to + count <= capacity
      modifies this, cells
      ensures InBounds() && cells == old(cells) && Contents() == old(Contents())
      ensures Sizes() == old(Sizes()).(header := to) && copied == old(copied) + count
    {
      CopyCells(cells, header, cells, to, count);
      header, copied := to, copied + count;
    }

    /** Replaces the buffer by one of `newCap` cells with the elements from cell `to` on. */
    method Reallocate(newCap: nat, to: nat)
      requires InBounds() && to + count <= newCap
      modifies this
      ensures InBounds() && fresh(cells) && Contents() == old(Contents())
      ensures Sizes() == Shape(newCap, to, old(count)) && copied == old(copied) + count
    {
      var m := new T[newCap];
      CopyCells(cells, header, m, to, count);
      header, copied := to, copied + count;
      cells, capacity := m, newCap;
    }

    /** Fills the `n` free cells after the last element. */
    method WriteAfter(items: array<T>, n: nat)
      requires InBounds() && header + count + n <= capacity && n <= items.Length && items != cells
      modifies this, cells
      ensures InBounds() && cells == old(cells) && Contents() == old(Contents()) + old(items[..n])
      ensures Sizes() == old(Sizes()).(count := old(count) + n) && copied == old(copied)
    {
      CopyCells(items, 0, cells, header + count, n);
      assert cells[header..header + count] == old(Contents());
      assert cells[header..header + count + n]
          == cells[header..header + count] + cells[header + count..header + count + n];
      count := count + n;
    }

    /** Fills the `n` free cells before the first element. */
    method WriteBefore(items: array<T>, n: nat)
      requires InBounds() && n <= header && n <= items.Length && items != cells
      modifies this, cells
      ensures InBounds() && cells == old(cells) && Contents() == old(items[..n]) + old(Contents())
      ensures Sizes() == Shape(capacity, old(header) - n, old(count) + n)
      ensures capacity == old(capacity) && copied == old(copied)
    {
      header := header - n;
      CopyCells(items, 0, cells, header, n);
      assert cells[header + n..header + n + count] == old(Contents());
      assert cells[header..header + n + count] == cells[header..header + n] + cells[header + n..header + n + count];
      count := count + n;
    }

    /** Appends the elements of a caller's buffer in order. */
    method PushBack(items: array<T>, n: nat) returns (pushed: nat)
      requires Valid() && n <= items.Length && items != cells
      modifies this, cells
      ensures Valid() && (cells == old(cells) || fresh(cells))
      ensures pushed == n
      ensures Contents() == old(Contents()) + old(items[..n])
      ensures n == 0 ==> Sizes() == old(Sizes()) && copied == old(copied)
      ensures n > 0 ==> Growth(Sizes(), copied) == PushBackGrowth(old(Sizes()), n).After(old(copied))
    {
      if n == 0 {
        return 0;
      }
      var tail := capacity - (header + count);
      if n <= tail {
      } else if count + n < tail + header {
        Slide(0);
      } else {
        Reallocate(n + capacity * 2, 0);
      }
      WriteAfter(items, n);
      return n;
    }

    /** Puts the elements of a caller's buffer, in order, before the first element. */
    method PushFront(items: array<T>, n: nat) returns (pushed: nat)
      requires Valid() && n <= items.Length && items != cells
      modifies this, cells
      ensures Valid() && (cells == old(cells) || fresh(cells))
      ensures pushed == n
      ensures Contents() == old(items[..n]) + old(Contents())
      ensures n == 0 ==> Sizes() == old(Sizes()) && copied == old(copied)
      ensures n > 0 ==> Growth(Sizes(), copied) == PushFrontGrowth(old(Sizes()), n).After(old(copied))
    {
      if n == 0 {
        return 0;
      }
      if n > header {
        var space := capacity - count;
        if n < space && count < capacity / 2 {
          Slide(space);
        } else {
          var newCap := n + capacity * 2;
          Reallocate(newCap, newCap - count);
        }
      }
      WriteBefore(items, n);
      return n;
    }

    /** Copies `n` cells to the start of a caller's buffer. */
    method CopyOut(start: nat, dst: array<T>, n: nat)
      requires start + n <= cells.Length && n <= dst.Length && dst != cells
      modifies dst
      ensures dst[..] == cells[start..start + n] + old(dst[..])[n..]
    {
      ghost var was := dst[..];
      CopyCells(cells, start, dst, 0, n);
      assert dst[n..] == was[n..];
      assert dst[..] == dst[0..n] + dst[n..];
    }

    /** Moves the first min(n, count) elements to the start of a caller's buffer. */
    method PopFront(dst: array<T>, n: nat) returns (popped: nat)
      requires Valid() && n <= dst.Length && dst != cells
      modifies this, dst
      ensures Valid() && cells == old(cells) && copied == old(copied)
      ensures popped == Min(n, |old(Contents())|)
      ensures Contents() == old(Contents())[popped..]
      ensures dst[..] == old(Contents())[..popped] + old(dst[..])[popped..]
      ensures n > 0 ==> Sizes() == PopFrontShape(old(Sizes()), n)
    {
      if n == 0 || count == 0 {
        return 0;
      }
      var k := if n > count then count else n;
      Parts(k);
      CopyOut(header, dst, k);
      count := count - k;
      if count == 0 {
        header := 0;
      } else {
        header := header + k;
      }
      return k;
    }

    /** Moves the last min(n, count) elements, in their order, to the start of a caller's buffer. */
    method PopBack(dst: array<T>, n: nat) returns (popped: nat)
      requires Valid() && n <= dst.Length && dst != cells
      modifies this, dst
      ensures Valid() && cells == old(cells) && copied == old(copied)
      ensures popped == Min(n, |old(Contents())|)
      ensures Contents() == old(Contents())[..|old(Contents())| - popped]
      ensures dst[..] == old(Contents())[|old(Contents())| - popped..] + old(dst[..])[popped..]
      ensures n > 0 ==> Sizes() == PopBackShape(old(Sizes()), n)
    {
      if n == 0 || count == 0 {
        return 0;
      }
      var k := if n > count then count else n;
      TakeBack(dst, k);
      if count == 0 {
        header := 0;
      }
      return k;
    }

    /** The last `k` elements go to the caller's buffer. */
    method TakeBack(dst: array<T>, k: nat)
      requires InBounds() && k <= count && k <= dst.Length && dst != cells
      modifies this`count, dst
      ensures InBounds() && count == old(count) - k && Contents() == old(Contents())[..count]
      ensures dst[..] == old(Contents())[count..] + old(dst[..])[k..]
    {
      Parts(count - k);
      count := count - k;
      CopyOut(header + count, dst, k);
    }

    method Clear()
      requires Valid()
      modifies this
      ensures Valid() && cells == old(cells) && copied == old(copied)
      ensures Contents() == []
      ensures Sizes() == Shape(old(capacity), 0, 0)
    {
      count, header := 0, 0;
    }

    method ShrinkToFit()
      requires Valid()
      modifies this
      ensures Valid() && fresh(cells)
      ensures Contents() == old(Contents())
      ensures Sizes() == Shape(old(count), 0, old(count))
    {
      var p := new T[count];
      CopyCells(cells, header, p, 0, count);
      cells, header, capacity := p, 0, count;
    }

    /** Exchanges the buffers and sizes of two deques. */
    method Swap(sd: SafeDeque<T>)
      requires Valid() && sd.Valid()
      modifies this, sd
      ensures Valid() && sd.Valid()
      ensures Contents() == old(sd.Contents()) && sd.Contents() == old(Contents())
      ensures Sizes() == old(sd.Sizes()) && sd.Sizes() == old(Sizes())
    {
      if this == sd {
        return;
      }
      var p := cells;
      cells := sd.cells;
      sd.cells := p;
      SwapSizes(sd);
    }

    method SwapSizes(sd: SafeDeque<T>)
      requires sd != this
      modifies this`count, this`header, this`capacity, sd`count, sd`header, sd`capacity
      ensures Sizes() == old(sd.Sizes()) && sd.Sizes() == old(Sizes())
    {
      var size := count;
      count := sd.count;
      sd.count := size;
      size := header;
      header := sd.header;
      sd.header := size;
      size := capacity;
      capacity := sd.capacity;
      sd.capacity := size;
    }
  }
}
