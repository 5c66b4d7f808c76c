/** `AQueue`: the fixed-capacity queue over an array, updated in place. */
module AQueue {
  import opened Machine
  import R = RingSpec

  class AQueue<T(0)> {
    var buff: array?<T>
    var capacity: uint32
    var currentSize: uint32
    var head: uint32
    var tail: uint32
    const errorData: T

    ghost predicate Valid()
      reads this, buff
    {
      if buff == null then capacity == 0 && currentSize == 0
      else buff.Length == capacity && R.InRange(Ring())
    }

    ghost function Ring(): R.Ring<T>
      requires buff != null
      reads this, buff
    {
      R.Ring(buff[..], head, tail, currentSize)
    }

    /** `AQueue()`: no buffer yet. */
    constructor Empty(zero: T)
      ensures Valid() && buff == null && errorData == zero
    {
      buff := null;
      capacity, currentSize, head, tail := 0, 0, 0, R.NO_TAIL;
      errorData := zero;
    }

    /** `AQueue(cap)` */
    constructor WithCapacity(cap: uint32, zero: T)
      requires 0 < cap <= TWO31
      ensures Valid() && buff != null && fresh(buff) && capacity == cap && errorData == zero
      ensures Ring() == R.Reset(buff[..])
    {
      buff := new T[cap];
      capacity, currentSize, head, tail := cap, 0, 0, R.NO_TAIL;
      errorData := zero;
    }

    method Full() returns (full: bool)
      ensures full <==> capacity == currentSize
    {
      full := capacity == currentSize;
    }

    method PushBack(el: T) returns (re: int)
      requires Valid()
      modifies this, buff
      ensures Valid() && buff == old(buff) && capacity == old(capacity)
      ensures buff == null ==> re == -1
      ensures buff != null ==> Ring() == R.DoPushBack(old(Ring()), el)
      ensures buff != null ==> R.ActsAs(old(Ring()), R.PushBack(el), Ring())
      ensures buff != null ==> re == if old(currentSize) == capacity then 1 else 0
    {
      hide R.Rem, R.U32, R.ActsAs;
      if buff == null {
        return -1;
      }
      R.Acts(Ring(), R.PushBack(el));
      re := 0;
      var full := Full();
      if full {
        head := R.Rem(R.U32(head + 1), capacity);
        currentSize := R.U32(currentSize - 1);
        re := 1;
      }
      tail := R.Rem(R.U32(tail + 1), capacity);
      buff[tail] := el;
      currentSize := R.U32(currentSize + 1);
      assert buff[..] == old(buff[..])[tail := el];
    }

    method PushFront(el: T) returns (re: int)
      requires Valid()
      modifies this, buff
      ensures Valid() && buff == old(buff) && capacity == old(capacity)
      ensures buff == null ==> re == -1
      ensures buff != null ==> Ring() == R.DoPushFront(old(Ring()), el)
      ensures buff != null ==> R.ActsAs(old(Ring()), R.PushFront(el), Ring())
      ensures buff != null ==> re == if old(currentSize) == capacity then 1 else 0
    {
      hide R.Rem, R.U32, R.ActsAs;
      if buff == null {
        return -1;
      }
      R.Acts(Ring(), R.PushFront(el));
      var full := Full();
      if full {
        return 1;
      }
      head := R.Rem(R.U32(R.U32(head + capacity) - 1), capacity);
      buff[head] := el;
      currentSize := R.U32(currentSize + 1);
      assert buff[..] == old(buff[..])[head := el];
      return 0;
    }

    method PopFront()
      requires Valid()
      modifies this
      ensures Valid() && buff == old(buff) && capacity == old(capacity)
      ensures buff != null ==> Ring() == R.DoPopFront(old(Ring()))
      ensures buff != null ==> R.ActsAs(old(Ring()), R.PopFront, Ring())
    {
      hide R.Rem, R.U32, R.ActsAs;
      if buff != null {
        R.Acts(Ring(), R.PopFront);
      }
      if currentSize <= 0 {
        return;
      }
      head := R.Rem(R.U32(head + 1), capacity);
      currentSize := R.U32(currentSize - 1);
    }

    method PopBack()
      requires Valid()
      modifies this
      ensures Valid() && buff == old(buff) && capacity == old(capacity)
      ensures buff != null ==> Ring() == R.DoPopBack(old(Ring()))
      ensures buff != null ==> R.Abstract(Ring()) == R.DequeDo(R.Abstract(old(Ring())), R.PopBack)
    {
      hide R.Rem, R.U32, R.Abstract, R.DequeDo;
      if buff != null {
        R.PopBackRefines(Ring());
      }
      if currentSize <= 0 {
        return;
      }
      currentSize := R.U32(currentSize - 1);
      // The source then resets a negative `_tail` to 0, which an unsigned index never is.
      tail := R.U32(tail - 1);
    }

    method Clear()
      requires Valid()
      modifies this
      ensures Valid() && buff == old(buff) && capacity == old(capacity)
      ensures buff != null ==> Ring() == R.Reset(buff[..]) && buff[..] == old(buff[..])
    {
      currentSize, head, tail := 0, 0, R.NO_TAIL;
    }

    method Resize(cap: uint32) returns (re: uint32)
      requires Valid() && cap <= TWO31
      modifies this
      ensures Valid() && re == if cap == 0 then 0 else 1
      ensures cap == 0 ==> unchanged(this)
      ensures cap > 0 ==> buff != null && fresh(buff) && capacity == cap && Ring() == R.Reset(buff[..])
    {
      if cap <= 0 {
        return 0;
      }
      capacity := cap;
      buff := new T[cap];
      currentSize, head, tail := 0, 0, R.NO_TAIL;
      return 1;
    }

    method Front() returns (x: T)
      requires Valid()
      ensures x == if buff == null || currentSize == 0 then errorData else R.Contents(Ring())[0]
    {
      if buff == null || currentSize == 0 {
        return errorData;
      }
      R.ContentsAt(Ring(), 0);
      return buff[head];
    }

    /** The source reads `_buff[_tail]` whatever the tail is; in range it must be, or the read is not defined. */
    method Back() returns (x: T)
      requires Valid() && (buff != null && currentSize > 0 ==> tail < capacity)
      ensures buff == null || currentSize == 0 ==> x == errorData
      ensures buff != null && currentSize > 0 && R.Sound(Ring()) ==> x == R.Contents(Ring())[currentSize - 1]
    {
      if buff == null || currentSize == 0 {
        return errorData;
      }
      if R.Sound(Ring()) {
        R.BackIsLast(Ring());
      }
      return buff[tail];
    }

    /** `read(index)`, also behind `operator[]` and `at`: the index is checked against the capacity. */
    method Read(index: uint32) returns (x: T)
      requires Valid()
      ensures buff == null || currentSize == 0 || index >= capacity ==> x == errorData
      ensures buff != null && currentSize > 0 && index < capacity ==> x == R.At(Ring(), index)
      ensures buff != null && index < currentSize ==> x == R.Contents(Ring())[index]
    {
      if buff == null || currentSize == 0 || index >= capacity {
        return errorData;
      }
      return buff[R.Rem(R.U32(index + head), capacity)];
    }

    /** `read(sindex, len, buff)`: a block of slots, in two pieces if it runs over the end of the buffer. */
    method ReadBlock(sindex: uint32, len: uint32, dest: array<T>) returns (n: uint32)
      requires Valid() && dest != buff
      requires buff != null ==> sindex < capacity && len <= capacity && len <= dest.Length
      modifies dest
      ensures buff == null || currentSize == 0 ==> n == 0 && dest[..] == old(dest[..])
      ensures buff != null && currentSize > 0 ==>
                n == len && dest[..len] == R.Block(Ring(), sindex, len) && dest[len..] == old(dest[len..])
    {
      hide R.Rem, R.U32, R.Block;
      if buff == null || currentSize == 0 {
        return 0;
      }
      if R.U32(sindex + len) <= capacity {
        R.BlockStraight(Ring(), sindex, len);
        CopySlots(R.Rem(sindex, capacity), len, dest, 0);
        assert dest[..len] == [] + buff[sindex..sindex + len];
      } else {
        R.BlockAround(Ring(), sindex, len);
        CopyAround(sindex, len, dest);
      }
      return len;
    }

    /** To the end of the buffer, and then from its start. */
    method CopyAround(sindex: nat, len: nat, dest: array<T>)
      requires buff != null && dest != buff && sindex < buff.Length && len <= dest.Length
      requires len <= buff.Length < sindex + len
      modifies dest
      ensures dest[..len] == buff[sindex..] + buff[..len - (buff.Length - sindex)]
      ensures dest[len..] == old(dest[len..])
    {
      var firstPart := buff.Length - sindex;
      CopySlots(sindex, firstPart, dest, 0);
      assert dest[..firstPart] == [] + buff[sindex..];
      assert dest[len..] == dest[firstPart..][len - firstPart..] == old(dest[firstPart..])[len - firstPart..];
      CopySlots(0, len - firstPart, dest, firstPart);
    }

    /** `memcpy` out of the buffer */
    method CopySlots(from: nat, len: nat, dest: array<T>, at: nat)
      requires buff != null && dest != buff && from + len <= buff.Length && at + len <= dest.Length
      modifies dest
      ensures dest[..at + len] == old(dest[..at]) + buff[from..from + len]
      ensures dest[at + len..] == old(dest[at + len..])
    {
      for i := 0 to len
        invariant dest[..at + i] == old(dest[..at]) + buff[from..from + i]
        invariant dest[at + len..] == old(dest[at + len..])
      {
        dest[at + i] := buff[from + i];
        assert dest[..at + i + 1] == dest[..at + i] + [buff[from + i]];
      }
    }

    /** `operator=`: copies another queue of the same capacity, and otherwise does nothing. */
    method Assign(aq: AQueue<T>)
      requires Valid() && aq.Valid() && (aq == this || (buff != null ==> buff != aq.buff))
      modifies this, buff
      ensures Valid() && buff == old(buff) && capacity == old(capacity)
      ensures aq == this || old(capacity) != old(aq.capacity) ==>
                unchanged(this) && (buff != null ==> unchanged(buff))
      ensures aq != this && capacity == aq.capacity && buff != null ==>
                aq.buff != null && Ring() == old(aq.Ring()) && aq.Ring() == old(aq.Ring())
    {
      if this == aq {
        return;
      }
      if capacity != aq.capacity {
        return;
      }
      currentSize := aq.currentSize;
      head := aq.head;
      tail := aq.tail;
      if buff != null {
        for i := 0 to capacity
          modifies buff
          invariant buff[..i] == aq.buff[..i]
          invariant aq.buff[..] == old(aq.buff[..])
        {
          buff[i] := aq.buff[i];
          assert buff[..i + 1] == buff[..i] + [aq.buff[i]];
        }
        assert buff[..] == aq.buff[..];
      }
    }
  }
}
