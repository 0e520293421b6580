/**
 * `IntList`: a growable array of records of `fieldsPerElement` ints each,
 * with a free list of erased records threaded through their first field.
 */
module QuadtreeIntList {

  /**
   * `n * f`, the offset of record `n` when records have `f` fields, written
   * as repeated addition so that the offset reasoning below stays linear.
   */
  function Times(n: nat, f: nat): nat
  {
    if n == 0 then 0 else Times(n - 1, f) + f
  }

  lemma {:induction false} TimesMonotone(m: nat, n: nat, f: nat)
    requires m <= n
    ensures Times(m, f) <= Times(n, f)
    decreases n
  {
    if m < n {
      TimesMonotone(m, n - 1, f);
    }
  }

  /** Field `field` of record `n` lies before the first slot of record `size` when `n < size`. */
  lemma SlotBelow(n: nat, field: int, f: nat, size: nat)
    requires n < size && 0 <= field < f
    ensures Times(n, f) + field < Times(size, f)
  {
    TimesMonotone(n + 1, size, f);
  }

  /** Distinct (record, field) pairs address distinct slots. */
  lemma SlotsDistinct(m: nat, k: int, n: nat, field: int, f: nat)
    requires 0 <= k < f && 0 <= field < f && (m != n || k != field)
    ensures Times(m, f) + k != Times(n, f) + field
  {
    if m < n {
      SlotBelow(m, k, f, n);
    } else if n < m {
      SlotBelow(n, field, f, m);
    }
  }

  class IntList {
    var data: array<int>
    const fieldsPerElement: nat
    var size: int
    var capacity: int
    var nextFreeElement: int
    /** The erased records, most recently erased first; each one's first field names the next. */
    ghost var free: seq<nat>

    /** The free list starts at `nextFreeElement`, links through the first fields and ends in -1. */
    ghost predicate FreeChain()
      reads this, data
    {
      nextFreeElement == (if free == [] then -1 else free[0])
      && forall i {:trigger free[i]} :: 0 <= i < |free| ==>
           Times(free[i], fieldsPerElement) < data.Length
           && data[Times(free[i], fieldsPerElement)] == if i + 1 < |free| then free[i + 1] else -1
    }

    ghost predicate Valid()
      reads this, data
    {
      fieldsPerElement >= 1 && capacity == data.Length && 0 <= size && Times(size, fieldsPerElement) <= capacity
      && FreeChain()
    }

    /** `IntList(fieldsPerElement, initialElementCapacity)`: empty, room for that many records. */
    constructor (fieldsPerElement: nat, initialElementCapacity: nat)
      requires fieldsPerElement >= 1
      ensures Valid() && fresh(data)
      ensures this.fieldsPerElement == fieldsPerElement && size == 0 && free == []
      ensures capacity == Times(initialElementCapacity, fieldsPerElement)
    {
      this.fieldsPerElement := fieldsPerElement;
      capacity := Times(initialElementCapacity, fieldsPerElement);
      data := new int[Times(initialElementCapacity, fieldsPerElement)];
      size := 0;
      nextFreeElement := -1;
      free := [];
    }

    /** `IntList(fieldsPerElement)`: room for 16 records. */
    constructor Default(fieldsPerElement: nat)
      requires fieldsPerElement >= 1
      ensures Valid() && fresh(data)
      ensures this.fieldsPerElement == fieldsPerElement && size == 0 && free == []
      ensures capacity == Times(16, fieldsPerElement)
    {
      this.fieldsPerElement := fieldsPerElement;
      capacity := Times(16, fieldsPerElement);
      data := new int[Times(16, fieldsPerElement)];
      size := 0;
      nextFreeElement := -1;
      free := [];
    }

    /** `size()`. */
    function Size(): (r: int)
      reads this
      ensures r == size
    {
      size
    }

    /** `get(n, field)`: the value held in field `field` of record `n`. */
    function Get(n: int, field: int): int
      reads this, data
      requires 0 <= n < size && 0 <= field < fieldsPerElement && Times(size, fieldsPerElement) <= data.Length
    {
      SlotBelow(n, field, fieldsPerElement, size);
      data[Times(n, fieldsPerElement) + field]
    }

    /**
     * `set(n, field, val)`: that field reads back as `val` and every other
     * field of every record keeps its value. Writing the first field of an
     * erased record would break the free list and is excluded.
     */
    method Set(n: int, field: int, val: int)
      requires Valid() && 0 <= n < size && 0 <= field < fieldsPerElement
      requires field == 0 ==> n !in free
      modifies data
      ensures Valid()
      ensures Get(n, field) == val
      ensures forall m, k :: 0 <= m < size && 0 <= k < fieldsPerElement && (m != n || k != field) ==>
        Get(m, k) == old(Get(m, k))
    {
      SlotBelow(n, field, fieldsPerElement, size);
      data[Times(n, fieldsPerElement) + field] := val;
      forall i | 0 <= i < |free|
        ensures Times(free[i], fieldsPerElement) + 0 != Times(n, fieldsPerElement) + field
      {
        SlotsDistinct(free[i], 0, n, field, fieldsPerElement);
      }
      forall m, k | 0 <= m < size && 0 <= k < fieldsPerElement && (m != n || k != field)
        ensures Get(m, k) == old(Get(m, k))
      {
        SlotsDistinct(m, k, n, field, fieldsPerElement);
      }
    }

    /** `clear()`: no records and an empty free list. */
    method Clear()
      requires Valid()
      modifies this`size, this`nextFreeElement, this`free
      ensures Valid() && size == 0 && free == [] && nextFreeElement == -1
    {
      size := 0;
      nextFreeElement := -1;
      free := [];
    }

    /**
     * `pushBack()`: one more record at the back, whose index is returned.
     * When the records no longer fit, the buffer is replaced by one of twice
     * the needed size holding the old buffer's contents.
     */
    method PushBack() returns (index: int)
      requires Valid()
      modifies this`data, this`capacity, this`size
      ensures Valid() && index == old(size) && size == old(size) + 1 && free == old(free)
      ensures data == old(data) || fresh(data)
      ensures old(data.Length) <= data.Length && data[..old(data.Length)] == old(data[..])
      ensures capacity == if Times(old(size) + 1, fieldsPerElement) > old(capacity)
        then 2 * Times(old(size) + 1, fieldsPerElement) else old(capacity)
      ensures forall m, k :: 0 <= m < old(size) && 0 <= k < fieldsPerElement ==> Get(m, k) == old(Get(m, k))
    {
      MakeRoom();
      index := size;
      size := size + 1;
      forall m, k | 0 <= m < old(size) && 0 <= k < fieldsPerElement
        ensures Get(m, k) == old(Get(m, k))
      {
        SlotBelow(m, k, fieldsPerElement, old(size));
      }
    }

    /** The first half of `pushBack`: the buffer grown to twice the needed size when one more record does not fit. */
    method MakeRoom()
      requires Valid()
      modifies this`data, this`capacity
      ensures Valid() && Times(size + 1, fieldsPerElement) <= capacity
      ensures data == old(data) || fresh(data)
      ensures old(data.Length) <= data.Length && data[..old(data.Length)] == old(data[..])
      ensures capacity == if Times(size + 1, fieldsPerElement) > old(capacity)
        then 2 * Times(size + 1, fieldsPerElement) else old(capacity)
    {
      var newPos := Times(size + 1, fieldsPerElement);
      if newPos > capacity {
        Grow(newPos * 2);
      }
    }

    /** The buffer replaced by a larger one holding the old one's contents at the same places. */
    method Grow(newCap: int)
      requires Valid() && Times(size + 1, fieldsPerElement) <= newCap && capacity <= newCap
      modifies this`data, this`capacity
      ensures Valid() && capacity == newCap && Times(size + 1, fieldsPerElement) <= capacity && fresh(data)
      ensures old(data.Length) <= data.Length && data[..old(data.Length)] == old(data[..])
    {
      TimesMonotone(size, size + 1, fieldsPerElement);
      var newArray := new int[newCap];
      forall i | 0 <= i < capacity {
        newArray[i] := data[i];
      }
      ghost var oldData := data;
      data := newArray;
      capacity := newCap;
      assert forall i :: 0 <= i < oldData.Length ==> data[i] == oldData[i];
    }

    /** `popBack()`: the last record is dropped. */
    method PopBack()
      requires Valid() && size > 0
      modifies this`size
      ensures Valid() && size == old(size) - 1
      ensures forall m, k :: 0 <= m < size && 0 <= k < fieldsPerElement ==> Get(m, k) == old(Get(m, k))
    {
      TimesMonotone(size - 1, size, fieldsPerElement);
      size := size - 1;
    }

    /**
     * `insert()`: the most recently erased record is reused and leaves the
     * free list; with none erased, a record is pushed at the back.
     */
    method Insert() returns (index: int)
      requires Valid()
      modifies this, data
      ensures Valid()
      ensures old(free) != [] ==> index == old(free[0]) && free == old(free[1..]) && size == old(size) && data == old(data)
      ensures old(free) != [] ==> forall i :: 0 <= i < data.Length ==> data[i] == old(data[i])
      ensures old(free) == [] ==> index == old(size) && size == old(size) + 1 && free == []
      ensures data == old(data) || fresh(data)
      ensures forall m, k :: 0 <= m < old(size) && 0 <= k < fieldsPerElement ==> Get(m, k) == old(Get(m, k))
    {
      if nextFreeElement != -1 {
        index := nextFreeElement;
        var pos := Times(index, fieldsPerElement);
        nextFreeElement := data[pos];
        free := free[1..];
      } else {
        index := PushBack();
      }
    }

    /**
     * `erase(n)`: record `n` goes on the front of the free list, its first
     * field linking to the previous head; the size is unchanged.
     */
    method Erase(n: int)
      requires Valid() && 0 <= n && Times(n, fieldsPerElement) < data.Length && n !in free
      modifies data, this`nextFreeElement, this`free
      ensures Valid() && free == [n] + old(free) && nextFreeElement == n
      ensures data[..] == old(data[..])[Times(n, fieldsPerElement) := old(nextFreeElement)]
      ensures forall m, k :: 0 <= m < size && 0 <= k < fieldsPerElement && (m != n || k != 0) ==> Get(m, k) == old(Get(m, k))
    {

      forall i | 0 <= i < |free| ensures Times(free[i], fieldsPerElement) + 0 != Times(n, fieldsPerElement) + 0 {
        SlotsDistinct(free[i], 0, n, 0, fieldsPerElement);
      }
      data[Times(n, fieldsPerElement)] := nextFreeElement;
      nextFreeElement := n;
      free := [n] + free;
      forall m, k | 0 <= m < size && 0 <= k < fieldsPerElement && (m != n || k != 0)
        ensures Get(m, k) == old(Get(m, k))
      {
        SlotsDistinct(m, k, n, 0, fieldsPerElement);
      }
    }

    /**
     * `copy(other)`: this list takes the other's size, free list and buffer
     * contents, growing its buffer to the other's capacity if needed.
     */
    method Copy(other: IntList)
      requires Valid() && other.Valid() && fieldsPerElement == other.fieldsPerElement && other != this
      modifies this, data
      ensures Valid() && other.Valid() && (data == old(data) || fresh(data))
      ensures size == other.size && free == other.free && nextFreeElement == other.nextFreeElement
      ensures capacity == if old(capacity) < other.capacity then other.capacity else old(capacity)
      ensures data[..other.capacity] == other.data[..]
      ensures forall m, k :: 0 <= m < size && 0 <= k < fieldsPerElement ==> Get(m, k) == other.Get(m, k)
      ensures other.data == old(other.data) && other.data[..] == old(other.data[..])
    {
      if capacity < other.capacity {
        Reserve(other.capacity);
      }
      CopyFrom(other);
    }

    /** A fresh, zeroed buffer of `newCap` slots, as `copy` allocates before overwriting it. */
    method Reserve(newCap: nat)
      modifies this`data, this`capacity
      ensures fresh(data) && data.Length == newCap && capacity == newCap
    {
      data := new int[newCap];
      capacity := newCap;
    }

    /** The second half of `copy`: the other list's buffer, size and free list taken over. */
    method CopyFrom(other: IntList)
      requires other.Valid() && fieldsPerElement == other.fieldsPerElement && other != this
      requires fieldsPerElement >= 1 && capacity == data.Length && other.capacity <= capacity
      modifies this`size, this`nextFreeElement, this`free, data
      ensures Valid() && other.Valid() && (data == old(data) || fresh(data))
      ensures size == other.size && free == other.free && nextFreeElement == other.nextFreeElement
      ensures data[..other.capacity] == other.data[..]
      ensures forall m, k :: 0 <= m < size && 0 <= k < fieldsPerElement ==> Get(m, k) == other.Get(m, k)
      ensures other.data == old(other.data) && other.data[..] == old(other.data[..])
    {
      CopySlots(other.data);
      size := other.size;
      nextFreeElement := other.nextFreeElement;
      free := other.free;
      CopiedAgrees(other);
    }

    /** A list whose counters match `other` and whose buffer starts with `other`'s holds the same records. */
    lemma CopiedAgrees(other: IntList)
      requires other.Valid() && fieldsPerElement == other.fieldsPerElement && capacity == data.Length
      requires other.data.Length <= data.Length && forall i :: 0 <= i < other.data.Length ==> data[i] == other.data[i]
      requires size == other.size && free == other.free && nextFreeElement == other.nextFreeElement
      ensures Valid()
      ensures forall m, k :: 0 <= m < size && 0 <= k < fieldsPerElement ==> Get(m, k) == other.Get(m, k)
    {
      forall m, k | 0 <= m < size && 0 <= k < fieldsPerElement
        ensures Get(m, k) == other.Get(m, k)
      {
        SlotBelow(m, k, fieldsPerElement, size);
      }
    }

    /** `System.arraycopy(source, 0, data, 0, source.length)`. */
    method CopySlots(source: array<int>)
      requires source.Length <= data.Length
      modifies data
      ensures forall i :: 0 <= i < source.Length ==> data[i] == source[i]
      ensures source[..] == old(source[..])
    {
      forall i | 0 <= i < source.Length {
        data[i] := source[i];
      }
    }
  }

  /** The records in use: below the size and not on the free list. */
  ghost function LiveOf(size: int, free: seq<nat>): set<int>
  {
    set x | 0 <= x < size && x !in free
  }

  /** Every erased record lies below the size and is erased once. */
  ghost predicate FreeSound(size: int, free: seq<nat>)
  {
    (forall i :: 0 <= i < |free| ==> free[i] < size)
    && forall i, j :: 0 <= i < j < |free| ==> free[i] != free[j]
  }

  /** `insert` reusing the head of the free list brings exactly that record back into use. */
  lemma LiveReuse(size: int, free: seq<nat>)
    requires FreeSound(size, free) && free != []
    ensures free[0] !in LiveOf(size, free) && LiveOf(size, free[1..]) == LiveOf(size, free) + {free[0]}
    ensures FreeSound(size, free[1..])
  {
    assert free == [free[0]] + free[1..];
    forall x ensures x in LiveOf(size, free[1..]) <==> x in LiveOf(size, free) + {free[0]} {
      if x == free[0] {
        assert x !in free[1..] by {
          forall i | 0 <= i < |free[1..]| ensures free[1..][i] != x {
            assert free[1..][i] == free[i + 1];
          }
        }
      }
    }
    forall i, j | 0 <= i < j < |free[1..]| ensures free[1..][i] != free[1..][j] {
      assert free[1..][i] == free[i + 1] && free[1..][j] == free[j + 1];
    }
  }

  /** `insert` with nothing erased brings the record at the old size into use. */
  lemma LivePush(size: int, free: seq<nat>)
    requires FreeSound(size, free) && 0 <= size
    ensures size !in LiveOf(size, free) && LiveOf(size + 1, free) == LiveOf(size, free) + {size}
    ensures FreeSound(size + 1, free)
  {
    assert size !in free;
    assert LiveOf(size + 1, free) == LiveOf(size, free) + {size};
  }

  /** `erase` takes a record in use out of use. */
  lemma LiveErase(size: int, free: seq<nat>, n: int)
    requires FreeSound(size, free) && n in LiveOf(size, free)
    ensures LiveOf(size, [n] + free) == LiveOf(size, free) - {n}
    ensures FreeSound(size, [n] + free)
  {
    var f := [n] + free;
    forall i, j | 0 <= i < j < |f| ensures f[i] != f[j] {
      assert f[j] == free[j - 1];
      if i > 0 {
        assert f[i] == free[i - 1];
      }
    }
    forall x ensures x in LiveOf(size, f) <==> x in LiveOf(size, free) - {n} {
      assert x in f <==> x == n || x in free;
    }
  }

  /** Erasing a record and inserting one gives the erased record back and restores the free list. */
  method EraseThenInsert(list: IntList, n: int) returns (index: int)
    requires list.Valid() && 0 <= n && Times(n, list.fieldsPerElement) < list.data.Length && n !in list.free
    modifies list, list.data
    ensures list.Valid() && index == n && list.free == old(list.free) && list.size == old(list.size)
  {
    list.Erase(n);
    index := list.Insert();
  }
}
