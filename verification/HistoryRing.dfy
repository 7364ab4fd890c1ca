// The ring of historical records: a fixed-size buffer that keeps the most recent ones.
module HistoryRing {
  import opened Words

  const RECORD_LENGTH: int := 25

  type Record = r: seq<byte> | |r| == 25 witness seq(25, _ => 0)

  function Timestamp(r: Record): u32 {
    Le32(r[2], r[3], r[4], r[5])
  }

  // The last n elements of a sequence, or all of it.
  function LastOf<T>(s: seq<T>, n: nat): (r: seq<T>)
    ensures |r| == Min(|s|, n)
  {
    if |s| <= n then s else s[|s| - n..]
  }

  // The observable contents after pushing records one by one.
  function PushAll<T>(contents: seq<T>, pushed: seq<T>, capacity: nat): seq<T>
    decreases |pushed|
  {
    if pushed == [] then contents else PushAll(LastOf(contents + [pushed[0]], capacity), pushed[1..], capacity)
  }

  // Forgetting old elements early makes no difference.
  lemma LastOfLast<T>(s: seq<T>, t: seq<T>, n: nat)
    ensures LastOf(LastOf(s, n) + t, n) == LastOf(s + t, n)
  {
    if |s| > n {
      var dropped := |s| - n;
      assert s + t == s[..dropped] + (s[dropped..] + t);
      assert LastOf(s + t, n) == (s + t)[|s| + |t| - n..] == (s[dropped..] + t)[|t|..];
    }
  }

  // After any number of pushes the ring shows exactly the last min(n, capacity) records.
  lemma {:induction false} RingKeepsTheLast<T>(contents: seq<T>, pushed: seq<T>, capacity: nat)
    requires |contents| <= capacity
    ensures PushAll(contents, pushed, capacity) == LastOf(contents + pushed, capacity)
    decreases |pushed|
  {
    if pushed == [] {
      assert contents + pushed == contents;
    } else {
      var longer := contents + [pushed[0]];
      RingKeepsTheLast(LastOf(longer, capacity), pushed[1..], capacity);
      LastOfLast(longer, pushed[1..], capacity);
      assert contents + pushed == longer + pushed[1..];
    }
  }

  // The position of the i-th record from a start position, around the buffer.
  function Slot(start: nat, i: nat, capacity: nat): (k: nat)
    requires capacity > 0
    ensures k < capacity
  {
    (start + i) % capacity
  }

  lemma SlotsDiffer(start: nat, i: nat, j: nat, capacity: nat)
    requires start < capacity && i < j < i + capacity && j < 2 * capacity - start
    ensures Slot(start, i, capacity) != Slot(start, j, capacity)
  {
    Unwrapped(start + i, capacity);
    Unwrapped(start + j, capacity);
  }

  lemma SlotAfter(start: nat, i: nat, capacity: nat)
    requires start < capacity && i < capacity
    ensures Slot(Slot(start, 1, capacity), i, capacity) == Slot(start, i + 1, capacity)
  {
    Unwrapped(start + 1, capacity);
    Unwrapped(start + i + 1, capacity);
    Unwrapped(Slot(start, 1, capacity) + i, capacity);
  }

  lemma Unwrapped(a: nat, capacity: nat)
    requires 0 < capacity && a < 2 * capacity
    ensures a % capacity == if a < capacity then a else a - capacity
  {
    if a >= capacity {
      assert a == capacity + (a - capacity);
    }
  }

  class Ring {
    const capacity: nat
    var records: array<Record>
    var start: nat
    var size: nat

    ghost predicate Valid()
      reads this, records
    {
      capacity > 0 && records.Length == capacity && start < capacity && size <= capacity
    }

    // What the ring shows, oldest first.
    ghost function Contents(): (s: seq<Record>)
      requires Valid()
      reads this, records
      ensures |s| == size
    {
      seq(size, i requires 0 <= i < size && Valid() reads this, records => records[Slot(start, i, capacity)])
    }

    constructor (capacity: nat)
      requires capacity > 0
      ensures Valid() && fresh(records) && this.capacity == capacity && Contents() == []
    {
      this.capacity := capacity;
      records := new Record[capacity](_ => seq(25, _ => 0));
      start, size := 0, 0;
    }

    method Clear()
      requires Valid()
      modifies this
      ensures Valid() && records == old(records) && Contents() == []
    {
      start, size := 0, 0;
    }

    method Push(record: Record)
      requires Valid()
      modifies this, records
      ensures Valid() && records == old(records)
      ensures Contents() == LastOf(old(Contents()) + [record], capacity)
    {
      ghost var before, first, old_ := Contents(), start, records[..];
      if size < capacity {
        records[(start + size) % capacity] := record;
        size := size + 1;
        forall i | 0 <= i < size
          ensures Contents()[i] == (before + [record])[i]
        {
          if i < size - 1 { SlotsDiffer(start, i, size - 1, capacity); }
        }
        return;
      }
      records[start] := record;
      start := (start + 1) % capacity;
      forall i | 0 <= i < capacity
        ensures Contents()[i] == (before[1..] + [record])[i]
      {
        SlotAfter(first, i, capacity);
        Unwrapped(first + i + 1, capacity);
        Unwrapped(first, capacity);
        assert i < capacity - 1 ==> records[Slot(first, i + 1, capacity)] == old_[Slot(first, i + 1, capacity)];
      }
    }

    method Oldest(index: nat) returns (record: Option<Record>)
      requires Valid()
      ensures record == if index < size then Some(Contents()[index]) else None
    {
      if index >= size { return None; }
      return Some(records[(start + index) % capacity]);
    }

    // The assignment operator: a copy of another ring's fields.
    method Assign(other: Ring)
      requires Valid() && other.Valid() && other.capacity == capacity && other.records != records
      modifies this, records
      ensures Valid() && records == old(records) && Contents() == other.Contents()
    {
      ghost var contents := other.Contents();
      forall i | 0 <= i < capacity { records[i] := other.records[i]; }
      start, size := other.start, other.size;
      assert Contents() == contents;
    }
  }
}
