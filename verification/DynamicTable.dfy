/**
 The QPACK dynamic table (section 3.2 of RFC 9204): a deque of entries addressed by
 absolute insertion index, from which the oldest entries are evicted.

 `Table` is the table as a value; the class `DynamicTable` keeps it in mutable fields.
 */
module DynamicTables {
  import opened Bytes

  datatype Field = Field(name: seq<Byte>, value: seq<Byte>)

  function EntrySize(f: Field): nat { |f.name| + |f.value| + 32 }

  function TotalSize(entries: seq<Field>): nat { Sum(EntrySize, entries) }

  lemma {:induction false} TotalSizeBoundsLength(entries: seq<Field>)
    ensures 32 * |entries| <= TotalSize(entries)
  {
    if entries != [] {
      TotalSizeBoundsLength(entries[1..]);
    }
  }

  datatype Table = Table(capacity: nat, entries: seq<Field>, dropped: nat) {
    function Inserted(): nat { dropped + |entries| }

    predicate Fits() { TotalSize(entries) <= capacity }

    /** The entry inserted `index`-th (from zero), unless it is dropped or not yet there. */
    function ByAbsolute(index: nat): Option<Field> {
      if dropped <= index < Inserted() then Some(entries[index - dropped]) else None
    }

    function ByRelative(base: nat, relative: nat): Option<Field> {
      if base <= relative then None else ByAbsolute(base - 1 - relative)
    }

    function ByPostBase(base: nat, index: nat): Option<Field> { ByAbsolute(base + index) }

    function Evict(): Table {
      var k := EvictCount(capacity, entries);
      this.(entries := entries[k..], dropped := dropped + k)
    }

    function Add(f: Field): Table { this.(entries := entries + [f]).Evict() }

    function SetCapacity(c: nat): Table { this.(capacity := c).Evict() }
  }

  const EMPTY := Table(0, [], 0)

  /** How many of the oldest entries have to go. */
  function EvictCount(capacity: nat, entries: seq<Field>): (k: nat)
    ensures k <= |entries|
  {
    if TotalSize(entries) > capacity && entries != []
    then 1 + EvictCount(capacity, entries[1..])
    else 0
  }

  /** Eviction leaves the longest suffix that fits: it fits, and nothing longer does. */
  lemma {:induction false} EvictIsMinimal(capacity: nat, entries: seq<Field>)
    ensures var k := EvictCount(capacity, entries);
            && TotalSize(entries[k..]) <= capacity
            && forall j :: 0 <= j < k ==> TotalSize(entries[j..]) > capacity
  {
    if TotalSize(entries) > capacity && entries != [] {
      var k := EvictCount(capacity, entries);
      EvictIsMinimal(capacity, entries[1..]);
      assert entries[1..][k - 1..] == entries[k..];
      forall j | 0 <= j < k ensures TotalSize(entries[j..]) > capacity {
        if j == 0 {
          assert entries[0..] == entries;
        } else {
          assert entries[1..][j - 1..] == entries[j..];
        }
      }
    } else {
      assert entries[0..] == entries;
    }
  }

  /** The later table remembers everything the earlier one had and it still keeps. */
  ghost predicate Extends(later: Table, earlier: Table) {
    && earlier.dropped <= later.dropped
    && earlier.Inserted() <= later.Inserted()
    && forall i: nat {:trigger later.ByAbsolute(i)} | later.dropped <= i < earlier.Inserted() ::
         later.ByAbsolute(i) == earlier.ByAbsolute(i)
  }

  lemma ExtendsTransitive(a: Table, b: Table, c: Table)
    requires Extends(a, b) && Extends(b, c)
    ensures Extends(a, c)
  {
    forall i: nat | a.dropped <= i < c.Inserted() ensures a.ByAbsolute(i) == c.ByAbsolute(i) {
      assert a.ByAbsolute(i) == b.ByAbsolute(i) == c.ByAbsolute(i);
    }
  }

  lemma EvictExtends(t: Table)
    ensures Extends(t.Evict(), t)
    ensures t.Evict().Inserted() == t.Inserted() && t.Evict().Fits()
  {
    EvictIsMinimal(t.capacity, t.entries);
  }

  /** An insertion numbers the new entry with the old insert count and renumbers nothing. */
  lemma AddExtends(t: Table, f: Field)
    ensures Extends(t.Add(f), t)
    ensures t.Add(f).Inserted() == t.Inserted() + 1
    ensures t.Add(f).Fits() && t.Add(f).capacity == t.capacity
  {
    var grown := t.(entries := t.entries + [f]);
    EvictExtends(grown);
    assert Extends(grown, t);
    ExtendsTransitive(grown.Evict(), grown, t);
  }

  /** The new entry survives exactly if it fits with its 32 bytes of overhead; if it does not, the table is emptied. */
  lemma AddKeepsNewest(t: Table, f: Field)
    ensures t.Add(f).ByAbsolute(t.Inserted()) == Some(f) <==> |f.name| + |f.value| + 32 <= t.capacity
    ensures |f.name| + |f.value| + 32 > t.capacity ==> t.Add(f).entries == []
  {
    var all := t.entries + [f];
    var k := EvictCount(t.capacity, all);
    EvictIsMinimal(t.capacity, all);
    assert all[|all| - 1..] == [f];
    SumOne(EntrySize, f);
    if k < |all| {
      assert all[k..] == all[k..|all| - 1] + [f];
      SumAppend(EntrySize, all[k..|all| - 1], [f]);
    }
  }

  lemma SetCapacityExtends(t: Table, c: nat)
    ensures Extends(t.SetCapacity(c), t)
    ensures t.SetCapacity(c).Inserted() == t.Inserted()
    ensures t.SetCapacity(c).Fits() && t.SetCapacity(c).capacity == c
  {
    EvictExtends(t.(capacity := c));
  }

  class DynamicTable {
    var capacity: nat
    var size: nat
    var entries: seq<Field>
    var insertCount: nat
    var droppedCount: nat

    /** The three counters are redundant; this is how they hang together. */
    ghost predicate Valid()
      reads this
    {
      size == TotalSize(entries) && insertCount == droppedCount + |entries|
    }

    ghost function Value(): Table
      reads this
    {
      Table(capacity, entries, droppedCount)
    }

    constructor ()
      ensures Valid() && Value() == EMPTY
    {
      capacity, size, entries, insertCount, droppedCount := 0, 0, [], 0, 0;
    }

    method SetCapacity(newCapacity: nat)
      requires Valid()
      modifies this
      ensures Valid() && Value() == old(Value()).SetCapacity(newCapacity)
    {
      capacity := newCapacity;
      EvictIfNeeded();
    }

    method Add(name: seq<Byte>, value: seq<Byte>)
      requires Valid()
      modifies this
      ensures Valid() && Value() == old(Value()).Add(Field(name, value))
    {
      var f := Field(name, value);
      SumAppend(EntrySize, entries, [f]);
      entries := entries + [f];
      size := size + EntrySize(f);
      insertCount := insertCount + 1;
      EvictIfNeeded();
    }

    method EvictIfNeeded()
      requires Valid()
      modifies this
      ensures Valid() && Value() == old(Value()).Evict()
    {
      while size > capacity && entries != []
        invariant Valid() && capacity == old(capacity)
        invariant Value().Evict() == old(Value()).Evict()
        decreases |entries|
      {
        ghost var before := entries;
        size := size - EntrySize(entries[0]);
        entries := entries[1..];
        droppedCount := droppedCount + 1;
        assert before[1 + EvictCount(capacity, entries)..] == entries[EvictCount(capacity, entries)..];
      }
    }

    method GetByAbsolute(index: nat) returns (e: Option<Field>)
      requires Valid()
      ensures e == Value().ByAbsolute(index)
    {
      if droppedCount <= index < insertCount {
        return Some(entries[index - droppedCount]);
      }
      return None;
    }

    method GetByRelative(base: nat, relative: nat) returns (e: Option<Field>)
      requires Valid()
      ensures e == Value().ByRelative(base, relative)
    {
      if base <= relative {
        return None;
      }
      e := GetByAbsolute(base - 1 - relative);
    }

    method GetByPostBase(base: nat, index: nat) returns (e: Option<Field>)
      requires Valid()
      ensures e == Value().ByPostBase(base, index)
    {
      e := GetByAbsolute(base + index);
    }
  }
}
