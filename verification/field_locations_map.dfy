/** `FieldLocationsMap`: a fixed-capacity open-addressing table from tag to
    (offset, length), with linear probing over parallel arrays. */
module FieldLocations {
  import opened Results

  const DEFAULT_CAPACITY: int := 100
  const EMPTY_RETURN: int := -1

  /** Slot states: the source declares a third (tombstone) state, but no
      operation ever writes it. */
  const EMPTY: int := 0
  const OCCUPIED: int := 1

  /** Java's integer quotient, rounded toward zero. */
  function JavaQuotient(a: int, b: int): int
    requires b > 0
  {
    if a >= 0 then a / b else -((-a) / b)
  }

  /** The home slot of a tag: `key % capacity` with Java's remainder, the one
      that satisfies `(a / b) * b + a % b == a` for the quotient rounded
      toward zero; it takes the sign of the key, so a negative key that is not
      a multiple of the capacity has a negative home slot. */
  function Hash(tag: int, capacity: int): (h: int)
    requires capacity > 0
    ensures -capacity < h < capacity
    ensures JavaQuotient(tag, capacity) * capacity + h == tag
    ensures tag >= 0 ==> h >= 0
    ensures tag <= 0 ==> h <= 0
  {
    if tag >= 0 then tag % capacity else -((-tag) % capacity)
  }

  /** A tag can live in the table only when its home slot is a slot. */
  predicate Storable(tag: int, capacity: int)
    requires capacity > 0
  {
    Hash(tag, capacity) >= 0
  }

  /** The slot reached after `d` probe steps from `h`, wrapping at the end. */
  function Probe(h: int, d: int, capacity: int): (s: int)
    requires 0 <= h < capacity && 0 <= d <= capacity
    ensures 0 <= s < capacity
    ensures d < capacity && s == h ==> d == 0
  {
    if h + d < capacity then h + d else h + d - capacity
  }

  /** The number of probe steps from `h` to slot `i`. */
  function Distance(h: int, i: int, capacity: int): (d: int)
    requires 0 <= h < capacity && 0 <= i < capacity
    ensures 0 <= d < capacity && Probe(h, d, capacity) == i
  {
    if i >= h then i - h else i - h + capacity
  }

  /** Fewer than `capacity` probe steps never revisit a slot. */
  lemma ProbeInjective(h: int, k: int, d: int, capacity: int)
    requires 0 <= h < capacity && 0 <= k < d < capacity
    ensures Probe(h, k, capacity) != Probe(h, d, capacity)
  {
  }

  /** One probe step, `(index + 1) % capacity`, is one more step of `Probe`. */
  lemma NextProbe(h: int, d: int, capacity: int)
    requires 0 <= h < capacity && 0 <= d < capacity
    ensures (Probe(h, d, capacity) + 1) % capacity == Probe(h, d + 1, capacity)
  {
  }

  /** The slot numbers `0 .. n-1`. */
  function Slots(n: nat): (r: set<int>)
    ensures forall i :: i in r <==> 0 <= i < n
  {
    if n == 0 then {} else Slots(n - 1) + {n - 1}
  }

  lemma {:induction false} SlotsCount(n: nat)
    ensures |Slots(n)| == n
  {
    if n > 0 {
      SlotsCount(n - 1);
    }
  }

  /** A set inside another is no larger. */
  lemma SubsetSize(a: set<int>, b: set<int>)
    requires a <= b
    ensures |a| <= |b|
  {
    assert b == a + (b - a);
  }

  /** Slot states are only ever empty or occupied, and `occupied` lists the
      occupied slots. */
  ghost predicate Clean(states: seq<int>, occupied: set<int>) {
    && (forall i :: 0 <= i < |states| ==> states[i] == EMPTY || states[i] == OCCUPIED)
    && (forall i :: 0 <= i < |states| ==> (states[i] == OCCUPIED <==> i in occupied))
    && (forall i :: i in occupied ==> 0 <= i < |states|)
  }

  /** Each entry lives in its own occupied slot, and every occupied slot
      holds an entry: tags are unique. */
  ghost predicate Placed(tags: seq<int>, offsets: seq<int>, lengths: seq<int>, states: seq<int>, capacity: int,
                         slotOf: map<int, int>, contents: map<int, (int, int)>)
    requires |tags| == |offsets| == |lengths| == |states| == capacity > 0
  {
    && slotOf.Keys == contents.Keys
    && (forall t :: t in slotOf ==>
          Storable(t, capacity) && 0 <= slotOf[t] < capacity && states[slotOf[t]] == OCCUPIED && tags[slotOf[t]] == t
          && contents[t] == (offsets[slotOf[t]], lengths[slotOf[t]]))
    && (forall i :: 0 <= i < capacity && states[i] == OCCUPIED ==> tags[i] in slotOf && slotOf[tags[i]] == i)
  }

  /** Occupying an empty slot keeps the states clean. */
  lemma CleanInsert(states: seq<int>, occupied: set<int>, index: int)
    requires Clean(states, occupied) && 0 <= index < |states| && states[index] == EMPTY
    ensures Clean(states[index := OCCUPIED], occupied + {index})
  {
  }

  /** Putting an absent tag into an empty slot places the new entry and moves
      no other. */
  lemma PlacedInsert(tags: seq<int>, offsets: seq<int>, lengths: seq<int>, states: seq<int>, capacity: int,
                     slotOf: map<int, int>, contents: map<int, (int, int)>,
                     index: int, tag: int, offset: int, length: int)
    requires |tags| == |offsets| == |lengths| == |states| == capacity > 0
    requires Placed(tags, offsets, lengths, states, capacity, slotOf, contents)
    requires 0 <= index < capacity && states[index] == EMPTY
    requires Storable(tag, capacity) && tag !in slotOf
    ensures Placed(tags[index := tag], offsets[index := offset], lengths[index := length], states[index := OCCUPIED],
                   capacity, slotOf[tag := index], contents[tag := (offset, length)])
  {
  }

  /** Overwriting the location in a tag's own slot keeps every entry placed. */
  lemma PlacedUpdate(tags: seq<int>, offsets: seq<int>, lengths: seq<int>, states: seq<int>, capacity: int,
                     slotOf: map<int, int>, contents: map<int, (int, int)>,
                     index: int, tag: int, offset: int, length: int)
    requires |tags| == |offsets| == |lengths| == |states| == capacity > 0
    requires Placed(tags, offsets, lengths, states, capacity, slotOf, contents)
    requires 0 <= index < capacity && states[index] == OCCUPIED && tags[index] == tag
    ensures Placed(tags, offsets[index := offset], lengths[index := length], states,
                   capacity, slotOf, contents[tag := (offset, length)])
  {
  }

  /** Probe chains over slot states `states`, with `slotOf` giving each
      tag's slot: every slot from a tag's home slot up to (not including) its
      own slot is occupied. */
  ghost predicate Chains(states: seq<int>, slotOf: map<int, int>, capacity: int)
    requires |states| == capacity > 0
  {
    forall t, d :: t in slotOf && Storable(t, capacity) && 0 <= slotOf[t] < capacity
                   && 0 <= d < Distance(Hash(t, capacity), slotOf[t], capacity) ==>
      states[Probe(Hash(t, capacity), d, capacity)] == OCCUPIED
  }

  /** Occupying the empty slot that an absent tag's probe reached past
      occupied slots only keeps every chain unbroken. */
  lemma ChainsInsert(states: seq<int>, slotOf: map<int, int>, capacity: int, tag: int, index: int, d: int)
    requires |states| == capacity > 0 && Chains(states, slotOf, capacity)
    requires Storable(tag, capacity) && tag !in slotOf
    requires 0 <= d < capacity && index == Probe(Hash(tag, capacity), d, capacity)
    requires forall k :: 0 <= k < d ==> states[Probe(Hash(tag, capacity), k, capacity)] == OCCUPIED
    ensures Chains(states[index := OCCUPIED], slotOf[tag := index], capacity)
  {
    var h := Hash(tag, capacity);
    var after := states[index := OCCUPIED];
    var slots := slotOf[tag := index];
    assert Distance(h, index, capacity) == d;
    forall t, k | t in slots && Storable(t, capacity) && 0 <= slots[t] < capacity
                  && 0 <= k < Distance(Hash(t, capacity), slots[t], capacity)
      ensures after[Probe(Hash(t, capacity), k, capacity)] == OCCUPIED
    {
      if t == tag {
        ProbeInjective(h, k, d, capacity);
      }
    }
  }

  class FieldLocationsMap {
    const capacity: int
    const tags: array<int>
    const offsets: array<int>
    const lengths: array<int>
    const states: array<int>
    var size: int

    /** The entries the table holds, tag to (offset, length). */
    ghost var contents: map<int, (int, int)>
    /** The slot holding each tag. */
    ghost var slotOf: map<int, int>
    /** The occupied slots. */
    ghost var occupied: set<int>

    /** Four parallel arrays of one length `capacity`. */
    ghost predicate Shape()
      reads this
    {
      && capacity > 0
      && tags.Length == capacity && offsets.Length == capacity
      && lengths.Length == capacity && states.Length == capacity
      && tags != offsets && tags != lengths && tags != states
      && offsets != lengths && offsets != states && lengths != states
    }

    /** Slot states are only ever empty or occupied, and `occupied` lists the
        occupied ones. */
    ghost predicate StatesClean()
      requires Shape()
      reads this, states
    {
      Clean(states[..], occupied)
    }

    /** Each entry lives in its own occupied slot, and every occupied slot
        holds an entry: tags are unique. */
    ghost predicate EntriesPlaced()
      requires Shape()
      reads this, tags, offsets, lengths, states
    {
      Placed(tags[..], offsets[..], lengths[..], states[..], capacity, slotOf, contents)
    }

    /** Probe chains are unbroken: every slot from a tag's home slot up to
        (not including) its own slot is occupied. */
    ghost predicate ChainsUnbroken()
      requires Shape()
      reads this, states
    {
      Chains(states[..], slotOf, capacity)
    }

    ghost predicate Valid()
      reads this, tags, offsets, lengths, states
    {
      && Shape() && StatesClean() && EntriesPlaced() && ChainsUnbroken()
      // size counts both the occupied slots and the entries
      && size == |occupied| && size == |contents|
    }

    /** `new FieldLocationsMap(maxNumberOfFieldsExpected)`. */
    constructor (maxNumberOfFieldsExpected: int)
      requires maxNumberOfFieldsExpected > 0
      ensures Valid() && fresh(tags) && fresh(offsets) && fresh(lengths) && fresh(states)
      ensures capacity == maxNumberOfFieldsExpected && size == 0 && contents == map[]
    {
      capacity := maxNumberOfFieldsExpected;
      tags := new int[maxNumberOfFieldsExpected](_ => 0);
      offsets := new int[maxNumberOfFieldsExpected](_ => 0);
      lengths := new int[maxNumberOfFieldsExpected](_ => 0);
      states := new int[maxNumberOfFieldsExpected](_ => EMPTY);
      size := 0;
      contents := map[];
      slotOf := map[];
      occupied := {};
    }

    /** `new FieldLocationsMap()`. */
    constructor Default()
      ensures Valid() && fresh(tags) && fresh(offsets) && fresh(lengths) && fresh(states)
      ensures capacity == DEFAULT_CAPACITY && size == 0 && contents == map[]
    {
      capacity := DEFAULT_CAPACITY;
      tags := new int[DEFAULT_CAPACITY](_ => 0);
      offsets := new int[DEFAULT_CAPACITY](_ => 0);
      lengths := new int[DEFAULT_CAPACITY](_ => 0);
      states := new int[DEFAULT_CAPACITY](_ => EMPTY);
      size := 0;
      contents := map[];
      slotOf := map[];
      occupied := {};
    }

    /** Fewer occupied slots than slots leaves an empty one. */
    lemma EmptySlotExists() returns (e: int)
      requires Valid() && size < capacity
      ensures 0 <= e < capacity && states[e] == EMPTY
    {
      SlotsCount(capacity);
      if forall i :: 0 <= i < capacity ==> states[i] == OCCUPIED {
        SubsetSize(Slots(capacity), occupied);
        assert false;
      }
      e :| 0 <= e < capacity && states[e] != OCCUPIED;
    }

    /** A tag whose probe from its home slot meets an empty slot, or returns to
        its start, before meeting the tag is not in the table. */
    lemma AbsentAfterProbe(tag: int, d: int)
      requires Valid() && Storable(tag, capacity) && 0 <= d <= capacity
      requires forall k :: 0 <= k < d ==> tags[Probe(Hash(tag, capacity), k, capacity)] != tag ||
                                            states[Probe(Hash(tag, capacity), k, capacity)] != OCCUPIED
      requires d == capacity || states[Probe(Hash(tag, capacity), d, capacity)] == EMPTY
      ensures tag !in contents
    {
      if tag in contents {
        var k := Distance(Hash(tag, capacity), slotOf[tag], capacity);
      }
    }

    /** The probe loop of `put`: from the home slot `h`, stop at the first
        empty slot or at the slot holding `tag`, passing only occupied slots
        of other tags. No tombstone is ever met. */
    method FindSlot(tag: int, h: int) returns (index: int, firstTombstone: int, ghost d: int)
      requires Valid() && size < capacity && Storable(tag, capacity) && h == Hash(tag, capacity)
      ensures 0 <= d < capacity && index == Probe(h, d, capacity) && firstTombstone == -1
      ensures forall k :: 0 <= k < d ==> states[Probe(h, k, capacity)] == OCCUPIED && tags[Probe(h, k, capacity)] != tag
      ensures states[index] == EMPTY || (states[index] == OCCUPIED && tags[index] == tag)
    {
      index := h;
      firstTombstone := -1;
      d := 0;
      ghost var e := EmptySlotExists();
      ghost var de := Distance(h, e, capacity);
      while true
        invariant 0 <= d <= de && index == Probe(h, d, capacity)
        invariant firstTombstone == -1
        invariant forall k :: 0 <= k < d ==> states[Probe(h, k, capacity)] == OCCUPIED && tags[Probe(h, k, capacity)] != tag
        decreases de - d
      {
        var state := states[index];
        if state == EMPTY {
          break;
        } else if state == OCCUPIED {
          if tags[index] == tag {
            break;
          }
        } else {
          assert false;
        }
        NextProbe(h, d, capacity);
        index := (index + 1) % capacity;
        d := d + 1;
      }
    }

    /** `put(tag, offset, length)`: fails when the table is full, even for a
        tag it already holds, since the capacity check comes first; then fails
        reading the slot state for a tag whose home slot is negative. */
    method Put(tag: int, offset: int, length: int) returns (r: Result<()>)
      requires Valid()
      modifies this, tags, offsets, lengths, states
      ensures Valid()
      ensures old(size) == capacity || !Storable(tag, capacity) <==> r.Failure?
      ensures r.Failure? ==> r.error == (if old(size) == capacity then CapacityExceeded else IndexOutOfBounds)
      ensures r.Failure? ==> contents == old(contents) && size == old(size)
      ensures r.Success? ==> contents == old(contents)[tag := (offset, length)]
      ensures r.Success? ==> size == old(size) + (if tag in old(contents) then 0 else 1)
      ensures size <= capacity
    {
      OccupiedBound();
      if size + 1 > capacity {
        return Failure(CapacityExceeded);
      }
      var h := Hash(tag, capacity);
      if h < 0 {
        return Failure(IndexOutOfBounds);
      }
      var index, firstTombstone, d := FindSlot(tag, h);
      if states[index] == EMPTY {
        var insertIndex := if firstTombstone != -1 then firstTombstone else index;
        AbsentAfterProbe(tag, d);
        InsertAt(insertIndex, tag, offset, length, d);
      } else {
        UpdateAt(index, tag, offset, length);
      }
      return Success(());
    }

    /** The insertion branch of `put`: an absent tag goes into the empty slot
        its probe reached after `d` occupied slots. */
    method InsertAt(index: int, tag: int, offset: int, length: int, ghost d: int)
      requires Valid() && Storable(tag, capacity) && tag !in contents
      requires 0 <= d < capacity && index == Probe(Hash(tag, capacity), d, capacity) && states[index] == EMPTY
      requires forall k :: 0 <= k < d ==> states[Probe(Hash(tag, capacity), k, capacity)] == OCCUPIED
      modifies this, tags, offsets, lengths, states
      ensures Valid()
      ensures contents == old(contents)[tag := (offset, length)] && size == old(size) + 1
    {
      ghost var before := states[..];
      ghost var tags0, offsets0, lengths0 := tags[..], offsets[..], lengths[..];
      ghost var placed, held, occupied0 := slotOf, contents, occupied;
      tags[index] := tag;
      offsets[index] := offset;
      lengths[index] := length;
      states[index] := OCCUPIED;
      size := size + 1;
      contents := contents[tag := (offset, length)];
      slotOf := slotOf[tag := index];
      occupied := occupied + {index};
      assert tags[..] == tags0[index := tag] && offsets[..] == offsets0[index := offset];
      assert lengths[..] == lengths0[index := length] && states[..] == before[index := OCCUPIED];
      CleanInsert(before, occupied0, index);
      PlacedInsert(tags0, offsets0, lengths0, before, capacity, placed, held, index, tag, offset, length);
      ChainsInsert(before, placed, capacity, tag, index, d);
    }

    /** The overwrite branch of `put`: the tag keeps its slot. */
    method UpdateAt(index: int, tag: int, offset: int, length: int)
      requires Valid() && 0 <= index < capacity && states[index] == OCCUPIED && tags[index] == tag
      modifies this, offsets, lengths
      ensures Valid()
      ensures contents == old(contents)[tag := (offset, length)] && size == old(size)
    {
      ghost var offsets0, lengths0, held := offsets[..], lengths[..], contents;
      PlacedUpdate(tags[..], offsets0, lengths0, states[..], capacity, slotOf, held, index, tag, offset, length);
      offsets[index] := offset;
      lengths[index] := length;
      contents := contents[tag := (offset, length)];
      assert offsets[..] == offsets0[index := offset] && lengths[..] == lengths0[index := length];
    }

    /** `getIndex(tag)`: the slot holding `tag`, or -1; the probe stops at an
        empty slot and never goes round the table more than once. A negative
        home slot makes the first state read fail. */
    method GetIndex(tag: int) returns (r: Result<int>)
      requires Valid()
      ensures r.Failure? <==> !Storable(tag, capacity)
      ensures r.Failure? ==> r.error == IndexOutOfBounds && tag !in contents
      ensures r.Success? ==> (r.value == EMPTY_RETURN <==> tag !in contents)
      ensures r.Success? && r.value != EMPTY_RETURN ==>
                && 0 <= r.value < capacity && states[r.value] == OCCUPIED && tags[r.value] == tag
                && contents[tag] == (offsets[r.value], lengths[r.value])
    {
      var index := Hash(tag, capacity);
      if index < 0 {
        return Failure(IndexOutOfBounds);
      }
      var start := index;
      ghost var d := 0;
      while states[index] != EMPTY
        invariant 0 <= d < capacity && index == Probe(start, d, capacity)
        invariant forall k :: 0 <= k < d ==> tags[Probe(start, k, capacity)] != tag || states[Probe(start, k, capacity)] != OCCUPIED
        decreases capacity - d
      {
        if states[index] == OCCUPIED && tags[index] == tag {
          return Success(index);
        }
        NextProbe(start, d, capacity);
        index := (index + 1) % capacity;
        d := d + 1;
        if index == start {
          AbsentAfterProbe(tag, d);
          return Success(EMPTY_RETURN);
        }
      }
      AbsentAfterProbe(tag, d);
      return Success(EMPTY_RETURN);
    }

    /** `containsKey(tag)`. */
    method ContainsKey(tag: int) returns (r: Result<bool>)
      requires Valid()
      ensures r.Failure? <==> !Storable(tag, capacity)
      ensures r.Failure? ==> r.error == IndexOutOfBounds
      ensures r.Success? ==> (r.value <==> tag in contents)
    {
      var index := Hash(tag, capacity);
      if index < 0 {
        return Failure(IndexOutOfBounds);
      }
      var start := index;
      ghost var d := 0;
      while states[index] != EMPTY
        invariant 0 <= d < capacity && index == Probe(start, d, capacity)
        invariant forall k :: 0 <= k < d ==> tags[Probe(start, k, capacity)] != tag || states[Probe(start, k, capacity)] != OCCUPIED
        decreases capacity - d
      {
        if states[index] == OCCUPIED && tags[index] == tag {
          return Success(true);
        }
        NextProbe(start, d, capacity);
        index := (index + 1) % capacity;
        d := d + 1;
        if index == start {
          AbsentAfterProbe(tag, d);
          return Success(false);
        }
      }
      AbsentAfterProbe(tag, d);
      return Success(false);
    }

    /** `getOffset(index)`: the array access fails outside the table. */
    method GetOffset(index: int) returns (r: Result<int>)
      requires Valid()
      ensures r.Success? <==> 0 <= index < capacity
      ensures r.Success? && states[index] == OCCUPIED ==> r.value == contents[tags[index]].0
    {
      if index < 0 || index >= capacity {
        return Failure(IndexOutOfBounds);
      }
      if states[index] == OCCUPIED {
        var t := tags[index];
        assert t in slotOf && slotOf[t] == index;
        assert Storable(t, capacity) && 0 <= slotOf[t] < capacity && states[slotOf[t]] == OCCUPIED && tags[slotOf[t]] == t
            && contents[t] == (offsets[slotOf[t]], lengths[slotOf[t]]);
      }
      return Success(offsets[index]);
    }

    /** `getLength(index)`. */
    method GetLength(index: int) returns (r: Result<int>)
      requires Valid()
      ensures r.Success? <==> 0 <= index < capacity
      ensures r.Success? && states[index] == OCCUPIED ==> r.value == contents[tags[index]].1
    {
      if index < 0 || index >= capacity {
        return Failure(IndexOutOfBounds);
      }
      if states[index] == OCCUPIED {
        var t := tags[index];
        assert t in slotOf && slotOf[t] == index;
        assert Storable(t, capacity) && 0 <= slotOf[t] < capacity && states[slotOf[t]] == OCCUPIED && tags[slotOf[t]] == t
            && contents[t] == (offsets[slotOf[t]], lengths[slotOf[t]]);
      }
      return Success(lengths[index]);
    }

    /** `size()`: the number of entries. */
    method Size() returns (r: int)
      requires Valid()
      ensures r == |contents| && 0 <= r <= capacity
    {
      OccupiedBound();
      return size;
    }

    lemma OccupiedBound()
      requires Valid()
      ensures size <= capacity
    {
      SlotsCount(capacity);
      SubsetSize(occupied, Slots(capacity));
    }

    /** `clear()`: every slot empty, offsets and lengths reset to -1. */
    method Clear()
      requires Valid()
      modifies this, offsets, lengths, states
      ensures Valid() && size == 0 && contents == map[]
      ensures forall i :: 0 <= i < capacity ==> states[i] == EMPTY && offsets[i] == -1 && lengths[i] == -1
    {
      forall i | 0 <= i < capacity {
        states[i] := EMPTY;
      }
      forall i | 0 <= i < capacity {
        offsets[i] := -1;
      }
      forall i | 0 <= i < capacity {
        lengths[i] := -1;
      }
      size := 0;
      contents := map[];
      slotOf := map[];
      occupied := {};
    }
  }
}
