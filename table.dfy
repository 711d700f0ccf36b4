/**
 * The open-addressing hash table of hashtable.go: a slot array whose
 * length comes from the capacity planner, two counters, and the
 * operations `New`, `Insert`, `Search` and `Delete` with their helpers.
 *
 * The slot array is an `array` updated in place, as the source's slice is;
 * every method is proved equal to the functions of module `Slots` over
 * `slots[..]`, and keeps the invariant `Valid`: the length is one the probe
 * walk terminates on, and the active counter is the number of slots
 * holding a value.
 */
module Table {
  import opened Fnv
  import opened Planner
  import opened Probing
  import opened Slots

  /**
   * `computeLoadFactor() >= 0.6`: the load factor `occupied / length` has
   * reached the growth threshold, in exact arithmetic.
   */
  predicate NeedsGrowth(occupied: nat, length: nat)
  {
    5 * occupied >= 3 * length
  }

  /** `computeLoadFactor() <= 0.12`: the load factor is down to the shrink threshold. */
  predicate NeedsShrink(occupied: nat, length: nat)
  {
    25 * occupied <= 3 * length
  }

  /**
   * The load factor `occupied / length` of `computeLoadFactor`, as an exact
   * ratio, crosses the thresholds 0.6 and 0.12 exactly where the integer
   * comparisons `NeedsGrowth` and `NeedsShrink` say it does.
   */
  lemma LoadFactorThresholds(occupied: nat, length: nat)
    requires length > 0
    ensures NeedsGrowth(occupied, length) <==> (occupied as real) / (length as real) >= 0.6
    ensures NeedsShrink(occupied, length) <==> (occupied as real) / (length as real) <= 0.12
  {
    var n, l := occupied as real, length as real;
    var load := n / l;
    assert load * l == n;
    assert (5 * occupied - 3 * length) as real == (5.0 * load - 3.0) * l;
    assert (3 * length - 25 * occupied) as real == (3.0 - 25.0 * load) * l;
    PositiveFactor(5.0 * load - 3.0, l);
    PositiveFactor(3.0 - 25.0 * load, l);
  }

  /** Multiplying by a positive number keeps the sign. */
  lemma PositiveFactor(x: real, y: real)
    requires y > 0.0
    ensures x * y >= 0.0 <==> x >= 0.0
  {
    if x < 0.0 {
      assert x * y == -((-x) * y);
    }
  }

  /** How `Delete` ends: the entry removed, "key not found", or the panic of `getPrime` while shrinking. */
  datatype Deletion = Deleted | KeyNotFound | Panicked

  class HashTable<V> {
    var length: nat
    var slots: array<Entry<V>>
    var active: nat
    var occupied: nat

    /**
     * The table's invariant: the slot count is a length the walk terminates
     * on, the active counter is the number of slots holding a value, and
     * `active <= occupied <= length`. A delete never lowers the occupied
     * counter; what keeps it within the length is that `Insert` grows before
     * it fills once the load factor reaches 0.6.
     */
    ghost predicate Valid()
      reads this, slots
    {
      slots.Length == length && ValidLength(length) && length < MaxUint64 &&
      active == CountLive(slots[..]) && active <= occupied <= length
    }

    /** `New(hint)`: a fresh table whose length is the first curated length at least `hint`. */
    constructor (hint: nat)
      requires hint <= LargestListed
      ensures Valid() && fresh(slots)
      ensures length == SmallestListedAtLeast(hint) && hint <= length
      ensures slots[..] == Empty(length) && active == 0 && occupied == 0
    {
      SmallestListedAtLeastSpec(hint);
      var primeLength := PickLargestLength(hint);
      length := primeLength;
      slots := new Entry<V>[primeLength](_ => Entry([], None));
      active := 0;
      occupied := 0;
      new;
      assert slots[..] == Empty(length);
      CountLiveEmpty<V>(length);
    }

    /** `doubleHashing`: attempt `collisionCount` of the probe walk of `key`. */
    method DoubleHashing(key: Key, collisionCount: nat) returns (r: nat)
      requires length >= 2
      ensures r == Probe(Digest(key), length, collisionCount)
    {
      var hashKey := FnvHash(key);
      var hash1 := (hashKey as nat) % length;
      var hash2 := 1 + (hashKey as nat) % (length - 1);
      CubeAtLeast(collisionCount);
      var tetrahedral := (collisionCount * collisionCount * collisionCount - collisionCount) / 6;
      r := (hash1 + collisionCount * hash2 + tetrahedral) % length;
    }

    /** `computeNextSizeUp`: the planner's answer for twice the length. */
    method ComputeNextSizeUp() returns (r: Planned)
      requires ValidLength(length) && 2 * length < MaxUint64
      ensures r == PlannedLength(2 * length, true)
      ensures r.Length? ==> ValidLength(r.n) && 2 * length <= r.n < MaxUint64
    {
      GrowthLengthValid(length);
      r := GetPrime(2 * length, true);
    }

    /** `computeNextSizeDown`: the planner's answer for half the length. */
    method ComputeNextSizeDown() returns (r: Planned)
      requires ValidLength(length) && length < MaxUint64
      ensures r == PlannedLength(length / 2, false)
      ensures r.Length? ==> ValidLength(r.n) && r.n < MaxUint64
    {
      ShrinkLengthValid(length);
      r := GetPrime(length / 2, false);
    }

    /** `insertItem`: store `(key, v)` in slot `index` and count it in both counters. */
    method InsertItem(a: array<Entry<V>>, index: nat, key: Key, v: V)
      requires index < a.Length
      modifies a, this`active, this`occupied
      ensures a[..] == Fill(old(a[..]), index, key, v)
      ensures active == old(active) + 1 && occupied == old(occupied) + 1
    {
      a[index] := Entry(key, Some(v));
      active := active + 1;
      occupied := occupied + 1;
    }

    /** `updateValue`: overwrite the value of slot `index` when it holds `key`. */
    method UpdateValue(a: array<Entry<V>>, index: nat, key: Key, v: V)
      requires index < a.Length
      modifies a
      ensures a[..] == Update(old(a[..]), index, key, v)
    {
      if a[index].value.Some? && a[index].key == key {
        a[index] := a[index].(value := Some(v));
      }
    }

    /**
     * `insert`: walk the probe sequence of `key` over `a`, updating the slots
     * that hold `key`, until an empty slot receives it or the walk is back home.
     */
    method InsertInto(a: array<Entry<V>>, key: Key, v: V)
      requires a.Length == length && ValidLength(length)
      modifies a, this`active, this`occupied
      ensures a[..] == Place(old(a[..]), KeyPath(key, length), key, v).0
      ensures var added := if Place(old(a[..]), KeyPath(key, length), key, v).1 then 1 else 0;
        active == old(active) + added && occupied == old(occupied) + added
    {
      ghost var h := Digest(key);
      KeyPathShape(key, length);
      var homeLocation := DoubleHashing(key, 0);
      PlaceCons(a[..], homeLocation, PathFrom(h, length, 1), key, v);
      if a[homeLocation].value.None? {
        InsertItem(a, homeLocation, key, v);
        return;
      }
      UpdateValue(a, homeLocation, key, v);
      InsertProbing(a, key, v, homeLocation);
    }

    /** The probing loop of `insert`, from attempt 1 until the walk is back at `homeLocation`. */
    method InsertProbing(a: array<Entry<V>>, key: Key, v: V, homeLocation: nat)
      requires a.Length == length && ValidLength(length)
      requires homeLocation == Probe(Digest(key), length, 0)
      modifies a, this`active, this`occupied
      ensures InTable(PathFrom(Digest(key), length, 1), length)
      ensures var r := Place(old(a[..]), PathFrom(Digest(key), length, 1), key, v);
        a[..] == r.0 && active == old(active) + (if r.1 then 1 else 0) &&
        occupied == old(occupied) + (if r.1 then 1 else 0)
    {
      ghost var h := Digest(key);
      ghost var rest := PathFrom(h, length, 1);
      ghost var target := Place(a[..], rest, key, v);
      var collisionCount := 0;
      while true
        invariant 0 <= collisionCount < length
        invariant rest == PathFrom(h, length, collisionCount + 1)
        invariant Place(a[..], rest, key, v) == target
        invariant active == old(active) && occupied == old(occupied)
        decreases length - collisionCount
      {
        collisionCount := collisionCount + 1;
        PathFromStep(h, length, collisionCount);
        var deltaLocation := DoubleHashing(key, collisionCount);
        if deltaLocation == homeLocation {
          assert rest == [];
          break;
        }
        assert rest == [deltaLocation] + PathFrom(h, length, collisionCount + 1);
        ghost var prev := a[..];
        rest := PathFrom(h, length, collisionCount + 1);
        PlaceCons(prev, deltaLocation, rest, key, v);
        UpdateValue(a, deltaLocation, key, v);
        if a[deltaLocation].value.None? {
          assert a[..] == prev;
          InsertItem(a, deltaLocation, key, v);
          assert target == (a[..], true);
          return;
        }
        assert Place(a[..], rest, key, v) == target;
      }
    }

    /**
     * `resize`: re-insert every slot holding a value, in index order, into a
     * fresh array of `newSize` slots; both counters restart from the
     * re-inserted entries.
     */
    method Resize(newSize: nat)
      requires ValidLength(newSize) && slots.Length == length
      modifies this
      ensures length == newSize && fresh(slots)
      ensures slots[..] == Rebuild(old(slots[..]), newSize)
      ensures active == occupied == CountLive(slots[..])
    {
      var oldSlots := slots;
      length := newSize;
      active := 0;
      occupied := 0;
      var newSlots := new Entry<V>[newSize](_ => Entry([], None));
      Reinsert(oldSlots, newSlots);
      slots := newSlots;
    }

    /** The loop of `resize`: `insert` each old slot that holds a value into the empty array `a`. */
    method Reinsert(prior: array<Entry<V>>, a: array<Entry<V>>)
      requires ValidLength(length) && a.Length == length && a != prior
      requires active == 0 && occupied == 0 && forall q :: 0 <= q < a.Length ==> a[q] == Entry([], None)
      modifies a, this`active, this`occupied
      ensures a[..] == Rebuild(prior[..], length)
      ensures active == occupied == CountLive(a[..])
    {
      assert a[..] == Empty(length);
      CountLiveEmpty<V>(length);
      for i := 0 to prior.Length
        invariant a[..] == RebuildPrefix(prior[..], length, i)
        invariant active == occupied == CountLive(a[..])
      {
        var item := prior[i];
        if item.value.None? {
          continue;
        }
        ghost var before := a[..];
        ghost var path := KeyPath(item.key, length);
        assert RebuildPrefix(prior[..], length, i + 1) == Place(before, path, item.key, item.value.value).0;
        PlaceCount(before, path, item.key, item.value.value);
        InsertInto(a, item.key, item.value.value);
      }
    }

    /**
     * The growth step of `Insert`: `resize(computeNextSizeUp())`. Returns
     * false, changing nothing, when `getPrime` panics.
     */
    method Grow() returns (ok: bool)
      requires Valid() && 2 * length < MaxUint64
      modifies this
      ensures Valid()
      ensures ok <==> PlannedLength(2 * old(length), true).Length?
      ensures !ok ==> length == old(length) && slots == old(slots) &&
                      active == old(active) && occupied == old(occupied)
      ensures ok ==> length == PlannedLength(2 * old(length), true).n && 2 * old(length) <= length &&
                     fresh(slots) && slots[..] == Rebuild(old(slots[..]), length) && occupied == active
    {
      var newLength := ComputeNextSizeUp();
      if newLength.PrimeNotFound? {
        return false;
      }
      Resize(newLength.n);
      ok := true;
    }

    /**
     * `Insert`: grow first when the load factor has reached 0.6, then
     * `insert`. Returns false when `getPrime` panics while growing, leaving
     * the table as it was.
     */
    method Insert(key: Key, v: V) returns (ok: bool)
      requires Valid() && 2 * length < MaxUint64
      modifies this, slots
      ensures Valid()
      ensures ok <==> !NeedsGrowth(old(occupied), old(length)) || PlannedLength(2 * old(length), true).Length?
      ensures !ok ==> length == old(length) && slots == old(slots) && slots[..] == old(slots[..]) &&
                      active == old(active) && occupied == old(occupied)
      ensures ok && !NeedsGrowth(old(occupied), old(length)) ==>
        length == old(length) && slots == old(slots) &&
        slots[..] == Place(old(slots[..]), KeyPath(key, length), key, v).0 &&
        occupied - active == old(occupied) - old(active)
      ensures ok && NeedsGrowth(old(occupied), old(length)) ==>
        length == PlannedLength(2 * old(length), true).n && 2 * old(length) <= length &&
        slots[..] == Place(Rebuild(old(slots[..]), length), KeyPath(key, length), key, v).0 &&
        occupied == active
      ensures ok ==> FoundOrFull(slots[..], KeyPath(key, length), key, v)
    {
      if NeedsGrowth(occupied, length) {
        ok := Grow();
        if !ok {
          return;
        }
      }
      ghost var before := slots[..];
      ghost var path := KeyPath(key, length);
      PlaceCount(before, path, key, v);
      InsertFoundOrFull(before, path, key, v);
      InsertInto(slots, key, v);
      ok := true;
    }

    /**
     * The walk that `Search` and `Delete` both run: the home slot, then
     * attempts 1, 2, ... until a slot is empty (not found), holds `key`
     * (found), or the walk is back home (not found).
     */
    method FindSlot(key: Key) returns (r: Option<nat>)
      requires Valid()
      ensures r == Locate(slots[..], KeyPath(key, length), key)
    {
      ghost var h := Digest(key);
      ghost var s := slots[..];
      var homeLocation := DoubleHashing(key, 0);
      ghost var rest := PathFrom(h, length, 1);
      LocateCons(s, homeLocation, rest, key);
      var item := slots[homeLocation];
      if item.value.None? {
        return None;
      }
      if item.key == key {
        return Some(homeLocation);
      }
      ghost var target := Locate(s, rest, key);
      var collisionCount := 0;
      while true
        invariant 0 <= collisionCount < length
        invariant rest == PathFrom(h, length, collisionCount + 1)
        invariant Locate(s, rest, key) == target
        decreases length - collisionCount
      {
        collisionCount := collisionCount + 1;
        PathFromStep(h, length, collisionCount);
        var deltaLocation := DoubleHashing(key, collisionCount);
        if deltaLocation == homeLocation {
          assert rest == [];
          return None;
        }
        assert rest == [deltaLocation] + PathFrom(h, length, collisionCount + 1);
        rest := PathFrom(h, length, collisionCount + 1);
        LocateCons(s, deltaLocation, rest, key);
        item := slots[deltaLocation];
        if item.value.None? {
          return None;
        }
        if item.key == key {
          return Some(deltaLocation);
        }
      }
    }

    /** `Search`: the value stored under `key`, or `None` for "key not found". */
    method Search(key: Key) returns (r: Option<V>)
      requires Valid()
      ensures r == Lookup(slots[..], KeyPath(key, length), key)
    {
      var found := FindSlot(key);
      if found.None? {
        return None;
      }
      r := slots[found.value].value;
    }

    /**
     * The state `deleteItem` leaves after emptying slot `q` of `prior`: when
     * the load factor, still computed from the unchanged occupied counter,
     * is at most 0.12, the cleared slots are rebuilt into the planner's
     * smaller length, or `getPrime` panics and the cleared table stays.
     */
    ghost predicate DeletedFrom(prior: seq<Entry<V>>, q: nat, oldLength: nat, oldActive: nat, oldOccupied: nat, d: Deletion)
      requires q < |prior|
      reads this, slots
    {
      var cleared := Clear(prior, q);
      if NeedsShrink(oldOccupied, oldLength) && PlannedLength(oldLength / 2, false).Length? then
        d == Deleted && length == PlannedLength(oldLength / 2, false).n && ValidLength(length) &&
        slots[..] == Rebuild(cleared, length) && active == occupied == CountLive(slots[..])
      else
        d == (if NeedsShrink(oldOccupied, oldLength) then Panicked else Deleted) &&
        length == oldLength && slots[..] == cleared && active + 1 == oldActive && occupied == oldOccupied
    }

    /**
     * `deleteItem`: set the value of slot `index` to nil, decrement the
     * active counter, and shrink when the load factor is at most 0.12.
     */
    method DeleteItem(index: nat) returns (d: Deletion)
      requires Valid() && index < length && Live(slots[index])
      modifies this, slots
      ensures Valid()
      ensures DeletedFrom(old(slots[..]), index, old(length), old(active), old(occupied), d)
      ensures slots == old(slots) || fresh(slots)
    {
      CountLiveUpdate(slots[..], index, Entry(slots[index].key, None));
      slots[index] := slots[index].(value := None);
      active := active - 1;
      if NeedsShrink(occupied, length) {
        var newLength := ComputeNextSizeDown();
        if newLength.PrimeNotFound? {
          return Panicked;
        }
        Resize(newLength.n);
      }
      d := Deleted;
    }

    /**
     * `Delete`: run the walk of `key`; "key not found" changes nothing,
     * otherwise `deleteItem` empties the slot found. When no resize
     * happened, `Search(key)` then reports "key not found".
     */
    method Delete(key: Key) returns (d: Deletion)
      requires Valid()
      modifies this, slots
      ensures Valid()
      ensures old(Locate(slots[..], KeyPath(key, length), key)).None? ==>
        d == KeyNotFound && length == old(length) && slots == old(slots) && slots[..] == old(slots[..]) &&
        active == old(active) && occupied == old(occupied)
      ensures old(Locate(slots[..], KeyPath(key, length), key)).Some? ==>
        DeletedFrom(old(slots[..]), old(Locate(slots[..], KeyPath(key, length), key)).value,
                    old(length), old(active), old(occupied), d)
      ensures d != KeyNotFound && !(NeedsShrink(old(occupied), old(length)) && PlannedLength(old(length) / 2, false).Length?) ==>
        Lookup(slots[..], KeyPath(key, length), key) == None
    {
      var found := FindSlot(key);
      if found.None? {
        return KeyNotFound;
      }
      ghost var path := KeyPath(key, length);
      ClearThenLookup(slots[..], path, key);
      d := DeleteItem(found.value);
      assert path == KeyPath(key, old(length));
    }
  }

  /**
   * The resize-down scenario of the test suite: a table of 53 slots holding
   * three values loses one to `Delete`; the occupied counter still says 3,
   * which is at most 0.12 of 53, so the table shrinks to `getPrime(26,
   * false)` = 23 slots and the two remaining keys are both found after the
   * rebuild.
   */
  lemma ResizeDownScenario<V>(s: seq<Entry<V>>, q: nat)
    requires |s| == 53 && CountLive(s) == 3 && q < |s| && Live(s[q])
    ensures NeedsShrink(3, 53) && PlannedLength(53 / 2, false) == Length(23)
    ensures CountLive(Clear(s, q)) == 2 && CountLive(Rebuild(Clear(s, q), 23)) == 2
    ensures forall i :: 0 <= i < |s| && i != q && Live(s[i]) ==>
      Locate(Rebuild(Clear(s, q), 23), KeyPath(s[i].key, 23), s[i].key).Some?
  {
    ListedExamples();
    var cleared := Clear(s, q);
    CountLiveUpdate(s, q, Entry(s[q].key, None));
    assert cleared[..|cleared|] == cleared;
    RebuildFewKeys(cleared, 23, |cleared|);
    forall i | 0 <= i < |s| && i != q && Live(s[i])
      ensures Locate(Rebuild(cleared, 23), KeyPath(s[i].key, 23), s[i].key).Some?
    {
      assert cleared[i] == s[i];
    }
  }

  /**
   * How short a walk can be: on 17 slots, every digest `h` with `h mod 16 = 7`
   * has the step 8 and the tetrahedral term 1 at attempt 2, so attempt 2 is
   * home again and the walk is two slots long. Two other keys on those slots
   * make `insert` give up, storing nothing, at a load of 2/17, far below the
   * growth threshold.
   */
  lemma ShortWalkDropsInsert<V>(h: nat, s: seq<Entry<V>>, k: Key, v: V)
    requires h % 16 == 7 && |s| == 17
    requires Live(s[h % 17]) && s[h % 17].key != k
    requires Live(s[(h % 17 + 8) % 17]) && s[(h % 17 + 8) % 17].key != k
    ensures Path(h, 17) == [h % 17, (h % 17 + 8) % 17]
    ensures !NeedsGrowth(2, 17)
    ensures Place(s, Path(h, 17), k, v) == (s, false)
    ensures Lookup(s, Path(h, 17), k) == None
  {
    var home, next := h % 17, (h % 17 + 8) % 17;
    assert Hash2(h, 17) == 8;
    assert Tetra(1) == 0 && Tetra(2) == 1;
    assert Probe(h, 17, 0) == home;
    assert Probe(h, 17, 1) == next;
    assert Probe(h, 17, 2) == home;
    PathFromStep(h, 17, 1);
    PathFromStep(h, 17, 2);
    assert Path(h, 17) == [home] + ([next] + []);
    assert Update(s, home, k, v) == s && Update(s, next, k, v) == s;
    PlaceCons(s, next, [], k, v);
    PlaceCons(s, home, [next], k, v);
    LocateCons(s, next, [], k);
    LocateCons(s, home, [next], k);
  }
}
