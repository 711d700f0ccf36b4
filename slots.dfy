/**
 * The slot array of the table as a value, and what `insert`, `Search`,
 * `Delete` and `resize` (hashtable.go) do to it, as functions over that
 * value. An entry is a `data` record: a key and a value, the value nil
 * (`None`) when the slot is empty; Go's zero `data` is the empty string and
 * nil. There is no tombstone: deleting sets the value back to nil, exactly
 * like a slot that was never used.
 *
 * The table's methods are proved equal to these functions; the lemmas
 * below state what the functions guarantee.
 */
module Slots {
  import opened Fnv
  import opened Planner
  import opened Probing

  datatype Option<T> = None | Some(value: T)

  /** One slot (`data`): its key and its value, `None` standing for nil. */
  datatype Entry<V> = Entry(key: Key, value: Option<V>)

  /** A slot that holds a value. */
  predicate Live<V>(e: Entry<V>)
  {
    e.value.Some?
  }

  /** 1 for a slot that holds a value, else 0. */
  function LiveBit<V>(e: Entry<V>): nat
  {
    if Live(e) then 1 else 0
  }

  /** A table of `n` zero slots (`make([]data, n)`). */
  function Empty<V>(n: nat): seq<Entry<V>>
  {
    seq(n, _ => Entry([], None))
  }

  // ---------------------------------------------------------------------
  // Counting occupied slots
  // ---------------------------------------------------------------------

  /** The number of slots that hold a value. */
  function CountLive<V>(s: seq<Entry<V>>): (r: nat)
    ensures r <= |s|
  {
    if |s| == 0 then 0 else CountLive(s[..|s| - 1]) + LiveBit(s[|s| - 1])
  }

  /** Overwriting one slot changes the count by what was lost and what was put there. */
  lemma {:induction false} CountLiveUpdate<V>(s: seq<Entry<V>>, q: nat, e: Entry<V>)
    requires q < |s|
    ensures CountLive(s[q := e]) + LiveBit(s[q]) == CountLive(s) + LiveBit(e)
    decreases |s|
  {
    var n := |s| - 1;
    var t := s[q := e];
    if q == n {
      assert t[..n] == s[..n];
    } else {
      assert t[..n] == s[..n][q := e];
      CountLiveUpdate(s[..n], q, e);
    }
  }

  /** A fresh table holds nothing. */
  lemma {:induction false} CountLiveEmpty<V>(n: nat)
    ensures CountLive(Empty<V>(n)) == 0
    decreases n
  {
    if n > 0 {
      assert Empty<V>(n)[..n - 1] == Empty<V>(n - 1);
      CountLiveEmpty<V>(n - 1);
    }
  }

  /** Two distinct slots that hold values count twice. */
  lemma AtMostOneLive<V>(s: seq<Entry<V>>, a: nat, b: nat)
    requires a < |s| && b < |s| && a != b && CountLive(s) <= 1
    ensures !Live(s[a]) || !Live(s[b])
  {
    var vacant: Entry<V> := Entry([], None);
    CountLiveUpdate(s, a, vacant);
    CountLiveUpdate(s[a := vacant], b, vacant);
  }

  // ---------------------------------------------------------------------
  // insert: insertItem, updateValue and the probing walk
  // ---------------------------------------------------------------------

  /** `updateValue`: overwrite the value of slot `q` when it holds key `k`. */
  function Update<V>(s: seq<Entry<V>>, q: nat, k: Key, v: V): seq<Entry<V>>
    requires q < |s|
  {
    if Live(s[q]) && s[q].key == k then s[q := Entry(k, Some(v))] else s
  }

  /** `insertItem`: put `(k, v)` in slot `q`. */
  function Fill<V>(s: seq<Entry<V>>, q: nat, k: Key, v: V): seq<Entry<V>>
    requires q < |s|
  {
    s[q := Entry(k, Some(v))]
  }

  /**
   * `insert` along the walk `p`: at each position, an empty slot receives
   * `(k, v)` and ends the walk (`true`); a slot holding `k` gets `v` and the
   * walk goes on; when the walk is used up, `insert` gives up (`false`).
   */
  function Place<V>(s: seq<Entry<V>>, p: seq<nat>, k: Key, v: V): (r: (seq<Entry<V>>, bool))
    requires InTable(p, |s|)
    ensures |r.0| == |s|
    decreases |p|
  {
    if p == [] then (s, false)
    else if !Live(s[p[0]]) then (Fill(s, p[0], k, v), true)
    else Place(Update(s, p[0], k, v), p[1..], k, v)
  }

  /** One step of `insert` at the head `x` of the walk. */
  lemma PlaceCons<V>(s: seq<Entry<V>>, x: nat, rest: seq<nat>, k: Key, v: V)
    requires x < |s| && InTable(rest, |s|)
    ensures InTable([x] + rest, |s|)
    ensures Place(s, [x] + rest, k, v) ==
      if !Live(s[x]) then (Fill(s, x, k, v), true) else Place(Update(s, x, k, v), rest, k, v)
  {
    assert ([x] + rest)[0] == x && ([x] + rest)[1..] == rest;
  }

  /** `insert` stores `(k, v)` in a new slot exactly when its walk meets an empty slot. */
  lemma {:induction false} PlaceFillsIff<V>(s: seq<Entry<V>>, p: seq<nat>, k: Key, v: V)
    requires InTable(p, |s|)
    ensures Place(s, p, k, v).1 <==> exists i :: 0 <= i < |p| && !Live(s[p[i]])
    decreases |p|
  {
    if p != [] && Live(s[p[0]]) {
      var s1 := Update(s, p[0], k, v);
      PlaceFillsIff(s1, p[1..], k, v);
      if Place(s, p, k, v).1 {
        var i :| 0 <= i < |p[1..]| && !Live(s1[p[1..][i]]);
        assert !Live(s[p[i + 1]]);
      } else {
        forall i | 0 <= i < |p|
          ensures Live(s[p[i]])
        {
          if i > 0 {
            assert p[1..][i - 1] == p[i];
          }
        }
      }
    }
  }

  /** Both counters of `insert` move together with the number of slots that hold a value. */
  lemma {:induction false} PlaceCount<V>(s: seq<Entry<V>>, p: seq<nat>, k: Key, v: V)
    requires InTable(p, |s|)
    ensures CountLive(Place(s, p, k, v).0) == CountLive(s) + (if Place(s, p, k, v).1 then 1 else 0)
    decreases |p|
  {
    if p != [] {
      CountLiveUpdate(s, p[0], Entry(k, Some(v)));
      if Live(s[p[0]]) {
        PlaceCount(Update(s, p[0], k, v), p[1..], k, v);
      }
    }
  }

  /**
   * What `insert` changes: no slot that held a value loses it or its key;
   * slots holding other keys are untouched; every slot that changed is on
   * the walk and now holds `(k, v)`.
   */
  lemma {:induction false} PlaceEffect<V>(s: seq<Entry<V>>, p: seq<nat>, k: Key, v: V)
    requires InTable(p, |s|)
    ensures var t := Place(s, p, k, v).0;
      (forall q :: 0 <= q < |s| && Live(s[q]) ==> Live(t[q]) && t[q].key == s[q].key) &&
      (forall q :: 0 <= q < |s| && Live(s[q]) && s[q].key != k ==> t[q] == s[q]) &&
      (forall q :: 0 <= q < |s| && t[q] != s[q] ==> t[q] == Entry(k, Some(v)) && q in p)
    decreases |p|
  {
    if p != [] && Live(s[p[0]]) {
      PlaceEffect(Update(s, p[0], k, v), p[1..], k, v);
    }
  }

  // ---------------------------------------------------------------------
  // Search: the lookup walk
  // ---------------------------------------------------------------------

  /**
   * The slot `Search` and `Delete` stop at along the walk `p`: an empty slot
   * ends the walk with nothing, a slot holding `k` is the answer, and other
   * slots are passed over.
   */
  function Locate<V>(s: seq<Entry<V>>, p: seq<nat>, k: Key): (r: Option<nat>)
    requires InTable(p, |s|)
    ensures r.Some? ==> r.value in p && r.value < |s| && Live(s[r.value]) && s[r.value].key == k
    decreases |p|
  {
    if p == [] then None
    else if !Live(s[p[0]]) then None
    else if s[p[0]].key == k then Some(p[0])
    else Locate(s, p[1..], k)
  }

  /** One step of the lookup walk at its head `x`. */
  lemma LocateCons<V>(s: seq<Entry<V>>, x: nat, rest: seq<nat>, k: Key)
    requires x < |s| && InTable(rest, |s|)
    ensures InTable([x] + rest, |s|)
    ensures Locate(s, [x] + rest, k) ==
      if !Live(s[x]) then None else if s[x].key == k then Some(x) else Locate(s, rest, k)
  {
    assert ([x] + rest)[0] == x && ([x] + rest)[1..] == rest;
  }

  /** What `Search` returns: the value found, or `None` for "key not found". */
  function Lookup<V>(s: seq<Entry<V>>, p: seq<nat>, k: Key): Option<V>
    requires InTable(p, |s|)
  {
    match Locate(s, p, k)
    case None => None
    case Some(q) => s[q].value
  }

  /** The walk for `k` stops at slot `q`: it is empty or holds `k`. */
  predicate Stops<V>(s: seq<Entry<V>>, q: nat, k: Key)
    requires q < |s|
  {
    !Live(s[q]) || s[q].key == k
  }

  /**
   * The first slot of the walk that is empty or holds `k` decides: holding
   * `k`, it is the answer; empty, there is none; and when no slot of the walk
   * stops it, there is none either.
   */
  lemma {:induction false} LocateSpec<V>(s: seq<Entry<V>>, p: seq<nat>, k: Key, i: nat)
    requires InTable(p, |s|)
    ensures i < |p| && (forall j :: 0 <= j < i ==> !Stops(s, p[j], k)) && Stops(s, p[i], k) ==>
      Locate(s, p, k) == (if Live(s[p[i]]) then Some(p[i]) else None)
    ensures i == |p| && (forall j :: 0 <= j < i ==> !Stops(s, p[j], k)) ==> Locate(s, p, k) == None
    decreases |p|
  {
    if p != [] && i > 0 && !Stops(s, p[0], k) {
      LocateSpec(s, p[1..], k, i - 1);
      if i <= |p| && forall j :: 0 <= j < i ==> !Stops(s, p[j], k) {
        forall j | 0 <= j < i - 1
          ensures !Stops(s, p[1..][j], k)
        {
          assert p[1..][j] == p[j + 1];
        }
      }
    }
  }

  /** A slot the walk stops at keeps the walk stopped there, when slots that held values keep them. */
  lemma {:induction false} LocateStable<V>(s: seq<Entry<V>>, t: seq<Entry<V>>, p: seq<nat>, k: Key)
    requires InTable(p, |s|) && |t| == |s|
    requires forall q :: 0 <= q < |s| && Live(s[q]) ==> Live(t[q]) && t[q].key == s[q].key
    requires Locate(s, p, k).Some?
    ensures Locate(t, p, k) == Locate(s, p, k)
    decreases |p|
  {
    if s[p[0]].key != k {
      LocateStable(s, t, p[1..], k);
    }
  }

  /**
   * `Search` after `insert(k, v)` returns `v` whenever `insert` placed it in
   * an empty slot or the walk already found `k`; otherwise the walk is full
   * of other keys, `insert` gives up, and nothing changed.
   */
  lemma {:induction false} InsertThenLookup<V>(s: seq<Entry<V>>, p: seq<nat>, k: Key, v: V)
    requires InTable(p, |s|)
    ensures Place(s, p, k, v).1 || Locate(s, p, k).Some? ==> Lookup(Place(s, p, k, v).0, p, k) == Some(v)
    ensures !Place(s, p, k, v).1 && Locate(s, p, k).None? ==> Place(s, p, k, v).0 == s
    decreases |p|
  {
    if p != [] && Live(s[p[0]]) {
      var s1 := Update(s, p[0], k, v);
      InsertThenLookup(s1, p[1..], k, v);
      PlaceEffect(s1, p[1..], k, v);
    }
  }

  /** `Search(k)` returns `v`, or else every slot on the walk of `k` holds some other key. */
  ghost predicate FoundOrFull<V>(t: seq<Entry<V>>, p: seq<nat>, k: Key, v: V)
    requires InTable(p, |t|)
  {
    Lookup(t, p, k) == Some(v) || forall i :: 0 <= i < |p| ==> Live(t[p[i]]) && t[p[i]].key != k
  }

  /**
   * After `insert(k, v)`, `Search(k)` returns `v`, unless every slot on the
   * walk of `k` holds some other key.
   */
  lemma InsertFoundOrFull<V>(s: seq<Entry<V>>, p: seq<nat>, k: Key, v: V)
    requires InTable(p, |s|)
    ensures FoundOrFull(Place(s, p, k, v).0, p, k, v)
  {
    InsertThenLookup(s, p, k, v);
    PlaceFillsIff(s, p, k, v);
    if !Place(s, p, k, v).1 && Locate(s, p, k).None? {
      forall i | 0 <= i < |p|
        ensures s[p[i]].key != k
      {
        LocateSpec(s, p, k, i);
      }
    }
  }

  /** Inserting `k` leaves what `Search` finds for any other key that was found before. */
  lemma InsertKeepsOtherKeys<V>(s: seq<Entry<V>>, p: seq<nat>, k: Key, v: V, p2: seq<nat>, k2: Key)
    requires InTable(p, |s|) && InTable(p2, |s|) && k2 != k && Locate(s, p2, k2).Some?
    ensures Lookup(Place(s, p, k, v).0, p2, k2) == Lookup(s, p2, k2)
  {
    PlaceEffect(s, p, k, v);
    LocateStable(s, Place(s, p, k, v).0, p2, k2);
  }

  // ---------------------------------------------------------------------
  // Delete: deleteItem without a tombstone
  // ---------------------------------------------------------------------

  /** `deleteItem`: set the value of slot `q` back to nil, keeping its key. */
  function Clear<V>(s: seq<Entry<V>>, q: nat): seq<Entry<V>>
    requires q < |s|
  {
    s[q := Entry(s[q].key, None)]
  }

  /** After `Delete(k)` removes the slot the walk found, `Search(k)` reports "key not found"
      and one slot fewer holds a value. */
  lemma {:induction false} ClearThenLookup<V>(s: seq<Entry<V>>, p: seq<nat>, k: Key)
    requires InTable(p, |s|) && Locate(s, p, k).Some?
    ensures var q := Locate(s, p, k).value;
      Lookup(Clear(s, q), p, k) == None && CountLive(Clear(s, q)) + 1 == CountLive(s)
    decreases |p|
  {
    var q := Locate(s, p, k).value;
    CountLiveUpdate(s, q, Entry(s[q].key, None));
    if s[p[0]].key != k {
      ClearThenLookup(s, p[1..], k);
    }
  }

  /**
   * Without tombstones, a delete cuts every walk through the emptied slot:
   * a key `k2` whose walk starts there is reported missing although it is
   * still stored further along its walk.
   */
  lemma ClearHidesLaterKeys<V>(s: seq<Entry<V>>, p: seq<nat>, k: Key, p2: seq<nat>, k2: Key, w: V)
    requires InTable(p, |s|) && InTable(p2, |s|) && Locate(s, p, k).Some?
    requires |p2| >= 2 && p2[0] == Locate(s, p, k).value && p2[1] != p2[0] && s[p2[1]] == Entry(k2, Some(w))
    ensures var t := Clear(s, Locate(s, p, k).value);
      t[p2[1]] == Entry(k2, Some(w)) && Lookup(t, p2, k2) == None
  {
  }

  // ---------------------------------------------------------------------
  // resize: re-inserting every entry into a fresh table
  // ---------------------------------------------------------------------

  /** The first `n` old slots re-inserted, in index order, into a fresh table of `length` slots. */
  function RebuildPrefix<V>(prior: seq<Entry<V>>, length: nat, n: nat): (r: seq<Entry<V>>)
    requires ValidLength(length) && n <= |prior|
    ensures |r| == length
    decreases n
  {
    if n == 0 then Empty(length)
    else
      var s := RebuildPrefix(prior, length, n - 1);
      var e := prior[n - 1];
      if !Live(e) then s
      else
        KeyPathShape(e.key, length);
        Place(s, KeyPath(e.key, length), e.key, e.value.value).0
  }

  /** What `resize` puts in the new slot array. */
  function Rebuild<V>(prior: seq<Entry<V>>, length: nat): seq<Entry<V>>
    requires ValidLength(length)
  {
    RebuildPrefix(prior, length, |prior|)
  }

  /** Re-inserting never holds more values than the old table did. */
  lemma {:induction false} RebuildCount<V>(prior: seq<Entry<V>>, length: nat, n: nat)
    requires ValidLength(length) && n <= |prior|
    ensures CountLive(RebuildPrefix(prior, length, n)) <= CountLive(prior[..n])
    decreases n
  {
    if n == 0 {
      CountLiveEmpty<V>(length);
    } else {
      RebuildCount(prior, length, n - 1);
      assert prior[..n][..n - 1] == prior[..n - 1];
      var e := prior[n - 1];
      if Live(e) {
        KeyPathShape(e.key, length);
        PlaceCount(RebuildPrefix(prior, length, n - 1), KeyPath(e.key, length), e.key, e.value.value);
      }
    }
  }

  /** Every value in the rebuilt table is an entry, key and value, of the old one. */
  lemma {:induction false} RebuildProvenance<V>(prior: seq<Entry<V>>, length: nat, n: nat)
    requires ValidLength(length) && n <= |prior|
    ensures forall q :: 0 <= q < length && Live(RebuildPrefix(prior, length, n)[q]) ==>
      exists i :: 0 <= i < n && RebuildPrefix(prior, length, n)[q] == prior[i]
    decreases n
  {
    if n > 0 {
      RebuildProvenance(prior, length, n - 1);
      var s := RebuildPrefix(prior, length, n - 1);
      var r := RebuildPrefix(prior, length, n);
      var e := prior[n - 1];
      if Live(e) {
        KeyPathShape(e.key, length);
        PlaceEffect(s, KeyPath(e.key, length), e.key, e.value.value);
      }
      forall q | 0 <= q < length && Live(r[q])
        ensures exists i :: 0 <= i < n && r[q] == prior[i]
      {
        if r[q] != s[q] {
          assert r[q] == prior[n - 1];
        } else {
          var i :| 0 <= i < n - 1 && s[q] == prior[i];
        }
      }
    }
  }

  /**
   * When re-inserting keeps the number of slots holding a value, no
   * re-insertion gave up or merged into an earlier copy, and every key of the
   * old table is found in the new one.
   */
  lemma {:induction false} RebuildFindsKeys<V>(prior: seq<Entry<V>>, length: nat, n: nat, i: nat)
    requires ValidLength(length) && n <= |prior| && i < n && Live(prior[i])
    requires CountLive(RebuildPrefix(prior, length, n)) == CountLive(prior[..n])
    ensures Locate(RebuildPrefix(prior, length, n), KeyPath(prior[i].key, length), prior[i].key).Some?
    decreases n
  {
    var s := RebuildPrefix(prior, length, n - 1);
    var t := RebuildPrefix(prior, length, n);
    var e := prior[n - 1];
    assert prior[..n][..n - 1] == prior[..n - 1];
    assert CountLive(prior[..n]) == CountLive(prior[..n - 1]) + LiveBit(e);
    RebuildCount(prior, length, n - 1);
    if Live(e) {
      PlaceCount(s, KeyPath(e.key, length), e.key, e.value.value);
      PlaceEffect(s, KeyPath(e.key, length), e.key, e.value.value);
    }
    if i < n - 1 {
      RebuildFindsKeys(prior, length, n - 1, i);
      if Live(e) {
        LocateStable(s, t, KeyPath(prior[i].key, length), prior[i].key);
      }
    } else {
      InsertThenLookup(s, KeyPath(e.key, length), e.key, e.value.value);
    }
  }

  /**
   * An old table holding at most two values loses none of them: the first
   * lands on its home slot and the second finds an empty one among the first
   * two positions of its walk, so both keys are found afterwards. (When both
   * hold the same key, it is the later value that is found.)
   */
  lemma {:induction false} RebuildFewKeys<V>(prior: seq<Entry<V>>, length: nat, n: nat)
    requires ValidLength(length) && n <= |prior| && CountLive(prior[..n]) <= 2
    ensures CountLive(RebuildPrefix(prior, length, n)) == CountLive(prior[..n])
    ensures forall i :: 0 <= i < n && Live(prior[i]) ==>
      Locate(RebuildPrefix(prior, length, n), KeyPath(prior[i].key, length), prior[i].key).Some?
    decreases n
  {
    RebuildFewKeysCount(prior, length, n);
    forall i | 0 <= i < n && Live(prior[i])
      ensures Locate(RebuildPrefix(prior, length, n), KeyPath(prior[i].key, length), prior[i].key).Some?
    {
      RebuildFindsKeys(prior, length, n, i);
    }
  }

  /** The count part of `RebuildFewKeys`, by induction on the prefix. */
  lemma {:induction false} RebuildFewKeysCount<V>(prior: seq<Entry<V>>, length: nat, n: nat)
    requires ValidLength(length) && n <= |prior| && CountLive(prior[..n]) <= 2
    ensures CountLive(RebuildPrefix(prior, length, n)) == CountLive(prior[..n])
    decreases n
  {
    if n == 0 {
      CountLiveEmpty<V>(length);
    } else {
      assert prior[..n][..n - 1] == prior[..n - 1];
      RebuildFewKeysCount(prior, length, n - 1);
      var e := prior[n - 1];
      if Live(e) {
        var s := RebuildPrefix(prior, length, n - 1);
        var p := KeyPath(e.key, length);
        KeyPathShape(e.key, length);
        AtMostOneLive(s, p[0], p[1]);
        PlaceFillsIff(s, p, e.key, e.value.value);
        PlaceCount(s, p, e.key, e.value.value);
      }
    }
  }

  /**
   * Growing to at least twice the old length leaves the load factor below
   * the growth threshold 0.6, whatever the old counters said.
   */
  lemma GrowthRelievesLoad<V>(prior: seq<Entry<V>>, length: nat)
    requires ValidLength(length) && 2 * |prior| <= length
    ensures 5 * CountLive(Rebuild(prior, length)) < 3 * length
  {
    RebuildCount(prior, length, |prior|);
    assert prior[..|prior|] == prior;
  }

  // ---------------------------------------------------------------------
  // Scenarios of the test suite
  // ---------------------------------------------------------------------

  /**
   * A fresh table finds nothing (`Search` and `Delete` report "key not
   * found"); the first insert lands on the home slot, counts one, and is found.
   */
  lemma FirstInsertIntoEmpty<V>(length: nat, p: seq<nat>, k: Key, v: V)
    requires |p| >= 1 && InTable(p, length)
    ensures Locate(Empty<V>(length), p, k) == None
    ensures var (t, filled) := Place(Empty<V>(length), p, k, v);
      filled && t == Empty<V>(length)[p[0] := Entry(k, Some(v))] &&
      CountLive(t) == 1 && Lookup(t, p, k) == Some(v)
  {
    CountLiveEmpty<V>(length);
    CountLiveUpdate(Empty<V>(length), p[0], Entry(k, Some(v)));
  }

  /**
   * Inserting the same key twice into a fresh table: the second value
   * overwrites the first at the home slot AND is stored again in the next
   * empty slot of the walk, so both counters reach 2, and `Search` returns
   * the second value.
   */
  lemma ReinsertDuplicates<V>(length: nat, p: seq<nat>, k: Key, v1: V, v2: V)
    requires |p| >= 2 && p[0] != p[1] && InTable(p, length)
    ensures var t1 := Place(Empty<V>(length), p, k, v1).0;
      var (t2, filled) := Place(t1, p, k, v2);
      filled && CountLive(t2) == 2 &&
      t2[p[0]] == Entry(k, Some(v2)) && t2[p[1]] == Entry(k, Some(v2)) &&
      Lookup(t2, p, k) == Some(v2)
  {
    FirstInsertIntoEmpty(length, p, k, v1);
    var t1 := Place(Empty<V>(length), p, k, v1).0;
    var u := Update(t1, p[0], k, v2);
    assert p[1..][0] == p[1];
    assert Place(t1, p, k, v2) == (Fill(u, p[1], k, v2), true);
    CountLiveUpdate(t1, p[0], Entry(k, Some(v2)));
    CountLiveUpdate(u, p[1], Entry(k, Some(v2)));
  }

  /**
   * Two different keys inserted into a fresh table are both found, wherever
   * their walks collide.
   */
  lemma TwoKeys<V>(length: nat, p1: seq<nat>, k1: Key, v1: V, p2: seq<nat>, k2: Key, v2: V)
    requires |p1| >= 1 && InTable(p1, length) && |p2| >= 2 && p2[0] != p2[1] && InTable(p2, length)
    requires k1 != k2
    ensures var t1 := Place(Empty<V>(length), p1, k1, v1).0;
      var t2 := Place(t1, p2, k2, v2).0;
      Lookup(t2, p2, k2) == Some(v2) && Lookup(t2, p1, k1) == Some(v1) && CountLive(t2) == 2
  {
    FirstInsertIntoEmpty(length, p1, k1, v1);
    var t1 := Place(Empty<V>(length), p1, k1, v1).0;
    AtMostOneLive(t1, p2[0], p2[1]);
    PlaceFillsIff(t1, p2, k2, v2);
    PlaceCount(t1, p2, k2, v2);
    InsertThenLookup(t1, p2, k2, v2);
    InsertKeepsOtherKeys(t1, p2, k2, v2, p1, k1);
  }

  /**
   * Re-inserting an old table whose only value sits in slot `i` puts that
   * entry on its home slot of an otherwise empty table.
   */
  lemma {:induction false} RebuildSingle<V>(prior: seq<Entry<V>>, i: nat, length: nat, n: nat)
    requires ValidLength(length) && n <= |prior| && i < |prior| && Live(prior[i])
    requires forall j :: 0 <= j < |prior| && j != i ==> !Live(prior[j])
    ensures RebuildPrefix(prior, length, n) ==
      if n <= i then Empty(length) else Empty(length)[KeyPath(prior[i].key, length)[0] := prior[i]]
    decreases n
  {
    if n > 0 {
      RebuildSingle(prior, i, length, n - 1);
      if n - 1 == i {
        KeyPathShape(prior[i].key, length);
        FirstInsertIntoEmpty(length, KeyPath(prior[i].key, length), prior[i].key, prior[i].value.value);
      }
    }
  }

  /**
   * Without tombstones or a duplicate check, a deleted key can come back:
   * inserting `k` twice stores it twice (home slot and second slot of its
   * walk); `Delete(k)` clears the home slot only, after which `Search(k)`
   * reports "key not found"; but when the delete then shrinks the table,
   * the rebuild re-inserts the surviving copy and `Search(k)` finds `v2`
   * again.
   */
  lemma DeleteThenShrinkResurrects<V>(length: nat, k: Key, v1: V, v2: V, newLength: nat)
    requires ValidLength(length) && ValidLength(newLength)
    ensures var p := KeyPath(k, length);
      var t := Place(Place(Empty<V>(length), p, k, v1).0, p, k, v2).0;
      Locate(t, p, k) == Some(p[0]) &&
      Lookup(Clear(t, p[0]), p, k) == None &&
      Lookup(Rebuild(Clear(t, p[0]), newLength), KeyPath(k, newLength), k) == Some(v2)
  {
    var p := KeyPath(k, length);
    KeyPathShape(k, length);
    ReinsertDuplicates(length, p, k, v1, v2);
    var t := Place(Place(Empty<V>(length), p, k, v1).0, p, k, v2).0;
    assert Locate(t, p, k) == Some(p[0]);
    ClearThenLookup(t, p, k);
    var cleared := Clear(t, p[0]);
    forall j | 0 <= j < |cleared| && j != p[1]
      ensures !Live(cleared[j])
    {
      AtMostOneLive(cleared, p[1], j);
    }
    RebuildSingle(cleared, p[1], newLength, |cleared|);
    KeyPathShape(k, newLength);
  }

  /**
   * Two copies of one key, with different values, survive a resize as two
   * copies of the LATER value: re-inserting the second overwrites the first
   * through `updateValue`, so the earlier value is gone.
   */
  lemma RebuildDuplicatesKeepLater<V>(length: nat, k: Key, v1: V, v2: V)
    requires ValidLength(length)
    ensures var p := KeyPath(k, length);
      var r := Rebuild([Entry(k, Some(v1)), Entry(k, Some(v2))], length);
      |p| >= 2 && CountLive(r) == 2 && r[p[0]] == Entry(k, Some(v2)) && r[p[1]] == Entry(k, Some(v2)) &&
      Lookup(r, p, k) == Some(v2)
  {
    var prior := [Entry(k, Some(v1)), Entry(k, Some(v2))];
    var p := KeyPath(k, length);
    KeyPathShape(k, length);
    ReinsertDuplicates(length, p, k, v1, v2);
    assert RebuildPrefix(prior, length, 0) == Empty(length);
  }
}
