/**
 * The probe sequence of the table (`doubleHashing`, hashtable.go). Attempt
 * `c` for a key whose digest is `h`, in a table of length `L`, is
 *
 *   (h mod L + c * (1 + h mod (L - 1)) + (c^3 - c) / 6) mod L
 *
 * that is double hashing plus the tetrahedral number of `c - 1`. The
 * table walks attempts 1, 2, ... until one lands back on attempt 0, the
 * home slot; on every length the table uses, attempt `L` does.
 */
module Probing {
  import opened Fnv
  import opened Planner

  /** `c * c * c` is at least `c`, so the tetrahedral numerator is never negative. */
  lemma CubeAtLeast(c: nat)
    ensures c * c * c >= c
  {
    if c > 0 {
      assert c * c >= c;
      assert c * c * c >= c * c;
    }
  }

  /** `c * (c + 1)` is twice a natural number. */
  lemma {:induction false} HalfPronic(c: nat) returns (t: nat)
    ensures 2 * t == c * (c + 1)
  {
    if c == 0 {
      t := 0;
    } else {
      var t0 := HalfPronic(c - 1);
      assert (c - 1) * c + 2 * c == c * (c + 1);
      t := t0 + c;
    }
  }

  /** `c^3 - c` is six times a natural number: the float division of `doubleHashing` is exact. */
  lemma {:induction false} SixthOfCubeMinusSelf(c: nat) returns (m: nat)
    ensures 6 * m == c * c * c - c
  {
    if c == 0 {
      m := 0;
    } else {
      var m0 := SixthOfCubeMinusSelf(c - 1);
      var t := HalfPronic(c - 1);
      var d := c - 1;
      assert c * c * c - c == (d * d * d - d) + 3 * (d * (d + 1)) by {
        assert c * c * c == d * d * d + 3 * d * d + 3 * d + 1;
      }
      m := m0 + t;
    }
  }

  /** The tetrahedral term of attempt `c`: `(c^3 - c) / 6`. */
  function Tetra(c: nat): nat
  {
    CubeAtLeast(c);
    (c * c * c - c) / 6
  }

  /** The tetrahedral term is exactly a sixth of `c^3 - c`, with nothing rounded away. */
  lemma TetraExact(c: nat)
    ensures 6 * Tetra(c) == c * c * c - c
  {
    var m := SixthOfCubeMinusSelf(c);
    assert (c * c * c - c) / 6 == m;
  }

  /** The second hash, `1 + h mod (L - 1)`: a step between 1 and `L - 1`. */
  function Hash2(h: nat, length: nat): (r: nat)
    requires length >= 2
    ensures 1 <= r <= length - 1
  {
    1 + h % (length - 1)
  }

  /** Attempt `c` of the probe sequence, without uint64 wrap-around. */
  function Probe(h: nat, length: nat, c: nat): (r: nat)
    requires length >= 2
    ensures r < length
  {
    (h % length + c * Hash2(h, length) + Tetra(c)) % length
  }

  /** Attempt 0 is the home slot `h mod L`. */
  lemma ProbeHome(h: nat, length: nat)
    requires length >= 2
    ensures Probe(h, length, 0) == h % length
  {
    assert Tetra(0) == 0;
  }

  /** Attempt 1 always leaves the home slot: the step `Hash2` is never a multiple of `L`. */
  lemma FirstProbeMoves(h: nat, length: nat)
    requires length >= 2
    ensures Probe(h, length, 1) != Probe(h, length, 0)
  {
    ProbeHome(h, length);
    assert Tetra(1) == 0;
    var a := h % length;
    var sum := a + Hash2(h, length);
    assert Probe(h, length, 1) == sum % length;
    if sum >= length {
      ModUnique(sum, length, 1, sum - length);
    } else {
      ModUnique(sum, length, 0, sum);
    }
  }

  /** Division with remainder is unique: `L * q + r` with `0 <= r < L` leaves remainder `r`. */
  lemma ModUnique(x: int, length: nat, q: int, r: int)
    requires length > 0 && x == length * q + r && 0 <= r < length
    ensures x % length == r
  {
    var d := x / length - q;
    assert length * d == r - x % length;
    MultipleAwayFromZero(length, d);
  }

  /** A nonzero multiple of `L` is at least `L` away from zero. */
  lemma MultipleAwayFromZero(length: nat, d: int)
    ensures d >= 1 ==> length * d >= length
    ensures d <= -1 ==> length * d + length <= 0
  {
    if d >= 1 {
      assert length * d == length * (d - 1) + length;
      assert length * (d - 1) >= 0;
    } else if d <= -1 {
      assert length * d == -(length * (-d - 1)) - length;
      assert length * (-d - 1) >= 0;
    }
  }

  /** Adding a multiple of `L` to a value below `L` does not move it modulo `L`. */
  lemma ModAddMultiple(a: nat, length: nat, k: nat)
    requires a < length
    ensures (a + length * k) % length == a
  {
    ModUnique(a + length * k, length, k, a);
  }

  /** On a valid length, `L * L - 1` is a multiple of 6. */
  lemma SquareMinusOne(length: nat) returns (m: nat)
    requires ValidLength(length)
    ensures 6 * m == length * length - 1
  {
    var q := length / 6;
    var r := length % 6;
    assert r == 1 || r == 5;
    assert length * length == 36 * q * q + 12 * q * r + r * r by {
      assert length == 6 * q + r;
    }
    if r == 1 {
      m := 6 * q * q + 2 * q;
    } else {
      m := 6 * q * q + 10 * q + 4;
    }
  }

  /**
   * On a valid length `L`, attempt `L` lands back on the home slot, so the
   * probing loops of `insert`, `Search` and `Delete` always end.
   */
  lemma ReturnsHome(h: nat, length: nat)
    requires ValidLength(length)
    ensures Probe(h, length, length) == Probe(h, length, 0)
  {
    ProbeHome(h, length);
    var m := SquareMinusOne(length);
    TetraExact(length);
    assert length * length * length - length == length * (6 * m);
    assert Tetra(length) == length * m;
    var a := h % length;
    assert a + length * Hash2(h, length) + length * m == a + length * (Hash2(h, length) + m);
    ModAddMultiple(a, length, Hash2(h, length) + m);
  }

  /** Every position of the walk `p` is a slot of a table of `n` slots. */
  predicate InTable(p: seq<nat>, n: nat)
  {
    forall i :: 0 <= i < |p| ==> p[i] < n
  }

  /**
   * The slots the probing loop visits from attempt `c` on: attempts `c`,
   * `c + 1`, ... up to, and not including, the first that is back home.
   */
  function PathFrom(h: nat, length: nat, c: nat): (r: seq<nat>)
    requires ValidLength(length) && 1 <= c <= length
    ensures |r| <= length - c && InTable(r, length)
    decreases length - c
  {
    ReturnsHome(h, length);
    if Probe(h, length, c) == Probe(h, length, 0) then []
    else [Probe(h, length, c)] + PathFrom(h, length, c + 1)
  }

  /**
   * The walk from attempt `c` is exactly the attempts `c, c + 1, ...` in
   * order, none of them home, and the attempt just after it is home again.
   */
  lemma {:induction false} PathFromProbes(h: nat, length: nat, c: nat)
    requires ValidLength(length) && 1 <= c <= length
    ensures forall i :: 0 <= i < |PathFrom(h, length, c)| ==>
      PathFrom(h, length, c)[i] == Probe(h, length, c + i) && PathFrom(h, length, c)[i] != Probe(h, length, 0)
    ensures Probe(h, length, c + |PathFrom(h, length, c)|) == Probe(h, length, 0)
    decreases length - c
  {
    ReturnsHome(h, length);
    if Probe(h, length, c) != Probe(h, length, 0) {
      PathFromProbes(h, length, c + 1);
      var r := PathFrom(h, length, c);
      var t := PathFrom(h, length, c + 1);
      assert r == [Probe(h, length, c)] + t;
      forall i | 0 <= i < |r|
        ensures r[i] == Probe(h, length, c + i) && r[i] != Probe(h, length, 0)
      {
        if i > 0 {
          assert r[i] == t[i - 1];
        }
      }
    }
  }

  /** One step of the walk: attempt `c` either is back home and ends it, or is the next slot. */
  lemma PathFromStep(h: nat, length: nat, c: nat)
    requires ValidLength(length) && 1 <= c <= length
    ensures Probe(h, length, c) == Probe(h, length, 0) ==> PathFrom(h, length, c) == []
    ensures Probe(h, length, c) != Probe(h, length, 0) ==>
      c < length && PathFrom(h, length, c) == [Probe(h, length, c)] + PathFrom(h, length, c + 1)
  {
    ReturnsHome(h, length);
  }

  /** Every slot `insert`, `Search` and `Delete` visit, in order: home, then the probes. */
  function Path(h: nat, length: nat): seq<nat>
    requires ValidLength(length)
  {
    [Probe(h, length, 0)] + PathFrom(h, length, 1)
  }

  /**
   * The walk starts at the home slot `h mod L`, stays inside the table, and
   * visits at least one slot besides home.
   */
  lemma PathShape(h: nat, length: nat)
    requires ValidLength(length)
    ensures var p := Path(h, length);
      2 <= |p| <= length && p[0] == h % length && p[1] != p[0] &&
      forall i :: 0 <= i < |p| ==> p[i] < length
  {
    ProbeHome(h, length);
    FirstProbeMoves(h, length);
  }

  /** The FNV-1a digest of a key, as a number. */
  function Digest(key: Key): nat
  {
    Fnv1a(key) as nat
  }

  /** The walk of a key: the path of its FNV-1a digest. */
  function KeyPath(key: Key, length: nat): (r: seq<nat>)
    requires ValidLength(length)
    ensures InTable(r, length)
  {
    PathShape(Digest(key), length);
    Path(Digest(key), length)
  }

  /** What `PathShape` promises, for the walk of a key. */
  lemma KeyPathShape(key: Key, length: nat)
    requires ValidLength(length)
    ensures var p := KeyPath(key, length);
      2 <= |p| <= length && p[0] == Digest(key) % length && p[1] != p[0] &&
      forall i :: 0 <= i < |p| ==> p[i] < length
  {
    PathShape(Digest(key), length);
  }
}
