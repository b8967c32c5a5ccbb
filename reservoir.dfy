/** Reservoirs: the stores a histogram keeps its values in. Every reservoir
    counts the values offered to it (`__len__`) and hands its contents to a
    snapshot; they differ in which values they keep. The random draws, the
    clock and `exp` are parameters of the operations that use them. */
module Reservoirs {
  import opened Outcomes
  import opened Sorting
  import opened Snapshots

  function Min(a: nat, b: nat): nat { if a <= b then a else b }

  // ---------------------------------------------------------------------
  // Reservoir: keeps everything
  // ---------------------------------------------------------------------

  /** `Reservoir`: stores every value added to it, in order. */
  class Reservoir {
    var res: seq<real>
    var count: nat
    /** Every value offered, oldest first. */
    ghost var history: seq<real>

    ghost predicate Valid()
      reads this
    {
      res == history && count == |history|
    }

    constructor ()
      ensures Valid() && history == []
    {
      res, count := [], 0;
      history := [];
    }

    method Update(value: real)
      requires Valid()
      modifies this
      ensures Valid() && history == old(history) + [value]
    {
      count := count + 1;
      res := res + [value];
      history := history + [value];
    }

    /** `len(reservoir)`: the number of values ever offered. */
    function Len(): (n: nat)
      requires Valid()
      reads this
      ensures n == |history|
    {
      count
    }

    /** `snapshot()`: all the values offered, sorted. */
    function Snapshot(): (s: seq<real>)
      requires Valid()
      reads this
      ensures Ascending(s) && multiset(s) == multiset(history)
    {
      NewSnapshot(res)
    }
  }

  // ---------------------------------------------------------------------
  // Sliding window
  // ---------------------------------------------------------------------

  /** The buffer a sliding window of `size` holds after the values `h`: the
      last `size` values, stored so that value `i` sits in slot `i % size`
      (the oldest at slot `|h| % size` once the window is full). */
  function Window(h: seq<real>, size: nat): (w: seq<real>)
    requires size > 0
    ensures |w| == Min(|h|, size)
  {
    if |h| <= size then h
    else
      var tail := h[|h| - size..];
      var r := |h| % size;
      tail[size - r..] + tail[..size - r]
  }

  lemma SwapHalves(a: seq<real>, b: seq<real>)
    ensures multiset(b + a) == multiset(a + b)
  {
  }

  /** The window holds exactly the last `size` values, in some order. */
  lemma WindowHoldsLast(h: seq<real>, size: nat)
    requires size > 0
    ensures multiset(Window(h, size)) == multiset(h[|h| - Min(|h|, size)..])
  {
    if |h| <= size {
      assert h[0..] == h;
    } else {
      var tail := h[|h| - size..];
      var r := |h| % size;
      var a, b := tail[..size - r], tail[size - r..];
      assert tail == a + b;
      assert Min(|h|, size) == size;
      assert Window(h, size) == b + a;
      SwapHalves(a, b);
    }
  }

  /** Slot `j` of a full window holds value `i` with `i % size == j`, the
      latest such value. */
  lemma WindowAt(h: seq<real>, size: nat, r: nat, j: nat)
    requires 0 < size <= |h| && j < size && r == |h| % size
    ensures j < r ==> Window(h, size)[j] == h[|h| - r + j]
    ensures r <= j ==> Window(h, size)[j] == h[|h| - size + j - r]
  {
    var n := |h|;
    var tail := h[n - size..];
    if n > size {
      var w := tail[size - r..] + tail[..size - r];
      assert Window(h, size) == w;
      if j < r {
        assert w[j] == tail[size - r + j];
      } else {
        assert w[j] == tail[j - r];
      }
    } else {
      assert n % size == 0 by { ModUnique(n, size, 1, 0); }
    }
  }

  lemma MulAtLeast(k: int, size: nat)
    requires k >= 1
    ensures k * size >= size
  {
    assert k * size == size + (k - 1) * size;
  }

  /** Division with remainder is unique. */
  lemma ModUnique(x: nat, size: nat, q: int, r: int)
    requires 0 <= r < size && x == q * size + r
    ensures x % size == r
  {
    var q', r' := x / size, x % size;
    assert x == q' * size + r';
    if q' > q {
      assert (q' - q) * size == q' * size - q * size;
      MulAtLeast(q' - q, size);
    } else if q' < q {
      assert (q - q') * size == q * size - q' * size;
      MulAtLeast(q - q', size);
    }
  }

  /** The slot after `n % size` is `(n + 1) % size`, wrapping to 0. */
  lemma ModSucc(n: nat, size: nat)
    requires size > 0
    ensures (n + 1) % size == if n % size + 1 < size then n % size + 1 else 0
  {
    var q, r := n / size, n % size;
    assert n == q * size + r;
    if r + 1 < size {
      ModUnique(n + 1, size, q, r + 1);
    } else {
      assert n + 1 == (q + 1) * size;
      ModUnique(n + 1, size, q + 1, 0);
    }
  }

  /** One position of the window after one more value. */
  lemma WindowStepAt(h: seq<real>, size: nat, v: real, j: nat)
    requires 0 < size <= |h| && j < size
    ensures Window(h + [v], size)[j] == if j == |h| % size then v else Window(h, size)[j]
  {
    var n, r := |h|, |h| % size;
    var h' := h + [v];
    var r' := if r + 1 < size then r + 1 else 0;
    assert |h'| % size == r' by { ModSucc(n, size); }
    WindowAt(h, size, r, j);
    WindowAt(h', size, r', j);
    if j == r {
      assert Window(h', size)[j] == h'[n];
    } else if r' == 0 {
      assert j < r;
      assert Window(h', size)[j] == h'[n + 1 - size + j] == h[n - r + j];
    } else if j < r {
      assert Window(h', size)[j] == h'[n - r + j];
    } else {
      assert Window(h', size)[j] == h'[n - size + j - r];
    }
  }

  /** Overwriting the oldest slot of a full window with a new value gives the
      window of the longer stream. */
  lemma {:induction false} WindowStep(h: seq<real>, size: nat, v: real)
    requires 0 < size <= |h|
    ensures Window(h + [v], size) == Window(h, size)[|h| % size := v]
  {
    var w, w' := Window(h, size), Window(h + [v], size);
    forall j | 0 <= j < size
      ensures w'[j] == w[|h| % size := v][j]
    {
      WindowStepAt(h, size, v, j);
    }
  }


  /** `SlidingWindowReservoir(size)`: keeps the `size` most recent values in
      a list used as a ring, overwriting slot `count % size`. */
  class SlidingWindowReservoir {
    var res: seq<real>
    var count: nat
    const size: nat
    ghost var history: seq<real>

    ghost predicate Valid()
      reads this
    {
      size > 0 && count == |history| && res == Window(history, size)
    }

    /** The source asserts `size > 0`. */
    constructor (size: nat)
      requires size > 0
      ensures Valid() && history == [] && this.size == size
    {
      this.size := size;
      res, count := [], 0;
      history := [];
    }

    method Update(value: real)
      requires Valid()
      modifies this
      ensures Valid() && history == old(history) + [value]
    {
      if count < size {
        res := res + [value];
      } else {
        WindowStep(history, size, value);
        res := res[count % size := value];
      }
      count := count + 1;
      history := history + [value];
    }

    function Len(): (n: nat)
      requires Valid()
      reads this
      ensures n == |history|
    {
      count
    }

    /** `snapshot()`: the `size` most recent values, sorted. */
    function Snapshot(): (s: seq<real>)
      requires Valid()
      reads this
      ensures Ascending(s)
      ensures |s| == Min(|history|, size)
      ensures multiset(s) == multiset(history[|history| - Min(|history|, size)..])
    {
      WindowHoldsLast(history, size);
      assert |multiset(res)| == |res|;
      NewSnapshot(res)
    }
  }

  /** Thirty values 0..29 through a window of 15 leave 15..29 in order. */
  lemma SlidingWindowOfThirty()
    ensures Window(seq(30, i => i as real), 15) == seq(15, i => (i + 15) as real)
  {
    var h := seq(30, i => i as real);
    assert 30 % 15 == 0;
    assert h[15..][15..] == [];
    assert h[15..][..15] == h[15..];
  }

  // ---------------------------------------------------------------------
  // Uniform sampling (after Vitter's Algorithm R, with the index drawn
  // from 0..count-1)
  // ---------------------------------------------------------------------

  /** Why an update of a reservoir failed. */
  datatype ReservoirError =
    | EmptyRange              // `randint(0, -1)`: a uniform reservoir of size 0
    | TimestampBeforeLandmark // the assertion in the decaying reservoir's update
    | NoPriorities            // `sorted({})[0]`: a decaying reservoir of size 0

  /** Replacing one element swaps one occurrence in the multiset. */
  lemma ReplaceAt(s: seq<real>, i: nat, v: real)
    requires i < |s|
    ensures multiset(s[i := v]) == multiset(s) - multiset{s[i]} + multiset{v}
  {
    assert s == s[..i] + [s[i]] + s[i + 1..];
    assert s[i := v] == s[..i] + [v] + s[i + 1..];
  }

  /** `UniformReservoir(size)`: the first `size` values, then each later
      value replaces the slot a random draw picks, if it picks one. */
  class UniformReservoir {
    var res: seq<real>
    var count: nat
    const size: nat
    ghost var history: seq<real>

    ghost predicate Valid()
      reads this
    {
      && count == |history|
      && |res| == Min(count, size)
      && multiset(res) <= multiset(history)
      && (count <= size ==> res == history)
      && (size == 0 ==> count == 0)
    }

    constructor (size: nat)
      ensures Valid() && history == [] && this.size == size
    {
      this.size := size;
      res, count := [], 0;
      history := [];
    }

    /** `update(value)` where `index` is the value `randint(0, count - 1)`
        returns once the reservoir is full. With size 0 that range is empty
        and every update fails. */
    method Update(value: real, index: int) returns (r: Result<(), ReservoirError>)
      requires Valid()
      requires count >= size > 0 ==> 0 <= index < count
      modifies this
      ensures Valid()
      ensures r.Err? <==> size == 0
      ensures r.Err? ==> r.error == EmptyRange && res == old(res) && history == old(history)
      ensures r.Ok? ==> history == old(history) + [value]
      ensures r.Ok? && old(count) < size ==> res == old(res) + [value]
      ensures r.Ok? && old(count) >= size && index < size ==> res == old(res)[index := value]
      ensures r.Ok? && old(count) >= size && index >= size ==> res == old(res)
    {
      if count < size {
        res := res + [value];
      } else {
        if count == 0 {
          return Err(EmptyRange);
        }
        if index < size {
          ReplaceAt(res, index, value);
          res := res[index := value];
        }
      }
      count := count + 1;
      history := history + [value];
      r := Ok(());
    }

    function Len(): (n: nat)
      requires Valid()
      reads this
      ensures n == |history|
    {
      count
    }

    /** `snapshot()`: a sorted sample of at most `size` of the values offered. */
    function Snapshot(): (s: seq<real>)
      requires Valid()
      reads this
      ensures Ascending(s) && |s| == Min(|history|, size)
      ensures multiset(s) <= multiset(history)
      ensures |history| <= size ==> multiset(s) == multiset(history)
      ensures multiset(s) == multiset(res)
    {
      assert |multiset(res)| == |res|;
      NewSnapshot(res)
    }
  }

  // ---------------------------------------------------------------------
  // Exponentially decaying reservoir (forward-decay priority sampling)
  // ---------------------------------------------------------------------

  /** A stored sample: the value and its weight. */
  type Sample = (real, real)

  /** `RESCALE_THRESHOLD`: one hour, in seconds. */
  const RescaleThreshold: real := 3600.0
  const DefaultSize: nat := 1028
  const DefaultAlpha: real := 0.015

  /** A non-empty set has an element. */
  lemma SomeElement(keys: set<real>)
    requires keys != {}
    ensures exists x :: x in keys
  {
    assert (forall x :: x !in keys) ==> keys == {};
  }

  ghost predicate IsMinKey(k: real, m: map<real, Sample>) {
    k in m && forall j :: j in m ==> k <= j
  }

  lemma {:induction false} MinExists(keys: set<real>)
    requires keys != {}
    ensures exists k :: k in keys && forall j :: j in keys ==> k <= j
    decreases |keys|
  {
    SomeElement(keys);
    var x :| x in keys;
    if keys != {x} {
      MinExists(keys - {x});
      var k :| k in keys - {x} && forall j :: j in keys - {x} ==> k <= j;
      if x < k {
        forall j | j in keys ensures x <= j { if j != x { assert j in keys - {x}; } }
      } else {
        forall j | j in keys ensures k <= j { if j != x { assert j in keys - {x}; } }
      }
    } else {
      assert forall j :: j in keys ==> x <= j;
    }
  }

  /** The smallest priority: `sorted(self._res.keys())[0]`. */
  ghost function MinKeyOf(m: map<real, Sample>): (k: real)
    requires m != map[]
    ensures IsMinKey(k, m)
  {
    MinExists(m.Keys);
    var k :| k in m.Keys && forall j :: j in m.Keys ==> k <= j;
    k
  }

  /** `sorted(self._res.keys())[0]`, as a scan for the least key. */
  method FirstKey(m: map<real, Sample>) returns (k: real)
    requires m != map[]
    ensures k == MinKeyOf(m)
  {
    var keys := m.Keys;
    SomeElement(keys);
    k :| k in keys;
    keys := keys - {k};
    while keys != {}
      invariant keys <= m.Keys && k in m
      invariant forall j :: j in m && j !in keys ==> k <= j
      decreases |keys|
    {
      SomeElement(keys);
      var j :| j in keys;
      if j < k {
        k := j;
      }
      keys := keys - {j};
    }
    assert IsMinKey(k, m) && IsMinKey(MinKeyOf(m), m);
  }

  /** The map after a sample of priority `p` is offered: while the reservoir
      is filling it is stored under `p`; once full it replaces the least
      priority if `p` is above it and not already a key. */
  ghost function Admit(m: map<real, Sample>, full: bool, p: real, sample: Sample): map<real, Sample>
    requires full ==> m != map[]
  {
    if !full then m[p := sample]
    else
      var first := MinKeyOf(m);
      if first < p && p !in m then m[p := sample] - {first} else m
  }

  /** The branch of `update` that stores the sample: added while the
      reservoir is filling; once full, swapped for the least priority when
      its own priority is larger and not already a key. */
  method Offer(m: map<real, Sample>, full: bool, p: real, sample: Sample) returns (nr: map<real, Sample>)
    requires full ==> m != map[]
    ensures nr == Admit(m, full, p, sample)
  {
    if !full {
      nr := m[p := sample];
    } else {
      var first := FirstKey(m);
      nr := m;
      if first < p && p !in m {
        nr := nr[p := sample];
        nr := nr - {first};
      }
    }
  }

  /** The priorities kept are the largest ones drawn: every kept priority
      is above `ceiling`, the largest priority dropped so far (none while
      nothing has been dropped). */
  ghost predicate KeepsLargest(m: map<real, Sample>, ceiling: Option<real>) {
    ceiling.Some? ==> forall k :: k in m ==> ceiling.value < k
  }

  function MaxDropped(ceiling: Option<real>, p: real): Option<real> {
    if ceiling.Some? && p <= ceiling.value then ceiling else Some(p)
  }

  /** The largest priority dropped once a sample of priority `p` has been
      offered: the evicted least priority, or `p` itself when it is refused. */
  ghost function DroppedAfter(m: map<real, Sample>, full: bool, p: real, ceiling: Option<real>): Option<real>
    requires full ==> m != map[]
  {
    if !full || p in m then ceiling
    else
      var first := MinKeyOf(m);
      if first < p then MaxDropped(ceiling, first) else MaxDropped(ceiling, p)
  }

  /** Admitting a sample keeps the largest priorities. */
  lemma AdmitKeepsLargest(m: map<real, Sample>, ceiling: Option<real>, full: bool, p: real, sample: Sample)
    requires full ==> m != map[]
    requires KeepsLargest(m, ceiling)
    requires !full ==> ceiling.None?
    ensures KeepsLargest(Admit(m, full, p, sample), DroppedAfter(m, full, p, ceiling))
    ensures !full ==> DroppedAfter(m, full, p, ceiling).None?
  {
    var m' := Admit(m, full, p, sample);
    if full && p !in m {
      var first := MinKeyOf(m);
      var c := DroppedAfter(m, full, p, ceiling);
      forall k | k in m'
        ensures c.value < k
      {
        if k != p {
          assert k in m;
        }
      }
    }
  }

  /** A full reservoir keeps its number of samples. */
  lemma AdmitFullSize(m: map<real, Sample>, p: real, sample: Sample)
    requires m != map[]
    ensures |Admit(m, true, p, sample)| == |m|
  {
    var first := MinKeyOf(m);
    if first < p && p !in m {
      var m' := m[p := sample] - {first};
      assert m'.Keys == m.Keys + {p} - {first};
      assert |m.Keys + {p}| == |m.Keys| + 1;
    }
  }

  /** A filling reservoir grows by at most one sample. */
  lemma AdmitFillingSize(m: map<real, Sample>, p: real, sample: Sample)
    ensures |Admit(m, false, p, sample)| <= |m| + 1
  {
    assert m[p := sample].Keys == m.Keys + {p};
  }

  lemma MulStrict(a: real, b: real, c: real)
    requires a < b && c > 0.0
    ensures a * c < b * c
  {
    assert b * c - a * c == (b - a) * c;
  }

  lemma ScaleStrict(a: real, b: real, factor: real)
    requires a < b && factor > 0.0
    ensures Scale(a, factor) < Scale(b, factor)
  {
    MulStrict(a, b, factor);
  }

  lemma ScaleInjective(a: real, b: real, factor: real)
    requires factor > 0.0 && Scale(a, factor) == Scale(b, factor)
    ensures a == b
  {
    if a < b {
      ScaleStrict(a, b, factor);
    } else if b < a {
      ScaleStrict(b, a, factor);
    }
  }

  lemma ScaleInverse(x: real, factor: real)
    requires factor > 0.0
    ensures Scale(x / factor, factor) == x
  {
  }

  lemma ScaleKeysInjective(m: map<real, Sample>, factor: real)
    requires factor > 0.0
    ensures forall a, b :: a in m && b in m && Scale(a, factor) == Scale(b, factor) ==> a == b
  {
    forall a, b | a in m && b in m && Scale(a, factor) == Scale(b, factor)
      ensures a == b
    {
      ScaleInjective(a, b, factor);
    }
  }

  /** `_rescale`'s new map: every priority and every weight multiplied by the
      factor `exp(-alpha * (now - landmark))`. */
  function Rescaled(m: map<real, Sample>, factor: real): (r: map<real, Sample>)
    requires factor > 0.0
  {
    ScaleKeysInjective(m, factor);
    map k | k in m :: Scale(k, factor) := (m[k].0, Scale(m[k].1, factor))
  }

  /** The old entry at `k` moves to `k * factor`, its weight scaled. */
  lemma RescaledAt(m: map<real, Sample>, factor: real, k: real)
    requires factor > 0.0
    ensures k in m ==> Scale(k, factor) in Rescaled(m, factor) && Rescaled(m, factor)[Scale(k, factor)] == (m[k].0, Scale(m[k].1, factor))
  {
    ScaleKeysInjective(m, factor);
  }

  /** Every key of the rescaled map is an old key, scaled. */
  lemma RescaledKey(m: map<real, Sample>, factor: real, k': real)
    requires factor > 0.0 && k' in Rescaled(m, factor)
    ensures k' / factor in m && Scale(k' / factor, factor) == k'
  {
    var k :| k in m && Scale(k, factor) == k';
    ScaleInverse(k', factor);
    ScaleInjective(k, k' / factor, factor);
  }

  /** The ceiling, rescaled with the priorities. */
  function ScaledCeiling(ceiling: Option<real>, factor: real): Option<real> {
    if ceiling.Some? then Some(Scale(ceiling.value, factor)) else None
  }

  /** Rescaling keeps the order of priorities, so it keeps which priorities
      were the largest. */
  lemma RescaledKeepsLargest(m: map<real, Sample>, ceiling: Option<real>, factor: real)
    requires factor > 0.0 && KeepsLargest(m, ceiling)
    ensures KeepsLargest(Rescaled(m, factor), ScaledCeiling(ceiling, factor))
  {
    if ceiling.Some? {
      forall k' | k' in Rescaled(m, factor)
        ensures Scale(ceiling.value, factor) < k'
      {
        RescaledKey(m, factor, k');
        ScaleStrict(ceiling.value, k' / factor, factor);
      }
    }
  }

  /** Rescaling keeps the ordering invariant of each sample
      (`0 < weight < priority`) and the values stored. */
  lemma RescaledEntries(m: map<real, Sample>, factor: real, values: seq<real>)
    requires factor > 0.0
    requires forall k :: k in m ==> 0.0 < m[k].1 < k && m[k].0 in values
    ensures forall k' :: k' in Rescaled(m, factor) ==>
              0.0 < Rescaled(m, factor)[k'].1 < k' && Rescaled(m, factor)[k'].0 in values
  {
    var r := Rescaled(m, factor);
    forall k' | k' in r
      ensures 0.0 < r[k'].1 < k' && r[k'].0 in values
    {
      RescaledKey(m, factor, k');
      var k := k' / factor;
      RescaledAt(m, factor, k);
      ScaleStrict(0.0, m[k].1, factor);
      ScaleStrict(m[k].1, k, factor);
    }
  }

  /** Rescaling keeps the number of samples. */
  lemma {:induction false} RescaledSize(m: map<real, Sample>, factor: real)
    requires factor > 0.0
    ensures |Rescaled(m, factor)| == |m|
  {
    var r := Rescaled(m, factor);
    var image := set k | k in m :: Scale(k, factor);
    assert r.Keys == image by {
      forall x | x in r ensures x in image { RescaledKey(m, factor, x); }
      forall k | k in m ensures Scale(k, factor) in r { RescaledAt(m, factor, k); }
    }
    ScaleKeysInjective(m, factor);
    ImageSize(m.Keys, factor);
  }

  /** An injective image of a finite set has its size. */
  lemma {:induction false} ImageSize(keys: set<real>, factor: real)
    requires factor > 0.0
    ensures |set k | k in keys :: Scale(k, factor)| == |keys|
    decreases |keys|
  {
    if keys != {} {
      SomeElement(keys);
      var x :| x in keys;
      var rest := keys - {x};
      ImageSize(rest, factor);
      var img, img' := set k | k in keys :: Scale(k, factor), set k | k in rest :: Scale(k, factor);
      assert img == img' + {Scale(x, factor)};
      if Scale(x, factor) in img' {
        var y :| y in rest && Scale(y, factor) == Scale(x, factor);
        ScaleInjective(x, y, factor);
      }
    } else {
      assert (set k | k in keys :: Scale(k, factor)) == {};
    }
  }

  /** Adding one old entry to the map adds its scaled entry to the
      rescaled map. */
  lemma RescaledInsert(m: map<real, Sample>, k: real, v: Sample, factor: real)
    requires factor > 0.0 && k !in m
    ensures Rescaled(m[k := v], factor) == Rescaled(m, factor)[Scale(k, factor) := (v.0, Scale(v.1, factor))]
  {
    var a, b := Rescaled(m[k := v], factor), Rescaled(m, factor)[Scale(k, factor) := (v.0, Scale(v.1, factor))];
    forall x | x in a
      ensures x in b && a[x] == b[x]
    {
      RescaledKey(m[k := v], factor, x);
      var y := x / factor;
      RescaledAt(m[k := v], factor, y);
      if y != k {
        RescaledAt(m, factor, y);
        if x == Scale(k, factor) {
          ScaleInjective(y, k, factor);
        }
      }
    }
    forall x | x in b
      ensures x in a
    {
      if x != Scale(k, factor) {
        RescaledKey(m, factor, x);
        RescaledAt(m[k := v], factor, x / factor);
      } else {
        RescaledAt(m[k := v], factor, k);
      }
    }
  }

  /** A positive weight divided by a draw from (0, 1) exceeds the weight. */
  lemma PriorityAboveWeight(weight: real, scale: real)
    requires weight > 0.0 && 0.0 < scale < 1.0
    ensures weight < weight / scale
  {
    var p := weight / scale;
    assert p * scale == weight;
    if p <= weight {
      ScaleLe(p, weight, scale);
      MulStrict(scale, 1.0, weight);
      assert false;
    }
  }

  lemma ScaleLe(a: real, b: real, c: real)
    requires a <= b && c > 0.0
    ensures a * c <= b * c
  {
    if a < b {
      MulStrict(a, b, c);
    }
  }

  /** The samples of `m` in the order `order` lists its keys. */
  function SamplesAt(m: map<real, Sample>, order: seq<real>): (s: seq<Sample>)
    ensures |s| == |order|
    ensures forall i :: 0 <= i < |order| && order[i] in m ==> s[i] == m[order[i]]
  {
    MapSeq(k => if k in m then m[k] else (0.0, 0.0), order)
  }

  /** `order` lists every key of the set exactly once, as iterating over a
      dictionary does. */
  ghost predicate Enumerates(order: seq<real>, keys: set<real>) {
    && (forall i, j :: 0 <= i < j < |order| ==> order[i] != order[j])
    && (forall k :: k in keys <==> k in order)
  }

  /** A list without repeats holds each element once. */
  lemma {:induction false} DistinctCount(order: seq<real>, x: real)
    requires forall i, j :: 0 <= i < j < |order| ==> order[i] != order[j]
    ensures multiset(order)[x] == if x in order then 1 else 0
    decreases |order|
  {
    if order != [] {
      var n := |order|;
      assert order == order[..n - 1] + [order[n - 1]];
      DistinctCount(order[..n - 1], x);
      if x == order[n - 1] {
        assert x !in order[..n - 1];
      }
    }
  }

  /** Two enumerations of the same keys are permutations of each other. */
  lemma EnumerationsPermute(o1: seq<real>, o2: seq<real>, keys: set<real>)
    requires Enumerates(o1, keys) && Enumerates(o2, keys)
    ensures multiset(o1) == multiset(o2)
  {
    forall x
      ensures multiset(o1)[x] == multiset(o2)[x]
    {
      DistinctCount(o1, x);
      DistinctCount(o2, x);
    }
  }

  lemma EnumeratedKeys(m: map<real, Sample>, order: seq<real>)
    requires Enumerates(order, m.Keys)
    ensures forall i :: 0 <= i < |order| ==> order[i] in m
  {
    forall i | 0 <= i < |order|
      ensures order[i] in m
    {
      assert order[i] in order;
    }
  }

  /** The weighted snapshot of a decaying reservoir does not depend on the
      order in which the dictionary hands over its samples. */
  lemma SnapshotOrderFree(m: map<real, Sample>, o1: seq<real>, o2: seq<real>)
    requires forall k :: k in m ==> m[k].1 > 0.0
    requires Enumerates(o1, m.Keys) && Enumerates(o2, m.Keys)
    ensures o1 != [] ==> TotalWeight(SamplesAt(m, o1)) > 0.0
    ensures o2 != [] ==> TotalWeight(SamplesAt(m, o2)) > 0.0
    ensures NewWeighted(SamplesAt(m, o1)) == NewWeighted(SamplesAt(m, o2))
  {
    EnumeratedKeys(m, o1);
    EnumeratedKeys(m, o2);
    PositiveTotal(m, o1);
    PositiveTotal(m, o2);
    EnumerationsPermute(o1, o2, m.Keys);
    MapSeqPermutation(k => if k in m then m[k] else (0.0, 0.0), o1, o2);
    NewWeightedPermutation(SamplesAt(m, o1), SamplesAt(m, o2));
  }

  /** Every priority of `order`, rescaled. */
  function ScaleAll(order: seq<real>, factor: real): (r: seq<real>)
    ensures |r| == |order|
    ensures forall i :: 0 <= i < |order| ==> r[i] == Scale(order[i], factor)
  {
    seq(|order|, i requires 0 <= i < |order| => Scale(order[i], factor))
  }

  /** The rescaled keys, in the old order, list the rescaled map. */
  lemma ScaleAllEnumerates(m: map<real, Sample>, order: seq<real>, factor: real)
    requires factor > 0.0 && Enumerates(order, m.Keys)
    ensures Enumerates(ScaleAll(order, factor), Rescaled(m, factor).Keys)
  {
    var r, order' := Rescaled(m, factor), ScaleAll(order, factor);
    forall i, j | 0 <= i < j < |order'|
      ensures order'[i] != order'[j]
    {
      if order'[i] == order'[j] {
        ScaleInjective(order[i], order[j], factor);
      }
    }
    forall k' ensures k' in r <==> k' in order' {
      if k' in r {
        RescaledKey(m, factor, k');
        var i :| 0 <= i < |order| && order[i] == k' / factor;
        assert order'[i] == k';
      }
      if k' in order' {
        var i :| 0 <= i < |order'| && order'[i] == k';
        assert order[i] in order;
        RescaledAt(m, factor, order[i]);
      }
    }
  }

  /** Read through the rescaled keys, the rescaled map holds the old samples
      with every weight multiplied by the factor. */
  lemma RescaledSamples(m: map<real, Sample>, order: seq<real>, factor: real)
    requires factor > 0.0
    requires forall i :: 0 <= i < |order| ==> order[i] in m
    ensures SamplesAt(Rescaled(m, factor), ScaleAll(order, factor)) == MapSeq(Reweighted(factor), SamplesAt(m, order))
  {
    var a, b := SamplesAt(Rescaled(m, factor), ScaleAll(order, factor)), MapSeq(Reweighted(factor), SamplesAt(m, order));
    forall i | 0 <= i < |order|
      ensures a[i] == b[i]
    {
      RescaledAt(m, factor, order[i]);
    }
  }

  /** Rescaling does not change what a snapshot reports: the rescaled keys,
      in the old order, list the new map, and its samples are the old ones
      with every weight multiplied by the factor, which normalising cancels. */
  lemma RescaleKeepsSnapshot(m: map<real, Sample>, order: seq<real>, factor: real)
    requires factor > 0.0
    requires forall k :: k in m ==> m[k].1 > 0.0
    requires Enumerates(order, m.Keys)
    ensures Enumerates(ScaleAll(order, factor), Rescaled(m, factor).Keys)
    ensures order != [] ==> TotalWeight(SamplesAt(m, order)) > 0.0
    ensures order != [] ==> TotalWeight(SamplesAt(Rescaled(m, factor), ScaleAll(order, factor))) > 0.0
    ensures NewWeighted(SamplesAt(Rescaled(m, factor), ScaleAll(order, factor))) == NewWeighted(SamplesAt(m, order))
  {
    EnumeratedKeys(m, order);
    ScaleAllEnumerates(m, order, factor);
    RescaledSamples(m, order, factor);
    PositiveTotal(m, order);
    var samples := SamplesAt(m, order);
    NewWeightedScaleFree(samples, factor);
    if order != [] {
      ScaleStrict(0.0, TotalWeight(samples), factor);
    }
  }

  /** Positive weights give a positive total. */
  lemma PositiveTotal(m: map<real, Sample>, order: seq<real>)
    requires forall k :: k in m ==> m[k].1 > 0.0
    requires forall i :: 0 <= i < |order| ==> order[i] in m
    ensures order != [] ==> TotalWeight(SamplesAt(m, order)) > 0.0
  {
    if order != [] {
      var samples := SamplesAt(m, order);
      var ws := MapSeq(Weight, samples);
      forall i | 0 <= i < |ws| ensures ws[i] > 0.0 {
        var k := order[i];
        assert k in m;
        assert m[k].1 > 0.0;
        assert samples[i] == m[k];
      }
      SumPositive(ws);
    }
  }

  /** The invariant of a decaying reservoir's state: it holds at most
      `size` samples and no more than it was offered; each sample's weight is
      positive and below its priority, and its value was offered; the
      priorities kept are the largest drawn, and all of them while the
      reservoir is filling. */
  ghost predicate DecayInvariant(res: map<real, Sample>, count: nat, size: nat, history: seq<real>, ceiling: Option<real>) {
    && count == |history|
    && |res| <= size && |res| <= count
    && (count > 0 ==> res != map[])
    && (forall k :: k in res ==> 0.0 < res[k].1 < k && res[k].0 in history)
    && KeepsLargest(res, ceiling)
    && (count < size ==> ceiling.None?)
  }

  /** Rescaling keeps the invariant. */
  lemma RescalePreserves(res: map<real, Sample>, count: nat, size: nat, history: seq<real>, ceiling: Option<real>, factor: real)
    requires factor > 0.0 && DecayInvariant(res, count, size, history, ceiling)
    ensures DecayInvariant(Rescaled(res, factor), count, size, history, ScaledCeiling(ceiling, factor))
  {
    RescaledSize(res, factor);
    RescaledEntries(res, factor, history);
    RescaledKeepsLargest(res, ceiling, factor);
  }

  /** Admitting a sample whose priority exceeds its positive weight keeps the
      invariant. */
  lemma AdmitPreserves(res: map<real, Sample>, count: nat, size: nat, history: seq<real>, ceiling: Option<real>, p: real, sample: Sample)
    requires DecayInvariant(res, count, size, history, ceiling)
    requires 0.0 < sample.1 < p && size > 0
    ensures count >= size ==> res != map[]
    ensures DecayInvariant(Admit(res, count >= size, p, sample), count + 1, size, history + [sample.0],
                           DroppedAfter(res, count >= size, p, ceiling))
  {
    var full := count >= size;
    AdmitKeepsLargest(res, ceiling, full, p, sample);
    if full {
      AdmitFullSize(res, p, sample);
    } else {
      AdmitFillingSize(res, p, sample);
    }
    var res' := Admit(res, full, p, sample);
    forall k | k in res'
      ensures 0.0 < res'[k].1 < k && res'[k].0 in history + [sample.0]
    {
      if k != p {
        assert k in res;
      }
    }
  }

  /** The priorities after `_rescale_if_needed()`: rescaled when the hour
      is up, untouched otherwise. */
  function RescaledIf(m: map<real, Sample>, due: bool, factor: real): (r: map<real, Sample>)
    requires factor > 0.0
    ensures |r| == |m|
  {
    RescaledSize(m, factor);
    if due then Rescaled(m, factor) else m
  }

  /** `timestamp or datetime.now()`. */
  function Stamp(timestamp: Option<real>, now: real): real {
    if timestamp.Some? then timestamp.value else now
  }

  /** One more key of `m` rescaled. */
  lemma RescaledStep(m: map<real, Sample>, keys: set<real>, k: real, factor: real)
    requires factor > 0.0 && k in keys && keys <= m.Keys
    ensures Rescaled(m - (keys - {k}), factor)
         == Rescaled(m - keys, factor)[Scale(k, factor) := (m[k].0, Scale(m[k].1, factor))]
  {
    assert m - (keys - {k}) == (m - keys)[k := m[k]];
    RescaledInsert(m - keys, k, m[k], factor);
  }

  /** `for key, (value, weight) in self._res.items(): new_res[key * scale] =
      (value, weight * scale)`. */
  method RescaleMap(m: map<real, Sample>, factor: real) returns (nr: map<real, Sample>)
    requires factor > 0.0
    ensures nr == Rescaled(m, factor)
  {
    var keys := m.Keys;
    nr := map[];
    assert m - keys == map[];
    while keys != {}
      invariant keys <= m.Keys
      invariant nr == Rescaled(m - keys, factor)
      decreases |keys|
    {
      SomeElement(keys);
      var k :| k in keys;
      RescaledStep(m, keys, k, factor);
      nr := nr[Scale(k, factor) := (m[k].0, Scale(m[k].1, factor))];
      keys := keys - {k};
    }
    assert m - keys == m;
  }

  /** `ExponentiallyDecayingReservoir(size, alpha)`: a priority sample of the
      stream. Each value gets the weight `exp(alpha * (t - landmark))` and
      the priority `weight / u` for a uniform draw `u` in (0, 1); the
      reservoir keeps the `size` largest priorities. Once an hour the
      landmark moves to the present and every priority and weight is scaled
      down to match. */
  class ExponentiallyDecayingReservoir {
    var res: map<real, Sample>
    var count: nat
    const size: nat
    const alpha: real
    var landmark: real
    var nextRescale: real
    ghost var history: seq<real>
    /** The largest priority drawn and not kept, rescaled along with the
        stored ones. */
    ghost var ceiling: Option<real>

    ghost predicate Valid()
      reads this
    {
      DecayInvariant(res, count, size, history, ceiling)
    }

    constructor (size: nat, alpha: real, now: real)
      ensures Valid() && history == [] && res == map[]
      ensures this.size == size && this.alpha == alpha
      ensures landmark == now && nextRescale == now + RescaleThreshold
    {
      this.size, this.alpha := size, alpha;
      nextRescale := now + RescaleThreshold;
      landmark := now;
      res, count := map[], 0;
      history, ceiling := [], None;
    }

    /** `_rescale()` at time `now`, where `factor` is
        `exp(-alpha * (now - landmark))`. */
    method Rescale(now: real, factor: real)
      requires Valid() && factor > 0.0
      modifies this
      ensures Valid()
      ensures res == Rescaled(old(res), factor)
      ensures landmark == now && nextRescale == now + RescaleThreshold
      ensures count == old(count) && history == old(history)
    {
      nextRescale, landmark := now + RescaleThreshold, now;
      ghost var c := ScaledCeiling(ceiling, factor);
      var nr := RescaleMap(res, factor);
      assert DecayInvariant(nr, count, size, history, c) by {
        RescalePreserves(res, count, size, history, ceiling, factor);
      }
      res := nr;
      ceiling := c;
    }

    /** `_rescale_if_needed()`: rescale once the hour is up. */
    method RescaleIfNeeded(now: real, factor: real)
      requires Valid() && factor > 0.0
      modifies this
      ensures Valid()
      ensures res == RescaledIf(old(res), now >= old(nextRescale), factor)
      ensures landmark == (if now >= old(nextRescale) then now else old(landmark))
      ensures nextRescale == (if now >= old(nextRescale) then now + RescaleThreshold else old(nextRescale))
      ensures count == old(count) && history == old(history)
    {
      if now >= nextRescale {
        Rescale(now, factor);
      }
    }

    /** `update(value, timestamp)`. The clock reads `now` when deciding
        whether to rescale (and, when it does, for the new landmark and next
        rescale), then `later` for a missing timestamp. The weight is
        `exp(alpha * (timestamp - landmark))` measured after any rescaling,
        `scale` the draw from (0, 1) and `factor` the rescaling factor. */
    method Update(value: real, now: real, later: real, timestamp: Option<real>, weight: real, scale: real, factor: real)
      returns (r: Result<(), ReservoirError>)
      requires Valid()
      requires weight > 0.0 && 0.0 < scale < 1.0 && factor > 0.0
      modifies this
      ensures Valid()
      ensures landmark == (if now >= old(nextRescale) then now else old(landmark))
      ensures nextRescale == (if now >= old(nextRescale) then now + RescaleThreshold else old(nextRescale))
      ensures r.Err? <==> Stamp(timestamp, later) <= landmark || size == 0
      ensures r.Err? ==> r.error == (if Stamp(timestamp, later) <= landmark then TimestampBeforeLandmark else NoPriorities)
      ensures r.Err? ==> res == RescaledIf(old(res), now >= old(nextRescale), factor) && history == old(history)
      ensures r.Ok? ==> old(count) >= size ==> RescaledIf(old(res), now >= old(nextRescale), factor) != map[]
      ensures r.Ok? ==> res == Admit(RescaledIf(old(res), now >= old(nextRescale), factor),
                                     old(count) >= size, weight / scale, (value, weight))
      ensures r.Ok? ==> history == old(history) + [value]
    {
      RescaleIfNeeded(now, factor);
      r := Record(value, Stamp(timestamp, later), weight, scale);
    }

    /** The rest of `update` once any rescaling is done: checks the
        timestamp `ts` against the landmark and offers the sample with
        priority `weight / scale`. */
    method Record(value: real, ts: real, weight: real, scale: real) returns (r: Result<(), ReservoirError>)
      requires Valid()
      requires weight > 0.0 && 0.0 < scale < 1.0
      modifies this
      ensures Valid()
      ensures landmark == old(landmark) && nextRescale == old(nextRescale)
      ensures r.Err? <==> ts <= landmark || size == 0
      ensures r.Err? ==> r.error == (if ts <= landmark then TimestampBeforeLandmark else NoPriorities)
      ensures r.Err? ==> res == old(res) && history == old(history)
      ensures r.Ok? ==> old(count) >= size ==> old(res) != map[]
      ensures r.Ok? ==> res == Admit(old(res), old(count) >= size, weight / scale, (value, weight))
      ensures r.Ok? ==> history == old(history) + [value]
    {
      if ts <= landmark {
        return Err(TimestampBeforeLandmark);
      }
      var priority := weight / scale;
      PriorityAboveWeight(weight, scale);
      var sample := (value, weight);
      if count >= size && res == map[] {
        return Err(NoPriorities);
      }
      ghost var c := DroppedAfter(res, count >= size, priority, ceiling);
      var nr := Offer(res, count >= size, priority, sample);
      assert DecayInvariant(nr, count + 1, size, history + [value], c) by {
        AdmitPreserves(res, count, size, history, ceiling, priority, sample);
      }
      count, history := count + 1, history + [value];
      res := nr;
      ceiling := c;
      r := Ok(());
    }

    function Len(): (n: nat)
      requires Valid()
      reads this
      ensures n == |history|
    {
      count
    }

    /** `snapshot()`: the weighted snapshot of the stored samples, taken in
        the dictionary's iteration order `order`. */
    method Snapshot() returns (w: WeightedSnapshot, ghost order: seq<real>)
      requires Valid()
      ensures Enumerates(order, res.Keys)
      ensures order != [] ==> TotalWeight(SamplesAt(res, order)) > 0.0
      ensures w == NewWeighted(SamplesAt(res, order))
      ensures forall v :: v in w.values ==> v in history
    {
      var keys := res.Keys;
      var samples: seq<Sample> := [];
      order := [];
      while keys != {}
        invariant keys <= res.Keys
        invariant forall i, j :: 0 <= i < j < |order| ==> order[i] != order[j]
        invariant forall k :: k in order <==> k in res && k !in keys
        invariant samples == SamplesAt(res, order)
        decreases |keys|
      {
        SomeElement(keys);
        var k :| k in keys;
        samples := samples + [res[k]];
        order := order + [k];
        keys := keys - {k};
      }
      EnumeratedKeys(res, order);
      PositiveTotal(res, order);
      w := NewWeighted(samples);
      SampledValuesOffered(res, order, history);
    }
  }

  /** Every value a decaying reservoir's snapshot holds was offered to it. */
  lemma SampledValuesOffered(res: map<real, Sample>, order: seq<real>, history: seq<real>)
    requires forall k :: k in res ==> res[k].1 > 0.0 && res[k].0 in history
    requires forall i :: 0 <= i < |order| ==> order[i] in res
    ensures order != [] ==> TotalWeight(SamplesAt(res, order)) > 0.0
    ensures forall v :: v in NewWeighted(SamplesAt(res, order)).values ==> v in history
  {
    PositiveTotal(res, order);
    var samples := SamplesAt(res, order);
    var values := MapSeq(Value, samples);
    var w := NewWeighted(samples);
    assert multiset(w.values) == multiset(values);
    forall v | v in w.values
      ensures v in history
    {
      assert v in multiset(w.values);
      assert v in values;
      var i :| 0 <= i < |values| && values[i] == v;
      var k := order[i];
      assert samples[i] == res[k];
    }
  }

  /** Offering priorities to a full reservoir holding priorities 1 and 2: a
      larger one evicts the least, a smaller one or one already present
      changes nothing; a filling reservoir stores the sample. */
  lemma AdmitExamples()
    ensures var m := map[1.0 := (10.0, 0.5), 2.0 := (20.0, 1.0)];
            && m != map[]
            && Admit(m, true, 3.0, (30.0, 1.5)) == map[2.0 := (20.0, 1.0), 3.0 := (30.0, 1.5)]
            && Admit(m, true, 0.75, (5.0, 0.25)) == m
            && Admit(m, true, 2.0, (7.0, 1.0)) == m
            && Admit(m, false, 0.75, (5.0, 0.25)) == map[0.75 := (5.0, 0.25), 1.0 := (10.0, 0.5), 2.0 := (20.0, 1.0)]
  {
    var m := map[1.0 := (10.0, 0.5), 2.0 := (20.0, 1.0)];
    assert 1.0 in m;
    var first := MinKeyOf(m);
    assert first == 1.0 by {
      assert IsMinKey(first, m);
      assert first in m.Keys && m.Keys == {1.0, 2.0};
      assert 1.0 in m && first <= 1.0;
    }
    assert m[3.0 := (30.0, 1.5)] - {1.0} == map[2.0 := (20.0, 1.0), 3.0 := (30.0, 1.5)];
  }

  /** Rescaling by one half halves every priority and every weight. */
  lemma RescaleExample()
    ensures Rescaled(map[2.0 := (1.0, 1.0), 4.0 := (2.0, 2.0)], 0.5) == map[1.0 := (1.0, 0.5), 2.0 := (2.0, 1.0)]
  {
    var m := map[2.0 := (1.0, 1.0), 4.0 := (2.0, 2.0)];
    var r := Rescaled(m, 0.5);
    RescaledAt(m, 0.5, 2.0);
    RescaledAt(m, 0.5, 4.0);
    forall k' | k' in r
      ensures k' == 1.0 || k' == 2.0
    {
      RescaledKey(m, 0.5, k');
    }
    assert r.Keys == {1.0, 2.0};
  }

  // ---------------------------------------------------------------------
  // The common interface
  // ---------------------------------------------------------------------

  /** What one update may consult beyond the value: the random draws and the
      clock readings, passed in. `index` is the uniform reservoir's
      `randint`; `now`, `later`, `timestamp`, `weight`, `scale` and `factor`
      are the decaying reservoir's two clock readings, explicit timestamp,
      `exp` weight, `random()` draw and rescale factor. */
  datatype Draw = Draw(index: int, now: real, later: real, timestamp: Option<real>, weight: real, scale: real, factor: real)

  /** What `update(value)` with draws `d`, returning `r`, did to reservoir
      `a`: it failed exactly when `Fails(d)` held before, and only a success
      extends the history. A uniform reservoir appends while filling, then
      overwrites slot `d.index` when it is below the size and otherwise
      keeps its buffer; a failure keeps the buffer. A decaying reservoir
      first rescales when due, moving its landmark and next rescale, and on
      success admits `(value, weight)` under priority `weight / scale`. */
  twostate predicate UpdatedWith(a: AnyReservoir, value: real, d: Draw, new r: Result<(), ReservoirError>)
    requires old(a.Valid() && a.Admits(d))
    reads a.Obj()
  {
    && (r.Err? <==> old(a.Fails(d)))
    && a.History() == (if r.Ok? then old(a.History()) + [value] else old(a.History()))
    && (a.Uniform? && r.Ok? && old(a.uniform.count) < a.uniform.size ==> a.uniform.res == old(a.uniform.res) + [value])
    && (a.Uniform? && r.Ok? && old(a.uniform.count) >= a.uniform.size ==>
          a.uniform.res == if d.index < a.uniform.size then old(a.uniform.res)[d.index := value] else old(a.uniform.res))
    && (a.Uniform? && r.Err? ==> a.uniform.res == old(a.uniform.res))
    && (a.Decaying? ==>
          var due := d.now >= old(a.decaying.nextRescale);
          && a.decaying.landmark == (if due then d.now else old(a.decaying.landmark))
          && a.decaying.nextRescale == (if due then d.now + RescaleThreshold else old(a.decaying.nextRescale))
          && (r.Err? ==> a.decaying.res == RescaledIf(old(a.decaying.res), due, d.factor)))
    && (a.Decaying? && r.Ok? ==>
          var m := RescaledIf(old(a.decaying.res), d.now >= old(a.decaying.nextRescale), d.factor);
          && (old(a.decaying.count) >= a.decaying.size ==> m != map[])
          && a.decaying.res == Admit(m, old(a.decaying.count) >= a.decaying.size, d.weight / d.scale, (value, d.weight)))
  }

  /** A reservoir's snapshot: a plain `Snapshot` or a `WeightedSnapshot`. */
  datatype AnySnapshot = Plain(values: seq<real>) | Weighted(weighted: WeightedSnapshot)

  /** `BaseReservoir`: one of the four reservoirs, each used through
      `update`, `snapshot` and `len`. */
  datatype AnyReservoir =
    | Unbounded(unbounded: Reservoir)
    | Sliding(sliding: SlidingWindowReservoir)
    | Uniform(uniform: UniformReservoir)
    | Decaying(decaying: ExponentiallyDecayingReservoir)
  {
    function Obj(): object {
      match this
      case Unbounded(r) => r
      case Sliding(r) => r
      case Uniform(r) => r
      case Decaying(r) => r
    }

    ghost predicate Valid()
      reads Obj()
    {
      match this
      case Unbounded(r) => r.Valid()
      case Sliding(r) => r.Valid()
      case Uniform(r) => r.Valid()
      case Decaying(r) => r.Valid()
    }

    /** Every value offered so far. */
    ghost function History(): seq<real>
      reads Obj()
    {
      match this
      case Unbounded(r) => r.history
      case Sliding(r) => r.history
      case Uniform(r) => r.history
      case Decaying(r) => r.history
    }

    /** The draws the reservoir's update can be given: an index below the
        count once a uniform reservoir is full; a positive weight, a scale in
        (0, 1) and a positive factor for a decaying one. */
    predicate Admits(d: Draw)
      reads Obj()
    {
      match this
      case Uniform(r) => r.count >= r.size > 0 ==> 0 <= d.index < r.count
      case Decaying(_) => d.weight > 0.0 && 0.0 < d.scale < 1.0 && d.factor > 0.0
      case _ => true
    }

    /** The update with draws `d` raises: the uniform reservoir's empty
        `randint` range, or the decaying reservoir's landmark assertion
        (checked after any rescaling) or empty priority list. */
    predicate Fails(d: Draw)
      reads Obj()
    {
      match this
      case Uniform(r) => r.size == 0
      case Decaying(r) =>
        || Stamp(d.timestamp, d.later) <= (if d.now >= r.nextRescale then d.now else r.landmark)
        || r.size == 0
      case _ => false
    }

    /** `len(reservoir)`: the number of values offered. */
    function Len(): (n: nat)
      requires Valid()
      reads Obj()
      ensures n == |History()|
    {
      match this
      case Unbounded(r) => r.Len()
      case Sliding(r) => r.Len()
      case Uniform(r) => r.Len()
      case Decaying(r) => r.Len()
    }

    /** `update(value)`: records the value, or fails and changes no history.
        Only the uniform and the decaying reservoirs can fail. */
    method Update(value: real, d: Draw) returns (r: Result<(), ReservoirError>)
      requires Valid() && Admits(d)
      modifies Obj()
      ensures Valid() && UpdatedWith(this, value, d, r)
    {
      match this
      case Unbounded(res) =>
        res.Update(value);
        r := Ok(());
      case Sliding(res) =>
        res.Update(value);
        r := Ok(());
      case Uniform(res) =>
        r := res.Update(value, d.index);
      case Decaying(res) =>
        r := res.Update(value, d.now, d.later, d.timestamp, d.weight, d.scale, d.factor);
    }

    /** `snapshot()` of the three reservoirs whose snapshot is plain: the
        sorted values they keep. */
    method PlainSnapshot() returns (values: seq<real>)
      requires Valid() && !Decaying?
      ensures Ascending(values) && multiset(values) <= multiset(History())
      ensures Unbounded? ==> multiset(values) == multiset(History())
      ensures Sliding? ==> var h := History();
                           multiset(values) == multiset(h[|h| - Min(|h|, sliding.size)..])
      ensures Uniform? ==> multiset(values) == multiset(uniform.res)
    {
      match this
      case Unbounded(res) =>
        values := res.Snapshot();
      case Sliding(res) =>
        values := res.Snapshot();
        assert sliding == res && History() == res.history;
        MultisetSuffix(res.history, |res.history| - Min(|res.history|, res.size));
      case Uniform(res) =>
        values := res.Snapshot();
    }

    /** `snapshot()`: a plain snapshot of values offered, except for the
        decaying reservoir, whose snapshot is weighted; `order` is the
        dictionary's iteration order there. */
    method Snapshot() returns (s: AnySnapshot, ghost order: seq<real>)
      requires Valid()
      ensures s.Plain? <==> !Decaying?
      ensures s.Plain? ==> Ascending(s.values) && multiset(s.values) <= multiset(History())
      ensures Unbounded? ==> multiset(s.values) == multiset(History())
      ensures Sliding? ==> var h := History();
                           multiset(s.values) == multiset(h[|h| - Min(|h|, sliding.size)..])
      ensures Uniform? ==> multiset(s.values) == multiset(uniform.res)
      ensures s.Weighted? ==> s.weighted.WellFormed() && Ascending(s.weighted.values)
      ensures s.Weighted? ==> forall v :: v in s.weighted.values ==> v in History()
      ensures Decaying? ==> Enumerates(order, decaying.res.Keys)
                            && (order != [] ==> TotalWeight(SamplesAt(decaying.res, order)) > 0.0)
                            && s.weighted == NewWeighted(SamplesAt(decaying.res, order))
    {
      if Decaying? {
        var w;
        w, order := decaying.Snapshot();
        s := Weighted(w);
      } else {
        var values := PlainSnapshot();
        s, order := Plain(values), [];
      }
    }
  }

  /** A suffix holds part of the multiset. */
  lemma MultisetSuffix(h: seq<real>, i: nat)
    requires i <= |h|
    ensures multiset(h[i..]) <= multiset(h)
  {
    assert h == h[..i] + h[i..];
  }
}
