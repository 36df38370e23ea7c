/** The `parallel_parse` path of the driver: size the chunks from the number
    of stories and of processors, cut the corpus's items into contiguous
    chunks, hand every chunk to the parser, and merge the per-chunk results
    by successive `dict.update` calls.

    The job server is left out: a job's result is what the parser returns
    for its chunk, so dispatch is a sequential map of an abstract `parse`
    function over the chunks. The corpus is its item list in iteration
    order, a sequence of pairs with distinct keys. */
module Parallel {
  import opened Wrappers
  import Dicts

  // ---------------------------------------------------------------------
  // Chunk size
  // ---------------------------------------------------------------------

  /** The chunk-size formula for `n` stories and `cpus` processors: the
      floor of `n / cpus`, or of `n / (cpus - 1)` when `n` leaves a remainder
      of exactly one against the former. `None` is the division by zero the
      formula raises when `n / cpus` is 0, that is when there are fewer
      stories than processors (an empty corpus included). */
  function ChunkSize(n: nat, cpus: nat): (r: Option<nat>)
    ensures r.None? <==> cpus == 0 || n < cpus
    ensures r.Some? ==> 1 <= n / cpus <= r.value <= n
  {
    if cpus == 0 then None
    else
      DivZero(n, cpus);
      if n / cpus == 0 then None
      else
        var q := n / cpus;
        DivAtMost(n, cpus);
        if n % q == 1 then
          RemainderOneNeedsTwo(n, cpus);
          DivAntitone(n, cpus - 1, cpus);
          DivAtMost(n, cpus - 1);
          Some(n / (cpus - 1))
        else
          Some(q)
  }

  lemma DivZero(n: nat, d: nat)
    requires d >= 1
    ensures n / d == 0 <==> n < d
  {
  }

  lemma DivAtMost(n: nat, d: nat)
    requires d >= 1
    ensures n / d <= n
  {
  }

  /** With one processor the quotient is `n` itself, which leaves no
      remainder, so the `cpus - 1` branch always has a non-zero divisor. */
  lemma RemainderOneNeedsTwo(n: nat, cpus: nat)
    requires cpus >= 1 && n / cpus >= 1 && n % (n / cpus) == 1
    ensures cpus >= 2
  {
    DivOne(n);
    ModSelf(n);
  }

  lemma DivOne(n: nat)
    ensures n / 1 == n
  {
  }

  lemma ModSelf(n: nat)
    requires n >= 1
    ensures n % n == 0
  {
  }

  lemma MulCancel(a: int, b: int, d: nat)
    requires a * d < b * d
    ensures a < b
  {
  }

  lemma MulMono(a: int, b: int, d: nat)
    requires a <= b
    ensures a * d <= b * d
  {
  }

  /** A quotient that fits under `n` is at most `n / d`. */
  lemma DivLowerBound(n: nat, d: nat, q: nat)
    requires d >= 1 && q * d <= n
    ensures q <= n / d
  {
    var r := n / d;
    assert (r + 1) * d == r * d + d;
    MulCancel(q, r + 1, d);
  }

  /** `a / d` is below `m` when `a` is below `m * d`. */
  lemma DivBelow(a: nat, d: nat, m: nat)
    requires d >= 1 && a < m * d
    ensures a / d < m
  {
  }

  /** Dividing by more gives less. */
  lemma DivAntitone(n: nat, a: nat, b: nat)
    requires 1 <= a <= b
    ensures n / b <= n / a
  {
    var q := n / b;
    MulMono(a, b, q);
    assert q * a <= q * b <= n;
    DivLowerBound(n, a, q);
  }

  /** `a / d` is `q` when `a` lies in `[q * d, q * d + d)`. */
  lemma DivIs(a: int, d: int, q: int)
    requires d > 0 && q * d <= a < q * d + d
    ensures a / d == q
  {
    var r := a / d;
    assert (r + 1) * d == r * d + d;
    assert (q + 1) * d == q * d + d;
    MulCancel(q, r + 1, d);
    MulCancel(r, q + 1, d);
  }

  /** Adding the divisor adds one to the quotient. */
  lemma DivPlusOne(a: nat, d: nat)
    requires d >= 1
    ensures (a + d) / d == a / d + 1
  {
    var r := a / d;
    assert (r + 1) * d == r * d + d;
    DivIs(a + d, d, r + 1);
  }

  // ---------------------------------------------------------------------
  // Slicing the items
  // ---------------------------------------------------------------------

  /** `[items[i:i+size] for i in xrange(0, len(items), size)]` */
  function Slices<T>(items: seq<T>, size: nat): seq<seq<T>>
    requires size >= 1
    decreases |items|
  {
    if items == [] then []
    else
      var stop := if |items| < size then |items| else size;
      [items[..stop]] + Slices(items[stop..], size)
  }

  /** The slices laid end to end. */
  function Flatten<T>(ss: seq<seq<T>>): seq<T>
  {
    if ss == [] then [] else ss[0] + Flatten(ss[1..])
  }

  /** The slices put back together give the items: nothing is skipped or
      repeated, and the order is kept. */
  lemma {:induction false} SlicesFlatten<T>(items: seq<T>, size: nat)
    requires size >= 1
    ensures Flatten(Slices(items, size)) == items
    decreases |items|
  {
    if items != [] {
      var stop := if |items| < size then |items| else size;
      SlicesFlatten(items[stop..], size);
      var ss := Slices(items, size);
      assert ss[0] == items[..stop];
      assert ss[1..] == Slices(items[stop..], size);
      assert items == items[..stop] + items[stop..];
    }
  }

  /** Every slice is non-empty and at most `size` long, and all but the last
      are exactly `size` long. */
  lemma {:induction false} SlicesShape<T>(items: seq<T>, size: nat)
    requires size >= 1
    ensures forall j :: 0 <= j < |Slices(items, size)| ==> 0 < |Slices(items, size)[j]| <= size
    ensures forall j :: 0 <= j < |Slices(items, size)| - 1 ==> |Slices(items, size)[j]| == size
    decreases |items|
  {
    if items != [] {
      var stop := if |items| < size then |items| else size;
      SlicesShape(items[stop..], size);
      var ss := Slices(items, size);
      var rest := Slices(items[stop..], size);
      assert ss == [items[..stop]] + rest;
      if |items| < size {
        assert items[stop..] == [];
      }
      forall j | 0 < j < |ss| ensures ss[j] == rest[j - 1] {
      }
    }
  }

  /** There are `ceil(n / size)` slices. */
  lemma {:induction false} SlicesCount<T>(items: seq<T>, size: nat)
    requires size >= 1
    ensures |Slices(items, size)| == (|items| + size - 1) / size
    decreases |items|
  {
    var n := |items|;
    if items == [] {
      DivIs(size - 1, size, 0);
    } else if n <= size {
      DivIs(n + size - 1, size, 1);
    } else {
      SlicesCount(items[size..], size);
      assert Slices(items, size) == [items[..size]] + Slices(items[size..], size);
      DivPlusOne(n - 1, size);
    }
  }

  // ---------------------------------------------------------------------
  // The chunks as dicts
  // ---------------------------------------------------------------------

  /** Each slice made into a dict. */
  function ToDicts<K(==), V>(ss: seq<seq<(K, V)>>): (ds: seq<map<K, V>>)
  {
    seq(|ss|, j requires 0 <= j < |ss| => Dicts.FromItems(ss[j]))
  }

  /** `chunks` as the driver builds it. */
  function Chunks<K(==), V>(items: seq<(K, V)>, size: nat): seq<map<K, V>>
    requires size >= 1
  {
    ToDicts(Slices(items, size))
  }

  /** Merging the dicts of a list of slices is the dict of all their items. */
  lemma {:induction false} UpdateAllDicts<K, V>(ss: seq<seq<(K, V)>>)
    ensures Dicts.UpdateAll(ToDicts(ss)) == Dicts.FromItems(Flatten(ss))
  {
    if ss != [] {
      UpdateAllDicts(ss[1..]);
      var ds := ToDicts(ss);
      var rest := ToDicts(ss[1..]);
      forall j | 0 <= j < |ds| ensures ds[j] == ([ds[0]] + rest)[j] {
        if j > 0 {
          assert ss[1..][j - 1] == ss[j];
        }
      }
      assert ds == [ds[0]] + rest;
      Dicts.UpdateAllAppend([ds[0]], rest);
      UpdateAllSingle(ds[0]);
      Dicts.FromItemsAppend(ss[0], Flatten(ss[1..]));
    }
  }

  lemma UpdateAllSingle<K, V>(m: map<K, V>)
    ensures Dicts.UpdateAll([m]) == m
  {
    assert [m][..0] == [];
  }

  /** Coverage: merging the chunks gives back the whole corpus dict. */
  lemma ChunksCover<K, V>(items: seq<(K, V)>, size: nat)
    requires size >= 1
    ensures Dicts.UpdateAll(Chunks(items, size)) == Dicts.FromItems(items)
  {
    UpdateAllDicts(Slices(items, size));
    SlicesFlatten(items, size);
  }

  lemma KeysOfAppend<K, V>(a: seq<(K, V)>, b: seq<(K, V)>)
    ensures Dicts.KeysOf(a + b) == Dicts.KeysOf(a) + Dicts.KeysOf(b)
  {
    var ab := a + b;
    forall k | k in Dicts.KeysOf(a) ensures k in Dicts.KeysOf(ab) {
      var i :| 0 <= i < |a| && a[i].0 == k;
      assert ab[i].0 == k;
    }
    forall k | k in Dicts.KeysOf(ab) ensures k in Dicts.KeysOf(a) + Dicts.KeysOf(b) {
      var i :| 0 <= i < |ab| && ab[i].0 == k;
      if i >= |a| {
        assert b[i - |a|].0 == k;
      }
    }
    forall k | k in Dicts.KeysOf(b) ensures k in Dicts.KeysOf(ab) {
      var i :| 0 <= i < |b| && b[i].0 == k;
      assert ab[|a| + i].0 == k;
    }
  }

  lemma {:induction false} KeysOfFlatten<K, V>(ss: seq<seq<(K, V)>>, j: nat)
    requires j < |ss|
    ensures Dicts.KeysOf(ss[j]) <= Dicts.KeysOf(Flatten(ss))
  {
    KeysOfAppend(ss[0], Flatten(ss[1..]));
    if j > 0 {
      KeysOfFlatten(ss[1..], j - 1);
    }
  }

  lemma DistinctSplit<K, V>(a: seq<(K, V)>, b: seq<(K, V)>)
    requires Dicts.DistinctKeys(a + b)
    ensures Dicts.DistinctKeys(b)
    ensures Dicts.KeysOf(a) !! Dicts.KeysOf(b)
  {
    var ab := a + b;
    forall i, j | 0 <= i < j < |b| ensures b[i].0 != b[j].0 {
      assert ab[|a| + i] == b[i] && ab[|a| + j] == b[j];
    }
    forall i, j | 0 <= i < |a| && 0 <= j < |b| ensures a[i].0 != b[j].0 {
      assert ab[i] == a[i] && ab[|a| + j] == b[j];
    }
  }

  /** Slices of a list with distinct keys make dicts with disjoint keys. */
  lemma {:induction false} DictsDisjoint<K, V>(ss: seq<seq<(K, V)>>)
    requires Dicts.DistinctKeys(Flatten(ss))
    ensures Dicts.PairwiseDisjoint(ToDicts(ss))
  {
    if ss != [] {
      var ds := ToDicts(ss);
      DistinctSplit(ss[0], Flatten(ss[1..]));
      DictsDisjoint(ss[1..]);
      forall i, j | 0 <= i < j < |ds| ensures ds[i].Keys !! ds[j].Keys {
        Dicts.FromItemsKeys(ss[i]);
        Dicts.FromItemsKeys(ss[j]);
        if i == 0 {
          KeysOfFlatten(ss[1..], j - 1);
        } else {
          assert ToDicts(ss[1..])[i - 1] == ds[i] && ToDicts(ss[1..])[j - 1] == ds[j];
        }
      }
    }
  }

  /** Disjointness: the chunks of a corpus share no key. */
  lemma ChunksDisjoint<K, V>(items: seq<(K, V)>, size: nat)
    requires size >= 1 && Dicts.DistinctKeys(items)
    ensures Dicts.PairwiseDisjoint(Chunks(items, size))
  {
    SlicesFlatten(items, size);
    DictsDisjoint(Slices(items, size));
  }

  /** The chunks from position `i` on: the slice `items[i:i+size]` comes
      first, then the chunks from the end of that slice. */
  lemma ChunksStep<K, V>(items: seq<(K, V)>, i: nat, size: nat)
    requires size >= 1 && i < |items|
    ensures var stop := if i + size < |items| then i + size else |items|;
      Chunks(items[i..], size) == [Dicts.FromItems(items[i..stop])] + Chunks(items[stop..], size)
  {
    var stop := if i + size < |items| then i + size else |items|;
    var rest := items[i..];
    assert rest[..stop - i] == items[i..stop];
    assert rest[stop - i..] == items[stop..];
    assert Slices(rest, size) == [items[i..stop]] + Slices(items[stop..], size);
  }

  lemma AppendAssoc<T>(a: seq<T>, b: seq<T>, c: seq<T>)
    ensures a + (b + c) == (a + b) + c
  {
  }

  /** The chunk-building loop: one dict per slice `items[i:i+size]`. */
  method Partition<K(==), V>(items: seq<(K, V)>, size: nat) returns (chunks: seq<map<K, V>>)
    requires size >= 1
    ensures chunks == Chunks(items, size)
    ensures |chunks| == (|items| + size - 1) / size
    ensures Dicts.UpdateAll(chunks) == Dicts.FromItems(items)
    ensures Dicts.DistinctKeys(items) ==> Dicts.PairwiseDisjoint(chunks)
  {
    chunks := [];
    var i := 0;
    while i < |items|
      invariant 0 <= i <= |items|
      invariant chunks + Chunks(items[i..], size) == Chunks(items, size)
      decreases |items| - i
    {
      // items[i:i+size], clamped at the end of the list as Python slicing is
      var stop := if i + size < |items| then i + size else |items|;
      ChunksStep(items, i, size);
      AppendAssoc(chunks, [Dicts.FromItems(items[i..stop])], Chunks(items[stop..], size));
      chunks := chunks + [Dicts.FromItems(items[i..stop])];
      i := stop;
    }
    assert items[i..] == [];
    assert chunks + [] == chunks;
    SlicesCount(items, size);
    ChunksCover(items, size);
    if Dicts.DistinctKeys(items) {
      ChunksDisjoint(items, size);
    }
  }

  // ---------------------------------------------------------------------
  // Chunk count
  // ---------------------------------------------------------------------

  /** The formula never yields more than `2 * cpus - 1` chunks. */
  lemma ChunkCountBound(n: nat, cpus: nat)
    requires ChunkSize(n, cpus).Some?
    ensures (n + ChunkSize(n, cpus).value - 1) / ChunkSize(n, cpus).value <= 2 * cpus - 1
  {
    var d := if n % (n / cpus) == 1 then cpus - 1 else cpus;
    CeilBound(n, cpus, d);
  }

  /** Chunks of `n / d` items, for a `d` of at most `c`, number fewer than
      `2 * c`. */
  lemma CeilBound(n: nat, c: nat, d: nat)
    requires 1 <= d <= c && n / d >= 1
    ensures (n + n / d - 1) / (n / d) <= 2 * c - 1
  {
    var k := n / d;
    QuotientBound(n, d);
    CountBelow(n, c, d, k);
  }

  lemma QuotientBound(n: nat, d: nat)
    requires d >= 1
    ensures n < (n / d) * d + d
  {
  }

  lemma CountBelow(n: nat, c: nat, d: nat, k: nat)
    requires 1 <= d <= c && k >= 1 && n < k * d + d
    ensures (n + k - 1) / k <= 2 * c - 1
  {
    MulMono(d, c, k);
    Expand(c, k);
    MulNonneg(c - 1, k - 1);
    assert n + k - 1 < (2 * c) * k;
    DivBelow(n + k - 1, k, 2 * c);
  }

  lemma Expand(c: int, k: int)
    ensures (c - 1) * (k - 1) == c * k - c - k + 1
    ensures (2 * c) * k == 2 * (c * k)
    ensures k * c == c * k
  {
  }

  lemma MulNonneg(a: nat, b: nat)
    ensures a * b >= 0
  {
  }

  /** But it can yield more chunks than processors: 7 stories on 4
      processors give chunks of one story each, 7 of them. */
  lemma MoreChunksThanProcessors()
    ensures ChunkSize(7, 4) == Some(1)
    ensures (7 + 1 - 1) / 1 == 7
  {
  }

  /** The remainder-one adjustment: 7 stories on 3 processors give chunks of
      3 (not 2), so 3 chunks rather than 4. */
  lemma RemainderOneAdjustment()
    ensures ChunkSize(7, 3) == Some(3)
    ensures (7 + 3 - 1) / 3 == 3
  {
  }

  // ---------------------------------------------------------------------
  // Dispatch and merge
  // ---------------------------------------------------------------------

  /** The results of the per-chunk parse jobs, in chunk order. */
  function Dispatch<K, V, R>(chunks: seq<map<K, V>>, parse: map<K, V> -> map<K, R>): (results: seq<map<K, R>>)
  {
    seq(|chunks|, j requires 0 <= j < |chunks| => parse(chunks[j]))
  }

  /** Submitting one parse job per chunk and collecting the job results in
      submission order. */
  method RunJobs<K, V, R>(chunks: seq<map<K, V>>, parse: map<K, V> -> map<K, R>) returns (partials: seq<map<K, R>>)
    ensures partials == Dispatch(chunks, parse)
  {
    partials := [];
    var j := 0;
    while j < |chunks|
      invariant 0 <= j <= |chunks|
      invariant partials == Dispatch(chunks[..j], parse)
    {
      partials := partials + [parse(chunks[j])];
      j := j + 1;
    }
    assert chunks[..j] == chunks;
  }

  /** `results = dict(); for result in parallel_results: results.update(result)` */
  method Merge<K(==), V>(partials: seq<map<K, V>>) returns (results: map<K, V>)
    ensures results == Dicts.UpdateAll(partials)
    ensures forall k :: k in results <==> Dicts.InSomePart(partials, k)
  {
    results := map[];
    var i := 0;
    while i < |partials|
      invariant 0 <= i <= |partials|
      invariant results == Dicts.UpdateAll(partials[..i])
    {
      assert partials[..i + 1][..i] == partials[..i];
      results := results + partials[i];
      i := i + 1;
    }
    assert partials[..i] == partials;
    forall k ensures k in results <==> Dicts.InSomePart(partials, k) {
      Dicts.UpdateAllKeys(partials, k);
    }
  }

  /** The `parallel_parse` pipeline from the story items to the merged parse
      results; `None` when the chunk-size formula divides by zero. */
  method ParallelParse<K(==), V, R>(items: seq<(K, V)>, cpus: nat, parse: map<K, V> -> map<K, R>)
    returns (r: Option<map<K, R>>)
    ensures r.None? <==> cpus == 0 || |items| < cpus
    ensures r.Some? ==>
              var size := ChunkSize(|items|, cpus).value;
              r.value == Dicts.UpdateAll(Dispatch(Chunks(items, size), parse))
  {
    var size := ChunkSize(|items|, cpus);
    if size.None? {
      return None;
    }
    var chunks := Partition(items, size.value);
    var partials := RunJobs(chunks, parse);
    var results := Merge(partials);
    r := Some(results);
  }

  /** The parse of a dict done story by story. */
  function Pointwise<K, V, R>(f: (K, V) -> R, m: map<K, V>): (p: map<K, R>)
  {
    map k | k in m :: f(k, m[k])
  }

  lemma PointwiseUpdate<K, V, R>(f: (K, V) -> R, a: map<K, V>, b: map<K, V>)
    ensures Pointwise(f, a + b) == Pointwise(f, a) + Pointwise(f, b)
  {
  }

  lemma {:induction false} UpdateAllPointwise<K, V, R>(f: (K, V) -> R, ms: seq<map<K, V>>)
    ensures Dicts.UpdateAll(Dispatch(ms, m => Pointwise(f, m))) == Pointwise(f, Dicts.UpdateAll(ms))
  {
    if ms != [] {
      var init := ms[..|ms| - 1];
      UpdateAllPointwise(f, init);
      var ps := Dispatch(ms, m => Pointwise(f, m));
      assert ps[..|ps| - 1] == Dispatch(init, m => Pointwise(f, m));
      PointwiseUpdate(f, Dicts.UpdateAll(init), ms[|ms| - 1]);
    }
  }

  /** When the parser handles each story on its own, cutting the corpus into
      chunks changes nothing: the merged result is the parse of the whole
      corpus. */
  lemma ParallelIsWhole<K, V, R>(items: seq<(K, V)>, size: nat, f: (K, V) -> R)
    requires size >= 1
    ensures Dicts.UpdateAll(Dispatch(Chunks(items, size), m => Pointwise(f, m)))
            == Pointwise(f, Dicts.FromItems(items))
  {
    UpdateAllPointwise(f, Chunks(items, size));
    ChunksCover(items, size);
  }

  /** Results exist only for submitted stories: when the parser returns keys
      of its chunk only, the merged keys are keys of the corpus. */
  lemma ResultKeysSubmitted<K, V, R>(items: seq<(K, V)>, size: nat, parse: map<K, V> -> map<K, R>)
    requires size >= 1
    requires forall c :: parse(c).Keys <= c.Keys
    ensures Dicts.UpdateAll(Dispatch(Chunks(items, size), parse)).Keys <= Dicts.KeysOf(items)
  {
    var chunks := Chunks(items, size);
    var ps := Dispatch(chunks, parse);
    forall k | k in Dicts.UpdateAll(ps) ensures k in Dicts.KeysOf(items) {
      Dicts.UpdateAllKeys(ps, k);
      var j :| 0 <= j < |ps| && k in ps[j];
      assert k in chunks[j];
      Dicts.UpdateAllKeys(chunks, k);
      ChunksCover(items, size);
      Dicts.FromItemsKeys(items);
    }
  }
}
