/** How the generator cuts its lists into slides: the first three
    projects go to slide 3, the rest three to a page of slide 4, the
    plans three to a page of slide 5, and each page of slide 4 also takes
    a ten-item slice of the support list ("teach" items) at an offset
    computed from the project offset.
 */
module Paging {

  /** Projects per page of slides 4 and 5 (`chunk_size`). */
  const ChunkSize: nat := 3
  /** Teach items per page of slide 4 (`teach_chunk_size`). */
  const TeachChunkSize: nat := 10
  /** Projects shown on slide 3 (`proj_items[:3]`). */
  const FirstSlideProjects: nat := 3

  function Min(a: int, b: int): int {
    if a <= b then a else b
  }

  /** Python's `s[a:b]` for non-negative bounds: both bounds are clamped
      to the length, and a stop before the start gives nothing. */
  function PySlice<T>(s: seq<T>, a: nat, b: nat): seq<T>
  {
    if a < b && a < |s| then s[a..Min(b, |s|)] else []
  }

  /** `s[a:b]` has `min(b, len(s)) - a` items when it is not empty, and
      item `j` of it is item `a + j` of `s`. */
  lemma PySliceAt<T>(s: seq<T>, a: nat, b: nat)
    ensures |PySlice(s, a, b)| == if a < b && a < |s| then Min(b, |s|) - a else 0
    ensures forall j :: 0 <= j < |PySlice(s, a, b)| ==> PySlice(s, a, b)[j] == s[a + j]
  {
  }

  /** Cutting at any point and putting the halves back together gives the
      list back: `s[:k] + s[k:] == s`. */
  lemma PySliceSplit<T>(s: seq<T>, k: nat)
    ensures PySlice(s, 0, k) + PySlice(s, k, |s|) == s
  {
    if k == 0 {
      assert PySlice(s, 0, k) == [];
    } else if k >= |s| {
      assert PySlice(s, 0, k) == s[0..|s|];
    } else {
      assert s[0..k] + s[k..|s|] == s;
    }
  }

  /** The `p`-th value of `range(0, n, k)`. */
  function Offset(p: nat, k: nat): nat
  {
    if p == 0 then 0 else Offset(p - 1, k) + k
  }

  lemma {:induction false} OffsetIsProduct(p: nat, k: nat)
    ensures Offset(p, k) == p * k
  {
    if p > 0 {
      OffsetIsProduct(p - 1, k);
      assert (p - 1) * k + k == p * k;
    }
  }

  /** How many values `range(0, n, k)` produces. */
  function NumPages(n: nat, k: nat): nat
    requires k > 0
    decreases n
  {
    if n == 0 then 0 else 1 + NumPages(if n <= k then 0 else n - k, k)
  }

  /** `range(0, n, k)` yields exactly the offsets below `n`: page `p`
      exists exactly when its offset is below `n`. */
  lemma {:induction false} NumPagesSpec(n: nat, k: nat, p: nat)
    requires k > 0
    ensures p < NumPages(n, k) <==> Offset(p, k) < n
    decreases n
  {
    if n > 0 && p > 0 {
      NumPagesSpec(if n <= k then 0 else n - k, k, p - 1);
    }
  }

  /** The list cut into pages of `k`, as the loops of slides 4 and 5 walk
      it: `s[i:i + k] for i in range(0, len(s), k)`, one page per value of
      the range. */
  function Pages<T>(s: seq<T>, k: nat): seq<seq<T>>
    requires k > 0
  {
    seq(NumPages(|s|, k), p => PageOf(s, k, p))
  }

  /** The page at position `p`: `s[i:i + k]` with `i` the `p`-th offset. */
  function PageOf<T>(s: seq<T>, k: nat, p: int): seq<T>
  {
    if p < 0 then [] else PySlice(s, Offset(p, k), Offset(p, k) + k)
  }

  function Concat<T>(xss: seq<seq<T>>): seq<T>
  {
    if |xss| == 0 then [] else xss[0] + Concat(xss[1..])
  }

  /** Dropping the first `k` items moves every later page one place up. */
  lemma PageShift<T>(s: seq<T>, k: nat, a: nat)
    requires k > 0
    ensures PySlice(s, a + k, a + k + k) == PySlice(PySlice(s, k, |s|), a, a + k)
  {
    var rest := PySlice(s, k, |s|);
    var x := PySlice(s, a + k, a + k + k);
    var y := PySlice(rest, a, a + k);
    assert |x| == |y|;
    PySliceAt(s, k, |s|);
    PySliceAt(s, a + k, a + k + k);
    PySliceAt(rest, a, a + k);
    forall j | 0 <= j < |x| ensures x[j] == y[j] {
      assert y[j] == rest[a + j] == s[k + a + j];
    }
  }

  /** The slice at the `p`-th offset is the slice at the `(p - 1)`-th
      offset of the list without its first `k` items. */
  lemma OffsetShift<T>(s: seq<T>, k: nat, p: nat)
    requires k > 0 && p > 0
    ensures PySlice(PySlice(s, k, |s|), Offset(p - 1, k), Offset(p - 1, k) + k)
         == PySlice(s, Offset(p, k), Offset(p, k) + k)
  {
    PageShift(s, k, Offset(p - 1, k));
  }

  /** Page `p` of a list is page `p - 1` of the list without its first
      `k` items. */
  lemma PageOfShift<T>(s: seq<T>, k: nat, p: nat)
    requires k > 0 && p > 0
    ensures PageOf(s, k, p) == PageOf(PySlice(s, k, |s|), k, p - 1)
  {
    OffsetShift(s, k, p);
  }

  /** Dropping the first `k` items of a non-empty list removes one value
      from `range(0, len(s), k)`. */
  lemma NumPagesStep<T>(s: seq<T>, k: nat)
    requires k > 0 && |s| > 0
    ensures NumPages(|s|, k) == 1 + NumPages(|PySlice(s, k, |s|)|, k)
  {
    PySliceAt(s, k, |s|);
  }

  /** The pages of a non-empty list are its first `k` items followed by
      the pages of the rest. */
  lemma PagesUnfold<T>(s: seq<T>, k: nat)
    requires k > 0 && |s| > 0
    ensures Pages(s, k) == [PySlice(s, 0, k)] + Pages(PySlice(s, k, |s|), k)
  {
    var rest := PySlice(s, k, |s|);
    NumPagesStep(s, k);
    var ps, tail := Pages(s, k), Pages(rest, k);
    var qs := [PySlice(s, 0, k)] + tail;
    assert |ps| == |qs|;
    forall p | 0 <= p < |ps| ensures ps[p] == qs[p] {
      if p == 0 {
        assert ps[0] == PageOf(s, k, 0);
      } else {
        assert qs[p] == tail[p - 1] == PageOf(rest, k, p - 1);
        PageOfShift(s, k, p);
      }
    }
  }

  /** The pages, read in order, are exactly the list; every page holds
      between one and `k` items, every page but the last exactly `k`,
      and an empty list has no pages at all. */
  lemma {:induction false} PagesPartition<T>(s: seq<T>, k: nat)
    requires k > 0
    ensures Concat(Pages(s, k)) == s
    ensures forall p :: 0 <= p < |Pages(s, k)| ==> 0 < |Pages(s, k)[p]| <= k
    ensures forall p :: 0 <= p < |Pages(s, k)| - 1 ==> |Pages(s, k)[p]| == k
    ensures Pages(s, k) == [] <==> s == []
    decreases |s|
  {
    if |s| > 0 {
      var rest := PySlice(s, k, |s|);
      PagesPartition(rest, k);
      PySliceSplit(s, k);
      PagesUnfold(s, k);
      var ps := Pages(s, k);
      assert ps[1..] == Pages(rest, k);
      assert |rest| > 0 ==> |PySlice(s, 0, k)| == k;
    }
  }

  /** The projects of slide 3 followed by the pages of slide 4 are all
      the projects, in order, each once. */
  lemma ProjectsRoundTrip<T>(items: seq<T>)
    ensures PySlice(items, 0, FirstSlideProjects)
          + Concat(Pages(PySlice(items, FirstSlideProjects, |items|), ChunkSize)) == items
  {
    PagesPartition(PySlice(items, FirstSlideProjects, |items|), ChunkSize);
    PySliceSplit(items, FirstSlideProjects);
  }

  /** `teach_items[i * 10 : i * 10 + 10]`, where `i` is the project
      offset of the page (0, 3, 6, ...), not the page number. */
  function TeachSlice<T>(teach: seq<T>, offset: nat): seq<T>
  {
    PySlice(teach, offset * TeachChunkSize, offset * TeachChunkSize + TeachChunkSize)
  }

  /** Page `p` of slide 4 writes at most ten teach items, namely those at
      positions 30p to 30p + 9. */
  lemma TeachPage<T>(teach: seq<T>, p: nat)
    ensures TeachSlice(teach, Offset(p, ChunkSize)) == PySlice(teach, 30 * p, 30 * p + TeachChunkSize)
    ensures |TeachSlice(teach, Offset(p, ChunkSize))| <= TeachChunkSize
  {
    OffsetIsProduct(p, ChunkSize);
  }

  /** The teach item at position `t` is in the teach slice of page `p`
      exactly when `p` is `t / 30` and `t` lies in the first ten of its
      block of thirty.  So items 10 to 29, 40 to 59, ... are written to no
      page, and the others only if their page exists. */
  lemma TeachItemPage<T>(teach: seq<T>, t: nat, p: nat)
    requires t < |teach|
    ensures (30 * p <= t < 30 * p + |TeachSlice(teach, Offset(p, ChunkSize))|)
        <==> (p == t / 30 && t % 30 < TeachChunkSize)
  {
    OffsetIsProduct(p, ChunkSize);
    var n := |TeachSlice(teach, Offset(p, ChunkSize))|;
    assert n == if 30 * p < |teach| then Min(30 * p + 10, |teach|) - 30 * p else 0;
    if 30 * p <= t < 30 * p + n {
      assert t - 30 * p < 10;
      assert t == 30 * p + (t - 30 * p);
    }
    if p == t / 30 && t % 30 < TeachChunkSize {
      assert t == 30 * p + t % 30;
    }
  }
}
