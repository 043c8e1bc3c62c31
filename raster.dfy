/** The column aggregator and rasterizer of `main` in src/main.rs. `graph` holds one bar
    height per audio sample; the image has `w = width * oversample` columns. Column `x` averages
    the heights of its window of samples, and pixel `(x, y)` is foreground when the bar of its
    column reaches row `y`, counted from the top.

    The source computes the window bounds and the mean in `f64` and rounds with `f64::round`;
    here they are exact rationals rounded half up, which is what `round` does on non-negative
    values. */
module Raster {
  import opened ColorSpec

  function Min(a: int, b: int): int
  {
    if a < b then a else b
  }

  /** `(a / b).round()` for non-negative `a` and positive `b`: the nearest integer, halves up. */
  function RoundDiv(a: nat, b: nat): (q: nat)
    requires b > 0
    ensures 2 * q * b <= 2 * a + b < 2 * (q + 1) * b
  {
    var q := Quotient(2 * a + b, 2 * b);
    assert q * (2 * b) == 2 * q * b && (q + 1) * (2 * b) == 2 * (q + 1) * b;
    q
  }

  /** Integer division of a non-negative `a` by a positive `b`, by repeated subtraction. */
  function Quotient(a: nat, b: nat): (q: nat)
    requires b > 0
    ensures q * b <= a < (q + 1) * b
    decreases a
  {
    if a < b then 0 else 1 + Quotient(a - b, b)
  }

  /** `start_sample_index`: `(x * samples_per_pixel).round()` with `samples_per_pixel = n / w`. */
  function WindowStart(n: nat, w: nat, x: nat): nat
    requires w > 0
  {
    RoundDiv(x * n, w)
  }

  /** `end_sample_index`: `((x + 1) * samples_per_pixel).round()`, at most `n`. */
  function WindowEnd(n: nat, w: nat, x: nat): nat
    requires w > 0
  {
    Min(RoundDiv((x + 1) * n, w), n)
  }

  function Sum(s: seq<nat>): nat
  {
    if s == [] then 0 else Sum(s[..|s| - 1]) + s[|s| - 1]
  }

  /** The window of column `x`: the slice is always in bounds. */
  function Window(graph: seq<nat>, w: nat, x: nat): seq<nat>
    requires w > 0 && x < w
  {
    WindowBounds(|graph|, w, x);
    graph[WindowStart(|graph|, w, x)..WindowEnd(|graph|, w, x)]
  }

  /** The bar height of column `x`: the rounded mean of its window. An empty window is
      `0.0 / 0.0`, NaN, which `as usize` turns into 0. */
  function ColumnHeight(graph: seq<nat>, w: nat, x: nat): nat
    requires w > 0 && x < w
  {
    var s := Window(graph, w, x);
    if s == [] then 0 else RoundDiv(Sum(s), |s|)
  }

  /** The pixel test: `height - (y + 1) < pixel_height`. */
  predicate IsForeground(height: nat, h: nat, y: nat)
    requires y < height
  {
    height - (y + 1) < h
  }

  // ---------------------------------------------------------------------------
  // The closure of ImageBuffer::from_fn

  /** One column's bar height, summing its window sample by sample. */
  method WindowMean(graph: seq<nat>, w: nat, x: nat) returns (h: nat)
    requires w > 0 && x < w
    ensures h == ColumnHeight(graph, w, x)
  {
    WindowBounds(|graph|, w, x);
    var start := WindowStart(|graph|, w, x);
    var end := WindowEnd(|graph|, w, x);
    var sum := 0;
    var i := start;
    while i < end
      invariant start <= i <= end
      invariant sum == Sum(graph[start..i])
    {
      assert graph[start..i + 1][..i - start] == graph[start..i];
      sum := sum + graph[i];
      i := i + 1;
    }
    var range := end - start;
    if range == 0 {
      h := 0;
    } else {
      h := RoundDiv(sum, range);
    }
  }

  /** `ImageBuffer::from_fn(w, height, ..)`: every pixel is the foreground colour when the bar of
      its column reaches it, and the background colour otherwise. Pixels are filled row by row,
      as `from_fn` does. */
  method Rasterize(graph: seq<nat>, w: nat, height: nat, fg: Rgba, bg: Rgba)
    returns (img: array2<Rgba>)
    ensures fresh(img) && img.Length0 == w && img.Length1 == height
    ensures forall x, y :: 0 <= x < w && 0 <= y < height ==>
      img[x, y] == if IsForeground(height, ColumnHeight(graph, w, x), y) then fg else bg
  {
    img := new Rgba[w, height];
    var y := 0;
    while y < height
      invariant 0 <= y <= height
      invariant forall x, y' :: 0 <= x < w && 0 <= y' < y ==>
        img[x, y'] == if IsForeground(height, ColumnHeight(graph, w, x), y') then fg else bg
    {
      var x := 0;
      while x < w
        invariant 0 <= x <= w
        invariant forall x', y' :: 0 <= x' < w && 0 <= y' < y ==>
          img[x', y'] == if IsForeground(height, ColumnHeight(graph, w, x'), y') then fg else bg
        invariant forall x' :: 0 <= x' < x ==>
          img[x', y] == if IsForeground(height, ColumnHeight(graph, w, x'), y) then fg else bg
      {
        var h := WindowMean(graph, w, x);
        img[x, y] := if height - (y + 1) < h then fg else bg;
        x := x + 1;
      }
      y := y + 1;
    }
  }

  /** The internal image width `width * oversample`. */
  function Columns(width: nat, oversample: nat): nat
  {
    width * oversample
  }

  /** The colour and raster steps of `main`: the background is parsed first, then the
      foreground, and the image is `width * oversample` columns by `height` rows. */
  method Render(background: string, foreground: string, graph: seq<nat>,
                width: nat, oversample: nat, height: nat)
    returns (r: Result<array2<Rgba>>)
    ensures ParseColor(background).Err? ==> r == Err(ParseColor(background).error)
    ensures ParseColor(background).Ok? && ParseColor(foreground).Err?
        ==> r == Err(ParseColor(foreground).error)
    ensures r.Ok? <==> ParseColor(background).Ok? && ParseColor(foreground).Ok?
    ensures r.Ok? ==> fresh(r.value)
    ensures r.Ok? ==> r.value.Length0 == Columns(width, oversample) && r.value.Length1 == height
    ensures r.Ok? ==> forall x, y :: 0 <= x < Columns(width, oversample) && 0 <= y < height ==>
      r.value[x, y] == if IsForeground(height, ColumnHeight(graph, Columns(width, oversample), x), y)
        then ParseColor(foreground).value else ParseColor(background).value
  {
    var bg := ParseColor(background);
    if bg.Err? {
      return Err(bg.error);
    }
    var fg := ParseColor(foreground);
    if fg.Err? {
      return Err(fg.error);
    }
    var img := Rasterize(graph, Columns(width, oversample), height, fg.value, bg.value);
    return Ok(img);
  }

  // ---------------------------------------------------------------------------
  // Rounding

  lemma MulMonotone(a: nat, b: nat, c: nat)
    requires a <= b
    ensures a * c <= b * c
  {
  }

  /** Scaling by a positive `2 * b` keeps strict order, in both directions. */
  lemma ScaleStrict(x: int, y: int, b: int)
    requires b > 0
    ensures x < y <==> 2 * x * b < 2 * y * b
  {
    assert 2 * y * b - 2 * x * b == 2 * b * (y - x);
  }

  /** `RoundDiv` is the only integer within half of `a / b`. */
  lemma RoundDivUnique(a: nat, b: nat, q: nat)
    requires b > 0 && 2 * q * b <= 2 * a + b < 2 * (q + 1) * b
    ensures RoundDiv(a, b) == q
  {
    var r := RoundDiv(a, b);
    ScaleStrict(q, r + 1, b);
    ScaleStrict(r, q + 1, b);
  }

  lemma RoundDivMonotone(a1: nat, a2: nat, b: nat)
    requires b > 0 && a1 <= a2
    ensures RoundDiv(a1, b) <= RoundDiv(a2, b)
  {
    var q1, q2 := RoundDiv(a1, b), RoundDiv(a2, b);
    ScaleStrict(q1, q2 + 1, b);
  }

  /** Exact multiples round to themselves. */
  lemma RoundDivExact(k: nat, b: nat)
    requires b > 0
    ensures RoundDiv(k * b, b) == k
  {
    RoundDivUnique(k * b, b, k);
  }

  /** Adding `b` to the dividend adds one to the rounded quotient. */
  lemma RoundDivShift(a: nat, b: nat)
    requires b > 0
    ensures RoundDiv(a + b, b) == RoundDiv(a, b) + 1
  {
    var q := RoundDiv(a, b);
    RoundDivUnique(a + b, b, q + 1);
  }

  // ---------------------------------------------------------------------------
  // Windows

  /** Every window is an in-bounds, possibly empty, slice. */
  lemma WindowBounds(n: nat, w: nat, x: nat)
    requires w > 0 && x < w
    ensures WindowStart(n, w, x) <= WindowEnd(n, w, x) <= n
  {
    MulMonotone(x, w, n);
    RoundDivMonotone(x * n, w * n, w);
    RoundDivExact(n, w);
    assert w * n == n * w;
    MulMonotone(x, x + 1, n);
    RoundDivMonotone(x * n, (x + 1) * n, w);
  }

  /** The window start of column `x`, for `x` up to `w`, is at most `n`; start `w` is `n`. */
  lemma StartAtMost(n: nat, w: nat, x: nat)
    requires w > 0 && x <= w
    ensures WindowStart(n, w, x) <= n
    ensures x == w ==> WindowStart(n, w, x) == n
  {
    MulMonotone(x, w, n);
    RoundDivMonotone(x * n, w * n, w);
    assert w * n == n * w;
    RoundDivExact(n, w);
  }

  /** Each window ends where the next one starts. */
  lemma EndIsNextStart(n: nat, w: nat, x: nat)
    requires w > 0 && x < w
    ensures WindowEnd(n, w, x) == WindowStart(n, w, x + 1)
  {
    StartAtMost(n, w, x + 1);
  }

  /** The windows tile the samples: the first starts at 0, each ends where the next starts,
      and the last ends at `n`. */
  lemma WindowsTile(n: nat, w: nat)
    requires w > 0
    ensures WindowStart(n, w, 0) == 0
    ensures WindowEnd(n, w, w - 1) == n
    ensures forall x :: 0 <= x < w ==> WindowEnd(n, w, x) == WindowStart(n, w, x + 1)
  {
    forall x | 0 <= x < w ensures WindowEnd(n, w, x) == WindowStart(n, w, x + 1) {
      EndIsNextStart(n, w, x);
    }
    StartAtMost(n, w, w);
  }

  /** The samples of the first `k` windows, in order. */
  function Windows(graph: seq<nat>, w: nat, k: nat): seq<nat>
    requires w > 0 && k <= w
  {
    if k == 0 then [] else Windows(graph, w, k - 1) + Window(graph, w, k - 1)
  }

  /** The first `k` windows are exactly the samples before window `k`. */
  lemma {:induction false} WindowsPrefix(graph: seq<nat>, w: nat, k: nat)
    requires w > 0 && k <= w
    ensures WindowStart(|graph|, w, k) <= |graph|
    ensures Windows(graph, w, k) == graph[..WindowStart(|graph|, w, k)]
  {
    var n := |graph|;
    StartAtMost(n, w, k);
    if k > 0 {
      WindowsPrefix(graph, w, k - 1);
      WindowBounds(n, w, k - 1);
      assert WindowEnd(n, w, k - 1) == WindowStart(n, w, k) by { EndIsNextStart(n, w, k - 1); }
      var a, b := WindowStart(n, w, k - 1), WindowStart(n, w, k);
      PrefixStep(graph, Windows(graph, w, k - 1), Window(graph, w, k - 1), a, b);
    }
  }

  /** All `w` windows are the whole graph, each sample once and in order. */
  lemma WindowsCover(graph: seq<nat>, w: nat)
    requires w > 0
    ensures Windows(graph, w, w) == graph
  {
    WindowsPrefix(graph, w, w);
    StartAtMost(|graph|, w, w);
    assert graph[..|graph|] == graph;
  }

  lemma PrefixStep(s: seq<nat>, prefix: seq<nat>, next: seq<nat>, a: nat, b: nat)
    requires a <= b <= |s| && prefix == s[..a] && next == s[a..b]
    ensures prefix + next == s[..b]
  {
  }

  /** An empty window (height 0) needs fewer samples than columns. */
  lemma EmptyWindowNeedsFewSamples(graph: seq<nat>, w: nat, x: nat)
    requires w > 0 && x < w
    requires Window(graph, w, x) == []
    ensures |graph| < w && ColumnHeight(graph, w, x) == 0
  {
    var n := |graph|;
    if n >= w {
      StartAtMost(n, w, x + 1);
      RoundDivShift(x * n, w);
      RoundDivMonotone(x * n + w, (x + 1) * n, w);
      WindowBounds(n, w, x);
    }
  }

  // ---------------------------------------------------------------------------
  // Column heights

  lemma {:induction false} SumBounds(s: seq<nat>, lo: nat, hi: nat)
    requires forall i :: 0 <= i < |s| ==> lo <= s[i] <= hi
    ensures |s| * lo <= Sum(s) <= |s| * hi
  {
    if s != [] {
      SumBounds(s[..|s| - 1], lo, hi);
      assert (|s| - 1) * lo + lo == |s| * lo;
      assert (|s| - 1) * hi + hi == |s| * hi;
    }
  }

  /** The bar height of a column lies between the smallest and the largest height in its
      window. */
  lemma ColumnHeightBounds(graph: seq<nat>, w: nat, x: nat, lo: nat, hi: nat)
    requires w > 0 && x < w && Window(graph, w, x) != []
    requires forall i :: 0 <= i < |Window(graph, w, x)| ==> lo <= Window(graph, w, x)[i] <= hi
    ensures lo <= ColumnHeight(graph, w, x) <= hi
  {
    var s := Window(graph, w, x);
    SumBounds(s, lo, hi);
    assert |s| * lo == lo * |s| && |s| * hi == hi * |s|;
    RoundDivMonotone(lo * |s|, Sum(s), |s|);
    RoundDivMonotone(Sum(s), hi * |s|, |s|);
    RoundDivExact(lo, |s|);
    RoundDivExact(hi, |s|);
  }

  /** A constant graph gives that height to every column with samples. */
  lemma ConstantGraph(graph: seq<nat>, w: nat, x: nat, c: nat)
    requires w > 0 && x < w && Window(graph, w, x) != []
    requires forall i :: 0 <= i < |graph| ==> graph[i] == c
    ensures ColumnHeight(graph, w, x) == c
  {
    WindowBounds(|graph|, w, x);
    ColumnHeightBounds(graph, w, x, c, c);
  }

  // ---------------------------------------------------------------------------
  // Pixels

  /** The foreground of a column is its bottom `min(h, height)` rows. */
  lemma ForegroundIsBottom(height: nat, h: nat, y: nat)
    requires y < height
    ensures IsForeground(height, h, y) <==> y >= height - Min(h, height)
  {
  }

  /** Foreground grows downward: a pixel below a foreground pixel is foreground too. */
  lemma ForegroundMonotone(height: nat, h: nat, y1: nat, y2: nat)
    requires y1 <= y2 < height
    ensures IsForeground(height, h, y1) ==> IsForeground(height, h, y2)
  {
  }

  /** The number of foreground rows among the first `k`. */
  function ForegroundRows(height: nat, h: nat, k: nat): nat
    requires k <= height
  {
    if k == 0 then 0
    else ForegroundRows(height, h, k - 1) + (if IsForeground(height, h, k - 1) then 1 else 0)
  }

  lemma {:induction false} ForegroundRowsPrefix(height: nat, h: nat, k: nat)
    requires k <= height
    ensures ForegroundRows(height, h, k)
         == if k <= height - Min(h, height) then 0 else k - (height - Min(h, height))
  {
    if k > 0 {
      ForegroundRowsPrefix(height, h, k - 1);
      ForegroundIsBottom(height, h, k - 1);
    }
  }

  /** A column with bar height `h` has exactly `min(h, height)` foreground pixels. */
  lemma ForegroundCount(height: nat, h: nat)
    ensures ForegroundRows(height, h, height) == Min(h, height)
  {
    ForegroundRowsPrefix(height, h, height);
  }
}
