/** Blob sizing: the 8-connected flood fill of `getBlobsize`. */
module Blob {
  import opened Wrappers
  import opened Grids

  /** A pixel as numpy stores it: a finite float, NaN, or an infinity. */
  datatype Sample = Finite(v: real) | NotANumber | Infinite(positive: bool)

  /** `ValueError` for a threshold that is not positive, `IndexError` for an even-sized window. */
  datatype BlobError = NonPositiveThreshold | EvenShape

  /** (row, col), the `(x, y)` of the source, which indexes `img[x, y]`. */
  type Pixel = (int, int)

  /** The working copy sets every non-finite pixel to 0. */
  function Clean(s: Sample): real {
    if s.Finite? then s.v else 0.0
  }

  /** `thresh <= s` for one element of `np.min(img)`: NaN poisons the minimum, +inf is above everything. */
  predicate AtLeast(s: Sample, thresh: real) {
    match s
    case Finite(v) => thresh <= v
    case NotANumber => false
    case Infinite(positive) => positive
  }

  /** `thresh <= np.min(img)`, the condition of the shortcut. */
  predicate MinAtLeast(img: Grid<Sample>, thresh: real) {
    forall i, j | 0 <= i < |img| && 0 <= j < |img[i]| :: AtLeast(img[i][j], thresh)
  }

  function Centre(img: Grid<Sample>): Pixel {
    (Rows(img) / 2, Cols(img) / 2)
  }

  /** The 3x3 neighbourhood, the pixel itself included (offsets -1, 0, 1 on both axes). */
  predicate Adjacent(p: Pixel, q: Pixel) {
    -1 <= q.0 - p.0 <= 1 && -1 <= q.1 - p.1 <= 1
  }

  /** A pixel in the image whose cleaned value reaches the threshold. */
  predicate Passes(img: Grid<Sample>, thresh: real, p: Pixel) {
    0 <= p.0 < |img| && 0 <= p.1 < |img[p.0]| && img[p.0][p.1].Finite? && img[p.0][p.1].v >= thresh
  }

  /**
   * A set of pixels the fill cannot leave: it holds every passing pixel of the
   * centre's 3x3 neighbourhood and every passing neighbour of its members.
   */
  ghost predicate Closed(img: Grid<Sample>, thresh: real, s: set<Pixel>) {
    && (forall q :: Adjacent(Centre(img), q) && Passes(img, thresh, q) ==> q in s)
    && (forall p, q :: p in s && Adjacent(p, q) && Passes(img, thresh, q) ==> q in s)
  }

  /** The pixels of an `h` by `w` window. */
  function AllPixels(h: int, w: int): set<Pixel>
    decreases h
  {
    if h <= 0 then {} else AllPixels(h - 1, w) + RowPixels(h - 1, w)
  }

  /** The pixels of row `i`, columns `0 .. w - 1`. */
  function RowPixels(i: int, w: int): set<Pixel>
    decreases w
  {
    if w <= 0 then {} else RowPixels(i, w - 1) + {(i, w - 1)}
  }

  /** The blob: the pixels that lie in every closed set, that is, the least closed set. */
  ghost function Blob(img: Grid<Sample>, thresh: real): set<Pixel> {
    set p | p in AllPixels(Rows(img), Cols(img)) && (forall s :: Closed(img, thresh, s) ==> p in s)
  }

  /** `limit == 0` stands for the window area. */
  function Cap(img: Grid<Sample>, limit: int): int {
    if limit == 0 then Rows(img) * Cols(img) else limit
  }

  /** What `getBlobsize(img, thresh, limit)` returns or raises. */
  ghost function Blobsize(img: Grid<Sample>, thresh: real, limit: int): Result<int, BlobError> {
    if thresh <= 0.0 then Failure(NonPositiveThreshold)
    else if Rows(img) % 2 == 0 || Cols(img) % 2 == 0 then Failure(EvenShape)
    else if MinAtLeast(img, thresh) then Success(Min(Cap(img, limit), Rows(img) * Cols(img)))
    else Success(Min(Cap(img, limit), |Blob(img, thresh)|))
  }

  // ---------------------------------------------------------------------------
  // The flood fill

  /** What holds of the working copy and the counted pixels throughout the fill. */
  ghost predicate Counting(img: Grid<Sample>, thresh: real, temp: array2<real>, counted: set<Pixel>)
    reads temp
  {
    && Rectangular(img) && thresh > 0.0
    && temp.Length0 == Rows(img) && temp.Length1 == Cols(img)
    && (forall i, j :: 0 <= i < Rows(img) && 0 <= j < Cols(img) ==>
          temp[i, j] == if (i, j) in counted then 0.0 else Clean(img[i][j]))
    && (forall p :: p in counted ==> Passes(img, thresh, p))
    && (forall s :: Closed(img, thresh, s) ==> counted <= s)
  }

  /**
   * The queue discipline: everything queued or scanned was counted (or is the
   * centre), everything counted is queued or scanned, and each scanned pixel
   * has all its passing neighbours counted.
   */
  ghost predicate Frontier(img: Grid<Sample>, thresh: real, counted: set<Pixel>, done: set<Pixel>, queue: seq<Pixel>) {
    && (forall x :: x in queue ==> x in counted || x == Centre(img))
    && (forall p :: p in done ==> p in counted || p == Centre(img))
    && (forall p :: p in counted ==> p in done || p in queue)
    && (Centre(img) in done || Centre(img) in queue)
    && (forall p, q :: p in done && Adjacent(p, q) && Passes(img, thresh, q) ==> q in counted)
  }

  /** `getBlobsize`: a FIFO flood fill over a zeroed working copy, with the shortcut and the early exit. */
  method GetBlobsize(img: Grid<Sample>, thresh: real, limit: int) returns (r: Result<int, BlobError>)
    requires Rectangular(img)
    ensures r == Blobsize(img, thresh, limit)
  {
    if thresh <= 0.0 {
      return Failure(NonPositiveThreshold);
    }
    var h, w := Rows(img), Cols(img);
    if h % 2 == 0 || w % 2 == 0 {
      return Failure(EvenShape);
    }
    var cap := if limit == 0 then h * w else limit;
    var centre := (h / 2, w / 2);
    if MinAtLeast(img, thresh) {
      return Success(Min(cap, h * w));
    }

    // work on a local copy whose non-finite pixels are 0
    var temp := CleanCopy(img);
    var count := Fill(img, thresh, temp, cap);
    return Success(count);
  }

  /** `tempImg = img.copy(); tempImg[~np.isfinite(tempImg)] = 0` */
  method CleanCopy(img: Grid<Sample>) returns (temp: array2<real>)
    requires Rectangular(img)
    ensures fresh(temp) && temp.Length0 == Rows(img) && temp.Length1 == Cols(img)
    ensures forall i, j :: 0 <= i < Rows(img) && 0 <= j < Cols(img) ==> temp[i, j] == Clean(img[i][j])
  {
    var h, w := Rows(img), Cols(img);
    temp := new real[h, w];
    for i := 0 to h
      invariant forall i', j :: 0 <= i' < i && 0 <= j < w ==> temp[i', j] == Clean(img[i'][j])
    {
      for j := 0 to w
        invariant forall i', j' :: 0 <= i' < i && 0 <= j' < w ==> temp[i', j'] == Clean(img[i'][j'])
        invariant forall j' :: 0 <= j' < j ==> temp[i, j'] == Clean(img[i][j'])
      {
        temp[i, j] := Clean(img[i][j]);
      }
    }
  }

  /** The `while len(nList) > 0` loop: it returns `min(cap, |blob|)`, leaving early once `cap` pixels are counted. */
  method Fill(img: Grid<Sample>, thresh: real, temp: array2<real>, cap: int) returns (count: int)
    requires Rectangular(img) && thresh > 0.0
    requires temp.Length0 == Rows(img) && temp.Length1 == Cols(img)
    requires forall i, j :: 0 <= i < Rows(img) && 0 <= j < Cols(img) ==> temp[i, j] == Clean(img[i][j])
    modifies temp
    ensures count == Min(cap, |Blob(img, thresh)|)
  {
    var h, w := Rows(img), Cols(img);
    var queue: seq<Pixel> := [(h / 2, w / 2)];
    count := 0;
    ghost var counted: set<Pixel> := {};
    ghost var done: set<Pixel> := {};
    AllPixelsCard(h, w);
    while |queue| > 0
      invariant Counting(img, thresh, temp, counted) && Frontier(img, thresh, counted, done, queue)
      invariant count == |counted| <= h * w
      invariant done != {} ==> count < cap
      decreases h * w - count, |queue|
    {
      var p := queue[0];
      queue, count, counted := Visit(img, thresh, temp, counted, done, queue, count);
      done := done + {p};
      if count >= cap {
        CountedInGrid(img, thresh, counted);
        CountedInBlob(img, thresh, counted);
        SubsetCard(counted, Blob(img, thresh));
        return cap;
      }
    }
    assert Closed(img, thresh, counted);
    CountedInGrid(img, thresh, counted);
    LeastClosedIsBlob(img, thresh, counted);
  }

  /** One turn of the `while` loop: take the head of the queue and scan its neighbourhood. */
  method Visit(img: Grid<Sample>, thresh: real, temp: array2<real>, ghost counted: set<Pixel>, ghost done: set<Pixel>,
               queue: seq<Pixel>, count: int)
    returns (queue': seq<Pixel>, count': int, ghost counted': set<Pixel>)
    requires queue != []
    requires Counting(img, thresh, temp, counted) && Frontier(img, thresh, counted, done, queue)
    requires count == |counted| <= Rows(img) * Cols(img)
    modifies temp
    ensures Counting(img, thresh, temp, counted') && Frontier(img, thresh, counted', done + {queue[0]}, queue')
    ensures count' == |counted'| <= Rows(img) * Cols(img)
    ensures count' >= count && |queue'| + 1 == |queue| + (count' - count)
  {
    var p := queue[0];
    var rest := queue[1..];
    assert [p] + rest == queue;
    ScanStart(img, thresh, temp, counted, done, p, rest, count);
    queue', count', counted' := ScanNeighbours(img, thresh, temp, counted, done, p, rest, count);
    ScanDone(img, thresh, temp, counted', done, p, queue', count');
  }

  /** Taking `p` off the queue starts the scan of its neighbourhood with nothing scanned yet. */
  lemma ScanStart(img: Grid<Sample>, thresh: real, temp: array2<real>, counted: set<Pixel>, done: set<Pixel>,
                  p: Pixel, queue: seq<Pixel>, count: int)
    requires Counting(img, thresh, temp, counted) && Frontier(img, thresh, counted, done, [p] + queue)
    requires count == |counted| <= Rows(img) * Cols(img)
    ensures Scanning(img, thresh, temp, counted, done, p, queue, count, p.0 - 1, p.1 - 1)
  {
    assert p in [p] + queue;
  }

  /** Once its whole neighbourhood is scanned, `p` joins the scanned pixels and the queue discipline holds again. */
  lemma ScanDone(img: Grid<Sample>, thresh: real, temp: array2<real>, counted: set<Pixel>, done: set<Pixel>,
                 p: Pixel, queue: seq<Pixel>, count: int)
    requires Scanning(img, thresh, temp, counted, done, p, queue, count, p.0 + 2, p.1 - 1)
    ensures Counting(img, thresh, temp, counted) && Frontier(img, thresh, counted, done + {p}, queue)
    ensures count == |counted| <= Rows(img) * Cols(img)
  {
    forall x | x in queue ensures x in counted || x == Centre(img) {
      assert x in [p] + queue;
    }
    forall x | x in counted ensures x in done + {p} || x in queue {
      assert x in done || x in [p] + queue;
    }
  }

  /** The two `for` loops over the 3x3 neighbourhood of `p`, in row-major order. */
  method ScanNeighbours(img: Grid<Sample>, thresh: real, temp: array2<real>, ghost counted: set<Pixel>, ghost done: set<Pixel>,
                        p: Pixel, queue: seq<Pixel>, count: int)
    returns (queue': seq<Pixel>, count': int, ghost counted': set<Pixel>)
    requires Scanning(img, thresh, temp, counted, done, p, queue, count, p.0 - 1, p.1 - 1)
    modifies temp
    ensures Scanning(img, thresh, temp, counted', done, p, queue', count', p.0 + 2, p.1 - 1)
    ensures count' >= count && |queue'| == |queue| + (count' - count)
  {
    queue', count', counted' := queue, count, counted;
    for i := -1 to 2
      invariant Scanning(img, thresh, temp, counted', done, p, queue', count', p.0 + i, p.1 - 1)
      invariant count' >= count && |queue'| == |queue| + (count' - count)
    {
      for j := -1 to 2
        invariant Scanning(img, thresh, temp, counted', done, p, queue', count', p.0 + i, p.1 + j)
        invariant count' >= count && |queue'| == |queue| + (count' - count)
      {
        queue', count', counted' := CountPixel(img, thresh, temp, counted', done, p, queue', count', (p.0 + i, p.1 + j));
      }
    }
  }

  /**
   * While the neighbours of `p` are scanned in row-major order: `p` is out of
   * the queue, and every passing neighbour before `(row, col)` is counted.
   */
  ghost predicate Scanning(img: Grid<Sample>, thresh: real, temp: array2<real>, counted: set<Pixel>, done: set<Pixel>,
                           p: Pixel, queue: seq<Pixel>, count: int, row: int, col: int)
    reads temp
  {
    && Counting(img, thresh, temp, counted) && Frontier(img, thresh, counted, done, [p] + queue)
    && (p in counted || p == Centre(img))
    && count == |counted| <= Rows(img) * Cols(img)
    && forall q :: Adjacent(p, q) && Passes(img, thresh, q) && (q.0 < row || (q.0 == row && q.1 < col)) ==> q in counted
  }

  /** One step of the inner loops: count, zero and queue pixel `q` when it is in the image and reaches the threshold. */
  method CountPixel(img: Grid<Sample>, thresh: real, temp: array2<real>, ghost counted: set<Pixel>, ghost done: set<Pixel>,
                    p: Pixel, queue: seq<Pixel>, count: int, q: Pixel)
    returns (queue': seq<Pixel>, count': int, ghost counted': set<Pixel>)
    requires Scanning(img, thresh, temp, counted, done, p, queue, count, q.0, q.1)
    requires Adjacent(p, q)
    modifies temp
    ensures Scanning(img, thresh, temp, counted', done, p, queue', count', q.0, q.1 + 1)
    ensures count' >= count && |queue'| == |queue| + (count' - count)
  {
    queue', count', counted' := queue, count, counted;
    if q.0 < 0 || q.0 >= temp.Length0 || q.1 < 0 || q.1 >= temp.Length1 {
    } else if temp[q.0, q.1] >= thresh {
      LeastStep(img, thresh, counted, p, q);
      InAllPixels(q, Rows(img), Cols(img));
      CountedInGrid(img, thresh, counted);
      SubsetCard(counted + {q}, AllPixels(Rows(img), Cols(img)));
      AllPixelsCard(Rows(img), Cols(img));
      count' := count + 1;
      temp[q.0, q.1] := 0.0;
      queue' := queue + [q];
      counted' := counted + {q};
    }
  }

  // ---------------------------------------------------------------------------
  // Lemmas used by the fill

  lemma LeastStep(img: Grid<Sample>, thresh: real, counted: set<Pixel>, p: Pixel, q: Pixel)
    requires forall s :: Closed(img, thresh, s) ==> counted <= s
    requires p in counted || p == Centre(img)
    requires Adjacent(p, q) && Passes(img, thresh, q)
    ensures forall s :: Closed(img, thresh, s) ==> counted + {q} <= s
  {
    forall s | Closed(img, thresh, s) ensures counted + {q} <= s {
      assert p in s || p == Centre(img);
    }
  }

  lemma {:induction false} InRowPixels(p: Pixel, i: int, w: int)
    ensures p in RowPixels(i, w) <==> p.0 == i && 0 <= p.1 < w
    decreases w
  {
    if w > 0 {
      InRowPixels(p, i, w - 1);
    }
  }

  lemma {:induction false} InAllPixels(p: Pixel, h: int, w: int)
    ensures p in AllPixels(h, w) <==> 0 <= p.0 < h && 0 <= p.1 < w
    decreases h
  {
    if h > 0 {
      InAllPixels(p, h - 1, w);
      InRowPixels(p, h - 1, w);
    }
  }

  lemma CountedInGrid(img: Grid<Sample>, thresh: real, counted: set<Pixel>)
    requires Rectangular(img)
    requires forall p :: p in counted ==> Passes(img, thresh, p)
    ensures counted <= AllPixels(Rows(img), Cols(img))
  {
    forall p | p in counted ensures p in AllPixels(Rows(img), Cols(img)) {
      InAllPixels(p, Rows(img), Cols(img));
    }
  }

  lemma SubsetCard<T>(a: set<T>, b: set<T>)
    requires a <= b
    ensures |a| <= |b|
  {
    assert b == a + (b - a);
  }

  lemma CountedInBlob(img: Grid<Sample>, thresh: real, counted: set<Pixel>)
    requires counted <= AllPixels(Rows(img), Cols(img))
    requires forall s :: Closed(img, thresh, s) ==> counted <= s
    ensures counted <= Blob(img, thresh)
  {
  }

  lemma LeastClosedIsBlob(img: Grid<Sample>, thresh: real, counted: set<Pixel>)
    requires counted <= AllPixels(Rows(img), Cols(img))
    requires forall s :: Closed(img, thresh, s) ==> counted <= s
    requires Closed(img, thresh, counted)
    ensures counted == Blob(img, thresh)
  {
    CountedInBlob(img, thresh, counted);
  }

  lemma {:induction false} RowPixelsCard(i: int, w: nat)
    ensures |RowPixels(i, w)| == w
  {
    if w > 0 {
      RowPixelsCard(i, w - 1);
      InRowPixels((i, w - 1), i, w - 1);
    }
  }

  /** The window holds `h * w` pixels. */
  lemma {:induction false} AllPixelsCard(h: nat, w: nat)
    ensures |AllPixels(h, w)| == h * w
  {
    if h > 0 {
      AllPixelsCard(h - 1, w);
      RowPixelsCard(h - 1, w);
      var earlier, last := AllPixels(h - 1, w), RowPixels(h - 1, w);
      forall p | p in last ensures p !in earlier {
        InRowPixels(p, h - 1, w);
        InAllPixels(p, h - 1, w);
      }
      assert earlier !! last;
      assert h * w == (h - 1) * w + w;
    }
  }

  // ---------------------------------------------------------------------------
  // What getBlobsize promises

  /**
   * The error cases are exactly a non-positive threshold and an even dimension;
   * a result never exceeds the cap, and with a non-negative limit it lies
   * between 0 and the window area; the shortcut returns `min(cap, area)`.
   */
  lemma BlobsizeContract(img: Grid<Sample>, thresh: real, limit: int)
    requires Rectangular(img)
    ensures Blobsize(img, thresh, limit) == Failure(NonPositiveThreshold) <==> thresh <= 0.0
    ensures Blobsize(img, thresh, limit) == Failure(EvenShape) <==>
              thresh > 0.0 && (Rows(img) % 2 == 0 || Cols(img) % 2 == 0)
    ensures Blobsize(img, thresh, limit).Success? ==> Blobsize(img, thresh, limit).value <= Cap(img, limit)
    ensures Blobsize(img, thresh, limit).Success? && limit >= 0 ==>
              0 <= Blobsize(img, thresh, limit).value <= Rows(img) * Cols(img)
    ensures Blobsize(img, thresh, limit).Success? && MinAtLeast(img, thresh) ==>
              Blobsize(img, thresh, limit).value == Min(Cap(img, limit), Rows(img) * Cols(img))
  {
    SubsetCard(Blob(img, thresh), AllPixels(Rows(img), Cols(img)));
    AllPixelsCard(Rows(img), Cols(img));
  }

  /** Every pixel of the blob is in the image and reaches the threshold. */
  lemma BlobOnlyPassing(img: Grid<Sample>, thresh: real)
    requires Rectangular(img)
    ensures forall p :: p in Blob(img, thresh) ==> Passes(img, thresh, p)
  {
    var passing := set p | p in AllPixels(Rows(img), Cols(img)) && Passes(img, thresh, p);
    forall q | Passes(img, thresh, q) ensures q in passing {
      InAllPixels(q, Rows(img), Cols(img));
    }
    assert Closed(img, thresh, passing);
  }

  /** The blob is itself closed, so it is the least closed set. */
  lemma BlobClosed(img: Grid<Sample>, thresh: real)
    requires Rectangular(img)
    ensures Closed(img, thresh, Blob(img, thresh))
  {
    forall q | Passes(img, thresh, q) ensures q in AllPixels(Rows(img), Cols(img)) {
      InAllPixels(q, Rows(img), Cols(img));
    }
  }

  /**
   * The centre is never tested on its own: every passing pixel of its 3x3
   * neighbourhood belongs to the blob, while the centre belongs to it only
   * when it passes itself.
   */
  lemma CentreNeighbourhoodInBlob(img: Grid<Sample>, thresh: real)
    requires Rectangular(img) && Rows(img) % 2 == 1 && Cols(img) % 2 == 1
    ensures forall q :: Adjacent(Centre(img), q) && Passes(img, thresh, q) ==> q in Blob(img, thresh)
    ensures Centre(img) in Blob(img, thresh) <==> Passes(img, thresh, Centre(img))
  {
    BlobClosed(img, thresh);
    BlobOnlyPassing(img, thresh);
  }

  /** Chebyshev distance, the number of 8-neighbour steps between two pixels. */
  function Steps(p: Pixel, q: Pixel): nat {
    var d0 := if p.0 >= q.0 then p.0 - q.0 else q.0 - p.0;
    var d1 := if p.1 >= q.1 then p.1 - q.1 else q.1 - p.1;
    if d0 >= d1 then d0 else d1
  }

  function Toward(a: int, b: int): int {
    if a < b then a + 1 else if a > b then a - 1 else a
  }

  /** In an image where every pixel passes, a closed set holds every pixel (induction on the distance to the centre). */
  lemma {:induction false} AllPassingReached(img: Grid<Sample>, thresh: real, s: set<Pixel>, p: Pixel)
    requires Rectangular(img) && Closed(img, thresh, s)
    requires forall i, j :: 0 <= i < Rows(img) && 0 <= j < Cols(img) ==> img[i][j].Finite? && img[i][j].v >= thresh
    requires 0 <= p.0 < Rows(img) && 0 <= p.1 < Cols(img)
    ensures p in s
    decreases Steps(p, Centre(img))
  {
    var c := Centre(img);
    if Steps(p, c) > 1 {
      var q := (Toward(p.0, c.0), Toward(p.1, c.1));
      assert Steps(q, c) == Steps(p, c) - 1;
      AllPassingReached(img, thresh, s, q);
      assert Adjacent(q, p) && Passes(img, thresh, p);
    } else {
      assert Adjacent(c, p) && Passes(img, thresh, p);
    }
  }

  /**
   * On an image whose pixels are all finite and at least `thresh`, the blob is
   * the whole window, so the shortcut returns what the fill would.
   */
  lemma ShortcutAgreesWithFill(img: Grid<Sample>, thresh: real, limit: int)
    requires Rectangular(img) && thresh > 0.0 && Rows(img) % 2 == 1 && Cols(img) % 2 == 1
    requires forall i, j :: 0 <= i < Rows(img) && 0 <= j < Cols(img) ==> img[i][j].Finite? && img[i][j].v >= thresh
    ensures Blob(img, thresh) == AllPixels(Rows(img), Cols(img))
    ensures |Blob(img, thresh)| == Rows(img) * Cols(img)
    ensures Blobsize(img, thresh, limit) == Success(Min(Cap(img, limit), |Blob(img, thresh)|))
  {
    forall p | p in AllPixels(Rows(img), Cols(img)) ensures p in Blob(img, thresh) {
      InAllPixels(p, Rows(img), Cols(img));
      forall s | Closed(img, thresh, s) ensures p in s {
        AllPassingReached(img, thresh, s, p);
      }
    }
    AllPixelsCard(Rows(img), Cols(img));
    assert MinAtLeast(img, thresh);
  }
}
