# starry_night sky camera: star detection and cloud statistics

This project models the discrete routines of `starry_night/skycam.py`, the
sky-camera analysis of starry_night. Each routine on its own:

- **Blob sizing (`getBlobsize`).** An 8-connected flood fill from the centre of
  an odd-sized window. It runs on a working copy whose non-finite pixels are
  zeroed, uses a FIFO list, stops early at a limit, and returns at once when
  every pixel passes the threshold.
- **Windowed peak search (`findLocalMaxPos`, `findLocalMaxValue`).** A square
  window around a star's predicted pixel is clamped to the image and read as a
  Python slice. The search returns the first brightest pixel in row-major
  order, or the window's maximum.
- **Peak deduplication.** After the peak search, the stars are sorted by
  magnitude and duplicates on the peak pixel are dropped, keeping the first.
- **Crop mask (`get_crop_mask`, `update_crop_moon`).** Four comma-separated
  integer lists from the configuration become exclusion disks, and these are
  OR-ed into a boolean image. `true` marks an excluded pixel, which is what the
  code computes and the rest of the pipeline uses. The function's docstring
  states the opposite. A parse error gives an empty mask. The moon disk is
  OR-ed in afterwards.
- **Catalogue thinning (`filter_catalogue`).** A greedy pass over the stars
  sorted by magnitude. Each surviving star removes every later star within the
  minimum separation.
- **Visibility and region percentage.** A star's visibility is the position of
  log10 of its response between two limit lines in magnitude. It is clamped to
  [0, 1] and forced to 0 past the lines' crossing. `calc_star_percentage` is
  the share of visible stars among those in range, or the (flux-weighted) mean
  visibility. It is -1 when no star is in range.

The modules follow these routines:

- `wrappers.dfy` holds the Option and Result types.
- `grids.dfy` holds rectangular grids and their extremes.
- `ratios.dfy` holds small facts about ratios.
- `blob.dfy` is the flood fill. It is imperative, over an `array2` working copy.
- `peak_search.dfy` is the window search.
- `ordering.dfy` is the sort by magnitude and the sublist relation.
- `dedup.dfy` is the peak deduplication.
- `filter_catalogue.dfy` is the thinning loop, written as imperative code over
  shrinking sequences.
- `crop_mask.dfy` is the parsing and the mask. The mask is built by a loop that
  OR-accumulates one disk at a time.
- `visibility.dfy` is the visibility clamp.
- `star_percentage.dfy` is the region percentage.

Python's semantics are written out where they matter:

- `int()` truncates toward zero. Applied to a string, it accepts surrounding
  whitespace, a sign, and digit groups joined by single underscores.
- A negative slice stop counts from the end.
- `//` and `%` round toward minus infinity.
- `np.nanargmax` returns the first maximum and raises on an all-NaN input.
- `np.max(a) != np.min(a)` holds whenever a NaN is present.
- numpy float division by zero gives an infinity, which the clamp then
  absorbs.
- A Python float division by zero raises.

NaN is `None` in `Option<real>` response grids. Blob images use a three-way
sample type (finite, NaN, infinite), because `np.min` treats NaN and +inf
differently.

Angular distances (the haversine formulas) are parameters: `sep` functions.
The magnitude weight `(100 ** (1/5)) ** -vmag` is a parameter `flux`, required
to be positive.

## Model

| member | source | states |
|---|---|---|
| Blob.GetBlobsize | starry_night/skycam.py:159-201 | The flood fill returns exactly `Blobsize`: the two errors, the all-passing shortcut, otherwise `min(cap, number of pixels in the blob)`. The blob is the least set holding every passing 8-neighbour of the centre and of its members. Each pixel is counted once. |
| Blob.Fill | starry_night/skycam.py:183-201 | The FIFO loop over the zeroed working copy counts the smaller of `cap` and the blob's size, leaving once `cap` pixels are counted. |
| Blob.BlobsizeContract | starry_night/skycam.py:166-177 | The result is ValueError exactly when `thresh <= 0`. It is IndexError exactly when the threshold is positive and a dimension is even. A count never exceeds the cap (the limit, or the area when the limit is 0). It lies in [0, area] for a non-negative limit. The shortcut gives `min(cap, area)`. |
| Blob.BlobOnlyPassing | starry_night/skycam.py:194-198 | Every counted pixel lies in the image and reaches the threshold after non-finite pixels are zeroed. |
| Blob.CentreNeighbourhoodInBlob | starry_night/skycam.py:187-198 | Every passing pixel in the centre's 3x3 neighbourhood is counted. The centre itself is counted only when it passes; it is never tested apart from its neighbourhood. |
| Blob.AllPassingReached | starry_night/skycam.py:183-198 | When every pixel passes, the fill reaches every pixel of the window. The proof is by induction on the distance to the centre. |
| Blob.ShortcutAgreesWithFill | starry_night/skycam.py:175-177 | When every pixel is finite and passes, the blob is the whole window, so the shortcut returns what the fill would. |
| PeakSearch.NanMax | starry_night/skycam.py:679 | `np.nanmax`: NaN exactly when every entry is NaN; otherwise an entry of the input that is at least every non-NaN entry. |
| PeakSearch.NanArgMax | starry_night/skycam.py:706 | `np.nanargmax`: raises exactly when every entry is NaN; otherwise the index of a non-NaN entry that is the maximum and is strictly larger than every earlier entry. |
| PeakSearch.SubImage | starry_night/skycam.py:677 | The slice `img[y0:y1, x0:x1]` has the window's shape, and entry (i, j) is image pixel (y0+i, x0+j). |
| PeakSearch.FloorDivMod | starry_night/skycam.py:707-708 | Python's `//` and `%` recompose the index, and the remainder lies between 0 and the divisor, with the divisor's sign. |
| PeakSearch.WindowArgMax | starry_night/skycam.py:706-708 | Decoding the flat arg-max with the window's own width gives a window pixel whose response is the flat entry, at row-major position `(y - y0) * width + (x - x0)`. |
| PeakSearch.MaxPosIsFirstMaximum | starry_night/skycam.py:688-711 | On a non-uniform window with a non-NaN pixel, findLocalMaxPos reports a window pixel that is not NaN and holds the window's maximum. Every pixel before it in row-major order is strictly smaller. |
| PeakSearch.MaxPosDegenerateWindows | starry_night/skycam.py:700-711 | A uniform window returns the int-truncated input position. An all-NaN window returns (0, 0) (the caught ValueError). Both hold for every window the slicing selects. |
| PeakSearch.MaxValueAtMaxPos | starry_night/skycam.py:660-685 | findLocalMaxValue searches the same window: on a non-uniform window with a non-NaN pixel it equals the response at the pixel findLocalMaxPos reports. The corrected reading agrees with it there. |
| PeakSearch.FindLocalMaxValueCorrected | starry_night/skycam.py:671-685 | A star whose clamped window is empty gets 0 ("Star outside image"). Otherwise the result is the NaN-ignoring maximum of the clamped window. |
| PeakSearch.NegativeStopReadsInsideImage | starry_night/skycam.py:671-675 | A star at column -3 of a 1x3 image with radius 1 has column bounds (0, -1). As written, findLocalMaxValue returns the image's response 2 and findLocalMaxPos reports row -1. The corrected function returns 0. |
| PeakSearch.NanMaxIsArgMax | starry_night/skycam.py:679 | `nanmax` is the entry at the `nanargmax` index. |
| Ordering.SortBy | starry_night/skycam.py:1094 | `sort_values('vmag')`: the result is sorted by magnitude and is a permutation of the input. |
| Ordering.SublistTransitive | starry_night/skycam.py:970-971 | Keeping a subsequence of a subsequence keeps a subsequence. |
| PeakDedup.KeepFirstFromFacts | starry_night/skycam.py:1094 | `drop_duplicates(keep='first')` keeps a subsequence whose peaks are pairwise distinct and cover every peak of the input. |
| PeakDedup.DedupContract | starry_night/skycam.py:1094 | After sorting by magnitude and dropping duplicate peaks the retained stars: form a subsequence of the sorted stars; have pairwise distinct peak pixels; come from the input; cover every input peak. Every star shares its peak with a retained star of magnitude at most its own. |
| PeakDedup.KeepFirstIsFirst | starry_night/skycam.py:1094 | A star is kept when no earlier star in the sorted order has its peak. |
| CatalogueFilter.FilterCatalogue | starry_night/skycam.py:946-973 | The while loop over the shrinking `reference` and `index` returns the index labels of the greedy suppression of the magnitude-sorted catalogue. |
| CatalogueFilter.SuppressContract | starry_night/skycam.py:963-973 | On a magnitude-sorted table, the survivors: form a subsequence; start with the brightest star; are pairwise more than `rng` apart. Every removed star lies within `rng` of a survivor of magnitude at most its own. |
| CatalogueFilter.FilterCatalogueContract | starry_night/skycam.py:946-973 | The same for filter_catalogue's result. The kept stars are a subsequence of the sorted catalogue, and the first kept star is at least as bright as every catalogue star. |
| CatalogueFilter.ThreeStarExample | starry_night/skycam.py:963-973 | Three stars where the middle one is close to the first: the first and third survive. |
| CropMask.ParseIntSigned | starry_night/skycam.py:790 | For every natural n and any number of blanks before and after, `int()` of `+n` is n and of `-n` is -n. |
| CropMask.ParseIntGrouped | starry_night/skycam.py:790 | For all naturals m and n, `int()` of `m_n` is the number the digits of m followed by those of n spell: m times 10 to the number of n's digits, plus n. |
| CropMask.ParseIntRejects | starry_night/skycam.py:790 | For every string, `int()` raises when the string: is empty or all blanks; holds a character other than a blank, digit, underscore or sign (a decimal point, say); holds two underscores in a row anywhere; or, once stripped, starts with two signs. |
| CropMask.ParseShowInt | starry_night/skycam.py:790-793 | Every integer, written in decimal with any number of blanks before and after, parses back to itself. |
| CropMask.ParseIntList | starry_night/skycam.py:790-793 | `list(map(int, tokens))` succeeds exactly when every token parses. It then holds each token's value, in order. |
| CropMask.ParseShowList | starry_night/skycam.py:790-793 | A non-empty list written as `a, b, c` parses back to itself. |
| CropMask.Zip4 | starry_night/skycam.py:794 | `zip` of the four lists is as long as the shortest and holds the k-th entries in position k. |
| CropMask.GetCropMask | starry_night/skycam.py:780-804 | The mask has the image's shape. After a parse failure no pixel is masked. Otherwise a pixel is masked exactly when some configured disk crops it: strictly outside the circle when delete-inside is 0, strictly inside otherwise. |
| CropMask.ParseDisksLength | starry_night/skycam.py:790-794 | The number of disks is the length of the shortest of the four lists. |
| CropMask.UpdateCropMoon | starry_night/skycam.py:769-776 | The moon update keeps the mask's shape and masks a pixel exactly when it was masked or lies strictly inside the moon disk. |
| CropMask.MoonOnlyAdds | starry_night/skycam.py:769-776 | The moon update never clears a masked pixel, and applying it twice changes nothing. |
| CropMask.MoonMonotone | starry_night/skycam.py:769-776 | A larger moon radius masks at least the same pixels. |
| Visibility.Clamp01 | starry_night/skycam.py:1116-1123 | `min(1, max(0, q))` lies in [0, 1]. It is 0 for q <= 0 and 1 for q >= 1, and otherwise equals q. |
| Visibility.VisibilityRange | starry_night/skycam.py:1112-1126 | The intended visibility lies in [0, 1]. It is 1 exactly when the upper line is above the lower and the response reaches the upper line. It is 0 exactly when the lines are crossed or the response does not exceed the lower line. In between it is linear. |
| Visibility.VisibilityMonotone | starry_night/skycam.py:1116-1123 | A stronger response is never less visible. |
| Visibility.AsWrittenAgreesForFallingUpper | starry_night/skycam.py:1116-1126 | When the upper line's slope is the smaller one, the code's forced-zero test picks exactly the crossed magnitudes. The code then equals the intended visibility everywhere except at the crossing point. |
| Visibility.AsWrittenInUnit | starry_night/skycam.py:1116-1126 | As written, every value lies in [0, 1]. NaN arises only where both lines meet the response. |
| Visibility.AsWrittenParallelLinesRaise | starry_night/skycam.py:1126 | Equal slopes make the crossing magnitude a ZeroDivisionError. |
| Visibility.AsWrittenZeroesVisibleStar | starry_night/skycam.py:1126 | With upper line `m`, lower line 0 and magnitude 1, the upper line lies above the lower. A log-response of 0.5 is halfway between them, yet the code reports 0. The intended value is 0.5. |
| Visibility.AsWrittenRewardsNoVisibility | starry_night/skycam.py:1116-1126 | With upper line `m`, lower line 1 and magnitude 0, the upper line lies below the lower and the crossing is at 1. The code keeps the clamp at magnitude 0 and reports 1 for a log-response of 0. The intended value is 0. |
| StarPercentage.StarsInRange | starry_night/skycam.py:840-892 | A star is in range exactly when the range is negative, or it lies within `rng`: pixel distance, or angular separation. The selection keeps the table's order: it is a subsequence of the table. Each star kept appears as many times as in the table. |
| StarPercentage.PercentageRange | starry_night/skycam.py:877-912 | The result is -1 exactly when no star is in range. Otherwise it lies in [0, 1], given visibilities in [0, 1] for the mean. |
| StarPercentage.PassRateExtremes | starry_night/skycam.py:897-903 | With `lim >= 0` and a star in range, the pass rate is 1 exactly when every star in range has `visible >= lim`. It is 0 exactly when none has. This holds both weighted and unweighted. |
| StarPercentage.PassRateAntitone | starry_night/skycam.py:897-903 | Raising the limit never raises the pass rate. |
| StarPercentage.EqualWeightsAreUnweighted | starry_night/skycam.py:897-909 | With equal magnitude weights, the weighted result equals the unweighted one, in both the pass-rate and the mean branch. |
| StarPercentage.PercentageOfClampedVisibilities | starry_night/skycam.py:889-912 | When each visibility is the clamped limit-line position, the percentage is -1 or lies in [0, 1], with no further condition. |

## Left out

- Image download, polling, file decoding, ephemeris, coordinate transforms,
  response filters, the cloud map, plotting, the rate scan, SQL and hashing.
  None of these is part of this model.
- Haversine distances: `isInRange` and `filter_catalogue` compute spherical
  distances with trigonometry. The model takes the distance as a `sep`
  function parameter. isInRange's fallback to altitude/azimuth when ra/dec are
  missing is part of that parameter.
- Logging and the `print` in filter_catalogue's loop are left out; they have
  no effect on the result. The `sys.exit` on a missing attribute and the KeyError of a badly
  labelled catalogue are left out too: the model's records always have their
  fields.
- PeakSearch: infinite responses are not modelled (response grids are clipped
  and finite or NaN). The vectorised `x.astype(int)` branch for array positions
  is not modelled.
- PeakSearch.FindLocalMaxPos: requires the sliced window to be non-empty. On
  an empty window `np.max` raises before the `try`, and nothing catches it.
- PeakSearch.FindLocalMaxValue: the `except RuntimeWarning` branch is not
  modelled. No warnings filter is installed, so an all-NaN window returns NaN
  with a warning instead.
- Ordering.SortBy: pandas' default quicksort is not stable. The model sorts
  stably by insertion. SuppressContract holds for every magnitude-sorted order;
  DedupContract is stated for this one.
- CropMask.SplitOnComma: `re.split('\s*,\s*')` is modelled as a split on ','.
  `int()` strips the blanks the pattern would have removed, so the parsed
  values are the same.
- CropMask.ParseInt: only ASCII whitespace and ASCII digits are modelled.
  Python's `int()` also accepts other Unicode whitespace and decimal digits.
- CropMask.UpdateCropMoon: the moon radius is a given real. `theta2r` and the
  configuration lookups that produce it are not part of this model.
- StarPercentage.CalcStarPercentage: a unit other than 'pixel' or 'deg'
  raises. The model cannot represent such a unit.
- StarPercentage.CalcStarPercentage: NaN visibilities are not modelled.
  Visibilities are reals. The code produces NaN where both limit lines meet
  the response, so the numerator and denominator of the clamp are both 0. For
  such a star each branch differs:
  - The weighted pass rate drops it from both sums, because NaN passes neither
    `visible >= lim` nor `visible < lim`.
  - The unweighted pass rate keeps it in the denominator `len(starsInRange)`
    and counts it as not visible.
  - Both mean branches return NaN.
- StarPercentage.CalcStarPercentage: the weight `(100 ** (1/5)) ** -vmag` is
  an arbitrary positive function `flux`, and floating-point rounding is not
  modelled.
- Floating-point rounding is not modelled anywhere. Every real is exact. This
  covers the blob threshold `thresh * max`, the visibility clamp's division and
  the crossing magnitude with the `vmag > crossing` test. Rounding could move a
  value that lies on one of these boundaries to the other side.
- CropMask.GetCropMask: a `crop` section missing one of the `crop_x`,
  `crop_y`, `crop_radius` or `crop_deleteinside` keys raises a KeyError. The
  `except` clause does not catch it. The model takes the four strings as
  given.
- Visibility: `log10(response)` is a given real, and the limit lines are
  already-parsed numbers. The transmission (air-mass) correction is not part
  of this model.

## Findings

| source | as written | input that shows it | evidently intended | confidence | as-written member | corrected member |
|---|---|---|---|---|---|---|
| starry_night/skycam.py:1126 | Visibility is set to 0 for every magnitude above the lines' crossing. That is the crossed side only when the upper line's slope is the smaller one. Otherwise the code zeroes the side where the lines are in order and clamps the side where they are crossed. | upper limit line `1*vmag + 0`, lower `0*vmag + 0`, vmag 1, log10(response) 0.5 gives 0; upper `1*vmag + 0`, lower `0*vmag + 1`, vmag 0, log10(response) 0 gives 1 | 0 only "where upperLimit < lowerLimit", as the code's comment says: 0.5 in the first case (upper 1 > lower 0) and 0 in the second (upper 0 < lower 1). VisibilityRange and VisibilityMonotone are proved of the intended function only | medium, not executed | Visibility.AsWrittenZeroesVisibleStar, Visibility.AsWrittenRewardsNoVisibility (of Visibility.VisibilityAsWritten) | Visibility.StarVisibility, with Visibility.VisibilityRange |
| starry_night/skycam.py:671-685 | The window bounds `min(x+radius+1, width)` can be negative. A negative slice stop then selects columns from the left of the image. The star is then not handled as outside the image. | 1x3 image `[1, 2, 3]`, x = -3, y = 0, radius 1: bounds (0, -1) select columns 0 and 1 | a star whose clamped window is empty is outside the image and yields 0, so `response > 1e-100` drops it. The slip is latent in the current pipeline: stars are restricted to `0 < x < width` and `0 < y < height` (skycam.py:595) before the peak search runs (skycam.py:1023), so a window there is never empty | medium, not executed | PeakSearch.NegativeStopReadsInsideImage (of PeakSearch.FindLocalMaxValue) | PeakSearch.FindLocalMaxValueCorrected, with PeakSearch.MaxValueAtMaxPos |
