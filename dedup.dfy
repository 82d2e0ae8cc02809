/**
 * Peak deduplication in process_image: the detected stars are sorted by
 * magnitude and only the first star found at each peak pixel is kept
 * (`sort_values('vmag').drop_duplicates(subset=['maxX', 'maxY'], keep='first')`).
 */
module PeakDedup {
  import opened Ordering

  /** A catalogue star after the peak search: its magnitude and the response peak it was matched to. */
  datatype Detection = Detection(id: int, vmag: real, maxX: int, maxY: int)

  /** The peak pixel a detection was matched to. */
  function Peak(d: Detection): (int, int) {
    (d.maxX, d.maxY)
  }

  function Vmag(d: Detection): real {
    d.vmag
  }

  /** The peaks of a set of detections. */
  function Peaks(s: seq<Detection>): set<(int, int)> {
    set d | d in s :: Peak(d)
  }

  /** `drop_duplicates(keep='first')` from a given set of peaks already taken. */
  function KeepFirstFrom(s: seq<Detection>, seen: set<(int, int)>): seq<Detection> {
    if s == [] then []
    else if Peak(s[0]) in seen then KeepFirstFrom(s[1..], seen)
    else [s[0]] + KeepFirstFrom(s[1..], seen + {Peak(s[0])})
  }

  /** `drop_duplicates(subset=['maxX', 'maxY'], keep='first')` */
  function KeepFirst(s: seq<Detection>): seq<Detection> {
    KeepFirstFrom(s, {})
  }

  /** The deduplication step: sort by magnitude, then keep the first star per peak. */
  function Dedup(stars: seq<Detection>): seq<Detection> {
    KeepFirst(SortBy(stars, Vmag))
  }

  /** What KeepFirstFrom keeps: new peaks only, each once, in order, and every new peak of `s`. */
  lemma {:induction false} KeepFirstFromFacts(s: seq<Detection>, seen: set<(int, int)>)
    ensures var r := KeepFirstFrom(s, seen);
            && Sublist(r, s)
            && (forall i :: 0 <= i < |r| ==> Peak(r[i]) !in seen)
            && (forall i, j :: 0 <= i < j < |r| ==> Peak(r[i]) != Peak(r[j]))
            && Peaks(r) == Peaks(s) - seen
  {
    if s != [] {
      var p := Peak(s[0]);
      if p in seen {
        KeepFirstFromFacts(s[1..], seen);
        assert Peaks(s) == Peaks(s[1..]) + {p} by {
          assert s == [s[0]] + s[1..];
        }
      } else {
        KeepFirstFromFacts(s[1..], seen + {p});
        var r := KeepFirstFrom(s[1..], seen + {p});
        assert KeepFirstFrom(s, seen) == [s[0]] + r;
        assert ([s[0]] + r)[1..] == r;
        assert Peaks([s[0]] + r) == {p} + Peaks(r) by {
          assert forall d :: d in [s[0]] + r <==> d == s[0] || d in r;
        }
        assert Peaks(s) == Peaks(s[1..]) + {p} by {
          assert s == [s[0]] + s[1..];
        }
      }
    }
  }

  /**
   * The first star at each peak is kept: when `s` is sorted by magnitude, every
   * star of `s` shares its peak with a kept star whose magnitude is at most its own.
   */
  lemma {:induction false} KeepFirstBrightest(s: seq<Detection>, seen: set<(int, int)>, i: int)
    requires SortedBy(s, Vmag) && 0 <= i < |s| && Peak(s[i]) !in seen
    ensures exists e :: e in KeepFirstFrom(s, seen) && Peak(e) == Peak(s[i]) && e.vmag <= s[i].vmag
  {
    if Peak(s[0]) in seen {
      KeepFirstBrightest(s[1..], seen, i - 1);
    } else if Peak(s[0]) == Peak(s[i]) {
      assert s[0] in KeepFirstFrom(s, seen);
    } else {
      KeepFirstBrightest(s[1..], seen + {Peak(s[0])}, i - 1);
      var e :| e in KeepFirstFrom(s[1..], seen + {Peak(s[0])}) && Peak(e) == Peak(s[i]) && e.vmag <= s[i].vmag;
      assert e in KeepFirstFrom(s, seen);
    }
  }

  /**
   * After the deduplication the kept stars are in magnitude order, no two share
   * a peak pixel, every star kept was detected, every peak of the input survives, and each detected star
   * shares its peak with a kept star at least as bright (magnitude at most its own).
   */
  lemma DedupContract(stars: seq<Detection>)
    ensures var r := Dedup(stars);
            && Sublist(r, SortBy(stars, Vmag))
            && (forall i, j :: 0 <= i < j < |r| ==> Peak(r[i]) != Peak(r[j]))
            && (forall d :: d in r ==> d in stars)
            && Peaks(r) == Peaks(stars)
            && (forall d :: d in stars ==> exists e :: e in r && Peak(e) == Peak(d) && e.vmag <= d.vmag)
  {
    var sorted := SortBy(stars, Vmag);
    var r := KeepFirst(sorted);
    KeepFirstFromFacts(sorted, {});
    SublistMembers(r, sorted);
    SameMembers(sorted, stars);
    forall d | d in stars ensures exists e :: e in r && Peak(e) == Peak(d) && e.vmag <= d.vmag {
      var i :| 0 <= i < |sorted| && sorted[i] == d;
      KeepFirstBrightest(sorted, {}, i);
    }
  }

  /** A permutation has the same members and the same peaks. */
  lemma SameMembers(a: seq<Detection>, b: seq<Detection>)
    requires multiset(a) == multiset(b)
    ensures forall d :: d in a <==> d in b
    ensures Peaks(a) == Peaks(b)
  {
    forall d ensures d in a <==> d in b {
      assert d in a <==> d in multiset(a);
      assert d in b <==> d in multiset(b);
    }
  }

  /** The kept star at a peak is the first star at that peak in the sorted order. */
  lemma {:induction false} KeepFirstIsFirst(s: seq<Detection>, seen: set<(int, int)>, i: int)
    requires 0 <= i < |s| && Peak(s[i]) !in seen && forall j :: 0 <= j < i ==> Peak(s[j]) != Peak(s[i])
    ensures s[i] in KeepFirstFrom(s, seen)
  {
    if i > 0 {
      if Peak(s[0]) in seen {
        KeepFirstIsFirst(s[1..], seen, i - 1);
      } else {
        KeepFirstIsFirst(s[1..], seen + {Peak(s[0])}, i - 1);
      }
    }
  }
}
