/**
 * filter_catalogue: greedy suppression of catalogue stars. The stars are
 * sorted by magnitude; each surviving star in turn removes every later star
 * closer than `rng` degrees to it.
 */
module CatalogueFilter {
  import opened Ordering

  /** A catalogue row: its index label, position in degrees and magnitude. */
  datatype CatalogueStar = CatalogueStar(id: int, ra: real, dec: real, vmag: real)

  /** A row of `reference`: (ra, dec). */
  type Coord = (real, real)

  function Position(s: CatalogueStar): Coord {
    (s.ra, s.dec)
  }

  function Id(s: CatalogueStar): int {
    s.id
  }

  function Vmag(s: CatalogueStar): real {
    s.vmag
  }

  /** A column of the table. */
  function Map<A, B>(s: seq<A>, f: A -> B): (r: seq<B>)
    ensures |r| == |s| && forall i :: 0 <= i < |s| ==> r[i] == f(s[i])
  {
    if s == [] then [] else [f(s[0])] + Map(s[1..], f)
  }

  /** numpy boolean indexing `s[keep]`: the entries whose flag is set, in order. */
  function Select<T>(s: seq<T>, keep: seq<bool>): (r: seq<T>)
    requires |keep| == |s|
    ensures |r| <= |s|
  {
    if s == [] then [] else (if keep[0] then [s[0]] else []) + Select(s[1..], keep[1..])
  }

  /** The stars of `t` farther than `rng` from `a`, by the angular distance `sep` (degrees). */
  function Far(a: CatalogueStar, t: seq<CatalogueStar>, rng: real, sep: (Coord, Coord) -> real): (r: seq<CatalogueStar>)
    ensures |r| <= |t|
  {
    if t == [] then []
    else
      (if sep(Position(a), Position(t[0])) > rng then [t[0]] else []) + Far(a, t[1..], rng, sep)
  }

  /**
   * What the loop computes on a magnitude-sorted table: keep the first star,
   * drop every later star within `rng` of it, and repeat on what is left.
   */
  function Suppress(s: seq<CatalogueStar>, rng: real, sep: (Coord, Coord) -> real): seq<CatalogueStar>
    decreases |s|
  {
    if s == [] then [] else [s[0]] + Suppress(Far(s[0], s[1..], rng, sep), rng, sep)
  }

  /** filter_catalogue: the index labels of the stars that survive, in magnitude order. */
  method FilterCatalogue(catalogue: seq<CatalogueStar>, rng: real, sep: (Coord, Coord) -> real) returns (index: seq<int>)
    ensures index == Map(Suppress(SortBy(catalogue, Vmag), rng, sep), Id)
  {
    var c := SortBy(catalogue, Vmag);
    var reference := Map(c, Position);
    index := Map(c, Id);
    ghost var rows := c;
    var i1 := 0;
    while i1 < |reference| - 1
      invariant 0 <= i1 <= |rows|
      invariant reference == Map(rows, Position) && index == Map(rows, Id)
      invariant rows[..i1] + Suppress(rows[i1..], rng, sep) == Suppress(c, rng, sep)
      decreases |reference| - i1
    {
      var keep := seq(|reference|, j requires 0 <= j < |reference| => j <= i1 || sep(reference[i1], reference[j]) > rng);
      StepKeepsSuppression(rows, i1, keep, rng, sep);
      SelectMap(rows, keep, Position);
      SelectMap(rows, keep, Id);
      reference := Select(reference, keep);
      index := Select(index, keep);
      rows := Select(rows, keep);
      i1 := i1 + 1;
    }
    SuppressShort(rows[i1..], rng, sep);
    assert rows[..i1] + rows[i1..] == rows;
  }

  /** A table of at most one star has nothing to suppress. */
  lemma SuppressShort(s: seq<CatalogueStar>, rng: real, sep: (Coord, Coord) -> real)
    requires |s| <= 1
    ensures Suppress(s, rng, sep) == s
  {
    if s != [] {
      assert s[1..] == [];
    }
  }

  // ---------------------------------------------------------------------------
  // The loop step

  lemma {:induction false} SelectMap<A, B>(s: seq<A>, keep: seq<bool>, f: A -> B)
    requires |keep| == |s|
    ensures Select(Map(s, f), keep) == Map(Select(s, keep), f)
  {
    if s != [] {
      SelectMap(s[1..], keep[1..], f);
      assert Map(s, f)[1..] == Map(s[1..], f);
    }
  }

  lemma {:induction false} SelectAppend<T>(a: seq<T>, b: seq<T>, ka: seq<bool>, kb: seq<bool>)
    requires |ka| == |a| && |kb| == |b|
    ensures Select(a + b, ka + kb) == Select(a, ka) + Select(b, kb)
  {
    if a == [] {
      assert a + b == b && ka + kb == kb;
    } else {
      SelectAppend(a[1..], b, ka[1..], kb);
      var ab, kab := a + b, ka + kb;
      assert ab[0] == a[0] && kab[0] == ka[0];
      assert ab[1..] == a[1..] + b && kab[1..] == ka[1..] + kb;
      var head := if ka[0] then [a[0]] else [];
      assert Select(ab, kab) == head + Select(ab[1..], kab[1..]);
      assert Select(a, ka) == head + Select(a[1..], ka[1..]);
    }
  }

  lemma {:induction false} SelectAll<T>(a: seq<T>, ka: seq<bool>)
    requires |ka| == |a| && forall j :: 0 <= j < |ka| ==> ka[j]
    ensures Select(a, ka) == a
  {
    if a != [] {
      SelectAll(a[1..], ka[1..]);
    }
  }

  lemma {:induction false} SelectFar(a: CatalogueStar, t: seq<CatalogueStar>, kt: seq<bool>, rng: real, sep: (Coord, Coord) -> real)
    requires |kt| == |t| && forall j :: 0 <= j < |t| ==> kt[j] == (sep(Position(a), Position(t[j])) > rng)
    ensures Select(t, kt) == Far(a, t, rng, sep)
  {
    if t != [] {
      SelectFar(a, t[1..], kt[1..], rng, sep);
    }
  }

  /** The flags of one pass select the processed stars and the later stars far from star `i`. */
  lemma SelectPass(rows: seq<CatalogueStar>, i: int, keep: seq<bool>, rng: real, sep: (Coord, Coord) -> real)
    requires 0 <= i < |rows| && |keep| == |rows|
    requires forall j :: 0 <= j < |rows| ==> keep[j] == (j <= i || sep(Position(rows[i]), Position(rows[j])) > rng)
    ensures Select(rows, keep) == rows[..i + 1] + Far(rows[i], rows[i + 1..], rng, sep)
  {
    var head, tail := rows[..i + 1], rows[i + 1..];
    var kh, kt := keep[..i + 1], keep[i + 1..];
    assert rows == head + tail && keep == kh + kt;
    SelectAppend(head, tail, kh, kt);
    SelectAll(head, kh);
    SelectFar(rows[i], tail, kt, rng, sep);
  }

  /** One pass of the loop: star `i` removes the later stars near it and the suppression still adds up. */
  lemma StepKeepsSuppression(rows: seq<CatalogueStar>, i: int, keep: seq<bool>, rng: real, sep: (Coord, Coord) -> real)
    requires 0 <= i < |rows| && |keep| == |rows|
    requires forall j :: 0 <= j < |rows| ==> keep[j] == (j <= i || sep(Position(rows[i]), Position(rows[j])) > rng)
    ensures var next := Select(rows, keep);
            && i + 1 <= |next|
            && next[..i + 1] + Suppress(next[i + 1..], rng, sep) == rows[..i] + Suppress(rows[i..], rng, sep)
  {
    SelectPass(rows, i, keep, rng, sep);
    var head, far := rows[..i + 1], Far(rows[i], rows[i + 1..], rng, sep);
    var next := head + far;
    assert next[..i + 1] == head && next[i + 1..] == far;
    assert rows[i..][1..] == rows[i + 1..];
    assert Suppress(rows[i..], rng, sep) == [rows[i]] + Suppress(far, rng, sep);
    assert head == rows[..i] + [rows[i]];
  }

  // ---------------------------------------------------------------------------
  // What the suppression promises

  /** Far keeps exactly the stars of `t` that are more than `rng` from `a`. */
  lemma {:induction false} FarMembers(a: CatalogueStar, t: seq<CatalogueStar>, rng: real, sep: (Coord, Coord) -> real)
    ensures forall x :: x in Far(a, t, rng, sep) <==> x in t && sep(Position(a), Position(x)) > rng
  {
    if t != [] {
      FarMembers(a, t[1..], rng, sep);
      assert t == [t[0]] + t[1..];
    }
  }

  lemma {:induction false} FarSorted(a: CatalogueStar, t: seq<CatalogueStar>, rng: real, sep: (Coord, Coord) -> real)
    requires SortedBy(t, Vmag)
    ensures SortedBy(Far(a, t, rng, sep), Vmag) && Sublist(Far(a, t, rng, sep), t)
  {
    if t != [] {
      FarSorted(a, t[1..], rng, sep);
      FarMembers(a, t[1..], rng, sep);
      var rest := Far(a, t[1..], rng, sep);
      if sep(Position(a), Position(t[0])) > rng {
        forall x | x in rest ensures Vmag(t[0]) <= Vmag(x) {
          var j :| 0 <= j < |t[1..]| && t[1..][j] == x;
          assert t[j + 1] == x;
        }
        var r := [t[0]] + rest;
        assert r[1..] == rest;
        forall i, j | 0 <= i < j < |r| ensures Vmag(r[i]) <= Vmag(r[j]) {
          assert r[j] == rest[j - 1] && r[j] in rest;
          if i > 0 {
            assert r[i] == rest[i - 1];
          }
        }
      } else {
        assert Far(a, t, rng, sep) == rest;
      }
    }
  }

  /**
   * On a magnitude-sorted table the survivors are a sublist that starts with
   * the brightest star, any two survivors are more than `rng` apart, and each
   * removed star lies within `rng` of a survivor at least as bright.
   */
  lemma {:induction false} SuppressContract(s: seq<CatalogueStar>, rng: real, sep: (Coord, Coord) -> real)
    requires SortedBy(s, Vmag)
    ensures var r := Suppress(s, rng, sep);
            && Sublist(r, s)
            && (s != [] ==> r != [] && r[0] == s[0])
            && (forall i, j :: 0 <= i < j < |r| ==> sep(Position(r[i]), Position(r[j])) > rng)
            && (forall x :: x in s && x !in r ==>
                  exists y :: y in r && sep(Position(y), Position(x)) <= rng && y.vmag <= x.vmag)
    decreases |s|
  {
    if s != [] {
      var far := Far(s[0], s[1..], rng, sep);
      FarSorted(s[0], s[1..], rng, sep);
      FarMembers(s[0], s[1..], rng, sep);
      SuppressContract(far, rng, sep);
      var rest := Suppress(far, rng, sep);
      var r := [s[0]] + rest;
      assert r[1..] == rest;
      SublistTransitive(rest, far, s[1..]);
      SublistMembers(rest, far);
      forall i, j | 0 <= i < j < |r| ensures sep(Position(r[i]), Position(r[j])) > rng {
        if i == 0 {
          assert r[j] == rest[j - 1];
          assert r[j] in rest;
        } else {
          assert r[i] == rest[i - 1] && r[j] == rest[j - 1];
        }
      }
      forall x | x in s && x !in r ensures exists y :: y in r && sep(Position(y), Position(x)) <= rng && y.vmag <= x.vmag {
        assert x in s[1..] by { assert s == [s[0]] + s[1..]; }
        if x in far {
          var y :| y in rest && sep(Position(y), Position(x)) <= rng && y.vmag <= x.vmag;
          assert y in r;
        } else {
          var j :| 0 <= j < |s[1..]| && s[1..][j] == x;
          assert s[j + 1] == x;
          assert s[0] in r;
        }
      }
    }
  }

  /**
   * filter_catalogue returns a sublist of the magnitude-sorted index labels:
   * the brightest star's label first, labels of stars more than `rng` apart,
   * and every removed star within `rng` of a kept star at least as bright.
   */
  lemma FilterCatalogueContract(catalogue: seq<CatalogueStar>, rng: real, sep: (Coord, Coord) -> real)
    ensures var sorted := SortBy(catalogue, Vmag);
            var kept := Suppress(sorted, rng, sep);
            && Sublist(kept, sorted)
            && (catalogue != [] ==> kept != [] && kept[0] == sorted[0] && forall x :: x in catalogue ==> kept[0].vmag <= x.vmag)
            && (forall i, j :: 0 <= i < j < |kept| ==> sep(Position(kept[i]), Position(kept[j])) > rng)
            && (forall x :: x in catalogue && x !in kept ==>
                  exists y :: y in kept && sep(Position(y), Position(x)) <= rng && y.vmag <= x.vmag)
  {
    var sorted := SortBy(catalogue, Vmag);
    SuppressContract(sorted, rng, sep);
    forall x ensures x in catalogue <==> x in sorted {
      assert x in catalogue <==> x in multiset(catalogue);
      assert x in sorted <==> x in multiset(sorted);
    }
    if catalogue != [] {
      forall x | x in catalogue ensures sorted[0].vmag <= x.vmag {
        var j :| 0 <= j < |sorted| && sorted[j] == x;
        assert j == 0 || Vmag(sorted[0]) <= Vmag(sorted[j]);
      }
    }
  }

  /**
   * Three stars on a line, 0.5 and 1 degree from the brightest: with a range of
   * 0.6 degree the middle one is removed; with 0.1 degree all three stay.
   */
  lemma ThreeStarExample()
    ensures var a, b, c := CatalogueStar(1, 0.0, 0.0, 1.0), CatalogueStar(2, 0.5, 0.0, 2.0), CatalogueStar(3, 1.0, 0.0, 3.0);
            var sep := (p: Coord, q: Coord) => if p.0 <= q.0 then q.0 - p.0 else p.0 - q.0;
            && Suppress([a, b, c], 0.6, sep) == [a, c]
            && Suppress([a, b, c], 0.1, sep) == [a, b, c]
  {
    var a, b, c := CatalogueStar(1, 0.0, 0.0, 1.0), CatalogueStar(2, 0.5, 0.0, 2.0), CatalogueStar(3, 1.0, 0.0, 3.0);
    var sep := (p: Coord, q: Coord) => if p.0 <= q.0 then q.0 - p.0 else p.0 - q.0;
    assert [a, b, c][1..] == [b, c] && [b, c][1..] == [c] && [c][1..] == [];
    assert Far(a, [b, c], 0.6, sep) == [c];
    assert Suppress([c], 0.6, sep) == [c];
    assert Far(b, [c], 0.1, sep) == [c];
    assert Suppress([c], 0.1, sep) == [c];
    assert Suppress([b, c], 0.1, sep) == [b, c];
    assert Far(a, [b, c], 0.1, sep) == [b, c];
  }
}
