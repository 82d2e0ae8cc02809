/**
 * The crop mask: configured disks parsed from comma-separated integer lists
 * (get_crop_mask) and the moon disk added on top (update_crop_moon).
 * A true pixel is cropped.
 */
module CropMask {
  import opened Wrappers
  import opened Grids

  // ---------------------------------------------------------------------------
  // Python's int() on a token

  /** The ASCII characters `str.isspace` accepts: tab to carriage return, the four separators, space. */
  predicate IsSpace(c: char) {
    (9 <= c as int <= 13) || (28 <= c as int <= 32)
  }

  predicate IsDigit(c: char) {
    '0' <= c <= '9'
  }

  function DigitValue(c: char): nat
    requires IsDigit(c)
  {
    (c as int - '0' as int) as nat
  }

  function DigitChar(d: nat): (c: char)
    requires d < 10
    ensures IsDigit(c) && DigitValue(c) == d
  {
    ('0' as int + d) as char
  }

  function StripLeft(s: string): (r: string)
    ensures |r| <= |s| && (r != [] ==> !IsSpace(r[0]))
  {
    if s != [] && IsSpace(s[0]) then StripLeft(s[1..]) else s
  }

  function StripRight(s: string): (r: string)
    ensures |r| <= |s| && (r != [] ==> !IsSpace(r[|r| - 1]))
  {
    if s != [] && IsSpace(s[|s| - 1]) then StripRight(s[..|s| - 1]) else s
  }

  /** `str.strip()`: whitespace removed at both ends. */
  function Strip(s: string): string {
    StripRight(StripLeft(s))
  }

  /** A digit string as int() reads it: digits, single underscores only between two digits. */
  predicate DigitGroups(s: string) {
    && |s| > 0 && IsDigit(s[0]) && IsDigit(s[|s| - 1])
    && (forall i :: 0 <= i < |s| ==> IsDigit(s[i]) || s[i] == '_')
    && (forall i :: 0 <= i < |s| - 1 ==> !DoubleUnderscoreAt(s, i))
  }

  /** Positions `i` and `i + 1` of `s` both hold `_`. */
  predicate DoubleUnderscoreAt(s: string, i: int)
    requires 0 <= i < |s| - 1
  {
    s[i] == '_' && s[i + 1] == '_'
  }

  /** The digits of a digit string, underscores removed. */
  function Digits(s: string): string {
    if s == [] then [] else if s[0] == '_' then Digits(s[1..]) else [s[0]] + Digits(s[1..])
  }

  /** The decimal value of a string of digits. */
  function Value(s: string): nat
    requires forall i :: 0 <= i < |s| ==> IsDigit(s[i])
  {
    if s == [] then 0 else 10 * Value(s[..|s| - 1]) + DigitValue(s[|s| - 1])
  }

  /** The magnitude int() reads from a digit string, or None for a malformed one. */
  function ParseDigits(s: string): Option<nat> {
    if DigitGroups(s) then
      DigitsOnly(s);
      Some(Value(Digits(s)))
    else None
  }

  /** `int(token)` in base 10; None where int() raises ValueError. */
  function ParseInt(token: string): Option<int> {
    ParseSigned(Strip(token))
  }

  /** The stripped token: an optional sign, then a digit string. */
  function ParseSigned(t: string): Option<int> {
    if t != [] && t[0] == '-' then
      match ParseDigits(t[1..])
      case None => None
      case Some(n) => Some(0 - n)
    else if t != [] && t[0] == '+' then ParseDigits(t[1..])
    else ParseDigits(t)
  }

  lemma {:induction false} DigitsOnly(s: string)
    requires forall i :: 0 <= i < |s| ==> IsDigit(s[i]) || s[i] == '_'
    ensures forall j :: 0 <= j < |Digits(s)| ==> IsDigit(Digits(s)[j])
  {
    if s != [] {
      DigitsOnly(s[1..]);
    }
  }

  // ---------------------------------------------------------------------------
  // Printing integers back, and the round trip

  /** The decimal digits of `n`, most significant first. */
  function ShowNat(n: nat): (s: string)
    ensures |s| > 0 && forall i :: 0 <= i < |s| ==> IsDigit(s[i])
  {
    if n < 10 then [DigitChar(n)] else ShowNat(n / 10) + [DigitChar(n % 10)]
  }

  /** `str(n)` */
  function ShowInt(n: int): string {
    if n < 0 then "-" + ShowNat(-n) else ShowNat(n)
  }

  lemma {:induction false} ValueOfShowNat(n: nat)
    ensures Value(ShowNat(n)) == n
  {
    if n >= 10 {
      ValueOfShowNat(n / 10);
      var s := ShowNat(n);
      assert s[..|s| - 1] == ShowNat(n / 10);
    }
  }

  lemma {:induction false} DigitsOfDigits(s: string)
    requires forall i :: 0 <= i < |s| ==> IsDigit(s[i])
    ensures Digits(s) == s
  {
    if s != [] {
      DigitsOfDigits(s[1..]);
      assert s == [s[0]] + s[1..];
    }
  }

  lemma ParseShowNat(n: nat)
    ensures ParseDigits(ShowNat(n)) == Some(n)
  {
    DigitsOfDigits(ShowNat(n));
    ValueOfShowNat(n);
  }

  /** int() reads back what str() prints, also with blanks on either side. */
  lemma ParseShowInt(n: int, a: nat, b: nat)
    ensures ParseInt(Spaces(a) + ShowInt(n) + Spaces(b)) == Some(n)
  {
    var s := ShowInt(n);
    StripSpaces(a, b, s);
    if n < 0 {
      ParseShowNat(-n);
      ParseMinus(ShowNat(-n), -n);
    } else {
      ParseShowNat(n);
      ParseUnsigned(ShowNat(n), n);
    }
  }

  lemma ParseMinus(d: string, v: nat)
    requires ParseDigits(d) == Some(v)
    ensures ParseSigned("-" + d) == Some(0 - v)
  {
    assert ("-" + d)[1..] == d;
  }

  lemma ParsePlus(d: string, v: nat)
    requires ParseDigits(d) == Some(v)
    ensures ParseSigned("+" + d) == Some(v)
  {
    assert ("+" + d)[1..] == d;
  }

  lemma ParseUnsigned(d: string, v: nat)
    requires ParseDigits(d) == Some(v)
    ensures ParseSigned(d) == Some(v)
  {
  }

  /** int() strips the blanks on both sides of a decimal with an explicit sign, and reads the sign. */
  lemma ParseIntSigned(a: nat, b: nat, n: nat)
    ensures ParseInt(Spaces(a) + "+" + ShowNat(n) + Spaces(b)) == Some(n)
    ensures ParseInt(Spaces(a) + "-" + ShowNat(n) + Spaces(b)) == Some(0 - n)
  {
    ParseShowNat(n);
    var plus, minus := "+" + ShowNat(n), "-" + ShowNat(n);
    StripSpaces(a, b, plus);
    StripSpaces(a, b, minus);
    assert Spaces(a) + "+" + ShowNat(n) + Spaces(b) == Spaces(a) + plus + Spaces(b);
    assert Spaces(a) + "-" + ShowNat(n) + Spaces(b) == Spaces(a) + minus + Spaces(b);
    ParsePlus(ShowNat(n), n);
    ParseMinus(ShowNat(n), n);
  }

  function Pow10(k: nat): nat {
    if k == 0 then 1 else 10 * Pow10(k - 1)
  }

  /** int() reads two digit groups joined by one underscore as the digits written together. */
  lemma ParseIntGrouped(m: nat, n: nat)
    ensures ParseInt(ShowNat(m) + "_" + ShowNat(n)) == Some(m * Pow10(|ShowNat(n)|) + n)
  {
    var x, y := ShowNat(m), ShowNat(n);
    var s := x + "_" + y;
    GroupedDigits(x, y);
    assert StripLeft(s) == s && StripRight(s) == s;
    assert ParseInt(s) == ParseSigned(s) == ParseDigits(s);
    ValueAppend(x, y);
    ValueOfShowNat(m);
    ValueOfShowNat(n);
  }

  /** Two digit strings joined by `_` form a digit string whose digits are the two written together. */
  lemma GroupedDigits(x: string, y: string)
    requires x != [] && forall i :: 0 <= i < |x| ==> IsDigit(x[i])
    requires y != [] && forall i :: 0 <= i < |y| ==> IsDigit(y[i])
    ensures var s := x + "_" + y; DigitGroups(s) && IsDigit(s[0]) && Digits(s) == x + y
  {
    GroupedShape(x, y);
    DigitsAppend(x + "_", y);
    DigitsAppend(x, "_");
    DigitsOfDigits(x);
    DigitsOfDigits(y);
    assert Digits("_") == [] by { assert "_"[1..] == []; }
    assert Digits(x + "_") == x;
    assert Digits(x + "_" + y) == Digits(x + "_") + Digits(y);
  }

  lemma GroupedShape(x: string, y: string)
    requires x != [] && forall i :: 0 <= i < |x| ==> IsDigit(x[i])
    requires y != [] && forall i :: 0 <= i < |y| ==> IsDigit(y[i])
    ensures var s := x + "_" + y; DigitGroups(s) && IsDigit(s[0])
  {
    var s := x + "_" + y;
    assert s[0] == x[0] && s[|s| - 1] == y[|y| - 1];
    forall i | 0 <= i < |s| ensures IsDigit(s[i]) || s[i] == '_' {
      if i < |x| { assert s[i] == x[i]; } else if i > |x| { assert s[i] == y[i - |x| - 1]; }
    }
    forall i | 0 <= i < |s| - 1 ensures !DoubleUnderscoreAt(s, i) {
      if i < |x| { assert s[i] == x[i]; } else { assert s[i + 1] == y[i - |x|]; }
    }
  }

  lemma {:induction false} DigitsAppend(a: string, b: string)
    ensures Digits(a + b) == Digits(a) + Digits(b)
  {
    if a != [] {
      DigitsAppend(a[1..], b);
      assert (a + b)[1..] == a[1..] + b;
    } else {
      assert a + b == b;
    }
  }

  lemma {:induction false} ValueAppend(a: string, b: string)
    requires forall i :: 0 <= i < |a| ==> IsDigit(a[i])
    requires forall i :: 0 <= i < |b| ==> IsDigit(b[i])
    ensures Value(a + b) == Value(a) * Pow10(|b|) + Value(b)
    decreases |b|
  {
    if b == [] {
      assert a + b == a;
    } else {
      var c := a + b;
      var b0 := b[..|b| - 1];
      var d := DigitValue(b[|b| - 1]);
      assert c[..|c| - 1] == a + b0 && c[|c| - 1] == b[|b| - 1];
      assert Value(c) == 10 * Value(a + b0) + d;
      assert Value(b) == 10 * Value(b0) + d;
      ValueAppend(a, b0);
      var v, p := Value(a), Pow10(|b0|);
      assert Pow10(|b|) == 10 * p;
      TenTimes(v, p);
    }
  }

  lemma TenTimes(v: int, p: int)
    ensures v * (10 * p) == 10 * (v * p)
  {
  }

  /** Characters int() never accepts in a decimal token: not a blank, a digit, `_` or a sign. */
  predicate Foreign(c: char) {
    !IsSpace(c) && !IsDigit(c) && c != '_' && c != '+' && c != '-'
  }

  /**
   * int() raises on a blank or empty token, on any character other than
   * blanks, digits, `_` and signs (a decimal point, say), on a doubled
   * underscore, and on a doubled sign.
   */
  lemma ParseIntRejects(s: string)
    ensures (forall i :: 0 <= i < |s| ==> IsSpace(s[i])) ==> ParseInt(s) == None
    ensures (exists i :: 0 <= i < |s| && Foreign(s[i])) ==> ParseInt(s) == None
    ensures (exists i :: 0 <= i < |s| - 1 && s[i] == '_' && s[i + 1] == '_') ==> ParseInt(s) == None
    ensures |Strip(s)| >= 2 && Strip(s)[0] in "+-" && Strip(s)[1] in "+-" ==> ParseInt(s) == None
  {
    var lo, hi := StripBounds(s);
    var t := Strip(s);
    if forall i :: 0 <= i < |s| ==> IsSpace(s[i]) {
      assert t == [];
    }
    if exists i :: 0 <= i < |s| && Foreign(s[i]) {
      var i :| 0 <= i < |s| && Foreign(s[i]);
      assert t[i - lo] == s[i];
      SignedRejects(t, i - lo);
    }
    if exists i :: 0 <= i < |s| - 1 && s[i] == '_' && s[i + 1] == '_' {
      var i :| 0 <= i < |s| - 1 && s[i] == '_' && s[i + 1] == '_';
      assert t[i - lo] == s[i] && t[i + 1 - lo] == s[i + 1];
      SignedRejects(t, i - lo);
    }
    if |t| >= 2 && t[0] in "+-" && t[1] in "+-" {
      assert t[1..][0] == t[1];
    }
  }

  /** A stripped token with a foreign character or a doubled underscore is no integer. */
  lemma SignedRejects(t: string, j: int)
    requires 0 <= j < |t|
    requires Foreign(t[j]) || (j + 1 < |t| && t[j] == '_' && t[j + 1] == '_')
    ensures ParseSigned(t) == None
  {
    if t[0] == '-' || t[0] == '+' {
      assert j >= 1;
      assert t[1..][j - 1] == t[j];
      if j + 1 < |t| && t[j] == '_' && t[j + 1] == '_' {
        assert t[1..][j] == t[j + 1];
        assert DoubleUnderscoreAt(t[1..], j - 1);
      }
    } else if j + 1 < |t| && t[j] == '_' && t[j + 1] == '_' {
      assert DoubleUnderscoreAt(t, j);
    }
  }

  lemma {:induction false} StripLeftBounds(s: string) returns (lo: nat)
    ensures lo <= |s| && StripLeft(s) == s[lo..] && forall i :: 0 <= i < lo ==> IsSpace(s[i])
  {
    if s != [] && IsSpace(s[0]) {
      var l := StripLeftBounds(s[1..]);
      lo := l + 1;
      assert s[1..][l..] == s[lo..];
      assert forall i :: 1 <= i < lo ==> s[i] == s[1..][i - 1];
    } else {
      lo := 0;
    }
  }

  lemma {:induction false} StripRightBounds(s: string) returns (hi: nat)
    ensures hi <= |s| && StripRight(s) == s[..hi] && forall i :: hi <= i < |s| ==> IsSpace(s[i])
  {
    if s != [] && IsSpace(s[|s| - 1]) {
      hi := StripRightBounds(s[..|s| - 1]);
      assert s[..|s| - 1][..hi] == s[..hi];
      assert forall i :: hi <= i < |s| - 1 ==> s[i] == s[..|s| - 1][i];
    } else {
      hi := |s|;
    }
  }

  /** `strip()` keeps a middle slice of the token, and every non-blank character lies inside it. */
  lemma StripBounds(s: string) returns (lo: nat, hi: nat)
    ensures lo <= hi <= |s| && Strip(s) == s[lo..hi]
    ensures forall i :: 0 <= i < |s| && !IsSpace(s[i]) ==> lo <= i < hi
  {
    lo := StripLeftBounds(s);
    var h := StripRightBounds(s[lo..]);
    hi := lo + h;
    assert s[lo..][..h] == s[lo..hi];
    forall i | hi <= i < |s| ensures IsSpace(s[i]) {
      assert s[lo..][i - lo] == s[i];
    }
  }

  function Spaces(n: nat): (s: string)
    ensures |s| == n && forall i :: 0 <= i < n ==> s[i] == ' '
  {
    if n == 0 then [] else [' '] + Spaces(n - 1)
  }

  lemma {:induction false} StripLeftSpaces(a: nat, s: string)
    requires s != [] && !IsSpace(s[0])
    ensures StripLeft(Spaces(a) + s) == s
  {
    if a > 0 {
      StripLeftSpaces(a - 1, s);
      assert (Spaces(a) + s)[1..] == Spaces(a - 1) + s;
    } else {
      assert Spaces(a) + s == s;
    }
  }

  lemma {:induction false} StripRightSpaces(s: string, b: nat)
    requires s != [] && !IsSpace(s[|s| - 1])
    ensures StripRight(s + Spaces(b)) == s
  {
    if b > 0 {
      StripRightSpaces(s, b - 1);
      var t := s + Spaces(b);
      assert t[|t| - 1] == ' ';
      assert t[..|t| - 1] == s + Spaces(b - 1) by {
        assert Spaces(b) == Spaces(b - 1) + [' '] by { SpacesSnoc(b); }
      }
    } else {
      assert s + Spaces(b) == s;
    }
  }

  lemma SpacesSnoc(b: nat)
    requires b > 0
    ensures Spaces(b) == Spaces(b - 1) + [' ']
  {
  }

  /** Blanks on both sides of a token with non-blank ends are stripped. */
  lemma StripSpaces(a: nat, b: nat, s: string)
    requires s != [] && !IsSpace(s[0]) && !IsSpace(s[|s| - 1])
    ensures Strip(Spaces(a) + s + Spaces(b)) == s
  {
    var t := s + Spaces(b);
    assert Spaces(a) + s + Spaces(b) == Spaces(a) + t;
    assert t[0] == s[0];
    StripLeftSpaces(a, t);
    StripRightSpaces(s, b);
  }

  // ---------------------------------------------------------------------------
  // Comma-separated lists

  /**
   * `re.split('\s*,\s*', s)`, read as a split on ',' alone: int() strips the
   * blanks the pattern would have taken, so the parsed values are the same.
   */
  function SplitOnComma(s: string): (r: seq<string>)
    ensures |r| >= 1
  {
    if s == [] then [[]]
    else
      var rest := SplitOnComma(s[1..]);
      if s[0] == ',' then [[]] + rest else [[s[0]] + rest[0]] + rest[1..]
  }

  /** `list(map(int, tokens))`: None as soon as one token is not an integer. */
  function ParseIntList(tokens: seq<string>): (r: Option<seq<int>>)
    ensures r.Some? <==> forall i :: 0 <= i < |tokens| ==> ParseInt(tokens[i]).Some?
    ensures r.Some? ==> |r.value| == |tokens| && forall i :: 0 <= i < |tokens| ==> r.value[i] == ParseInt(tokens[i]).value
  {
    if tokens == [] then Some([])
    else
      match (ParseInt(tokens[0]), ParseIntList(tokens[1..]))
      case (Some(v), Some(vs)) => Some([v] + vs)
      case _ => None
  }

  function ParseList(s: string): Option<seq<int>> {
    ParseIntList(SplitOnComma(s))
  }

  /** The list written as in a configuration file: `1, 2, 3`. */
  function ShowList(xs: seq<int>): string
    requires xs != []
  {
    if |xs| == 1 then ShowInt(xs[0]) else ShowInt(xs[0]) + "," + " " + ShowList(xs[1..])
  }

  lemma {:induction false} SplitNoComma(a: string)
    requires ',' !in a
    ensures SplitOnComma(a) == [a]
  {
    if a != [] {
      SplitNoComma(a[1..]);
      assert a == [a[0]] + a[1..];
    }
  }

  lemma {:induction false} SplitAtComma(a: string, b: string)
    requires ',' !in a
    ensures SplitOnComma(a + "," + b) == [a] + SplitOnComma(b)
  {
    if a == [] {
      assert a + "," + b == [','] + b && ([','] + b)[1..] == b;
    } else {
      SplitAtComma(a[1..], b);
      assert (a + "," + b)[1..] == a[1..] + "," + b;
      assert a == [a[0]] + a[1..];
    }
  }

  lemma NoCommaInShowInt(n: int)
    ensures ',' !in ShowInt(n)
  {
  }

  lemma ParseIntListCons(t: string, ts: seq<string>, v: int, vs: seq<int>)
    requires ParseInt(t) == Some(v) && ParseIntList(ts) == Some(vs)
    ensures ParseIntList([t] + ts) == Some([v] + vs)
  {
    assert ([t] + ts)[0] == t && ([t] + ts)[1..] == ts;
  }

  lemma ShowListCons(xs: seq<int>, pad: nat)
    requires |xs| > 1
    ensures Spaces(pad) + ShowList(xs) == Spaces(pad) + ShowInt(xs[0]) + "," + (Spaces(1) + ShowList(xs[1..]))
  {
  }

  /** The tokens of a printed list are the printed numbers, each after the blanks that follow the previous comma. */
  lemma {:induction false} SplitShowList(xs: seq<int>, pad: nat)
    requires xs != []
    ensures ParseIntList(SplitOnComma(Spaces(pad) + ShowList(xs))) == Some(xs)
  {
    var head := Spaces(pad) + ShowInt(xs[0]);
    NoCommaInShowInt(xs[0]);
    assert ',' !in head;
    ParseShowInt(xs[0], pad, 0);
    assert head + Spaces(0) == head;
    if |xs| == 1 {
      SplitNoComma(head);
      ParseIntListCons(head, [], xs[0], []);
      assert [head] + [] == [head] && [xs[0]] + [] == xs;
    } else {
      var tail := Spaces(1) + ShowList(xs[1..]);
      SplitShowList(xs[1..], 1);
      ShowListCons(xs, pad);
      SplitAtComma(head, tail);
      ParseIntListCons(head, SplitOnComma(tail), xs[0], xs[1..]);
      assert [xs[0]] + xs[1..] == xs;
    }
  }

  /** Reading back a list written as `1, 2, 3` gives the same integers. */
  lemma ParseShowList(xs: seq<int>)
    requires xs != []
    ensures ParseList(ShowList(xs)) == Some(xs)
  {
    SplitShowList(xs, 0);
    assert Spaces(0) + ShowList(xs) == ShowList(xs);
  }

  // ---------------------------------------------------------------------------
  // Disks

  /** One configured disk: centre column `x`, centre row `y`, radius, and the delete-inside flag. */
  datatype Disk = Disk(x: int, y: int, r: int, inside: int)

  /** `zip(x, y, r, inside)`: as long as the shortest list. */
  function Zip4(xs: seq<int>, ys: seq<int>, rs: seq<int>, ins: seq<int>): (d: seq<Disk>)
    ensures |d| == Min(Min(|xs|, |ys|), Min(|rs|, |ins|))
    ensures forall k :: 0 <= k < |d| ==> d[k] == Disk(xs[k], ys[k], rs[k], ins[k])
  {
    if xs == [] || ys == [] || rs == [] || ins == [] then []
    else [Disk(xs[0], ys[0], rs[0], ins[0])] + Zip4(xs[1..], ys[1..], rs[1..], ins[1..])
  }

  /** The four lists parsed and zipped; None when any of them holds a non-integer token. */
  function ParseDisks(cropX: string, cropY: string, cropRadius: string, cropDeleteInside: string): Option<seq<Disk>> {
    match (ParseList(cropX), ParseList(cropY), ParseList(cropRadius), ParseList(cropDeleteInside))
    case (Some(xs), Some(ys), Some(rs), Some(ins)) => Some(Zip4(xs, ys, rs, ins))
    case _ => None
  }

  /**
   * A disk crops pixel (row, col): with delete-inside 0 every pixel strictly
   * outside the circle, otherwise every pixel strictly inside it.
   */
  predicate Crops(d: Disk, row: int, col: int) {
    var dist2 := (row - d.y) * (row - d.y) + (col - d.x) * (col - d.x);
    if d.inside == 0 then dist2 > d.r * d.r else dist2 < d.r * d.r
  }

  /** Some disk of the list crops (row, col). */
  predicate AnyCrops(disks: seq<Disk>, row: int, col: int) {
    exists k :: 0 <= k < |disks| && Crops(disks[k], row, col)
  }

  function Full(nrows: nat, ncols: nat, v: bool): (g: Grid<bool>)
    ensures HasShape(g, nrows, ncols) && forall i, j :: 0 <= i < nrows && 0 <= j < ncols ==> g[i][j] == v
  {
    seq(nrows, i => seq(ncols, j => v))
  }

  /** The pixels one disk crops, as a boolean image. */
  function DiskGrid(nrows: nat, ncols: nat, d: Disk): (g: Grid<bool>)
    ensures HasShape(g, nrows, ncols)
    ensures forall i, j :: 0 <= i < nrows && 0 <= j < ncols ==> g[i][j] == Crops(d, i, j)
  {
    seq(nrows, i => seq(ncols, j => Crops(d, i, j)))
  }

  /** numpy's elementwise `a | b`. */
  function OrGrid(a: Grid<bool>, b: Grid<bool>, nrows: nat, ncols: nat): (g: Grid<bool>)
    requires HasShape(a, nrows, ncols) && HasShape(b, nrows, ncols)
    ensures HasShape(g, nrows, ncols)
    ensures forall i, j :: 0 <= i < nrows && 0 <= j < ncols ==> (g[i][j] <==> a[i][j] || b[i][j])
  {
    seq(nrows, i requires 0 <= i < nrows => seq(ncols, j requires 0 <= j < ncols => a[i][j] || b[i][j]))
  }

  /**
   * get_crop_mask: a pixel is cropped exactly when some configured disk crops
   * it; a list with a non-integer token leaves no pixel cropped.
   */
  method GetCropMask(nrows: nat, ncols: nat, cropX: string, cropY: string, cropRadius: string, cropDeleteInside: string)
    returns (mask: Grid<bool>)
    ensures HasShape(mask, nrows, ncols)
    ensures ParseDisks(cropX, cropY, cropRadius, cropDeleteInside).None? ==>
              forall row, col :: 0 <= row < nrows && 0 <= col < ncols ==> !mask[row][col]
    ensures ParseDisks(cropX, cropY, cropRadius, cropDeleteInside).Some? ==>
              forall row, col :: 0 <= row < nrows && 0 <= col < ncols ==>
                (mask[row][col] <==> AnyCrops(ParseDisks(cropX, cropY, cropRadius, cropDeleteInside).value, row, col))
  {
    mask := Full(nrows, ncols, false);
    var parsed := ParseDisks(cropX, cropY, cropRadius, cropDeleteInside);
    if parsed.Some? {
      var disks := parsed.value;
      for k := 0 to |disks|
        invariant HasShape(mask, nrows, ncols)
        invariant forall row, col :: 0 <= row < nrows && 0 <= col < ncols ==>
                    (mask[row][col] <==> AnyCrops(disks[..k], row, col))
      {
        MaskStep(mask, disks, k, nrows, ncols);
        mask := OrGrid(mask, DiskGrid(nrows, ncols, disks[k]), nrows, ncols);
      }
      assert disks[..|disks|] == disks;
    }
  }

  /** OR-ing in disk `k` turns a mask of the first `k` disks into one of the first `k + 1`. */
  lemma MaskStep(mask: Grid<bool>, disks: seq<Disk>, k: int, nrows: nat, ncols: nat)
    requires 0 <= k < |disks| && HasShape(mask, nrows, ncols)
    requires forall row, col :: 0 <= row < nrows && 0 <= col < ncols ==> (mask[row][col] <==> AnyCrops(disks[..k], row, col))
    ensures var next := OrGrid(mask, DiskGrid(nrows, ncols, disks[k]), nrows, ncols);
            forall row, col :: 0 <= row < nrows && 0 <= col < ncols ==> (next[row][col] <==> AnyCrops(disks[..k + 1], row, col))
  {
    AnyCropsStep(disks, k);
  }

  lemma AnyCropsStep(disks: seq<Disk>, k: int)
    requires 0 <= k < |disks|
    ensures forall row, col :: AnyCrops(disks[..k + 1], row, col) <==> AnyCrops(disks[..k], row, col) || Crops(disks[k], row, col)
  {
    forall row, col ensures AnyCrops(disks[..k + 1], row, col) <==> AnyCrops(disks[..k], row, col) || Crops(disks[k], row, col) {
      assert disks[..k + 1][k] == disks[k];
      assert forall i :: 0 <= i < k ==> disks[..k + 1][i] == disks[..k][i];
    }
  }

  /** The disk lists are as long as the shortest of the four parsed lists. */
  lemma ParseDisksLength(cropX: string, cropY: string, cropRadius: string, cropDeleteInside: string)
    requires ParseDisks(cropX, cropY, cropRadius, cropDeleteInside).Some?
    ensures var n := |ParseDisks(cropX, cropY, cropRadius, cropDeleteInside).value|;
            && n <= |SplitOnComma(cropX)| && n <= |SplitOnComma(cropY)|
            && n <= |SplitOnComma(cropRadius)| && n <= |SplitOnComma(cropDeleteInside)|
            && (n == |SplitOnComma(cropX)| || n == |SplitOnComma(cropY)| ||
                n == |SplitOnComma(cropRadius)| || n == |SplitOnComma(cropDeleteInside)|)
  {
  }

  // ---------------------------------------------------------------------------
  // The moon

  /** Pixel (row, col) lies strictly inside the moon disk of radius `r` around (moonX, moonY). */
  predicate NearMoon(moonX: real, moonY: real, r: real, row: int, col: int) {
    (row as real - moonY) * (row as real - moonY) + (col as real - moonX) * (col as real - moonX) < r * r
  }

  /** update_crop_moon: the moon disk OR-ed into the mask. */
  function UpdateCropMoon(mask: Grid<bool>, moonX: real, moonY: real, r: real): (m: Grid<bool>)
    requires Rectangular(mask)
    ensures HasShape(m, Rows(mask), Cols(mask))
    ensures forall i, j :: 0 <= i < Rows(mask) && 0 <= j < Cols(mask) ==>
              (m[i][j] <==> mask[i][j] || NearMoon(moonX, moonY, r, i, j))
  {
    seq(Rows(mask), i requires 0 <= i < Rows(mask) =>
      seq(Cols(mask), j requires 0 <= j < Cols(mask) => mask[i][j] || NearMoon(moonX, moonY, r, i, j)))
  }

  /** Adding the moon never uncrops a pixel, and adding it twice changes nothing. */
  lemma MoonOnlyAdds(mask: Grid<bool>, moonX: real, moonY: real, r: real)
    requires Rectangular(mask)
    ensures var m := UpdateCropMoon(mask, moonX, moonY, r);
            && (forall i, j :: 0 <= i < Rows(mask) && 0 <= j < Cols(mask) && mask[i][j] ==> m[i][j])
            && UpdateCropMoon(m, moonX, moonY, r) == m
  {
    var m := UpdateCropMoon(mask, moonX, moonY, r);
    var m2 := UpdateCropMoon(m, moonX, moonY, r);
    assert Rows(m) == Rows(mask) && Cols(m) == Cols(mask);
    forall i | 0 <= i < |m| ensures m2[i] == m[i] {
    }
  }

  /** A larger moon radius crops at least the same pixels. */
  lemma MoonMonotone(mask: Grid<bool>, moonX: real, moonY: real, r1: real, r2: real)
    requires Rectangular(mask) && 0.0 <= r1 <= r2
    ensures var m1, m2 := UpdateCropMoon(mask, moonX, moonY, r1), UpdateCropMoon(mask, moonX, moonY, r2);
            forall i, j :: 0 <= i < Rows(mask) && 0 <= j < Cols(mask) && m1[i][j] ==> m2[i][j]
  {
    assert r1 * r1 <= r2 * r2;
  }
}
