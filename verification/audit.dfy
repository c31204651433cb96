/**
  `audit_crops.py`: every question image of a year is measured (share of
  near-white pixels, share of the image the content box covers, size), the
  ones that look empty or too small are flagged, and the rows are listed with
  the suspicious ones first.
 */
module Audit {
  import opened Wrappers
  import opened Seqs
  import opened Text
  import opened Sorting
  import opened Questions
  import Percent

  /** A gray level at or above this counts as white (`white_ratio`'s default threshold). */
  const PixelWhite: int := 245

  /** A gray level below this counts as content (`content_bbox_ratio`'s default threshold). */
  const DarkThreshold: int := 245

  /** The default `--min-area`: an image of at most this many pixels is flagged as small. */
  const DefaultMinArea: int := 220000

  /**
    A fraction `num / den`. The script's float ratios and its float
    `--white-threshold` are modelled as exact fractions instead of binary
    floating point: 72/100 stands for the float literal 0.72, which is only
    the double nearest to it.
   */
  datatype Ratio = Ratio(num: int, den: int)

  /** The default `--white-threshold`, 0.72. */
  const DefaultWhiteThreshold: Ratio := Ratio(72, 100)

  /** `a >= b` for fractions with positive denominators. */
  predicate AtLeast(a: Ratio, b: Ratio)
    requires a.den > 0 && b.den > 0
  {
    a.num * b.den >= b.num * a.den
  }

  /**
    An image converted to 8-bit gray (`img.convert("L")`): its width and
    its rows of gray levels, top to bottom. The height is the number of rows.
   */
  datatype Gray = Gray(width: nat, rows: seq<seq<int>>)

  /** Every row is as wide as the image. */
  predicate Valid(img: Gray) {
    forall y :: 0 <= y < |img.rows| ==> |img.rows[y]| == img.width
  }

  /** The pixels row after row, the order in which `getdata()` yields them. */
  function Pixels(rows: seq<seq<int>>): seq<int> {
    if |rows| == 0 then [] else rows[0] + Pixels(rows[1..])
  }

  /** An image whose rows are all `width` wide has `width` times its height pixels. */
  lemma {:induction false} PixelCount(img: Gray)
    requires Valid(img)
    ensures |Pixels(img.rows)| == img.width * |img.rows|
    decreases |img.rows|
  {
    if |img.rows| > 0 {
      var rest := Gray(img.width, img.rows[1..]);
      assert Valid(rest) by {
        forall y | 0 <= y < |rest.rows| ensures |rest.rows[y]| == img.width {
          assert rest.rows[y] == img.rows[y + 1];
        }
      }
      PixelCount(rest);
    }
  }

  predicate IsWhite(p: int) {
    p >= PixelWhite
  }

  /**
    `white_ratio`: the share of pixels that are white, 1 for an image
    without pixels. It lies in [0, 1], is 1 exactly when no pixel is darker
    than white, and is 0 exactly when the image has pixels and none is white.
   */
  function WhiteRatio(img: Gray): (r: Ratio)
    ensures r.den >= 1 && 0 <= r.num <= r.den
    ensures |Pixels(img.rows)| == 0 ==> r == Ratio(1, 1)
    ensures |Pixels(img.rows)| > 0 ==> r.den == |Pixels(img.rows)|
    ensures r.num == r.den <==> forall i :: 0 <= i < |Pixels(img.rows)| ==> IsWhite(Pixels(img.rows)[i])
    ensures r.num == 0 <==> |Pixels(img.rows)| > 0 && forall i :: 0 <= i < |Pixels(img.rows)| ==> !IsWhite(Pixels(img.rows)[i])
  {
    var data := Pixels(img.rows);
    if |data| == 0 then Ratio(1, 1) else Ratio(Count(data, IsWhite), |data|)
  }

  predicate Dark(p: int) {
    p < DarkThreshold
  }

  /** The pixel in column `x` of row `y` exists and is content. */
  predicate DarkAt(rows: seq<seq<int>>, x: int, y: int) {
    0 <= y < |rows| && 0 <= x < |rows[y]| && Dark(rows[y][x])
  }

  /** A rectangle given by its inclusive left and top edges and its exclusive right and bottom edges (PIL's `getbbox()` order). */
  datatype Box = Box(left: nat, top: nat, right: nat, bottom: nat)

  predicate Within(b: Box, x: int, y: int) {
    b.left <= x < b.right && b.top <= y < b.bottom
  }

  /** The first content pixel of `row` at or after `i`, or `|row|`. */
  function FirstDark(row: seq<int>, i: nat): (j: nat)
    requires i <= |row|
    ensures i <= j <= |row|
    ensures forall x :: i <= x < j ==> !Dark(row[x])
    ensures j < |row| ==> Dark(row[j])
    decreases |row| - i
  {
    if i == |row| || Dark(row[i]) then i else FirstDark(row, i + 1)
  }

  /** One past the last content pixel of `row` at or after `lo`, or `lo` when there is none. */
  function DarkEnd(row: seq<int>, lo: nat): (j: nat)
    requires lo <= |row|
    ensures lo <= j <= |row|
    ensures forall x :: j <= x < |row| ==> !Dark(row[x])
    ensures j > lo ==> Dark(row[j - 1])
    decreases |row| - lo
  {
    if |row| == lo then lo
    else if Dark(row[|row| - 1]) then |row|
    else DarkEnd(row[..|row| - 1], lo)
  }

  /** Row `y` holds a content pixel. */
  predicate RowDark(rows: seq<seq<int>>, y: int) {
    0 <= y < |rows| && exists x :: 0 <= x < |rows[y]| && Dark(rows[y][x])
  }

  /** Column `x` holds a content pixel. */
  predicate ColumnDark(rows: seq<seq<int>>, x: int) {
    exists y :: 0 <= y < |rows| && 0 <= x < |rows[y]| && Dark(rows[y][x])
  }

  /** No row from `y` on holds a content pixel. */
  predicate ClearFrom(rows: seq<seq<int>>, y: nat) {
    forall v, x :: y <= v < |rows| && 0 <= x < |rows[v]| ==> !Dark(rows[v][x])
  }

  /** Every content pixel of the rows from `y` on lies in `b`. */
  predicate EnclosesFrom(b: Box, rows: seq<seq<int>>, y: nat) {
    forall v, x :: y <= v < |rows| && 0 <= x < |rows[v]| && Dark(rows[v][x]) ==> Within(b, x, v)
  }

  /** Each of the four edges of `b` touches a content pixel. */
  predicate Tight(b: Box, rows: seq<seq<int>>) {
    && b.top < b.bottom && b.left < b.right
    && RowDark(rows, b.top) && RowDark(rows, b.bottom - 1)
    && ColumnDark(rows, b.left) && ColumnDark(rows, b.right - 1)
  }

  /** The columns of row `y` that hold content, as a box one row high, or nothing for a row without content. */
  function RowBox(rows: seq<seq<int>>, y: nat): (r: Option<Box>)
    requires y < |rows|
    ensures r.None? <==> !RowDark(rows, y)
    ensures r.Some? ==> r.value.top == y && r.value.bottom == y + 1 && r.value.left < r.value.right <= |rows[y]|
    ensures r.Some? ==> forall x :: 0 <= x < |rows[y]| && Dark(rows[y][x]) ==> r.value.left <= x < r.value.right
    ensures r.Some? ==> Dark(rows[y][r.value.left]) && Dark(rows[y][r.value.right - 1])
  {
    var row := rows[y];
    var l := FirstDark(row, 0);
    if l == |row| then None
    else
      var r := DarkEnd(row, l);
      Some(Box(l, y, r, y + 1))
  }

  function Min(a: nat, b: nat): nat {
    if a <= b then a else b
  }

  function Max(a: nat, b: nat): nat {
    if a >= b then a else b
  }

  /** The smallest box holding both boxes. */
  function Union(a: Option<Box>, b: Option<Box>): (r: Option<Box>)
    ensures r.None? <==> a.None? && b.None?
  {
    match (a, b)
    case (None, _) => b
    case (_, None) => a
    case (Some(p), Some(q)) => Some(Box(Min(p.left, q.left), Min(p.top, q.top), Max(p.right, q.right), Max(p.bottom, q.bottom)))
  }

  /** The content box of the rows from `y` on, row by row. */
  function BoxFrom(rows: seq<seq<int>>, y: nat): (r: Option<Box>)
    requires y <= |rows|
    ensures r.Some? ==> y <= r.value.top
    decreases |rows| - y
  {
    if y == |rows| then None else Union(RowBox(rows, y), BoxFrom(rows, y + 1))
  }

  /** The box of the rows from `y` on is absent exactly when they hold no content, and otherwise encloses it tightly. */
  lemma {:induction false} BoxFromSpec(rows: seq<seq<int>>, y: nat)
    requires y <= |rows|
    ensures BoxFrom(rows, y).None? <==> ClearFrom(rows, y)
    ensures BoxFrom(rows, y).Some? ==> EnclosesFrom(BoxFrom(rows, y).value, rows, y) && Tight(BoxFrom(rows, y).value, rows)
    decreases |rows| - y
  {
    if y < |rows| {
      BoxFromSpec(rows, y + 1);
      var here, rest := RowBox(rows, y), BoxFrom(rows, y + 1);
      if here.None? {
        BlankRowSkipped(rows, y, rest);
      } else if rest.None? {
        OnlyRowKept(rows, y, here.value);
      } else {
        UnionTight(here.value, rest.value, rows);
        UnionEncloses(rows, y, here.value, rest.value);
      }
    }
  }

  /** A row without content adds nothing to the box of the rows below it. */
  lemma BlankRowSkipped(rows: seq<seq<int>>, y: nat, rest: Option<Box>)
    requires y < |rows| && !RowDark(rows, y)
    requires rest.None? <==> ClearFrom(rows, y + 1)
    requires rest.Some? ==> EnclosesFrom(rest.value, rows, y + 1)
    ensures rest.None? <==> ClearFrom(rows, y)
    ensures rest.Some? ==> EnclosesFrom(rest.value, rows, y)
  {
  }

  /** The box of a row with content, when the rows below hold none, is the row's own box. */
  lemma OnlyRowKept(rows: seq<seq<int>>, y: nat, h: Box)
    requires y < |rows| && RowBox(rows, y) == Some(h)
    requires ClearFrom(rows, y + 1)
    ensures !ClearFrom(rows, y)
    ensures EnclosesFrom(h, rows, y) && Tight(h, rows)
  {
    assert RowDark(rows, h.top) && RowDark(rows, h.bottom - 1);
    assert ColumnDark(rows, h.left) && ColumnDark(rows, h.right - 1);
  }

  /** The union of the row's box and the box below encloses the content of both. */
  lemma UnionEncloses(rows: seq<seq<int>>, y: nat, h: Box, t: Box)
    requires y < |rows| && RowBox(rows, y) == Some(h)
    requires EnclosesFrom(t, rows, y + 1)
    ensures !ClearFrom(rows, y)
    ensures EnclosesFrom(Union(Some(h), Some(t)).value, rows, y)
  {
    var u := Union(Some(h), Some(t)).value;
    assert Dark(rows[y][h.left]);
    forall v, x | y <= v < |rows| && 0 <= x < |rows[v]| && Dark(rows[v][x]) ensures Within(u, x, v) {
      if v > y {
        assert Within(t, x, v);
      }
    }
  }

  /** The union of two tight boxes is tight. */
  lemma UnionTight(h: Box, t: Box, rows: seq<seq<int>>)
    requires Tight(h, rows) && Tight(t, rows)
    ensures Tight(Union(Some(h), Some(t)).value, rows)
  {
  }

  /** Every pixel of `rows` is not content. */
  predicate NoContent(rows: seq<seq<int>>) {
    forall y, x :: 0 <= y < |rows| && 0 <= x < |rows[y]| ==> !Dark(rows[y][x])
  }

  /** Every content pixel lies in `b`. */
  predicate Encloses(b: Box, rows: seq<seq<int>>) {
    forall y, x :: 0 <= y < |rows| && 0 <= x < |rows[y]| && Dark(rows[y][x]) ==> Within(b, x, y)
  }

  /**
    `getbbox()` of the image thresholded at 245: the smallest box holding
    every content pixel, or nothing when there is none. Each of its four
    edges touches a content pixel.
   */
  function ContentBox(img: Gray): (r: Option<Box>)
    ensures r.None? <==> NoContent(img.rows)
    ensures r.Some? ==> Encloses(r.value, img.rows) && Tight(r.value, img.rows)
  {
    BoxFromSpec(img.rows, 0);
    BoxFrom(img.rows, 0)
  }

  /**
    `content_bbox_ratio`: the share of the image the content box covers,
    0 when there is no content; both denominators are at least 1, and the
    numerator is positive exactly when there is content.
   */
  function ContentRatio(img: Gray): (r: Ratio)
    ensures r.den >= 1 && r.num >= 0
    ensures r.num == 0 <==> NoContent(img.rows)
    ensures ContentBox(img).Some? ==> var b := ContentBox(img).value;
      r.num == Max(1, Area(b.right - b.left, b.bottom - b.top)) && r.den == Max(1, Area(img.width, |img.rows|))
  {
    match ContentBox(img)
    case None => Ratio(0, 1)
    case Some(b) => Ratio(Max(1, Area(b.right - b.left, b.bottom - b.top)), Max(1, Area(img.width, |img.rows|)))
  }

  function Area(w: nat, h: nat): nat {
    w * h
  }

  /** A box no wider and no taller than another has no larger area. */
  lemma AreaMono(w: nat, w': nat, h: nat, h': nat)
    requires w <= w' && h <= h'
    ensures Area(w, h) <= Area(w', h')
  {
    Percent.MulMono(h, w, w');
    Percent.MulMono(w', h, h');
  }

  /** For an image whose rows are all as wide as the image, the content share is at most 1. */
  lemma ContentRatioAtMostOne(img: Gray)
    requires Valid(img)
    ensures ContentRatio(img).num <= ContentRatio(img).den
  {
    if ContentBox(img).Some? {
      var b := ContentBox(img).value;
      assert ColumnDark(img.rows, b.right - 1);
      assert RowDark(img.rows, b.bottom - 1);
      AreaMono(b.right - b.left, img.width, b.bottom - b.top, |img.rows|);
    }
  }

  /**
    A row of the report: a question whose image file does not exist, or the
    measures of its image and its two flags.
   */
  datatype Row =
    | Missing(number: int)
    | Measured(number: int, width: nat, height: nat, area: nat, white: Ratio, content: Ratio, flagWhite: bool, flagSmall: bool)

  /** The command-line thresholds: `--white-threshold` (as a fraction) and `--min-area`. */
  datatype Settings = Settings(whiteThreshold: Ratio, minArea: int)

  const Defaults: Settings := Settings(DefaultWhiteThreshold, DefaultMinArea)

  predicate IsSlash(c: char) {
    c == '/'
  }

  /** `str.lstrip("/")`: the leading slashes removed, and nothing else. */
  function LstripSlash(s: string): (r: string)
    ensures |r| <= |s| && r == s[|s| - |r|..]
    ensures forall k :: 0 <= k < |s| - |r| ==> s[k] == '/'
    ensures |r| > 0 ==> r[0] != '/'
  {
    s[SkipSpace(s, 0, IsSlash)..]
  }

  /** The image path of a question with the leading slashes removed, empty when it has none. */
  function AssetKey(q: Question): string {
    LstripSlash(if q.asset.Some? then q.asset.value else "")
  }

  predicate NamesImage(q: Question) {
    AssetKey(q) != ""
  }

  /**
    The row of a question whose image exists: its size, its two shares,
    `flagWhite` exactly when the white share reaches the threshold and
    `flagSmall` exactly when the area is at most `minArea`.
   */
  function Measure(img: Gray, number: int, s: Settings): (r: Row)
    requires s.whiteThreshold.den > 0
    ensures r.Measured? && r.number == number
    ensures r.width == img.width && r.height == |img.rows| && r.area == img.width * |img.rows|
    ensures r.white == WhiteRatio(img) && r.content == ContentRatio(img)
    ensures r.flagWhite <==> AtLeast(WhiteRatio(img), s.whiteThreshold)
    ensures r.flagSmall <==> img.width * |img.rows| <= s.minArea
  {
    var w, h := img.width, |img.rows|;
    var white := WhiteRatio(img);
    Measured(number, w, h, w * h, white, ContentRatio(img), AtLeast(white, s.whiteThreshold), w * h <= s.minArea)
  }

  /** An image without pixels, or with only white ones, is flagged white under any threshold of at most 1. */
  lemma AllWhiteIsFlagged(img: Gray, number: int, s: Settings)
    requires s.whiteThreshold.den > 0 && s.whiteThreshold.num <= s.whiteThreshold.den
    requires forall i :: 0 <= i < |Pixels(img.rows)| ==> IsWhite(Pixels(img.rows)[i])
    ensures Measure(img, number, s).flagWhite
  {
    var w, t := WhiteRatio(img), s.whiteThreshold;
    assert w.num == w.den;
    Percent.MulMono(w.den, t.num, t.den);
    assert w.num * t.den == t.den * w.den;
  }

  /** An image with no white pixel is never flagged white under a positive threshold. */
  lemma NoWhiteIsNotFlagged(img: Gray, number: int, s: Settings)
    requires s.whiteThreshold.den > 0 && s.whiteThreshold.num > 0
    requires |Pixels(img.rows)| > 0 && forall i :: 0 <= i < |Pixels(img.rows)| ==> !IsWhite(Pixels(img.rows)[i])
    ensures !Measure(img, number, s).flagWhite
  {
  }

  /**
    The row of one question: none when it has no image path; `Missing`
    when the file does not exist; otherwise the measures of the image.
   */
  function RowFor(files: string -> Option<Gray>, s: Settings, q: Question): (r: Option<Row>)
    requires s.whiteThreshold.den > 0
    ensures r.None? <==> !NamesImage(q)
    ensures r.Some? ==> r.value.number == q.number
    ensures r.Some? ==> (r.value.Missing? <==> files(AssetKey(q)).None?)
    ensures r.Some? && r.value.Measured? ==> r.value == Measure(files(AssetKey(q)).value, q.number, s)
  {
    var asset := AssetKey(q);
    if asset == "" then None
    else
      match files(asset)
      case None => Some(Missing(q.number))
      case Some(img) => Some(Measure(img, q.number, s))
  }

  function Rower(files: string -> Option<Gray>, s: Settings): Question -> Option<Row>
    requires s.whiteThreshold.den > 0
  {
    (q: Question) => RowFor(files, s, q)
  }

  /** A row the report counts as suspicious: missing file, white flag or small flag. */
  predicate Flagged(r: Row) {
    r.Missing? || r.flagWhite || r.flagSmall
  }

  /**
    The sort key of the report, `(flag_white is False, flag_small is False,
    missing is False, number)`, packed into a pair: the three booleans become
    the group `4a + 2b + c`. A missing row has no `flag_white` or
    `flag_small` entry, so its first two booleans are false as well.
   */
  function AuditKey(r: Row): Key {
    if r.Missing? then Key(0, r.number)
    else Key(4 * (if r.flagWhite then 0 else 1) + 2 * (if r.flagSmall then 0 else 1) + 1, r.number)
  }

  /** The four components of the Python sort key. */
  datatype PyKey = PyKey(notWhite: bool, notSmall: bool, notMissing: bool, number: int)

  function PyKeyOf(r: Row): PyKey {
    PyKey(r.Measured? && !r.flagWhite, r.Measured? && !r.flagSmall, r.Measured?, r.number)
  }

  predicate BoolLt(a: bool, b: bool) {
    !a && b
  }

  /** Python's tuple comparison `<=` on the four components, `False < True`. */
  predicate PyKeyLe(a: PyKey, b: PyKey) {
    || BoolLt(a.notWhite, b.notWhite)
    || (a.notWhite == b.notWhite && BoolLt(a.notSmall, b.notSmall))
    || (a.notWhite == b.notWhite && a.notSmall == b.notSmall && BoolLt(a.notMissing, b.notMissing))
    || (a.notWhite == b.notWhite && a.notSmall == b.notSmall && a.notMissing == b.notMissing && a.number <= b.number)
  }

  /** The packed key orders rows exactly as the Python tuple does. */
  lemma AuditKeyIsTupleOrder(a: Row, b: Row)
    ensures KeyLe(AuditKey(a), AuditKey(b)) <==> PyKeyLe(PyKeyOf(a), PyKeyOf(b))
  {
  }

  /** The JSON report: how many rows, how many flagged, and the rows in report order. */
  datatype Report = Report(total: nat, flagged: nat, rows: seq<Row>)

  /**
    `audit_year`: one row per question that has an image path, counted,
    and ordered by the report key; `flagged` counts the suspicious rows.
   */
  function Audit(files: string -> Option<Gray>, s: Settings, qs: seq<Question>): (r: Report)
    requires s.whiteThreshold.den > 0
    ensures r.total == Count(qs, NamesImage)
    ensures |r.rows| == r.total
    ensures multiset(r.rows) == multiset(Collect(qs, Rower(files, s)))
    ensures SortedBy(r.rows, AuditKey)
    ensures forall k :: WithKey(r.rows, AuditKey, k) == WithKey(Collect(qs, Rower(files, s)), AuditKey, k)
    ensures r.flagged == Count(r.rows, Flagged) && r.flagged <= r.total
  {
    var rows := Collect(qs, Rower(files, s));
    CollectCount(qs, Rower(files, s));
    CountSame(qs, Defined(Rower(files, s)), NamesImage);
    var sorted := SortBy(rows, AuditKey);
    CountPermutation(rows, sorted, Flagged);
    Report(|rows|, Count(rows, Flagged), sorted)
  }

  /** A flagged row never follows an unflagged one. */
  lemma FlaggedFirst(r: Report, i: nat, j: nat)
    requires SortedBy(r.rows, AuditKey)
    requires i < j < |r.rows| && Flagged(r.rows[j])
    ensures Flagged(r.rows[i])
  {
    assert KeyLe(AuditKey(r.rows[i]), AuditKey(r.rows[j]));
  }

  /** Rows whose file is missing come before every measured row. */
  lemma MissingFirst(r: Report, i: nat, j: nat)
    requires SortedBy(r.rows, AuditKey)
    requires i < j < |r.rows| && r.rows[j].Missing?
    ensures r.rows[i].Missing?
  {
    assert KeyLe(AuditKey(r.rows[i]), AuditKey(r.rows[j]));
  }

  /** A white-flagged row is preceded only by missing or white-flagged rows. */
  lemma WhiteFlaggedFirst(r: Report, i: nat, j: nat)
    requires SortedBy(r.rows, AuditKey)
    requires i < j < |r.rows| && r.rows[j].Measured? && r.rows[j].flagWhite
    ensures r.rows[i].Missing? || r.rows[i].flagWhite
  {
    assert KeyLe(AuditKey(r.rows[i]), AuditKey(r.rows[j]));
  }

  /** Rows with the same flags are in ascending order of question number. */
  lemma SameFlagsByNumber(r: Report, i: nat, j: nat)
    requires SortedBy(r.rows, AuditKey)
    requires i < j < |r.rows| && PyKeyOf(r.rows[i]).(number := 0) == PyKeyOf(r.rows[j]).(number := 0)
    ensures r.rows[i].number <= r.rows[j].number
  {
    assert KeyLe(AuditKey(r.rows[i]), AuditKey(r.rows[j]));
  }
}
