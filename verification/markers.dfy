/**
  Locating a question on an exam page (`detect_question_markers` and
  `build_bbox_for_question` in `tools/questions/complete_missing.py`, and the
  cover-skipping variants in `tools/questions/fix_2015.py`), and clamping a
  crop rectangle to a page image (`crop_question_image`, and `crop_assets`
  in `tools/questions/ingest.py`).

  Page geometry is in PDF points, as reals; the text layer's words, the page
  size and the page text are given.
 */
module Markers {
  import opened Wrappers
  import opened Seqs
  import opened Text
  import opened Questions

  /** One word of the text layer with its box. */
  datatype Word = Word(x0: real, y0: real, x1: real, y1: real, text: string)

  /** One PDF page: its size, its words in reading order and its plain text. */
  datatype Page = Page(width: real, height: real, words: seq<Word>, text: string)

  /** A question-number marker found on a page. */
  datatype Marker = Marker(number: int, x0: real, y0: real, x1: real, y1: real)

  /** A rectangle in points, as `[x0, y0, x1, y1]`. */
  datatype Rect = Rect(x0: real, y0: real, x1: real, y1: real)

  /** Where a question was found: its 1-based page, its rectangle in points and its box in pixels. */
  datatype Found = Found(page: nat, rect: Rect, bbox: BBox)

  // ---------------------------------------------------------------------------
  // The marker grammar `^\{?(\d{1,2})\}?(?:[\.)])?$`

  /** The digits of a marker: one or two decimal digits. */
  predicate MarkerDigits(d: string) {
    1 <= |d| <= 2 && forall i :: 0 <= i < |d| ==> IsDigit(d[i])
  }

  /** A marker spelled from its parts: an optional `{`, the digits, an optional `}`, an optional `.` or `)`. */
  function Spell(open: bool, digits: string, close: bool, punct: string): string {
    (if open then "{" else "") + digits + (if close then "}" else "") + punct
  }

  predicate MarkerPunct(p: string) {
    p == "" || p == "." || p == ")"
  }

  /** The number of leading digits of `t` from `i`, at most two. */
  function DigitRun(t: string, i: nat): (j: nat)
    requires i <= |t|
    ensures i <= j <= i + 2 && j <= |t|
    ensures forall k :: i <= k < j ==> IsDigit(t[k])
    ensures j < i + 2 ==> j == |t| || !IsDigit(t[j])
  {
    if i < |t| && IsDigit(t[i]) then (if i + 1 < |t| && IsDigit(t[i + 1]) then i + 2 else i + 1) else i
  }

  /**
    The regular expression, applied to a whole token: the number it
    captures, or None when the token does not match.
   */
  function ParseMarker(t: string): (r: Option<nat>)
    ensures r.Some? ==> exists open: bool, d: string, close: bool, p: string ::
      MarkerDigits(d) && MarkerPunct(p) && t == Spell(open, d, close, p) && r.value == DecimalValue(d)
  {
    var i := if |t| > 0 && t[0] == '{' then 1 else 0;
    var j := DigitRun(t, i);
    var k := if j < |t| && t[j] == '}' then j + 1 else j;
    var l := if k < |t| && (t[k] == '.' || t[k] == ')') then k + 1 else k;
    if j == i || l != |t| then None
    else
      assert t == Spell(i == 1, t[i..j], k == j + 1, t[k..l]);
      Some(DecimalValue(t[i..j]))
  }

  /** Every spelling the grammar allows is parsed back to its number. */
  lemma ParseSpelled(open: bool, d: string, close: bool, p: string)
    requires MarkerDigits(d) && MarkerPunct(p)
    ensures ParseMarker(Spell(open, d, close, p)) == Some(DecimalValue(d))
  {
    var t := Spell(open, d, close, p);
    var i := if open then 1 else 0;
    assert t[i..i + |d|] == d;
    assert DigitRun(t, i) == i + |d|;
  }

  /**
    A word's text is a question marker: once stripped it is non-empty, at
    most four characters long, matches the grammar, and names a number in 1..90.
   */
  function Recognize(raw: string): (r: Option<int>)
    ensures r.Some? <==> 0 < |Strip(raw)| <= 4 && ParseMarker(Strip(raw)).Some? && 1 <= ParseMarker(Strip(raw)).value <= 90
    ensures r.Some? ==> r.value == ParseMarker(Strip(raw)).value
  {
    var t := Strip(raw);
    if |t| == 0 || |t| > 4 then None
    else match ParseMarker(t)
      case Some(n) => if 1 <= n <= 90 then Some(n) else None
      case None => None
  }

  // ---------------------------------------------------------------------------
  // Markers on a page

  const CoverWords: seq<string> := ["INSTRU\U{C7}\U{D5}ES", "CADERNO DE PROVA"]

  /** Some word of `words` occurs in `top`. */
  predicate NamesCover(top: string, words: seq<string>) {
    |words| > 0 && (Contains(top, words[0]) || NamesCover(top, words[1..]))
  }

  /** The cover test: the upper-cased first 500 characters of the page text name the instructions or the booklet. */
  predicate IsCover(u: Unicode, page: Page) {
    var top := Upper(u, page.text[..if |page.text| < 500 then |page.text| else 500]);
    NamesCover(top, CoverWords)
  }

  function MarkerOf(w: Word, n: int): Marker {
    Marker(n, w.x0, w.y0, w.x1, w.y1)
  }

  /** `m` is the marker of a word of `words` whose text `rec` recognises. */
  predicate FromWord(words: seq<Word>, rec: string -> Option<int>, m: Marker) {
    exists k :: 0 <= k < |words| && rec(words[k].text) == Some(m.number) && m == MarkerOf(words[k], m.number)
  }

  /** The words `rec` recognises, as markers, in reading order. */
  function WordMarkers(words: seq<Word>, rec: string -> Option<int>): (r: seq<Marker>)
    ensures |r| <= |words|
    ensures forall i :: 0 <= i < |r| ==> FromWord(words, rec, r[i])
    ensures forall k :: 0 <= k < |words| && rec(words[k].text).Some? ==>
      MarkerOf(words[k], rec(words[k].text).value) in r
  {
    if |words| == 0 then []
    else
      var rest := WordMarkers(words[1..], rec);
      FromWordTail(words, rec, rest);
      assert forall k :: 1 <= k < |words| ==> words[k] == words[1..][k - 1];
      var n := rec(words[0].text);
      if n.Some? then
        assert FromWord(words, rec, MarkerOf(words[0], n.value));
        [MarkerOf(words[0], n.value)] + rest
      else rest
  }

  lemma FromWordTail(words: seq<Word>, rec: string -> Option<int>, ms: seq<Marker>)
    requires |words| > 0
    requires forall i :: 0 <= i < |ms| ==> FromWord(words[1..], rec, ms[i])
    ensures forall i :: 0 <= i < |ms| ==> FromWord(words, rec, ms[i])
  {
    forall i | 0 <= i < |ms| ensures FromWord(words, rec, ms[i]) {
      var m := ms[i];
      var k :| 0 <= k < |words[1..]| && rec(words[1..][k].text) == Some(m.number)
        && m == MarkerOf(words[1..][k], m.number);
      assert words[k + 1] == words[1..][k];
    }
  }

  /** The marker one word gives: its own, or none. */
  function WordMarker(w: Word, rec: string -> Option<int>): seq<Marker> {
    if rec(w.text).Some? then [MarkerOf(w, rec(w.text).value)] else []
  }

  /** The markers of the words in reading order, without their properties. */
  function MarkersOf(words: seq<Word>, rec: string -> Option<int>): seq<Marker> {
    if |words| == 0 then [] else WordMarker(words[0], rec) + MarkersOf(words[1..], rec)
  }

  lemma {:induction false} MarkersOfConcat(a: seq<Word>, b: seq<Word>, rec: string -> Option<int>)
    ensures MarkersOf(a + b, rec) == MarkersOf(a, rec) + MarkersOf(b, rec)
    decreases |a|
  {
    if |a| == 0 {
      assert a + b == b;
    } else {
      assert (a + b)[0] == a[0] && (a + b)[1..] == a[1..] + b;
      MarkersOfConcat(a[1..], b, rec);
    }
  }

  lemma {:induction false} WordMarkersAre(words: seq<Word>, rec: string -> Option<int>)
    ensures WordMarkers(words, rec) == MarkersOf(words, rec)
    decreases |words|
  {
    if |words| > 0 {
      WordMarkersAre(words[1..], rec);
    }
  }

  /**
    The markers keep the words' reading order: those of a run of words come
    before those of the words after it.
   */
  lemma WordMarkersInOrder(a: seq<Word>, b: seq<Word>, rec: string -> Option<int>)
    ensures WordMarkers(a + b, rec) == WordMarkers(a, rec) + WordMarkers(b, rec)
  {
    WordMarkersAre(a + b, rec);
    WordMarkersAre(a, rec);
    WordMarkersAre(b, rec);
    MarkersOfConcat(a, b, rec);
  }

  /** A single word gives its own marker or none. */
  lemma WordMarkersSingle(w: Word, rec: string -> Option<int>)
    ensures WordMarkers([w], rec) == WordMarker(w, rec)
  {
    WordMarkersAre([w], rec);
    assert [w][1..] == [];
  }

  /** Every marker a page yields carries a number in 1..90. */
  lemma MarkerNumbersInRange(words: seq<Word>)
    ensures forall i :: 0 <= i < |WordMarkers(words, Recognize)| ==> 1 <= WordMarkers(words, Recognize)[i].number <= 90
  {
    var r := WordMarkers(words, Recognize);
    forall i | 0 <= i < |r| ensures 1 <= r[i].number <= 90 {
      assert FromWord(words, Recognize, r[i]);
    }
  }

  /**
    `detect_question_markers`: the markers of a page, none at all on a cover
    page when covers are skipped.
   */
  function DetectMarkers(u: Unicode, page: Page, skipCover: bool): (r: seq<Marker>)
    ensures skipCover && IsCover(u, page) ==> r == []
    ensures !(skipCover && IsCover(u, page)) ==> r == WordMarkers(page.words, Recognize)
  {
    if skipCover && IsCover(u, page) then [] else WordMarkers(page.words, Recognize)
  }

  // ---------------------------------------------------------------------------
  // The question's rectangle

  function RMax(a: real, b: real): real { if a >= b then a else b }
  function RMin(a: real, b: real): real { if a <= b then a else b }

  /** Python's `int()` on a float: truncation toward zero. */
  function Trunc(r: real): (n: int)
    ensures r >= 0.0 ==> n as real <= r < n as real + 1.0
    ensures r >= 0.0 ==> n >= 0
  {
    if r >= 0.0 then r.Floor else -((-r).Floor)
  }

  /** Both x-coordinates lie on the same side of the page's middle. */
  predicate SameColumn(a: real, b: real, mid: real) {
    (a < mid) == (b < mid)
  }

  /** A marker that can end the question started at `start`: same column, strictly below it. */
  predicate Ends(m: Marker, start: Marker, mid: real) {
    SameColumn(m.x0, start.x0, mid) && m.y0 > start.y0
  }

  /**
    The end of the question: the loop that lowers `y_end` to any
    same-column marker strictly below the start and above the current end.
   */
  function ColumnEnd(ms: seq<Marker>, start: Marker, mid: real, acc: real): (yEnd: real)
    ensures yEnd <= acc
    ensures forall i :: 0 <= i < |ms| && Ends(ms[i], start, mid) ==> yEnd <= ms[i].y0
    ensures yEnd == acc || exists i :: 0 <= i < |ms| && Ends(ms[i], start, mid) && yEnd == ms[i].y0
  {
    if |ms| == 0 then acc
    else
      var next := if Ends(ms[0], start, mid) && ms[0].y0 < acc then ms[0].y0 else acc;
      var r := ColumnEnd(ms[1..], start, mid, next);
      assert forall i :: 1 <= i < |ms| ==> ms[i] == ms[1..][i - 1];
      r
  }

  /** The margin added around the question, in points. */
  const Pad: real := 8.0

  /**
    The padded rectangle in points and the box in pixels at `scale` pixels
    per point, for the question starting at `start` on `page`.
   */
  function QuestionBox(page: Page, ms: seq<Marker>, start: Marker, scale: real): (r: (Rect, BBox))
    ensures 0.0 <= r.0.x0 && r.0.x1 <= page.width && 0.0 <= r.0.y0 && r.0.y1 <= page.height
    ensures r.0.y0 == RMax(0.0, start.y0 - Pad)
    ensures start.x0 < page.width / 2.0 ==> r.0.x0 == 0.0 && r.0.x1 == RMin(page.width, page.width / 2.0 + Pad)
    ensures start.x0 >= page.width / 2.0 ==> r.0.x0 == RMax(0.0, page.width / 2.0 - Pad) && r.0.x1 == page.width
    ensures r.1.x == Px(r.0.x0, scale) && r.1.y == Px(r.0.y0, scale)
    ensures r.1.w == AtLeastOne(Px(r.0.x1 - r.0.x0, scale)) && r.1.h == AtLeastOne(Px(r.0.y1 - r.0.y0, scale))
    ensures r.1.w >= 1 && r.1.h >= 1
    ensures scale >= 0.0 ==> r.1.x >= 0 && r.1.y >= 0
  {
    var mid := page.width / 2.0;
    var rect := ColumnRect(page, start, ColumnEnd(ms, start, mid, page.height));
    (rect, PixelBox(rect, scale))
  }

  /** The column of `start`, padded, from `start` down to `yEnd`, clipped to the page. */
  function ColumnRect(page: Page, start: Marker, yEnd: real): (r: Rect)
    ensures 0.0 <= r.x0 && r.x1 <= page.width && 0.0 <= r.y0 && r.y1 <= page.height
    ensures start.x0 < page.width / 2.0 ==> r.x0 == 0.0 && r.x1 == RMin(page.width, page.width / 2.0 + Pad)
    ensures start.x0 >= page.width / 2.0 ==> r.x0 == RMax(0.0, page.width / 2.0 - Pad) && r.x1 == page.width
  {
    var mid := page.width / 2.0;
    var left := start.x0 < mid;
    var colX0 := if left then 0.0 else mid;
    var colX1 := if left then mid else page.width;
    Rect(RMax(0.0, colX0 - Pad), RMax(0.0, start.y0 - Pad), RMin(page.width, colX1 + Pad), RMin(page.height, yEnd + Pad))
  }

  /** The rectangle in pixels at `scale` pixels per point, truncated, at least one pixel wide and high. */
  function PixelBox(rect: Rect, scale: real): (b: BBox)
    ensures b.w >= 1 && b.h >= 1
    ensures scale >= 0.0 && rect.x0 >= 0.0 && rect.y0 >= 0.0 ==> b.x >= 0 && b.y >= 0
  {
    BBox(Px(rect.x0, scale), Px(rect.y0, scale), AtLeastOne(Px(rect.x1 - rect.x0, scale)), AtLeastOne(Px(rect.y1 - rect.y0, scale)))
  }

  /** A length in points as whole pixels: `int(v * scale)`. */
  function Px(v: real, scale: real): (n: int)
    ensures v >= 0.0 && scale >= 0.0 ==> n >= 0
  {
    NonNegProduct(v, scale);
    Trunc(v * scale)
  }

  lemma NonNegProduct(a: real, b: real)
    ensures a >= 0.0 && b >= 0.0 ==> a * b >= 0.0
  {
  }

  /** `max(1, n)`. */
  function AtLeastOne(n: int): (r: int)
    ensures r >= 1 && r >= n && (n >= 1 ==> r == n)
  {
    if n < 1 then 1 else n
  }

  /** The question ends at the nearest same-column marker below its start, or at the page bottom. */
  lemma QuestionEndsAtNextMarker(page: Page, ms: seq<Marker>, start: Marker, scale: real)
    ensures var yEnd := ColumnEnd(ms, start, page.width / 2.0, page.height);
      && QuestionBox(page, ms, start, scale).0.y1 == RMin(page.height, yEnd + Pad)
      && yEnd <= page.height
      && (yEnd == page.height || exists i :: 0 <= i < |ms| && Ends(ms[i], start, page.width / 2.0) && yEnd == ms[i].y0)
      && (forall i :: 0 <= i < |ms| && Ends(ms[i], start, page.width / 2.0) ==> yEnd <= ms[i].y0)
  {
  }

  /** The index of the first marker with number `q`. */
  function FirstMarker(ms: seq<Marker>, q: int): (r: Option<nat>)
    ensures r.None? <==> forall i :: 0 <= i < |ms| ==> ms[i].number != q
    ensures r.Some? ==> r.value < |ms| && ms[r.value].number == q
    ensures r.Some? ==> forall i :: 0 <= i < r.value ==> ms[i].number != q
  {
    if |ms| == 0 then None
    else if ms[0].number == q then Some(0)
    else
      match FirstMarker(ms[1..], q)
      case None => None
      case Some(i) => Some(i + 1)
  }

  /** The rectangle lies on the page and the pixel box is at least one pixel wide and high. */
  predicate Fits(f: Found, p: Page) {
    && 0.0 <= f.rect.x0 && f.rect.x1 <= p.width && 0.0 <= f.rect.y0 && f.rect.y1 <= p.height
    && f.bbox.w >= 1 && f.bbox.h >= 1
  }

  /** Some marker of the page carries number `q`. */
  predicate OnPage(detect: Page -> seq<Marker>, page: Page, q: int) {
    FirstMarker(detect(page), q).Some?
  }

  /**
    The search loop of `build_bbox_for_question`: the first page from index
    `from` holding the marker, as a 1-based page number, with the box of the
    first such marker on it.
   */
  function FindQuestion(pages: seq<Page>, q: int, from: nat, detect: Page -> seq<Marker>, scale: real): (r: Option<Found>)
    requires from <= |pages|
    ensures r.None? <==> forall i :: from <= i < |pages| ==> !OnPage(detect, pages[i], q)
    ensures r.Some? ==> from < r.value.page <= |pages| && OnPage(detect, pages[r.value.page - 1], q)
    ensures r.Some? ==> forall i :: from <= i < r.value.page - 1 ==> !OnPage(detect, pages[i], q)
    ensures r.Some? ==> Fits(r.value, pages[r.value.page - 1])
    decreases |pages| - from
  {
    if from == |pages| then None
    else
      var page := pages[from];
      var ms := detect(page);
      match FirstMarker(ms, q)
      case Some(k) =>
        var (rect, bbox) := QuestionBox(page, ms, ms[k], scale);
        Some(Found(from + 1, rect, bbox))
      case None => FindQuestion(pages, q, from + 1, detect, scale)
  }

  /** The marker detector of a document, with or without the cover test. */
  function Detector(u: Unicode, skipCover: bool): Page -> seq<Marker> {
    (p: Page) => DetectMarkers(u, p, skipCover)
  }

  /** `build_bbox_for_question`: every page from the first, covers included. */
  function FindInDocument(u: Unicode, pages: seq<Page>, q: int, dpi: nat): (r: Option<Found>)
    ensures r.None? <==> forall i :: 0 <= i < |pages| ==> !OnPage(Detector(u, false), pages[i], q)
    ensures r.Some? ==> 0 < r.value.page <= |pages| && Fits(r.value, pages[r.value.page - 1])
    ensures r.Some? ==> OnPage(Detector(u, false), pages[r.value.page - 1], q)
  {
    FindQuestion(pages, q, 0, Detector(u, false), Scale(dpi))
  }

  /**
    `build_bbox_for_question_skip_capa`: pages from `startPage` (1-based) on,
    each cover page yielding no markers.
   */
  function FindSkippingCover(u: Unicode, pages: seq<Page>, q: int, dpi: nat, startPage: nat): (r: Option<Found>)
    requires 1 <= startPage <= |pages| + 1
    ensures r.None? <==> forall i :: startPage - 1 <= i < |pages| ==> !OnPage(Detector(u, true), pages[i], q)
    ensures r.Some? ==> startPage <= r.value.page <= |pages| && Fits(r.value, pages[r.value.page - 1])
    ensures r.Some? ==> OnPage(Detector(u, true), pages[r.value.page - 1], q)
  {
    FindQuestion(pages, q, startPage - 1, Detector(u, true), Scale(dpi))
  }

  /** With covers skipped, a cover page never holds a question, so a found page is never a cover. */
  lemma CoverNeverHoldsQuestion(u: Unicode, page: Page, q: int)
    ensures OnPage(Detector(u, true), page, q) ==> !IsCover(u, page)
    ensures !IsCover(u, page) ==> (OnPage(Detector(u, true), page, q) <==> OnPage(Detector(u, false), page, q))
  {
  }

  /** Pixels per point at `dpi` dots per inch. */
  function Scale(dpi: nat): real {
    dpi as real / 72.0
  }

  // ---------------------------------------------------------------------------
  // Crop rectangles

  /** A crop rectangle in image pixels. */
  datatype Crop = Crop(x: int, y: int, w: int, h: int)

  function IMax(a: int, b: int): int { if a >= b then a else b }
  function IMin(a: int, b: int): int { if a <= b then a else b }

  /**
    The crop for a pixel box grown by `padding` on every side: it never
    leaves the image to the left, top, right or bottom, and it covers the
    padded box wherever that lies inside the image.
   */
  function CropRect(b: BBox, imgW: int, imgH: int, padding: nat): (r: Crop)
    ensures r.x >= 0 && r.y >= 0
    ensures r.x + r.w <= imgW && r.y + r.h <= imgH
    ensures r.x <= IMax(0, b.x - padding) && r.y <= IMax(0, b.y - padding)
    ensures IMin(imgW, b.x + b.w + padding) <= r.x + r.w
    ensures IMin(imgH, b.y + b.h + padding) <= r.y + r.h
    ensures r.w <= b.w + 2 * padding && r.h <= b.h + 2 * padding
  {
    var x := IMax(0, b.x - padding);
    var y := IMax(0, b.y - padding);
    Crop(x, y, IMin(imgW - x, b.w + 2 * padding), IMin(imgH - y, b.h + 2 * padding))
  }

  /** The crop lies within an image of the given size. */
  predicate Inside(c: Crop, size: (int, int)) {
    c.x >= 0 && c.y >= 0 && c.x + c.w <= size.0 && c.y + c.h <= size.1
  }
}
