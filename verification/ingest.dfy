/**
  `ingest.py`: the question records read by the vision model from each page
  image are tagged with their page, cropped to an image asset (or given the
  holder image), matched with the answer key and written with their id.
 */
module Ingest {
  import opened Wrappers
  import opened Seqs
  import opened Text
  import opened Questions
  import opened Markers

  /** The margin grown around a box before cropping, in pixels. */
  const Padding: nat := 15

  /** The image every question without a crop of its own points to. */
  const Holder: string := "/assets/questions/holder.png"

  /** One question as the vision model returns it; `number` is 0 when it is absent. */
  datatype Extracted = Extracted(number: int, bbox: Option<BBox>, stem: string, options: seq<Choice>)

  /** An extracted question with the 1-based page it was read from. */
  datatype Placed = Placed(item: Extracted, page: int)

  /**
    What the script reads: the number of pages rendered from the exam PDF,
    the vision model's questions for each page image (absent when the call
    fails or returns no `questions`), the size of each page image (absent
    when it cannot be opened), whether a crop of a page image can be saved,
    and the regular-expression matches of the answer-key PDF (absent when the
    file does not exist).
   */
  datatype Env = Env(
    pageCount: nat,
    extract: nat -> Option<seq<Extracted>>,
    imageSize: int -> Option<(int, int)>,
    cropSaved: (int, Crop) -> bool,
    keyMatches: Option<seq<(int, string)>>)

  /**
    `crop_assets` for one question: the page image index and the crop saved
    from it, or nothing when the question has no number, no box or no page,
    when its page has no image, or when the crop cannot be saved.
   */
  function CropAsset(env: Env, p: Placed): (r: Option<(int, Crop)>)
    ensures p.item.number == 0 || p.item.bbox.None? || p.page < 1 || p.page > env.pageCount ==> r.None?
    ensures r.Some? ==> r.value.0 == p.page - 1
    ensures r.Some? ==> env.imageSize(r.value.0).Some? && Inside(r.value.1, env.imageSize(r.value.0).value)
    ensures r.Some? ==> env.cropSaved(r.value.0, r.value.1)
  {
    var index := p.page - 1;
    if p.item.number == 0 || p.item.bbox.None? || index < 0 || index >= env.pageCount then None
    else
      match env.imageSize(index)
      case None => None
      case Some(size) =>
        var c := CropRect(p.item.bbox.value, size.0, size.1, Padding);
        if env.cropSaved(index, c) then Some((index, c)) else None
  }

  /** No question's own image path is the holder's. */
  lemma HolderIsNoAssetPath(year: int, n: int)
    ensures AssetPath(year, n) != Holder
  {
    var y := IntToString(year);
    assert AssetPath(year, n)[18] == y[0];
    assert Holder[18] == 'h';
  }

  /** The asset path a question gets: its own image exactly when its crop was saved, the holder otherwise. */
  function AssetOf(env: Env, year: int, p: Placed): (r: string)
    ensures r == AssetPath(year, p.item.number) <==> CropAsset(env, p).Some?
    ensures r == Holder <==> CropAsset(env, p).None?
  {
    HolderIsNoAssetPath(year, p.item.number);
    if CropAsset(env, p).Some? then AssetPath(year, p.item.number) else Holder
  }

  /** The vision model read `x` from page `i` (0-based). */
  predicate ExtractedOn(extract: nat -> Option<seq<Extracted>>, i: nat, x: Extracted) {
    extract(i).Some? && x in extract(i).value
  }

  /** `p` was read from one of the pages `1..n`, and carries that page's number. */
  predicate From(extract: nat -> Option<seq<Extracted>>, p: Placed, n: nat) {
    1 <= p.page <= n && ExtractedOn(extract, p.page - 1, p.item)
  }

  /** The questions of page `i` (0-based), tagged with `page = i + 1`; none when the page could not be read. */
  function PageItems(extract: nat -> Option<seq<Extracted>>, i: nat): (r: seq<Placed>)
    ensures forall k :: 0 <= k < |r| ==> r[k].page == i + 1 && ExtractedOn(extract, i, r[k].item)
    ensures forall x :: ExtractedOn(extract, i, x) ==> Placed(x, i + 1) in r
  {
    var items := if extract(i).Some? then extract(i).value else [];
    var r := seq(|items|, k requires 0 <= k < |items| => Placed(items[k], i + 1));
    assert forall x :: ExtractedOn(extract, i, x) ==> Placed(x, i + 1) in r by {
      forall x | ExtractedOn(extract, i, x) ensures Placed(x, i + 1) in r {
        var k :| 0 <= k < |items| && items[k] == x;
        assert r[k] == Placed(x, i + 1);
      }
    }
    r
  }

  /** The questions of pages `0..n-1`, each tagged with `page = i + 1`, in page order. */
  function Paged(extract: nat -> Option<seq<Extracted>>, n: nat): (r: seq<Placed>)
    ensures forall k :: 0 <= k < |r| ==> From(extract, r[k], n)
    ensures forall i: nat, x :: i < n && ExtractedOn(extract, i, x) ==> Placed(x, i + 1) in r
  {
    if n == 0 then []
    else
      var before := Paged(extract, n - 1);
      var here := PageItems(extract, n - 1);
      PagedStep(extract, n, before, here);
      before + here
  }

  /** Appending the questions of page `n` to those of the pages before it. */
  lemma PagedStep(extract: nat -> Option<seq<Extracted>>, n: nat, before: seq<Placed>, here: seq<Placed>)
    requires n >= 1
    requires forall k :: 0 <= k < |before| ==> From(extract, before[k], n - 1)
    requires forall i: nat, x :: i < n - 1 && ExtractedOn(extract, i, x) ==> Placed(x, i + 1) in before
    requires here == PageItems(extract, n - 1)
    ensures forall k :: 0 <= k < |before + here| ==> From(extract, (before + here)[k], n)
    ensures forall i: nat, x :: i < n && ExtractedOn(extract, i, x) ==> Placed(x, i + 1) in before + here
  {
    forall k | 0 <= k < |before + here| ensures From(extract, (before + here)[k], n) {
      if k < |before| {
        assert (before + here)[k] == before[k];
        assert From(extract, before[k], n - 1);
      } else {
        assert (before + here)[k] == here[k - |before|];
      }
    }
  }

  function HasNumber(p: Placed): bool {
    p.item.number != 0
  }

  /** `gabarito.get(n)`: the key's letter for `n`, absent when the key has none. */
  function KeyAnswer(key: map<int, string>, n: int): Option<string> {
    if n in key then Some(key[n]) else None
  }

  /** The question `p` was read from page `p.page` of the PDF. */
  predicate ReadFrom(env: Env, p: Placed) {
    From(env.extract, p, env.pageCount)
  }

  /**
    `q` is a record the script may write: a numbered question read from one of
    the pages, with its id, year, pending explanation, the key's answer and
    either its own image or the holder.
   */
  predicate Written(env: Env, year: int, q: Question) {
    && q.number != 0 && q.year == year && q.id == QuestionId(year, q.number)
    && q.explanation == Some(PendingExplanation)
    && q.answer == KeyAnswer(AnswerKey(env.keyMatches), q.number)
    && (q.asset == Some(Holder) || q.asset == Some(AssetPath(year, q.number)))
    && (q.bbox.None? ==> q.asset == Some(Holder))
    && q.page.Some? && ReadFrom(env, Placed(Extracted(q.number, q.bbox, q.stem, q.options), q.page.value))
  }

  /** The record written for a numbered question. */
  function Build(env: Env, year: int, p: Placed): (q: Question)
    requires HasNumber(p) && ReadFrom(env, p)
    ensures Written(env, year, q)
    ensures RecordOf(q, p.item, p.page)
  {
    var n := p.item.number;
    Question(
      QuestionId(year, n), year, n, Some(p.page), p.item.bbox,
      p.item.stem, p.item.options,
      KeyAnswer(AnswerKey(env.keyMatches), n),
      Some(PendingExplanation),
      Some(AssetOf(env, year, p)))
  }

  /** `q` is the record of the extracted question `x` read from page `page`. */
  predicate RecordOf(q: Question, x: Extracted, page: int) {
    q.number == x.number && q.bbox == x.bbox && q.stem == x.stem && q.options == x.options && q.page == Some(page)
  }

  /** The record of every kept question, in order. */
  function BuildAll(env: Env, year: int, kept: seq<Placed>): (r: seq<Question>)
    requires forall i :: 0 <= i < |kept| ==> HasNumber(kept[i]) && ReadFrom(env, kept[i])
    ensures |r| == |kept|
    ensures forall i :: 0 <= i < |r| ==> Written(env, year, r[i]) && RecordOf(r[i], kept[i].item, kept[i].page)
  {
    seq(|kept|, i requires 0 <= i < |kept| => Build(env, year, kept[i]))
  }

  /**
    `main`: nothing is written when the PDF yields no page image; otherwise
    every extracted question with a number becomes a record, in page order,
    and the questions without one are dropped.
   */
  function Ingest(env: Env, year: int): (r: Option<seq<Question>>)
    ensures r.None? <==> env.pageCount == 0
    ensures r.Some? ==> forall i :: 0 <= i < |r.value| ==> Written(env, year, r.value[i])
    ensures r.Some? ==> |r.value| == |Kept(env)|
    ensures r.Some? ==> forall i :: 0 <= i < |r.value| ==> RecordOf(r.value[i], Kept(env)[i].item, Kept(env)[i].page)
  {
    if env.pageCount == 0 then None
    else
      var placed := Paged(env.extract, env.pageCount);
      var kept := Kept(env);
      forall i | 0 <= i < |kept| ensures ReadFrom(env, kept[i]) {
        var k :| 0 <= k < |placed| && placed[k] == kept[i];
      }
      var r := BuildAll(env, year, kept);
      Some(r)
  }

  /** The questions with a number, from every page, in page order. */
  function Kept(env: Env): seq<Placed> {
    Filter(Paged(env.extract, env.pageCount), HasNumber)
  }

  /** Every question with a number that the vision model read from a page gets its record. */
  lemma NumberedQuestionsAreKept(env: Env, year: int, page: nat, x: Extracted)
    requires page < env.pageCount && env.extract(page).Some? && x in env.extract(page).value && x.number != 0
    ensures Ingest(env, year).Some?
    ensures exists j :: 0 <= j < |Ingest(env, year).value| && RecordOf(Ingest(env, year).value[j], x, page + 1)
  {
    var placed := Paged(env.extract, env.pageCount);
    var kept := Kept(env);
    var r := Ingest(env, year).value;
    var p := Placed(x, page + 1);
    assert ExtractedOn(env.extract, page, x);
    assert p in placed;
    var k :| 0 <= k < |placed| && placed[k] == p;
    assert HasNumber(placed[k]);
    assert p in kept;
    var j :| 0 <= j < |kept| && kept[j] == p;
    assert RecordOf(r[j], kept[j].item, kept[j].page);
  }
}
