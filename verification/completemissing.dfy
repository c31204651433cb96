/**
  `complete_missing.py`: the questions of a year that are absent from its
  JSON file are located in the exam PDF by their number markers, cropped,
  read (from the PDF text, or from OCR when that reads more) and appended,
  and the list is re-sorted by number.
 */
module CompleteMissing {
  import opened Wrappers
  import opened Seqs
  import opened Text
  import opened Sorting
  import opened Questions
  import opened Markers
  import opened Ocr

  /** The resolution the page boxes are measured at. */
  const Dpi: nat := 200

  /** The margin grown around a box before cropping, in pixels. */
  const CropPadding: nat := 15

  /** The shortest stem kept; a shorter one becomes the placeholder. */
  const MinStem: nat := 10

  /**
    What the script reads besides the JSON file: the exam PDF (pages, and the
    text inside a rectangle of a 1-based page), the rendered page images
    (`page_NN.png`: size when the file exists, and whether cropping and saving
    it succeeds), the OCR engine (available or not, the text it reads from a
    crop, and the matches of the option patterns in a text) and the regular
    expression matches of the answer-key PDF (absent when it cannot be read).
   */
  datatype Sources = Sources(
    unicode: Unicode,
    pages: seq<Page>,
    clipText: (int, Rect) -> string,
    imageSize: int -> Option<(int, int)>,
    cropSaved: (int, Crop) -> bool,
    ocrAvailable: bool,
    ocrRead: (int, Crop) -> string,
    altMatches: string -> seq<seq<AltMatch>>,
    keyMatches: Option<seq<(int, string)>>)

  /**
    `crop_question_image`: the page image file (the page's own number, or the
    next one when that file does not exist) and the crop taken from it, or
    nothing when neither file exists or the crop cannot be saved.
   */
  function CropQuestion(src: Sources, pageNum: int, b: BBox): (r: Option<(int, Crop)>)
    ensures src.imageSize(pageNum).None? && src.imageSize(pageNum + 1).None? ==> r.None?
    ensures r.Some? ==> r.value.0 == (if src.imageSize(pageNum).Some? then pageNum else pageNum + 1)
    ensures r.Some? ==> src.imageSize(r.value.0).Some? && Inside(r.value.1, src.imageSize(r.value.0).value)
    ensures r.Some? ==> src.cropSaved(r.value.0, r.value.1)
  {
    var file := if src.imageSize(pageNum).Some? then pageNum else pageNum + 1;
    match src.imageSize(file)
    case None => None
    case Some(size) =>
      var c := CropRect(b, size.0, size.1, CropPadding);
      if src.cropSaved(file, c) then Some((file, c)) else None
  }

  /**
    The stem and options of a question: the PDF text with five placeholder
    options, or, when the OCR text is longer, the stem OCR yields (kept only
    if non-empty) and the options it yields (kept only if any was read).
   */
  function ReadQuestion(u: Unicode, text: string, ocrText: string, matches: seq<seq<AltMatch>>): (r: (string, seq<Choice>))
    ensures |r.1| == 5
    ensures forall i :: 0 <= i < 5 ==> r.1[i].key == [Letter(i)]
    ensures |ocrText| <= |text| ==> r == (text, PlaceholderOptions())
    ensures |ocrText| > |text| ==> r.0 == (if ExtractStem(u, ocrText) == "" then text else ExtractStem(u, ocrText))
    ensures |ocrText| > |text| && ParseAlternatives(ocrText, matches).Some? ==>
      forall i :: 0 <= i < 5 ==> r.1[i].text == ParseAlternatives(ocrText, matches).value[Letter(i)]
    ensures |ocrText| > |text| && ParseAlternatives(ocrText, matches).None? ==> r.1 == PlaceholderOptions()
  {
    PlaceholderKeys();
    if |ocrText| > 0 && |ocrText| > |text| then
      var stem := ExtractStem(u, ocrText);
      var parsed := ParseAlternatives(ocrText, matches);
      (if stem == "" then text else stem, if parsed.Some? then OptionsFrom(parsed.value) else PlaceholderOptions())
    else (text, PlaceholderOptions())
  }

  /** The stem cleanup: number prefix removed and stripped, the placeholder below 10 characters, cut to 2000. */
  function CleanStem(stem: string): (r: string)
    ensures |r| <= MaxStem
    ensures |Cleaned(stem)| < MinStem ==> r == Placeholder
    ensures |Cleaned(stem)| >= MinStem ==> r == Take(Cleaned(stem), MaxStem)
    ensures r != Placeholder ==> MinStem <= |r| && IsPiece(r, stem)
  {
    KeepStem(Cleaned(stem), stem, MinStem, false)
  }

  /** A stem written `NN. text` keeps its text whole, up to 2000 characters. */
  lemma CleanStemDropsNumber(n: nat, body: string)
    requires 1 <= n <= 99
    requires |body| >= MinStem && !IsPySpace(body[0]) && !IsPySpace(body[|body| - 1])
    ensures CleanStem(NatToString(n) + ". " + body) == Take(body, MaxStem)
  {
    StripNumberPrefixRemovesNumber(n, body);
    StripByUnchanged(body, IsPySpace);
  }

  /** The PDF text inside the question's rectangle, stripped. */
  function PdfText(src: Sources, found: Found): string {
    Strip(src.clipText(found.page, found.rect))
  }

  /** The OCR text of the crop, stripped; empty when OCR is unavailable or there is no crop. */
  function OcrText(src: Sources, crop: Option<(int, Crop)>): string {
    if src.ocrAvailable && crop.Some? then Strip(src.ocrRead(crop.value.0, crop.value.1)) else ""
  }

  /**
    The record built for question `q` of `year`, when its marker is found in
    the PDF: the found page and box, the stem and options read from the PDF
    text or the OCR text, the stem cleaned, and the image path when the crop
    was saved.
   */
  function Recover(src: Sources, year: int, q: int): (r: Option<Question>)
    ensures r.Some? <==> FindInDocument(src.unicode, src.pages, q, Dpi).Some?
    ensures r.Some? ==> r.value.number == q && r.value.year == year && r.value.id == QuestionId(year, q)
    ensures r.Some? ==> r.value.page.Some? && 1 <= r.value.page.value <= |src.pages|
    ensures r.Some? ==> r.value.answer == Some(CorrectOr(AnswerKey(src.keyMatches), q))
    ensures r.Some? ==> r.value.explanation == Some(PendingExplanation)
    ensures r.Some? ==> |r.value.stem| <= MaxStem && |r.value.options| == 5
    ensures r.Some? ==> r.value.asset.None? || r.value.asset == Some(AssetPath(year, q))
    ensures r.Some? ==> var found := FindInDocument(src.unicode, src.pages, q, Dpi).value;
      r.value.page == Some(found.page) && r.value.bbox == Some(found.bbox)
    ensures r.Some? ==> var found := FindInDocument(src.unicode, src.pages, q, Dpi).value;
      r.value.asset.Some? <==> CropQuestion(src, found.page, found.bbox).Some?
    ensures r.Some? ==> var found := FindInDocument(src.unicode, src.pages, q, Dpi).value;
      var ocrText := OcrText(src, CropQuestion(src, found.page, found.bbox));
      var read := ReadQuestion(src.unicode, PdfText(src, found), ocrText, src.altMatches(ocrText));
      r.value.stem == CleanStem(read.0) && r.value.options == read.1
  {
    match FindInDocument(src.unicode, src.pages, q, Dpi)
    case None => None
    case Some(found) =>
      var text := PdfText(src, found);
      var crop := CropQuestion(src, found.page, found.bbox);
      var ocrText := OcrText(src, crop);
      var (stem, options) := ReadQuestion(src.unicode, text, ocrText, src.altMatches(ocrText));
      Some(Question(
        QuestionId(year, q), year, q, Some(found.page), Some(found.bbox),
        CleanStem(stem), options,
        Some(CorrectOr(AnswerKey(src.keyMatches), q)),
        Some(PendingExplanation),
        if crop.Some? then Some(AssetPath(year, q)) else None))
  }

  /** `Recover` for one year, as a function of the question number. */
  function Recovery(src: Sources, year: int): int -> Option<Question> {
    (q: int) => Recover(src, year, q)
  }

  /** The outcome for the JSON file: left alone, or rewritten with the new list and the number added. */
  datatype Outcome = Unchanged | Rewritten(questions: seq<Question>, added: nat)

  /**
    `complete_missing_questions`: nothing happens when the JSON file is
    absent or no number 1..90 is missing; otherwise every missing number whose
    marker is found gets a record, and the list is sorted by number.
   */
  function Complete(src: Sources, year: int, file: Option<seq<Question>>): (r: Outcome)
    ensures file.None? ==> r == Unchanged
    ensures file.Some? ==> (r == Unchanged <==> MissingNumbers(Numbers(file.value)) == [])
    ensures r.Rewritten? ==> SortedBy(r.questions, NumberKey)
    ensures r.Rewritten? ==> var recovered := Collect(MissingNumbers(Numbers(file.value)), Recovery(src, year));
      multiset(r.questions) == multiset(file.value) + multiset(recovered) && r.added == |recovered|
    ensures r.Rewritten? ==> multiset(file.value) <= multiset(r.questions)
    ensures r.Rewritten? ==> |r.questions| == |file.value| + r.added
    ensures r.Rewritten? ==> var missing := MissingNumbers(Numbers(file.value));
      forall i :: 0 <= i < |r.questions| ==>
        (r.questions[i] in file.value || exists k :: 0 <= k < |missing| && Recovery(src, year)(missing[k]) == Some(r.questions[i]))
    ensures r.Rewritten? ==> var missing := MissingNumbers(Numbers(file.value));
      forall k :: 0 <= k < |missing| && Recovery(src, year)(missing[k]).Some? ==> Recovery(src, year)(missing[k]).value in r.questions
    ensures r.Rewritten? ==> var recovered := Collect(MissingNumbers(Numbers(file.value)), Recovery(src, year));
      forall k :: WithKey(r.questions, NumberKey, k) == WithKey(file.value, NumberKey, k) + WithKey(recovered, NumberKey, k)
  {
    match file
    case None => Unchanged
    case Some(qs) =>
      var missing := MissingNumbers(Numbers(qs));
      if missing == [] then Unchanged
      else Rewritten(Extend(qs, missing, Recovery(src, year)), |Collect(missing, Recovery(src, year))|)
  }

  /** Every record `Complete` adds carries a number it lacked, with the id, page and pending explanation of a found question. */
  lemma AddedRecordsAreFound(src: Sources, year: int, qs: seq<Question>, i: nat)
    requires Complete(src, year, Some(qs)).Rewritten?
    requires i < |Complete(src, year, Some(qs)).questions|
    requires Complete(src, year, Some(qs)).questions[i] !in qs
    ensures var rec := Complete(src, year, Some(qs)).questions[i];
      && 1 <= rec.number <= 90 && rec.number !in Numbers(qs)
      && rec.id == QuestionId(year, rec.number) && rec.year == year
      && rec.page.Some? && 1 <= rec.page.value <= |src.pages|
      && rec.explanation == Some(PendingExplanation)
      && FindInDocument(src.unicode, src.pages, rec.number, Dpi).Some?
  {
    var rec := Complete(src, year, Some(qs)).questions[i];
    var missing := MissingNumbers(Numbers(qs));
    var k :| 0 <= k < |missing| && Recovery(src, year)(missing[k]) == Some(rec);
    assert Recover(src, year, missing[k]) == Some(rec);
  }
}
