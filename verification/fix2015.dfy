/**
  `fix_2015.py`: questions 6-9 and 14-17 of 2015 had been read from the
  cover page; they are removed and rebuilt from the pages after the cover.
 */
module Fix2015 {
  import opened Wrappers
  import opened Seqs
  import opened Text
  import opened Sorting
  import opened Questions
  import opened Markers

  const Year: int := 2015

  /** The questions that are removed and rebuilt. */
  const BadNumbers: seq<int> := [6, 7, 8, 9, 14, 15, 16, 17]

  /** The first page searched, 1-based: the cover is page 1. */
  const StartPage: nat := 2

  const Dpi: nat := 200

  /** The shortest stem kept; a shorter one becomes the placeholder. */
  const MinStem: nat := 20

  /** Text on a page that says it is exam instructions, not a question. */
  const Instructions: string := "DURANTE A PROVA"

  /**
    What the script reads besides the JSON file: the exam PDF (pages and the
    text inside a rectangle of a 1-based page) and the regular-expression
    matches of the answer-key PDF (absent when it cannot be read).
   */
  datatype Sources = Sources(
    unicode: Unicode,
    pages: seq<Page>,
    clipText: (int, Rect) -> string,
    keyMatches: Option<seq<(int, string)>>)

  /** `"DURANTE A PROVA" in stem.upper()`. */
  predicate MentionsInstructions(u: Unicode, s: string) {
    Contains(Upper(u, s), Instructions)
  }

  /**
    The stem cleanup of `fix_2015`: number prefix removed and stripped; the
    placeholder when under 20 characters or when it reads, upper-cased, as
    the exam instructions; cut to 2000 characters.
   */
  function FixStem(u: Unicode, stem: string): (r: string)
    ensures |r| <= MaxStem
    ensures |Cleaned(stem)| < MinStem ==> r == Placeholder
    ensures MentionsInstructions(u, Cleaned(stem)) ==> r == Placeholder
    ensures |Cleaned(stem)| >= MinStem && !MentionsInstructions(u, Cleaned(stem)) ==> r == Take(Cleaned(stem), MaxStem)
    ensures r != Placeholder ==> MinStem <= |r| && IsPiece(r, stem)
  {
    var c := Cleaned(stem);
    KeepStem(c, stem, MinStem, MentionsInstructions(u, c))
  }

  /**
    `rec` is a record rebuilt for question `q`: read from a page after the
    cover, with placeholder options, the key's answer (or "A"), the pending
    explanation and the question's image path.
   */
  predicate Rebuilt(src: Sources, q: int, rec: Question) {
    && rec.number == q && rec.year == Year && rec.id == QuestionId(Year, q)
    && rec.page.Some? && StartPage <= rec.page.value <= |src.pages|
    && rec.options == PlaceholderOptions()
    && rec.answer == Some(CorrectOr(AnswerKey(src.keyMatches), q))
    && rec.explanation == Some(PendingExplanation)
    && rec.asset == Some(AssetPath(Year, q))
    && |rec.stem| <= MaxStem
  }

  /** The record for question `q` found at `found`, its stem read from the marker's rectangle. */
  function Record(src: Sources, q: int, found: Found): (rec: Question)
    requires StartPage <= found.page <= |src.pages|
    ensures Rebuilt(src, q, rec) && rec.page == Some(found.page) && rec.bbox == Some(found.bbox)
    ensures rec.stem == FixStem(src.unicode, Strip(src.clipText(found.page, found.rect)))
  {
    Question(
      QuestionId(Year, q), Year, q, Some(found.page), Some(found.bbox),
      FixStem(src.unicode, Strip(src.clipText(found.page, found.rect))), PlaceholderOptions(),
      Some(CorrectOr(AnswerKey(src.keyMatches), q)),
      Some(PendingExplanation),
      Some(AssetPath(Year, q)))
  }

  /** The record rebuilt for question `q`, when its marker is found on a page after the cover. */
  function Rebuild(src: Sources, q: int): (r: Option<Question>)
    ensures |src.pages| < 1 ==> r.None?
    ensures |src.pages| >= 1 ==> (r.Some? <==> FindSkippingCover(src.unicode, src.pages, q, Dpi, StartPage).Some?)
    ensures r.Some? ==> r.value == Record(src, q, FindSkippingCover(src.unicode, src.pages, q, Dpi, StartPage).value)
  {
    if |src.pages| < 1 then None
    else
      match FindSkippingCover(src.unicode, src.pages, q, Dpi, StartPage)
      case None => None
      case Some(found) => Some(Record(src, q, found))
  }

  function Rebuilder(src: Sources): int -> Option<Question> {
    (q: int) => Rebuild(src, q)
  }

  /**
    `fix_2015`: the eight questions are removed, those found again are
    appended, and the list is sorted by number.
   */
  function Fix(src: Sources, qs: seq<Question>): (r: seq<Question>)
    ensures SortedBy(r, NumberKey)
    ensures multiset(r) == multiset(Filter(qs, NotIn(BadNumbers))) + multiset(Collect(BadNumbers, Rebuilder(src)))
    ensures |r| == Count(qs, NotIn(BadNumbers)) + |Collect(BadNumbers, Rebuilder(src))|
    ensures forall i :: 0 <= i < |qs| && qs[i].number !in BadNumbers ==> qs[i] in r
    ensures forall i :: 0 <= i < |r| ==>
      ((r[i] in qs && r[i].number !in BadNumbers) || exists k :: 0 <= k < |BadNumbers| && Rebuilder(src)(BadNumbers[k]) == Some(r[i]))
    ensures forall k :: 0 <= k < |BadNumbers| && Rebuilder(src)(BadNumbers[k]).Some? ==> Rebuilder(src)(BadNumbers[k]).value in r
    ensures forall k ::
      WithKey(r, NumberKey, k) == WithKey(Filter(qs, NotIn(BadNumbers)), NumberKey, k) + WithKey(Collect(BadNumbers, Rebuilder(src)), NumberKey, k)
  {
    Replace(qs, BadNumbers, Rebuilder(src))
  }

  /** A question of the fixed list with one of the eight numbers is a record rebuilt from a page after the cover. */
  lemma FixedQuestionsAreRebuilt(src: Sources, qs: seq<Question>, i: nat)
    requires i < |Fix(src, qs)| && Fix(src, qs)[i].number in BadNumbers
    ensures var q := Fix(src, qs)[i];
      && q.page.Some? && StartPage <= q.page.value <= |src.pages|
      && q.options == PlaceholderOptions()
      && q.explanation == Some(PendingExplanation)
      && q.answer == Some(CorrectOr(AnswerKey(src.keyMatches), q.number))
  {
    var q := Fix(src, qs)[i];
    var k :| 0 <= k < |BadNumbers| && Rebuilder(src)(BadNumbers[k]) == Some(q);
    assert Rebuild(src, BadNumbers[k]) == Some(q);
  }
}
