/**
  The publication gate for one exam year (`tools/questions/qa_gate.py`):
  text normalisation, the placeholder test, the pass/fail rule, the warning
  thresholds and the process exit code.
 */
module QaGate {
  import opened Wrappers
  import opened Seqs
  import opened Text
  import opened Sorting
  import opened Questions

  /**
    `re.sub(r"\s+", " ", s)`: every maximal run of whitespace becomes one
    space, everything else is kept.
   */
  function Collapse(s: string): (r: string)
    ensures |r| <= |s|
    ensures |r| == 0 <==> |s| == 0
    ensures forall i :: 0 <= i < |r| ==> r[i] == ' ' || (!IsPySpace(r[i]) && r[i] in s)
    ensures forall i :: 0 <= i < |r| - 1 ==> !(r[i] == ' ' && r[i + 1] == ' ')
    ensures |s| > 0 && !IsPySpace(s[0]) ==> |r| > 0 && r[0] == s[0]
    ensures |s| > 0 && IsPySpace(s[0]) ==> |r| > 0 && r[0] == ' '
    decreases |s|
  {
    if |s| == 0 then []
    else if IsPySpace(s[0]) then
      var j := SkipSpace(s, 0, IsPySpace);
      var rest := Collapse(s[j..]);
      assert forall i :: 0 <= i < |rest| && rest[i] != ' ' ==> rest[i] in s;
      [' '] + rest
    else
      var rest := Collapse(s[1..]);
      assert forall i :: 0 <= i < |rest| && rest[i] != ' ' ==> rest[i] in s;
      [s[0]] + rest
  }

  /** A string already in collapsed form is left alone. */
  lemma {:induction false} CollapseFixed(s: string)
    requires forall i :: 0 <= i < |s| ==> s[i] == ' ' || !IsPySpace(s[i])
    requires forall i :: 0 <= i < |s| - 1 ==> !(s[i] == ' ' && s[i + 1] == ' ')
    ensures Collapse(s) == s
    decreases |s|
  {
    if |s| > 0 {
      if IsPySpace(s[0]) {
        assert SkipSpace(s, 0, IsPySpace) == 1;
      }
      CollapseFixed(s[1..]);
    }
  }

  /** Collapsing is idempotent. */
  lemma CollapseIdempotent(s: string)
    ensures Collapse(Collapse(s)) == Collapse(s)
  {
    CollapseFixed(Collapse(s));
  }

  /** Where the first of `a`'s characters ends in a non-space, what follows cannot merge with it. */
  lemma SkipSpaceConcat(a: string, b: string)
    requires |a| > 0 && !IsPySpace(a[|a| - 1])
    ensures SkipSpace(a + b, 0, IsPySpace) == SkipSpace(a, 0, IsPySpace) < |a|
  {
    assert forall k :: 0 <= k < |a| ==> (a + b)[k] == a[k];
  }

  /** Collapsing distributes over a cut after a non-space character. */
  lemma {:induction false} CollapseConcat(a: string, b: string)
    requires |a| > 0 && !IsPySpace(a[|a| - 1])
    ensures Collapse(a + b) == Collapse(a) + Collapse(b)
    decreases |a|
  {
    if IsPySpace(a[0]) {
      SkipSpaceConcat(a, b);
      var j := SkipSpace(a, 0, IsPySpace);
      assert (a + b)[j..] == a[j..] + b;
      CollapseConcat(a[j..], b);
    } else if |a| == 1 {
      assert (a + b)[1..] == b;
    } else {
      assert (a + b)[1..] == a[1..] + b;
      CollapseConcat(a[1..], b);
    }
  }

  /** A character that is not whitespace. */
  predicate NotSpace(c: char) {
    !IsPySpace(c)
  }

  /** A non-space character is copied as it is, and collapsing goes on behind it. */
  lemma CollapseKeepsChar(c: char, s: string)
    requires !IsPySpace(c)
    ensures Collapse([c] + s) == [c] + Collapse(s)
  {
    assert ([c] + s)[1..] == s;
  }

  /** A whole run of whitespace, up to a non-space character or the end, becomes one plain space. */
  lemma CollapseRun(w: string, s: string)
    requires |w| > 0 && forall k :: 0 <= k < |w| ==> IsPySpace(w[k])
    requires |s| == 0 || !IsPySpace(s[0])
    ensures Collapse(w + s) == [' '] + Collapse(s)
  {
    SkipSpaceAt(w + s, 0, |w|, IsPySpace);
    assert (w + s)[|w|..] == s;
  }

  /** The characters other than whitespace survive collapsing, all of them and in their order. */
  lemma {:induction false} CollapseKeepsText(s: string)
    ensures Filter(Collapse(s), NotSpace) == Filter(s, NotSpace)
    decreases |s|
  {
    if |s| > 0 {
      var j := if IsPySpace(s[0]) then SkipSpace(s, 0, IsPySpace) else 1;
      var head := if IsPySpace(s[0]) then [' '] else [s[0]];
      assert Collapse(s) == head + Collapse(s[j..]);
      CollapseKeepsText(s[j..]);
      assert Filter(head, NotSpace) == Filter(s[..j], NotSpace) by {
        if IsPySpace(s[0]) {
          assert head[1..] == [];
          FilterSpaces(s[..j]);
        } else {
          assert s[..j] == head;
        }
      }
      FilterPieces(s, j, head, Collapse(s[j..]), NotSpace);
    }
  }

  /** A run of whitespace has no characters other than whitespace. */
  lemma {:induction false} FilterSpaces(w: string)
    requires forall k :: 0 <= k < |w| ==> IsPySpace(w[k])
    ensures Filter(w, NotSpace) == []
  {
    if |w| > 0 {
      FilterSpaces(w[1..]);
    }
  }

  /** Drops the combining marks. */
  function DropCombining(u: Unicode, s: string): (r: string)
    ensures forall i :: 0 <= i < |r| ==> !u.combining(r[i])
  {
    Filter(s, (c: char) => !u.combining(c))
  }

  /**
    `_norm`: strip, lower-case, decompose, drop combining marks, collapse
    whitespace. The result has no combining mark other than possibly the
    plain space, uses the plain space as its only whitespace, and never
    holds two spaces in a row.
   */
  function Norm(u: Unicode, s: string): (r: string)
    ensures forall i :: 0 <= i < |r| ==> r[i] == ' ' || (!u.combining(r[i]) && !IsPySpace(r[i]))
    ensures forall i :: 0 <= i < |r| ==> IsPySpace(r[i]) ==> r[i] == ' '
    ensures forall i :: 0 <= i < |r| - 1 ==> !(r[i] == ' ' && r[i + 1] == ' ')
    ensures |Strip(s)| == 0 ==> r == ""
  {
    var lowered := FlatMap(Strip(s), u.lower);
    var bare := DropCombining(u, FlatMap(lowered, u.decompose));
    var r := Collapse(bare);
    assert forall i :: 0 <= i < |r| && r[i] != ' ' ==> !u.combining(r[i]);
    r
  }

  const Marker: string := "veja a imagem da quest"

  /** `_is_placeholder`: the normalised text is empty or mentions the image placeholder. */
  predicate IsPlaceholder(u: Unicode, text: string) {
    var t := Norm(u, text);
    |t| == 0 || Contains(t, Marker)
  }

  /** The stem test of the text-quality check: a placeholder, or fewer than 20 characters once stripped. */
  predicate StemIsPlaceholder(u: Unicode, q: Question) {
    IsPlaceholder(u, q.stem) || |Strip(q.stem)| < 20
  }

  /** How many stems count as placeholders. */
  function StemPlaceholders(u: Unicode, qs: seq<Question>): (n: nat)
    ensures n <= |qs|
  {
    Count(qs, (q: Question) => StemIsPlaceholder(u, q))
  }

  /** How many option texts are placeholders. */
  function OptionPlaceholders(u: Unicode, options: seq<Choice>): (n: nat)
    ensures n <= |options|
  {
    Count(options, (c: Choice) => IsPlaceholder(u, c.text))
  }

  /** `int(bbox.get("h") or 0)` in 1..299. */
  predicate HasSmallBBox(q: Question) {
    q.bbox.Some? && 0 < q.bbox.value.h < 300
  }

  /** The enrichment test: a theory is present, non-empty and not the pending marker. */
  predicate IsEnriched(q: Question) {
    q.explanation.Some? && q.explanation.value.theory.Some?
      && q.explanation.value.theory.value != "" && q.explanation.value.theory.value != Pending
  }

  /** The question's image is named and present on disk. */
  predicate HasAsset(assetExists: string -> bool, q: Question) {
    q.asset.Some? && q.asset.value != "" && assetExists(q.asset.value)
  }

  /** The options of every question, in order. */
  function AllOptions(qs: seq<Question>): seq<Choice> {
    if |qs| == 0 then [] else qs[0].options + AllOptions(qs[1..])
  }

  function Max1(n: nat): nat {
    if n < 1 then 1 else n
  }

  /** What the gate finds on disk for one year. */
  datatype FileState = Absent | Invalid | Loaded(questions: seq<Question>)

  /** The year-independent facts the gate looks up, given as parameters. */
  datatype Env = Env(
    file: int -> FileState,
    assetExists: string -> bool,
    pages: int -> Option<seq<string>>,
    unicode: Unicode)

  /** Which errors were recorded; any error fails the year. */
  datatype Errors = Errors(jsonMissing: bool, jsonInvalid: bool, wrongCount: bool, numbersMissing: bool)

  /** Which warnings were recorded; warnings never fail the year. */
  datatype Warnings = Warnings(
    assetsMissing: bool,
    noPagesDir: bool,
    stemsPlaceholder: bool,
    optionsPlaceholder: bool,
    smallBBoxes: bool,
    lowEnrichment: bool)

  const NoWarnings := Warnings(false, false, false, false, false, false)

  const NoCounts := Counts([], 0, 0, 0, 0, [], 0)

  /** The figures the report lists besides its verdict. */
  datatype Counts = Counts(
    missingAssets: seq<int>,
    pageCount: nat,
    stemPlaceholders: nat,
    optionPlaceholders: nat,
    totalOptions: nat,
    smallBBoxes: seq<int>,
    enriched: nat)

  datatype Report = Report(
    year: int,
    passed: bool,
    errors: Errors,
    questionCount: nat,
    missingNumbers: seq<int>,
    warnings: Warnings,
    counts: Counts)

  function EndsWithPng(name: string): bool {
    |name| >= 4 && name[|name| - 4..] == ".png"
  }

  /** Every number 1..90 is carried by some question. */
  predicate AllNumbersPresent(qs: seq<Question>) {
    forall n :: 1 <= n <= 90 ==> n in Numbers(qs)
  }

  /** The numbers 1..90 that no question carries, ascending. */
  function Absent90(qs: seq<Question>): (r: seq<int>)
    ensures forall n :: n in r <==> 1 <= n <= 90 && n !in Numbers(qs)
    ensures |r| == 0 <==> AllNumbersPresent(qs)
  {
    var r := MissingNumbers(Numbers(qs));
    assert |r| > 0 ==> r[0] in r;
    r
  }

  /** The question has no image on disk. */
  function Lacking(assetExists: string -> bool): Question -> bool {
    (q: Question) => !HasAsset(assetExists, q)
  }

  /** The numbers of the questions without an image on disk, in file order. */
  function MissingAssets(assetExists: string -> bool, qs: seq<Question>): (r: seq<int>)
    ensures forall i :: 0 <= i < |qs| && !HasAsset(assetExists, qs[i]) ==> qs[i].number in r
    ensures |r| == Count(qs, Lacking(assetExists))
    ensures |r| == 0 <==> forall i :: 0 <= i < |qs| ==> HasAsset(assetExists, qs[i])
  {
    if |qs| == 0 then []
    else
      var rest := MissingAssets(assetExists, qs[1..]);
      assert forall i :: 1 <= i < |qs| ==> qs[i] == qs[1..][i - 1];
      (if HasAsset(assetExists, qs[0]) then [] else [qs[0].number]) + rest
  }

  /** Every number listed belongs to a question whose image is missing. */
  lemma {:induction false} MissingAssetsListed(assetExists: string -> bool, qs: seq<Question>, n: int)
    requires n in MissingAssets(assetExists, qs)
    ensures exists k :: 0 <= k < |qs| && qs[k].number == n && !HasAsset(assetExists, qs[k])
    decreases |qs|
  {
    if HasAsset(assetExists, qs[0]) || n != qs[0].number {
      MissingAssetsListed(assetExists, qs[1..], n);
      var k :| 0 <= k < |qs[1..]| && qs[1..][k].number == n && !HasAsset(assetExists, qs[1..][k]);
      assert qs[k + 1] == qs[1..][k];
    }
  }

  /**
    The list is built question by question, in file order: a question adds
    its number exactly when its image is missing.
   */
  lemma {:induction false} MissingAssetsInOrder(assetExists: string -> bool, a: seq<Question>, b: seq<Question>, q: Question)
    ensures MissingAssets(assetExists, a + b) == MissingAssets(assetExists, a) + MissingAssets(assetExists, b)
    ensures MissingAssets(assetExists, [q]) == if HasAsset(assetExists, q) then [] else [q.number]
    decreases |a|
  {
    assert [q][1..] == [];
    if |a| == 0 {
      assert a + b == b;
    } else {
      var head := if HasAsset(assetExists, a[0]) then [] else [a[0].number];
      assert (a + b)[0] == a[0] && (a + b)[1..] == a[1..] + b;
      assert MissingAssets(assetExists, a + b) == head + MissingAssets(assetExists, a[1..] + b);
      assert MissingAssets(assetExists, a) == head + MissingAssets(assetExists, a[1..]);
      MissingAssetsInOrder(assetExists, a[1..], b, q);
    }
  }

  /** The text-quality, bounding-box and enrichment findings. */
  function QualityWarnings(u: Unicode, qs: seq<Question>, optionsPh: nat, options: nat): (r: Warnings)
    ensures r.stemsPlaceholder <==> 2 * StemPlaceholders(u, qs) > Max1(|qs|)
    ensures r.optionsPlaceholder <==> 2 * optionsPh > Max1(options)
    ensures r.smallBBoxes <==> Count(qs, HasSmallBBox) >= 5
    ensures r.lowEnrichment <==> Count(qs, IsEnriched) < Max1(|qs|)
  {
    Warnings(false, false,
      2 * StemPlaceholders(u, qs) > Max1(|qs|),
      2 * optionsPh > Max1(options),
      |Filter(qs, HasSmallBBox)| >= 5,
      Count(qs, IsEnriched) < Max1(|qs|))
  }

  /** The verdict: the count and the numbers present decide it, and nothing else. */
  function Verdict(qs: seq<Question>): (r: (bool, Errors, seq<int>))
    ensures r.0 <==> |qs| == 90 && AllNumbersPresent(qs)
    ensures r.0 <==> !r.1.wrongCount && !r.1.numbersMissing
    ensures !r.1.jsonMissing && !r.1.jsonInvalid
    ensures r.1.wrongCount <==> |qs| != 90
    ensures r.1.numbersMissing <==> !AllNumbersPresent(qs)
    ensures forall n :: n in r.2 <==> 1 <= n <= 90 && n !in Numbers(qs)
  {
    var missing := Absent90(qs);
    (|qs| == 90 && |missing| == 0, Errors(false, false, |qs| != 90, |missing| > 0), missing)
  }

  /** The findings that only ever raise warnings. */
  function Findings(env: Env, year: int, qs: seq<Question>): (r: (Warnings, Counts))
    ensures forall i :: 0 <= i < |qs| && !HasAsset(env.assetExists, qs[i]) ==> qs[i].number in r.1.missingAssets
    ensures r.0.assetsMissing <==> !forall i :: 0 <= i < |qs| ==> HasAsset(env.assetExists, qs[i])
    ensures r.0.noPagesDir <==> env.pages(year).None?
    ensures r.0.stemsPlaceholder <==> 2 * StemPlaceholders(env.unicode, qs) > Max1(|qs|)
    ensures r.0.optionsPlaceholder <==> 2 * r.1.optionPlaceholders > Max1(r.1.totalOptions)
    ensures r.1.optionPlaceholders <= r.1.totalOptions == |AllOptions(qs)|
    ensures r.0.smallBBoxes <==> Count(qs, HasSmallBBox) >= 5
    ensures r.0.lowEnrichment <==> Count(qs, IsEnriched) < Max1(|qs|)
  {
    var u := env.unicode;
    var noAsset := MissingAssets(env.assetExists, qs);
    var pageCount := match env.pages(year) case Some(names) => Count(names, EndsWithPng) case None => 0;
    var options := AllOptions(qs);
    var optionsPh := OptionPlaceholders(u, options);
    var quality := QualityWarnings(u, qs, optionsPh, |options|);
    (quality.(assetsMissing := |noAsset| > 0, noPagesDir := env.pages(year).None?),
     Counts(noAsset, pageCount, StemPlaceholders(u, qs), optionsPh, |options|,
       NumbersOf(Filter(qs, HasSmallBBox)), Count(qs, IsEnriched)))
  }

  /**
    The report for a year whose file could be read: `passed` depends only on
    the count and on the numbers present; every other finding is a warning.
   */
  function Inspect(env: Env, year: int, qs: seq<Question>): (r: Report)
    ensures r.passed <==> |qs| == 90 && AllNumbersPresent(qs)
    ensures r.passed <==> !r.errors.wrongCount && !r.errors.numbersMissing
    ensures r.errors.wrongCount <==> |qs| != 90
    ensures r.errors.numbersMissing <==> !AllNumbersPresent(qs)
    ensures forall n :: n in r.missingNumbers <==> 1 <= n <= 90 && n !in Numbers(qs)
    ensures r.warnings.assetsMissing <==> !forall i :: 0 <= i < |qs| ==> HasAsset(env.assetExists, qs[i])
    ensures r.warnings.noPagesDir <==> env.pages(year).None?
    ensures r.warnings.stemsPlaceholder <==> 2 * StemPlaceholders(env.unicode, qs) > Max1(|qs|)
    ensures r.warnings.optionsPlaceholder <==> 2 * r.counts.optionPlaceholders > Max1(r.counts.totalOptions)
    ensures r.warnings.smallBBoxes <==> Count(qs, HasSmallBBox) >= 5
    ensures r.warnings.lowEnrichment <==> Count(qs, IsEnriched) < Max1(|qs|)
  {
    var (passed, errors, missing) := Verdict(qs);
    var (warnings, counts) := Findings(env, year, qs);
    Report(year, passed, errors, |qs|, missing, warnings, counts)
  }

  function NumbersOf(qs: seq<Question>): (r: seq<int>)
    ensures |r| == |qs|
    ensures forall i :: 0 <= i < |qs| ==> r[i] == qs[i].number
  {
    seq(|qs|, i requires 0 <= i < |qs| => qs[i].number)
  }

  /**
    `check_year`: a missing or unreadable file fails at once with one error;
    otherwise the loaded questions are inspected.
   */
  function CheckYear(env: Env, year: int): (r: Report)
    ensures r.year == year
    ensures env.file(year).Absent? ==> !r.passed && r.errors.jsonMissing && r.warnings == NoWarnings
    ensures env.file(year).Invalid? ==> !r.passed && r.errors.jsonInvalid && r.warnings == NoWarnings
    ensures env.file(year).Loaded? ==>
      (r.passed <==> |env.file(year).questions| == 90 && AllNumbersPresent(env.file(year).questions))
  {
    match env.file(year)
    case Absent => Report(year, false, Errors(true, false, false, false), 0, [], NoWarnings, NoCounts)
    case Invalid => Report(year, false, Errors(false, true, false, false), 0, [], NoWarnings, NoCounts)
    case Loaded(qs) => Inspect(env, year, qs)
  }

  /** A year that passes holds each number 1..90 exactly once, and no other number. */
  lemma PassedMeansEachNumberOnce(env: Env, year: int)
    requires env.file(year).Loaded? && CheckYear(env, year).passed
    ensures var qs := env.file(year).questions;
      |qs| == 90 && NumbersWithin(qs, 90) && DistinctNumbers(qs)
  {
    var qs := env.file(year).questions;
    assert |qs| == 90 && AllNumbersPresent(qs);
    CoveringMeansEachOnce(qs, 90);
  }

  /** The command line: `--year` (ignored when 0, as Python treats 0 as false) and `--all`. */
  datatype Args = Args(year: Option<int>, all: bool)

  /** The years to check, or None for the usage message. */
  function Years(args: Args, available: seq<int>): (r: Option<seq<int>>)
    ensures args.year.Some? && args.year.value != 0 ==> r == Some([args.year.value])
    ensures (args.year.None? || args.year.value == 0) && !args.all ==> r.None?
    ensures (args.year.None? || args.year.value == 0) && args.all ==>
      r.Some? && multiset(r.value) == multiset(available)
      && forall i, j :: 0 <= i < j < |r.value| ==> r.value[i] <= r.value[j]
  {
    if args.year.Some? && args.year.value != 0 then Some([args.year.value])
    else if args.all then
      var sorted := SortBy(available, Plain);
      assert forall i, j :: 0 <= i < j < |sorted| ==> KeyLe(Plain(sorted[i]), Plain(sorted[j]));
      Some(sorted)
    else None
  }

  /**
    `main`: one report per selected year, in order, and exit status 0 exactly
    when a year selection was given and every selected year passed.
   */
  function Run(env: Env, args: Args, available: seq<int>): (r: (seq<Report>, int))
    ensures Years(args, available).None? ==> r == ([], 1)
    ensures Years(args, available).Some? ==>
      |r.0| == |Years(args, available).value|
      && forall i :: 0 <= i < |r.0| ==> r.0[i] == CheckYear(env, Years(args, available).value[i])
    ensures r.1 == 0 <==> Years(args, available).Some? && forall i :: 0 <= i < |r.0| ==> r.0[i].passed
    ensures r.1 == 0 || r.1 == 1
  {
    match Years(args, available)
    case None => ([], 1)
    case Some(years) =>
      var reports := seq(|years|, i requires 0 <= i < |years| => CheckYear(env, years[i]));
      (reports, if forall i :: 0 <= i < |reports| ==> reports[i].passed then 0 else 1)
  }

  /** Lower-casing of the ASCII range. */
  function AsciiLower(c: char): char {
    if 'A' <= c <= 'Z' then (c as int + 32) as char else c
  }

  /** The Unicode tables agree with ASCII on ASCII characters, as the real ones do. */
  predicate AsciiFaithful(u: Unicode) {
    forall c: char :: c < '\U{80}' ==> u.lower(c) == [AsciiLower(c)] && u.decompose(c) == [c] && !u.combining(c)
  }

  lemma {:induction false} FlatMapAscii(u: Unicode, s: string)
    requires AsciiFaithful(u)
    requires forall i :: 0 <= i < |s| ==> s[i] < '\U{80}'
    ensures FlatMap(s, u.lower) == seq(|s|, i requires 0 <= i < |s| => AsciiLower(s[i]))
    ensures FlatMap(s, u.decompose) == s
  {
    if |s| > 0 {
      FlatMapAscii(u, s[1..]);
    }
  }

  function LowerAsciiString(h: string): (r: string)
    ensures |r| == |h|
  {
    seq(|h|, i requires 0 <= i < |h| => AsciiLower(h[i]))
  }

  /** An ASCII text in collapsed form. */
  predicate CollapsedAscii(h: string) {
    && (forall i :: 0 <= i < |h| ==> h[i] < '\U{80}')
    && (forall i :: 0 <= i < |h| ==> h[i] == ' ' || !IsPySpace(h[i]))
    && (forall i :: 0 <= i < |h| - 1 ==> !(h[i] == ' ' && h[i + 1] == ' '))
  }

  lemma LowerKeepsCollapsed(h: string)
    requires CollapsedAscii(h)
    ensures CollapsedAscii(LowerAsciiString(h))
    ensures forall i :: 0 <= i < |h| ==> (IsPySpace(LowerAsciiString(h)[i]) <==> IsPySpace(h[i]))
  {
  }

  /**
    Normalising a text whose start is collapsed ASCII without surrounding
    spaces yields that start, lower-cased, followed by the rest's normal form.
   */
  lemma NormAsciiHead(u: Unicode, h: string, tail: string)
    requires AsciiFaithful(u) && CollapsedAscii(h)
    requires |h| > 0 && !IsPySpace(h[0]) && !IsPySpace(h[|h| - 1])
    requires |tail| > 0 && !IsPySpace(tail[|tail| - 1])
    ensures exists w :: Norm(u, h + tail) == LowerAsciiString(h) + w
  {
    var s := h + tail;
    var low := LowerAsciiString(h);
    assert s[0] == h[0] && s[|s| - 1] == tail[|tail| - 1];
    StripByUnchanged(s, IsPySpace);
    FlatMapConcat(h, tail, u.lower);
    FlatMapAscii(u, h);
    LowerKeepsCollapsed(h);
    var x := FlatMap(tail, u.lower);
    FlatMapConcat(low, x, u.decompose);
    FlatMapAscii(u, low);
    var y := FlatMap(x, u.decompose);
    FilterConcat(low, y, (c: char) => !u.combining(c));
    FilterAll(low, (c: char) => !u.combining(c));
    var z := DropCombining(u, y);
    CollapseConcat(low, z);
    CollapseFixed(low);
    assert Norm(u, s) == low + Collapse(z);
  }

  /** The ASCII start of the placeholder text, up to the first accented letter. */
  const PlaceholderHead: string := "(Veja a imagem da quest"

  lemma HeadIsCollapsedAscii()
    ensures CollapsedAscii(PlaceholderHead)
    ensures !IsPySpace(PlaceholderHead[0]) && !IsPySpace(PlaceholderHead[|PlaceholderHead| - 1])
  {
    var h := PlaceholderHead;
    HeadIsAscii();
    HeadSpacesArePlain();
    HeadSpacesAreSingle();
  }

  lemma HeadIsAscii()
    ensures forall i :: 0 <= i < |PlaceholderHead| ==> PlaceholderHead[i] < '\U{80}'
  {
  }

  lemma HeadSpacesArePlain()
    ensures forall i :: 0 <= i < |PlaceholderHead| ==> PlaceholderHead[i] == ' ' || !IsPySpace(PlaceholderHead[i])
  {
  }

  lemma HeadSpacesAreSingle()
    ensures forall i :: 0 <= i < |PlaceholderHead| - 1 ==> !(PlaceholderHead[i] == ' ' && PlaceholderHead[i + 1] == ' ')
  {
  }

  lemma HeadLowersToMarker()
    ensures LowerAsciiString(PlaceholderHead)[1..] == Marker
  {
  }

  /** The placeholder text the completion tools write is recognised as a placeholder by the gate. */
  lemma PlaceholderRecognised(u: Unicode)
    requires AsciiFaithful(u)
    ensures IsPlaceholder(u, Placeholder)
  {
    var tail := "\U{E3}o)";
    assert Placeholder == PlaceholderHead + tail;
    HeadIsCollapsedAscii();
    NormAsciiHead(u, PlaceholderHead, tail);
    var w :| Norm(u, Placeholder) == LowerAsciiString(PlaceholderHead) + w;
    HeadLowersToMarker();
    assert OccursAt(Norm(u, Placeholder), Marker, 1);
  }
}
