/**
  The per-year question record stored in `fuvest-<year>.json`, shared by the
  Python tools that build it and the question bank that reads it.
 */
module Questions {
  import opened Wrappers
  import opened Text
  import opened Sorting
  import opened Seqs

  /** Pixel rectangle of a question on its page image. */
  datatype BBox = BBox(x: int, y: int, w: int, h: int)

  /** One answer option: a letter key and its text. */
  datatype Choice = Choice(key: string, text: string)

  /** The explanation payload; only its `theory` text drives any decision. */
  datatype Explanation = Explanation(theory: Option<string>, steps: seq<string>)

  datatype Question = Question(
    id: string,
    year: int,
    number: int,                   // `q.get("number", 0)`
    page: Option<int>,
    bbox: Option<BBox>,
    stem: string,
    options: seq<Choice>,
    answer: Option<string>,        // `answer.correct`, absent when the key had no entry
    explanation: Option<Explanation>,
    asset: Option<string>          // `assets.questionImage`
  )

  /** The text written wherever a stem or option could not be recovered. */
  const Placeholder: string := "(Veja a imagem da quest\U{E3}o)"

  /** The `theory` value of a question that has not been enriched yet. */
  const Pending: string := "Pendente"

  /** The explanation every newly built record starts with. */
  const PendingExplanation: Explanation := Explanation(Some(Pending), [])

  /** The five option letters, in order. */
  const Letters: seq<string> := ["A", "B", "C", "D", "E"]

  /** Five options all holding the placeholder text. */
  function PlaceholderOptions(): (r: seq<Choice>)
    ensures |r| == 5
    ensures forall i :: 0 <= i < 5 ==> r[i] == Choice(Letters[i], Placeholder)
  {
    seq(5, i requires 0 <= i < 5 => Choice(Letters[i], Placeholder))
  }

  /** `f"fuvest-{year}-q{number:02d}"`. */
  function QuestionId(year: int, number: int): string {
    "fuvest-" + IntToString(year) + "-q" + Pad2(number)
  }

  /** `f"/assets/questions/{year}/q{number:02d}/image.png"`. */
  function AssetPath(year: int, number: int): string {
    "/assets/questions/" + IntToString(year) + "/q" + Pad2(number) + "/image.png"
  }

  /** The two digits inside a question id spell the question number back. */
  lemma QuestionIdEndsInNumber(year: int, number: int)
    requires 0 <= number
    ensures var id := QuestionId(year, number);
      var tail := id[|id| - |Pad2(number)|..];
      (forall i :: 0 <= i < |tail| ==> IsDigit(tail[i])) && DecimalValue(tail) == number
  {
    var id := QuestionId(year, number);
    assert id[|id| - |Pad2(number)|..] == Pad2(number);
  }

  function NumberKey(q: Question): Key {
    Plain(q.number)
  }

  /** `questions.sort(key=lambda q: q.get("number", 0))`, a stable sort. */
  function SortByNumber(qs: seq<Question>): (r: seq<Question>)
    ensures SortedBy(r, NumberKey)
    ensures multiset(r) == multiset(qs)
    ensures |r| == |qs|
    ensures forall k :: WithKey(r, NumberKey, k) == WithKey(qs, NumberKey, k)
  {
    SortBy(qs, NumberKey)
  }

  /** A list sorted by number has non-decreasing numbers. */
  lemma SortedNumbers(qs: seq<Question>)
    requires SortedBy(qs, NumberKey)
    ensures forall i, j :: 0 <= i < j < |qs| ==> qs[i].number <= qs[j].number
  {
    forall i, j | 0 <= i < j < |qs| ensures qs[i].number <= qs[j].number {
      assert KeyLe(NumberKey(qs[i]), NumberKey(qs[j]));
    }
  }

  /** The numbers of a list of questions. */
  function Numbers(qs: seq<Question>): (r: set<int>)
    ensures forall i :: 0 <= i < |qs| ==> qs[i].number in r
    ensures forall n :: n in r ==> exists i :: 0 <= i < |qs| && qs[i].number == n
  {
    set i | 0 <= i < |qs| :: qs[i].number
  }

  /** The numbers 1..90 that are not in `present`, ascending. */
  function MissingNumbers(present: set<int>): (r: seq<int>)
    ensures forall i :: 0 <= i < |r| ==> 1 <= r[i] <= 90 && r[i] !in present
    ensures forall n :: 1 <= n <= 90 && n !in present ==> n in r
    ensures forall i, j :: 0 <= i < j < |r| ==> r[i] < r[j]
  {
    MissingFrom(present, 1)
  }

  function MissingFrom(present: set<int>, lo: int): (r: seq<int>)
    requires 1 <= lo <= 91
    ensures forall i :: 0 <= i < |r| ==> lo <= r[i] <= 90 && r[i] !in present
    ensures forall n :: lo <= n <= 90 && n !in present ==> n in r
    ensures forall i, j :: 0 <= i < j < |r| ==> r[i] < r[j]
    decreases 91 - lo
  {
    if lo == 91 then []
    else if lo in present then MissingFrom(present, lo + 1)
    else [lo] + MissingFrom(present, lo + 1)
  }

  /** The numbers 1..hi as a set. */
  function Range(hi: nat): (r: set<int>)
    ensures forall n :: n in r <==> 1 <= n <= hi
    ensures |r| == hi
  {
    if hi == 0 then {} else Range(hi - 1) + {hi}
  }

  lemma {:induction false} SubsetSize<T>(a: set<T>, b: set<T>)
    requires a <= b
    ensures |a| <= |b|
  {
    assert b == a + (b - a);
  }

  lemma NumbersCons(qs: seq<Question>)
    requires |qs| > 0
    ensures Numbers(qs) == {qs[0].number} + Numbers(qs[1..])
  {
    var rest := qs[1..];
    forall n | n in Numbers(qs) ensures n in {qs[0].number} + Numbers(rest) {
      var i :| 0 <= i < |qs| && qs[i].number == n;
      if i > 0 {
        assert rest[i - 1] == qs[i];
      }
    }
  }

  /** A list of questions has at most as many distinct numbers as entries. */
  lemma {:induction false} NumbersSize(qs: seq<Question>)
    ensures |Numbers(qs)| <= |qs|
  {
    if |qs| > 0 {
      NumbersCons(qs);
      NumbersSize(qs[1..]);
    }
  }

  /** Two entries sharing a number leave fewer distinct numbers than entries. */
  lemma {:induction false} NumbersSizeShared(qs: seq<Question>, i: nat, j: nat)
    requires i < j < |qs| && qs[i].number == qs[j].number
    ensures |Numbers(qs)| < |qs|
  {
    var rest := qs[1..];
    NumbersCons(qs);
    if i == 0 {
      assert rest[j - 1] == qs[j];
      assert Numbers(qs) == Numbers(rest);
      NumbersSize(rest);
    } else {
      assert rest[i - 1] == qs[i] && rest[j - 1] == qs[j];
      NumbersSizeShared(rest, i - 1, j - 1);
    }
  }

  /** Every question carries a number in 1..hi. */
  predicate NumbersWithin(qs: seq<Question>, hi: int) {
    forall i :: 0 <= i < |qs| ==> 1 <= qs[i].number <= hi
  }

  /** No two questions carry the same number. */
  predicate DistinctNumbers(qs: seq<Question>) {
    forall i, j :: 0 <= i < j < |qs| ==> qs[i].number != qs[j].number
  }

  /**
    `hi` questions that between them carry every number 1..hi carry each of
    those numbers exactly once, and no other number.
   */
  lemma CoveringMeansEachOnce(qs: seq<Question>, hi: nat)
    requires |qs| == hi
    requires forall n :: 1 <= n <= hi ==> n in Numbers(qs)
    ensures NumbersWithin(qs, hi) && DistinctNumbers(qs)
  {
    var full := Range(hi);
    NumbersSize(qs);
    forall i | 0 <= i < |qs| ensures 1 <= qs[i].number <= hi {
      if !(1 <= qs[i].number <= hi) {
        SubsetSize(full + {qs[i].number}, Numbers(qs));
      }
    }
    forall i, j | 0 <= i < j < |qs| ensures qs[i].number != qs[j].number {
      if qs[i].number == qs[j].number {
        NumbersSizeShared(qs, i, j);
        SubsetSize(full, Numbers(qs));
      }
    }
  }

  /**
    The records `rec` builds for the numbers `ns` (for those it builds one
    for) appended to `qs`, and the list sorted by number.
   */
  function Extend(qs: seq<Question>, ns: seq<int>, rec: int -> Option<Question>): (r: seq<Question>)
    ensures SortedBy(r, NumberKey)
    ensures multiset(r) == multiset(qs) + multiset(Collect(ns, rec))
    ensures multiset(qs) <= multiset(r)
    ensures |r| == |qs| + |Collect(ns, rec)|
    ensures forall i :: 0 <= i < |r| ==> r[i] in qs || exists k :: 0 <= k < |ns| && rec(ns[k]) == Some(r[i])
    ensures forall k :: 0 <= k < |ns| && rec(ns[k]).Some? ==> rec(ns[k]).value in r
    ensures forall k :: WithKey(r, NumberKey, k) == WithKey(qs, NumberKey, k) + WithKey(Collect(ns, rec), NumberKey, k)
  {
    var added := Collect(ns, rec);
    var r := SortByNumber(qs + added);
    forall k ensures WithKey(r, NumberKey, k) == WithKey(qs, NumberKey, k) + WithKey(added, NumberKey, k) {
      WithKeyConcat(qs, added, NumberKey, k);
    }
    forall i | 0 <= i < |r| ensures r[i] in qs || exists k :: 0 <= k < |ns| && rec(ns[k]) == Some(r[i]) {
      if r[i] !in qs {
        FromSecondPart(qs, added, r, r[i]);
      }
    }
    forall k | 0 <= k < |ns| && rec(ns[k]).Some? ensures rec(ns[k]).value in r {
      IntoRearrangement(qs, added, r, rec(ns[k]).value);
    }
    r
  }

  function NotIn(bad: seq<int>): Question -> bool {
    (q: Question) => q.number !in bad
  }

  /**
    The questions whose number is in `bad` removed, the records `rec` builds
    for those numbers (when it builds one) appended, and the list sorted by
    number.
   */
  function Replace(qs: seq<Question>, bad: seq<int>, rec: int -> Option<Question>): (r: seq<Question>)
    ensures SortedBy(r, NumberKey)
    ensures multiset(r) == multiset(Filter(qs, NotIn(bad))) + multiset(Collect(bad, rec))
    ensures |r| == Count(qs, NotIn(bad)) + |Collect(bad, rec)|
    ensures forall i :: 0 <= i < |qs| && qs[i].number !in bad ==> qs[i] in r
    ensures forall i :: 0 <= i < |r| ==> (r[i] in qs && r[i].number !in bad) || exists k :: 0 <= k < |bad| && rec(bad[k]) == Some(r[i])
    ensures forall k :: 0 <= k < |bad| && rec(bad[k]).Some? ==> rec(bad[k]).value in r
    ensures forall k :: WithKey(r, NumberKey, k) == WithKey(Filter(qs, NotIn(bad)), NumberKey, k) + WithKey(Collect(bad, rec), NumberKey, k)
  {
    var kept := Filter(qs, NotIn(bad));
    var rebuilt := Collect(bad, rec);
    var r := SortByNumber(kept + rebuilt);
    forall k ensures WithKey(r, NumberKey, k) == WithKey(kept, NumberKey, k) + WithKey(rebuilt, NumberKey, k) {
      WithKeyConcat(kept, rebuilt, NumberKey, k);
    }
    forall i | 0 <= i < |r|
      ensures (r[i] in qs && r[i].number !in bad) || exists k :: 0 <= k < |bad| && rec(bad[k]) == Some(r[i])
    {
      if r[i] !in kept {
        FromSecondPart(kept, rebuilt, r, r[i]);
      }
    }
    forall i | 0 <= i < |qs| && qs[i].number !in bad ensures qs[i] in r {
      assert NotIn(bad)(qs[i]);
      IntoRearrangement(kept, rebuilt, r, qs[i]);
    }
    forall k | 0 <= k < |bad| && rec(bad[k]).Some? ensures rec(bad[k]).value in r {
      IntoRearrangement(kept, rebuilt, r, rec(bad[k]).value);
    }
    r
  }

  // ---------------------------------------------------------------------------
  // Answer keys and stems shared by the completion tools

  /**
    The answer key read from the key PDF: every regular-expression match
    `(number, letter)` is written in order, so a later match for a number
    overwrites an earlier one. A key file that cannot be read gives the
    empty key.
   */
  function AnswerKey(read: Option<seq<(int, string)>>): (m: map<int, string>)
    ensures read.None? ==> m == map[]
    ensures read.Some? ==> forall i :: 0 <= i < |read.value| ==> read.value[i].0 in m
    ensures read.Some? ==> forall n :: n in m ==> exists i :: 0 <= i < |read.value| && read.value[i].0 == n
    ensures read.Some? ==> forall i :: 0 <= i < |read.value| && (forall j :: i < j < |read.value| ==> read.value[j].0 != read.value[i].0) ==>
      m[read.value[i].0] == read.value[i].1
  {
    if read.None? then map[] else LastWins(read.value)
  }

  /** `gabarito.get(n, "A")`: the keyed letter, or A when the key has none. */
  function CorrectOr(key: map<int, string>, n: int): string {
    if n in key then key[n] else "A"
  }

  /** The longest stem kept. */
  const MaxStem: nat := 2000

  lemma PieceOfSuffix(r: string, t: string, s: string, k: nat)
    requires k <= |s| && t == s[k..]
    requires IsPiece(r, t)
    ensures IsPiece(r, s)
  {
    var i, j :| 0 <= i <= j <= |t| && r == t[i..j];
    assert r == s[k + i..k + j];
  }

  lemma PieceOfPrefix(r: string, s: string, n: nat)
    requires IsPiece(r, s)
    ensures IsPiece(Take(r, n), s)
  {
    var i, j :| 0 <= i <= j <= |s| && r == s[i..j];
    assert Take(r, n) == s[i..i + |Take(r, n)|];
  }

  /**
    `re.sub(r'^\s*\d{1,2}\s*[.\)]\s*', '', stem).strip()`: the stem after
    its question-number prefix, or the whole stem when it has none, stripped.
   */
  function Cleaned(stem: string): (r: string)
    ensures forall k :: 0 <= k <= |stem| && NumberPrefix(stem, k) ==> r == Strip(stem[k..])
    ensures (forall k :: !NumberPrefix(stem, k)) ==> r == Strip(stem)
    ensures IsPiece(r, stem)
    ensures |r| > 0 ==> !IsPySpace(r[0]) && !IsPySpace(r[|r| - 1])
  {
    CleanedIsPiece(stem);
    CleanedCases(stem);
    Strip(StripNumberPrefix(stem))
  }

  lemma CleanedCases(stem: string)
    ensures forall k :: 0 <= k <= |stem| && NumberPrefix(stem, k) ==> Strip(StripNumberPrefix(stem)) == Strip(stem[k..])
    ensures (forall k :: !NumberPrefix(stem, k)) ==> Strip(StripNumberPrefix(stem)) == Strip(stem)
  {
  }

  lemma CleanedIsPiece(stem: string)
    ensures IsPiece(Strip(StripNumberPrefix(stem)), stem)
    ensures var r := Strip(StripNumberPrefix(stem)); |r| > 0 ==> !IsPySpace(r[0]) && !IsPySpace(r[|r| - 1])
  {
    var t := StripNumberPrefix(stem);
    StripIsPiece(t);
    var k :| 0 <= k <= |stem| && t == stem[k..];
    PieceOfSuffix(Strip(t), t, stem, k);
  }

  /**
    The end of both stem cleanups: the placeholder when the cleaned text `c`
    is shorter than `min` or is rejected, otherwise `c` cut to 2000
    characters.
   */
  function KeepStem(c: string, stem: string, min: nat, reject: bool): (r: string)
    requires IsPiece(c, stem) && min <= MaxStem
    ensures |r| <= MaxStem
    ensures |c| < min || reject ==> r == Placeholder
    ensures |c| >= min && !reject ==> r == Take(c, MaxStem)
    ensures r != Placeholder ==> min <= |r| && IsPiece(r, stem)
  {
    assert |Placeholder| < MaxStem;
    if |c| < min || reject then Placeholder
    else
      var r := Take(c, MaxStem);
      PieceOfPrefix(c, stem, MaxStem);
      assert |r| == if |c| < MaxStem then |c| else MaxStem;
      r
  }
}
