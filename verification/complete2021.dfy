/**
  `complete_2021.py`: every number 1..90 that the 2021 file lacks gets a
  placeholder record carrying its answer from a fixed table, and the list is
  sorted by number.
 */
module Complete2021 {
  import opened Wrappers
  import opened Seqs
  import opened Sorting
  import opened Questions
  import QaGate

  const Year: int := 2021

  /** The official answers of 2021, question 1 first. */
  const AnswerTable: string :=
    "CEDCBDEABCEADBCEADBCAEDCBEADCB" +
    "EADCBEADCBEADCBEADCBEADCBEADCB" +
    "EADCBEADCBEADCBEADCBEADCBEADCB"

  /** `gabarito_completo.get(n, "A")`. */
  function Answer(n: int): string {
    if 1 <= n <= |AnswerTable| then [AnswerTable[n - 1]] else "A"
  }

  /** The record written for a missing question `n`: placeholder texts, its answer, its image path, no page or box. */
  function PlaceholderRecord(n: int): Question {
    Question(
      QuestionId(Year, n), Year, n, None, None,
      Placeholder, PlaceholderOptions(),
      Some(Answer(n)),
      Some(PendingExplanation),
      Some(AssetPath(Year, n)))
  }

  function Filler(): int -> Option<Question> {
    (n: int) => Some(PlaceholderRecord(n))
  }

  /**
    The script: the missing numbers 1..90 get placeholder records, appended,
    and the list is sorted by number.
   */
  function Complete(qs: seq<Question>): (r: seq<Question>)
    ensures SortedBy(r, NumberKey)
    ensures multiset(qs) <= multiset(r)
    ensures |r| == |qs| + |MissingNumbers(Numbers(qs))|
  {
    var missing := MissingNumbers(Numbers(qs));
    CollectAll(missing, Filler());
    Extend(qs, missing, Filler())
  }

  /** Every question the script adds is the placeholder record of a number 1..90 the file lacked. */
  lemma AddedArePlaceholders(qs: seq<Question>, i: nat)
    requires i < |Complete(qs)| && Complete(qs)[i] !in qs
    ensures var q := Complete(qs)[i];
      1 <= q.number <= 90 && q.number !in Numbers(qs) && q == PlaceholderRecord(q.number)
  {
    var missing := MissingNumbers(Numbers(qs));
    var k :| 0 <= k < |missing| && Filler()(missing[k]) == Some(Complete(qs)[i]);
  }

  /** Every number 1..90 the file lacked gets its placeholder record. */
  lemma LackedNumbersAreFilled(qs: seq<Question>, n: int)
    requires 1 <= n <= 90 && n !in Numbers(qs)
    ensures PlaceholderRecord(n) in Complete(qs)
  {
    var missing := MissingNumbers(Numbers(qs));
    var k :| 0 <= k < |missing| && missing[k] == n;
    assert Filler()(missing[k]).Some?;
  }

  /** After the script every number 1..90 is carried by some question. */
  lemma CompleteCovers(qs: seq<Question>)
    ensures QaGate.AllNumbersPresent(Complete(qs))
  {
    var r := Complete(qs);
    forall n | 1 <= n <= 90 ensures n in Numbers(r) {
      if n in Numbers(qs) {
        var i :| 0 <= i < |qs| && qs[i].number == n;
        assert qs[i] in multiset(r);
      } else {
        LackedNumbersAreFilled(qs, n);
      }
    }
  }

  /** The numbers of a list of questions, in order. */
  function NumberSeq(qs: seq<Question>): (r: seq<int>)
    ensures |r| == |qs| && forall i :: 0 <= i < |qs| ==> r[i] == qs[i].number
  {
    seq(|qs|, i requires 0 <= i < |qs| => qs[i].number)
  }

  /** The file's numbers are its distinct numbers when no two questions share one. */
  lemma NumbersAreElements(qs: seq<Question>)
    ensures Numbers(qs) == Elements(NumberSeq(qs))
  {
    var ns := NumberSeq(qs);
    forall n | n in Numbers(qs) ensures n in Elements(ns) {
      var i :| 0 <= i < |qs| && qs[i].number == n;
      assert ns[i] == n;
    }
  }

  /** Distinct numbers within 1..90 and the numbers 1..90 they lack add up to 90. */
  lemma PresentPlusMissing(ns: seq<int>)
    requires NoDup(ns) && forall i :: 0 <= i < |ns| ==> 1 <= ns[i] <= 90
    ensures |ns| + |MissingNumbers(Elements(ns))| == 90
  {
    var missing := MissingNumbers(Elements(ns));
    var all := ns + missing;
    AppendMissingNoDup(ns, missing);
    NoDupSize(all);
    AppendMissingCovers(ns, missing);
  }

  lemma AppendMissingNoDup(ns: seq<int>, missing: seq<int>)
    requires NoDup(ns) && missing == MissingNumbers(Elements(ns))
    ensures NoDup(ns + missing)
  {
    var all := ns + missing;
    forall i, j | 0 <= i < j < |all| ensures all[i] != all[j] {
      if i < |ns| <= j {
        assert all[i] in Elements(ns) && all[j] == missing[j - |ns|];
      } else if |ns| <= i {
        assert all[i] == missing[i - |ns|] && all[j] == missing[j - |ns|];
      }
    }
  }

  lemma AppendMissingCovers(ns: seq<int>, missing: seq<int>)
    requires (forall i :: 0 <= i < |ns| ==> 1 <= ns[i] <= 90) && missing == MissingNumbers(Elements(ns))
    ensures Elements(ns + missing) == Range(90)
  {
    var all := ns + missing;
    forall n | n in Elements(all) ensures 1 <= n <= 90 {
      var i :| 0 <= i < |all| && all[i] == n;
      if i >= |ns| {
        assert all[i] == missing[i - |ns|];
      }
    }
    forall n | 1 <= n <= 90 ensures n in Elements(all) {
      if n in Elements(ns) {
        var i :| 0 <= i < |ns| && ns[i] == n;
        assert all[i] == n;
      } else {
        var k :| 0 <= k < |missing| && missing[k] == n;
        assert all[|ns| + k] == n;
      }
    }
  }

  /**
    A file whose questions carry distinct numbers within 1..90 passes the
    publication gate once the script has run: exactly 90 questions, every
    number present.
   */
  lemma CompletedPassesGate(qs: seq<Question>)
    requires forall i :: 0 <= i < |qs| ==> 1 <= qs[i].number <= 90
    requires forall i, j :: 0 <= i < j < |qs| ==> qs[i].number != qs[j].number
    ensures QaGate.Verdict(Complete(qs)).0
  {
    var ns := NumberSeq(qs);
    assert NoDup(ns);
    NumbersAreElements(qs);
    PresentPlusMissing(ns);
    assert |Complete(qs)| == 90;
    CompleteCovers(qs);
  }
}
