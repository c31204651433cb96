/**
  `enrich.py`: the questions of a year whose explanation is still pending are
  sent, in file order and up to an optional limit, to a language model that
  writes an explanation; the file is rewritten when at least one came back.
  The model call (with its cache) is the parameter `enrich`: absent when the
  call fails or returns an empty object.
 */
module Enrich {
  import opened Wrappers
  import opened Seqs
  import opened Questions

  /** `q.get('explanation', {}).get('theory') == "Pendente"`. */
  predicate IsPending(q: Question) {
    q.explanation.Some? && q.explanation.value.theory == Some(Pending)
  }

  /** `q` after one enrichment attempt: the new explanation when one came back, unchanged otherwise. */
  function Enriched(q: Question, enrich: Question -> Option<Explanation>): Question {
    if enrich(q).Some? then q.(explanation := enrich(q)) else q
  }

  function Succeeds(enrich: Question -> Option<Explanation>): Question -> bool {
    (q: Question) => enrich(q).Some?
  }

  /** How many pending questions are attempted: all of them, or at most `limit` when it is positive. */
  function Attempts(qs: seq<Question>, limit: int): (n: nat)
    ensures n <= Count(qs, IsPending)
    ensures limit > 0 ==> n <= limit
    ensures limit <= 0 ==> n == Count(qs, IsPending)
    ensures limit > 0 && n < limit ==> n == Count(qs, IsPending)
  {
    var pending := Count(qs, IsPending);
    if limit > 0 && limit < pending then limit else pending
  }

  /** The questions of `qs` up to `stop`, pending ones enriched, the rest unchanged. */
  predicate SweptTo(qs: seq<Question>, r: seq<Question>, stop: nat, enrich: Question -> Option<Explanation>)
    requires stop <= |qs| == |r|
  {
    && (forall j :: 0 <= j < stop ==> r[j] == (if IsPending(qs[j]) then Enriched(qs[j], enrich) else qs[j]))
    && (forall j :: stop <= j < |qs| ==> r[j] == qs[j])
  }

  /**
    The loop of `main`: it walks the questions in order, attempts each pending
    one, and stops after the question that brings the number attempted to a
    positive `limit`. `stop` is how far it got and `count` how many it attempted.
   */
  method Sweep(qs: seq<Question>, limit: int, enrich: Question -> Option<Explanation>)
    returns (r: seq<Question>, stop: nat, count: nat, performed: nat)
    ensures stop <= |qs| && |r| == |qs|
    ensures count == CountBefore(qs, IsPending, stop)
    ensures limit > 0 ==> count <= limit
    ensures stop < |qs| ==> limit > 0 && count == limit
    ensures SweptTo(qs, r, stop, enrich)
    ensures performed == CountBefore(qs, And(IsPending, Succeeds(enrich)), stop)
  {
    r := qs;
    stop := 0;
    count := 0;
    performed := 0;
    var stopped := false;
    while stop < |qs| && !stopped
      invariant 0 <= stop <= |qs| && |r| == |qs|
      invariant count == CountBefore(qs, IsPending, stop)
      invariant !stopped && limit > 0 ==> count < limit
      invariant stopped ==> limit > 0 && count == limit
      invariant SweptTo(qs, r, stop, enrich)
      invariant performed == CountBefore(qs, And(IsPending, Succeeds(enrich)), stop)
    {
      SweepStep(qs, r, stop, enrich);
      if IsPending(qs[stop]) {
        var e := enrich(qs[stop]);
        r := r[stop := Enriched(qs[stop], enrich)];
        if e.Some? {
          performed := performed + 1;
        }
        count := count + 1;
      }
      stop := stop + 1;
      if limit > 0 && count >= limit {
        stopped := true;
      }
    }
  }

  /** One more question swept: a pending one takes its enriched form, any other stays. */
  lemma SweepStep(qs: seq<Question>, r: seq<Question>, stop: nat, enrich: Question -> Option<Explanation>)
    requires stop < |qs| == |r| && SweptTo(qs, r, stop, enrich)
    ensures IsPending(qs[stop]) ==> SweptTo(qs, r[stop := Enriched(qs[stop], enrich)], stop + 1, enrich)
    ensures !IsPending(qs[stop]) ==> SweptTo(qs, r, stop + 1, enrich)
  {
  }

  /**
    `main` without the file I/O: the loop and the final save. The `k`-th
    pending question in file order (counting from 0) is attempted exactly when
    `k < attempted`; an attempted question takes the explanation that came
    back, if any; every other question is left as it was. `written` holds the
    new list when at least one attempt succeeded and nothing otherwise, and
    `performed` counts the successes.
   */
  method Run(qs: seq<Question>, limit: int, enrich: Question -> Option<Explanation>)
    returns (written: Option<seq<Question>>, attempted: nat, performed: nat)
    ensures attempted == Attempts(qs, limit)
    ensures written.Some? ==> |written.value| == |qs|
    ensures written.Some? ==> forall j :: 0 <= j < |qs| ==>
      written.value[j] == (if IsPending(qs[j]) && Count(qs[..j], IsPending) < attempted then Enriched(qs[j], enrich) else qs[j])
    ensures performed == Count(Take(Filter(qs, IsPending), attempted), Succeeds(enrich))
    ensures written.None? <==> performed == 0
  {
    var r, stop, count;
    r, stop, count, performed := Sweep(qs, limit, enrich);
    CountBeforeIsCount(qs, IsPending, stop);
    CountBeforeIsCount(qs, And(IsPending, Succeeds(enrich)), stop);
    CountFiltered(qs[..stop], IsPending, Succeeds(enrich));
    SweepAttempts(qs, limit, stop, count);
    attempted := count;
    FilterPrefix(qs, IsPending, stop);
    SweepOutcome(qs, r, stop, count, enrich);
    written := if performed > 0 then Some(r) else None;
  }

  /** Where the loop stops, it has attempted as many questions as `Attempts` says. */
  lemma SweepAttempts(qs: seq<Question>, limit: int, stop: nat, count: nat)
    requires stop <= |qs| && count == Count(qs[..stop], IsPending)
    requires limit > 0 ==> count <= limit
    requires stop < |qs| ==> limit > 0 && count == limit
    ensures count == Attempts(qs, limit)
  {
    CountPrefixMono(qs, IsPending, stop, |qs|);
    assert qs[..|qs|] == qs;
  }

  /** What a sweep that stopped at `stop` after `count` attempts did to each question. */
  lemma SweepOutcome(qs: seq<Question>, r: seq<Question>, stop: nat, count: nat, enrich: Question -> Option<Explanation>)
    requires stop <= |qs| == |r| && SweptTo(qs, r, stop, enrich)
    requires count == Count(qs[..stop], IsPending)
    ensures forall j :: 0 <= j < |qs| ==>
      r[j] == (if IsPending(qs[j]) && Count(qs[..j], IsPending) < count then Enriched(qs[j], enrich) else qs[j])
  {
    forall j | 0 <= j < |qs|
      ensures r[j] == (if IsPending(qs[j]) && Count(qs[..j], IsPending) < count then Enriched(qs[j], enrich) else qs[j])
    {
      if j < stop {
        CountPrefixStep(qs, IsPending, j);
        CountPrefixMono(qs, IsPending, j + 1, stop);
      } else {
        CountPrefixMono(qs, IsPending, stop, j);
      }
    }
  }
}
