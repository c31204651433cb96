/**
  The dashboard (`Dashboard.jsx`): per-subject and overall syllabus progress,
  the books-read counter, the ranked study suggestions, the notepad and the
  inactivity alert.
 */
module Dashboard {
  import opened Wrappers
  import opened Seqs
  import opened Sorting
  import opened Text
  import opened Percent
  import opened Syllabus
  import opened Sync
  import opened Readings

  /** The three subjects the dashboard tracks, each a list of groups of items. */
  datatype Edital = Edital(historia: seq<Group>, geografia: seq<Group>, matematica: seq<Group>)

  /** `totalEditalProgress`: `Math.round(((h + g + m) / 300) * 100)`, the rounded mean of three percentages. */
  function MeanProgress(h: nat, g: nat, m: nat): (r: int)
    ensures 6 * r <= 2 * (h + g + m) + 3 < 6 * r + 6
    ensures h <= 100 && g <= 100 && m <= 100 ==> 0 <= r <= 100
  {
    RoundPercent(h + g + m, 300)
  }

  /** The overall progress over the three subjects' checklists. */
  function OverallProgress(e: Edital, checked: Checked): (r: int)
    ensures 0 <= r <= 100
  {
    MeanProgress(SectionProgress(e.historia, checked), SectionProgress(e.geografia, checked),
      SectionProgress(e.matematica, checked))
  }

  /** `booksRead`: books whose stored status is read or summarized. */
  function BooksRead(books: seq<Book>, status: map<int, string>): (n: nat)
    ensures n <= |books|
  {
    Count(books, (b: Book) => b.id in status && IsFinished(status[b.id]))
  }

  /** The dashboard and the reading page agree on how many books are read. */
  lemma BooksReadAgreesWithReadCount(books: seq<Book>, status: map<int, string>)
    ensures BooksRead(books, status) == ReadCount(books, status)
  {
    var p := (b: Book) => b.id in status && IsFinished(status[b.id]);
    var q := (b: Book) => IsFinished(GetStatus(status, b.id));
    forall i | 0 <= i < |books| ensures p(books[i]) == q(books[i]) {
      assert !IsFinished("");
    }
    CountSame(books, p, q);
  }

  datatype Subject = Historia | Geografia | Matematica

  datatype Suggestion = Suggestion(item: Item, subject: Subject)

  /** `pMap`: high = 3, medium = 2, normal = 1. */
  function Rank(p: Priority): int {
    match p
    case High => 3
    case Medium => 2
    case Normal => 1
  }

  /** Sorting by this key puts higher ranks first. */
  function RankKey(i: Item): Key {
    Plain(-Rank(i.priority))
  }

  /** The subject's items still unchecked, in syllabus order. */
  function Unchecked(groups: seq<Group>, checked: Checked): (r: seq<Item>)
    ensures forall i :: 0 <= i < |r| ==> !IsChecked(checked, r[i].id)
    ensures forall i :: 0 <= i < |r| ==> r[i] in Flatten(groups)
    ensures forall x :: x in Flatten(groups) && !IsChecked(checked, x.id) ==> x in r
  {
    Filter(Flatten(groups), (i: Item) => !IsChecked(checked, i.id))
  }

  /**
    The subject's unchecked items, highest priority first, items of equal
    priority in syllabus order (the browser's `Array.prototype.sort` is stable).
   */
  function Ranked(groups: seq<Group>, checked: Checked): (r: seq<Item>)
    ensures multiset(r) == multiset(Unchecked(groups, checked))
    ensures forall i, j :: 0 <= i < j < |r| ==> Rank(r[i].priority) >= Rank(r[j].priority)
    ensures forall k :: WithKey(r, RankKey, k) == WithKey(Unchecked(groups, checked), RankKey, k)
  {
    var r := SortBy(Unchecked(groups, checked), RankKey);
    RankedDescending(r);
    r
  }

  lemma RankedDescending(r: seq<Item>)
    requires SortedBy(r, RankKey)
    ensures forall i, j :: 0 <= i < j < |r| ==> Rank(r[i].priority) >= Rank(r[j].priority)
  {
    forall i, j | 0 <= i < j < |r| ensures Rank(r[i].priority) >= Rank(r[j].priority) {
      assert KeyLe(RankKey(r[i]), RankKey(r[j]));
    }
  }

  /** Every ranked item is an unchecked one. */
  lemma RankedUnchecked(groups: seq<Group>, checked: Checked)
    ensures forall i :: 0 <= i < |Ranked(groups, checked)| ==> !IsChecked(checked, Ranked(groups, checked)[i].id)
  {
    var r := Ranked(groups, checked);
    var u := Unchecked(groups, checked);
    forall i | 0 <= i < |r| ensures !IsChecked(checked, r[i].id) {
      assert r[i] in multiset(u);
    }
  }

  function At(items: seq<Item>, i: nat, s: Subject): seq<Suggestion> {
    if i < |items| then [Suggestion(items[i], s)] else []
  }

  /** The suggestions of one subject, in order. */
  function OfSubject(r: seq<Suggestion>, s: Subject): seq<Item> {
    if |r| == 0 then [] else (if r[0].subject == s then [r[0].item] else []) + OfSubject(r[1..], s)
  }

  lemma {:induction false} OfSubjectConcat(a: seq<Suggestion>, b: seq<Suggestion>, s: Subject)
    ensures OfSubject(a + b, s) == OfSubject(a, s) + OfSubject(b, s)
  {
    if |a| == 0 {
      assert a + b == b;
    } else {
      var ab := a + b;
      assert ab[0] == a[0];
      assert ab[1..] == a[1..] + b;
      var head := if a[0].subject == s then [a[0].item] else [];
      assert OfSubject(ab, s) == head + OfSubject(a[1..] + b, s);
      assert OfSubject(a, s) == head + OfSubject(a[1..], s);
      OfSubjectConcat(a[1..], b, s);
    }
  }

  lemma OfSubjectAt(items: seq<Item>, i: nat, s: Subject, t: Subject)
    ensures OfSubject(At(items, i, s), t) == if s == t && i < |items| then [items[i]] else []
  {
    if i < |items| {
      assert At(items, i, s)[1..] == [];
    }
  }

  /** One pass of the loop: slot i of History, Geography and Mathematics. */
  function Slot(h: seq<Item>, g: seq<Item>, m: seq<Item>, i: nat): seq<Suggestion> {
    At(h, i, Historia) + At(g, i, Geografia) + At(m, i, Matematica)
  }

  /** The loop over the first two slots. */
  function Interleave(h: seq<Item>, g: seq<Item>, m: seq<Item>): seq<Suggestion> {
    Slot(h, g, m, 0) + Slot(h, g, m, 1)
  }

  function Pick(h: seq<Item>, g: seq<Item>, m: seq<Item>, s: Subject): seq<Item> {
    match s
    case Historia => h
    case Geografia => g
    case Matematica => m
  }

  lemma SlotOfSubject(h: seq<Item>, g: seq<Item>, m: seq<Item>, i: nat, s: Subject)
    ensures OfSubject(Slot(h, g, m, i), s) == if i < |Pick(h, g, m, s)| then [Pick(h, g, m, s)[i]] else []
  {
    OfSubjectConcat(At(h, i, Historia) + At(g, i, Geografia), At(m, i, Matematica), s);
    OfSubjectConcat(At(h, i, Historia), At(g, i, Geografia), s);
    OfSubjectAt(h, i, Historia, s);
    OfSubjectAt(g, i, Geografia, s);
    OfSubjectAt(m, i, Matematica, s);
  }

  lemma InterleaveOfSubject(h: seq<Item>, g: seq<Item>, m: seq<Item>, s: Subject)
    ensures OfSubject(Interleave(h, g, m), s) == Take(Pick(h, g, m, s), 2)
  {
    OfSubjectConcat(Slot(h, g, m, 0), Slot(h, g, m, 1), s);
    SlotOfSubject(h, g, m, 0, s);
    SlotOfSubject(h, g, m, 1, s);
    var p := Pick(h, g, m, s);
    if |p| >= 2 {
      assert Take(p, 2) == [p[0]] + [p[1]];
    }
  }

  /** Every suggestion comes from one of the three ranked lists, at most two from each. */
  lemma InterleaveItems(h: seq<Item>, g: seq<Item>, m: seq<Item>, checked: Checked)
    requires forall i :: 0 <= i < |h| ==> !IsChecked(checked, h[i].id)
    requires forall i :: 0 <= i < |g| ==> !IsChecked(checked, g[i].id)
    requires forall i :: 0 <= i < |m| ==> !IsChecked(checked, m[i].id)
    ensures |Interleave(h, g, m)| <= 6
    ensures forall i :: 0 <= i < |Interleave(h, g, m)| ==> !IsChecked(checked, Interleave(h, g, m)[i].item.id)
  {
  }

  /**
    `getSuggestions`: up to two unchecked items per subject, each subject's
    best-ranked first, taken History, Geography, Mathematics for the first
    slot and then for the second.
   */
  function Suggestions(e: Edital, checked: Checked): (r: seq<Suggestion>)
    ensures var h, g, m := Ranked(e.historia, checked), Ranked(e.geografia, checked), Ranked(e.matematica, checked);
      r == Slot(h, g, m, 0) + Slot(h, g, m, 1)
    ensures |r| <= 6
    ensures forall i :: 0 <= i < |r| ==> !IsChecked(checked, r[i].item.id)
    ensures OfSubject(r, Historia) == Take(Ranked(e.historia, checked), 2)
    ensures OfSubject(r, Geografia) == Take(Ranked(e.geografia, checked), 2)
    ensures OfSubject(r, Matematica) == Take(Ranked(e.matematica, checked), 2)
  {
    var h := Ranked(e.historia, checked);
    var g := Ranked(e.geografia, checked);
    var m := Ranked(e.matematica, checked);
    InterleaveOfSubject(h, g, m, Historia);
    InterleaveOfSubject(h, g, m, Geografia);
    InterleaveOfSubject(h, g, m, Matematica);
    RankedUnchecked(e.historia, checked);
    RankedUnchecked(e.geografia, checked);
    RankedUnchecked(e.matematica, checked);
    InterleaveItems(h, g, m, checked);
    Interleave(h, g, m)
  }

  /** The subjects in the order the loop visits them. */
  function Order(s: Subject): nat {
    match s
    case Historia => 0
    case Geografia => 1
    case Matematica => 2
  }

  /** The slot position `p` fills: how many suggestions of its subject come before it. */
  function SlotOf(r: seq<Suggestion>, p: nat): nat
    requires p < |r|
  {
    |OfSubject(r[..p], r[p].subject)|
  }

  /** Each subject appears at most once, in History, Geography, Mathematics order. */
  predicate InSubjectOrder(r: seq<Suggestion>) {
    forall k, l :: 0 <= k < l < |r| ==> Order(r[k].subject) < Order(r[l].subject)
  }

  /** Every entry of slot `i` is its subject's `i`-th ranked item. */
  predicate FillsSlot(r: seq<Suggestion>, h: seq<Item>, g: seq<Item>, m: seq<Item>, i: nat) {
    forall k :: 0 <= k < |r| ==> i < |Pick(h, g, m, r[k].subject)| && r[k].item == Pick(h, g, m, r[k].subject)[i]
  }

  lemma SlotShape(h: seq<Item>, g: seq<Item>, m: seq<Item>, i: nat)
    ensures InSubjectOrder(Slot(h, g, m, i)) && FillsSlot(Slot(h, g, m, i), h, g, m, i)
  {
    var a, b, c := At(h, i, Historia), At(g, i, Geografia), At(m, i, Matematica);
    var sl := Slot(h, g, m, i);
    assert sl == a + b + c;
    forall k | 0 <= k < |sl|
      ensures sl[k].subject == (if k < |a| then Historia else if k < |a| + |b| then Geografia else Matematica)
      ensures i < |Pick(h, g, m, sl[k].subject)| && sl[k].item == Pick(h, g, m, sl[k].subject)[i]
    {
      if k < |a| {
        assert sl[k] == a[k];
      } else if k < |a| + |b| {
        assert sl[k] == b[k - |a|];
      } else {
        assert sl[k] == c[k - |a| - |b|];
      }
    }
  }

  lemma {:induction false} OfSubjectAbsent(y: seq<Suggestion>, s: Subject)
    requires forall k :: 0 <= k < |y| ==> y[k].subject != s
    ensures OfSubject(y, s) == []
  {
    if |y| > 0 {
      assert forall k :: 0 <= k < |y[1..]| ==> y[1..][k] == y[k + 1];
      OfSubjectAbsent(y[1..], s);
    }
  }

  /** In a slot, nothing of an entry's subject comes before it. */
  lemma FirstOfSubject(sl: seq<Suggestion>, p: nat)
    requires InSubjectOrder(sl) && p < |sl|
    ensures OfSubject(sl[..p], sl[p].subject) == []
  {
    OfSubjectAbsent(sl[..p], sl[p].subject);
  }

  /** Positions in the first slot fill slot 0 and the others slot 1. */
  lemma InterleaveSlots(h: seq<Item>, g: seq<Item>, m: seq<Item>)
    ensures var r := Interleave(h, g, m);
      forall p :: 0 <= p < |r| ==> SlotOf(r, p) == if p < |Slot(h, g, m, 0)| then 0 else 1
  {
    var a, b := Slot(h, g, m, 0), Slot(h, g, m, 1);
    var r := Interleave(h, g, m);
    SlotShape(h, g, m, 0);
    SlotShape(h, g, m, 1);
    forall p | 0 <= p < |r| ensures SlotOf(r, p) == if p < |a| then 0 else 1 {
      if p < |a| {
        assert r[..p] == a[..p] && r[p] == a[p];
        FirstOfSubject(a, p);
      } else {
        var p' := p - |a|;
        var s := b[p'].subject;
        assert r[..p] == a + b[..p'] && r[p] == b[p'];
        OfSubjectConcat(a, b[..p'], s);
        FirstOfSubject(b, p');
        SlotOfSubject(h, g, m, 0, s);
      }
    }
  }

  /** Each position holds its subject's ranked item of the slot it fills. */
  lemma InterleaveItemsAt(h: seq<Item>, g: seq<Item>, m: seq<Item>)
    ensures var r := Interleave(h, g, m);
      forall p :: 0 <= p < |r| ==>
        (SlotOf(r, p) < 2 && SlotOf(r, p) < |Pick(h, g, m, r[p].subject)| && r[p].item == Pick(h, g, m, r[p].subject)[SlotOf(r, p)])
  {
    var a, b := Slot(h, g, m, 0), Slot(h, g, m, 1);
    var r := Interleave(h, g, m);
    SlotShape(h, g, m, 0);
    SlotShape(h, g, m, 1);
    InterleaveSlots(h, g, m);
    forall p | 0 <= p < |r|
      ensures SlotOf(r, p) < |Pick(h, g, m, r[p].subject)| && r[p].item == Pick(h, g, m, r[p].subject)[SlotOf(r, p)]
    {
      if p < |a| {
        assert r[p] == a[p];
      } else {
        assert r[p] == b[p - |a|];
      }
    }
  }

  /** Slots are filled in turn, and within a slot History comes before Geography and Geography before Mathematics. */
  lemma InterleaveOrdered(h: seq<Item>, g: seq<Item>, m: seq<Item>)
    ensures var r := Interleave(h, g, m);
      forall p, q :: 0 <= p < q < |r| ==>
        SlotOf(r, p) < SlotOf(r, q) || (SlotOf(r, p) == SlotOf(r, q) && Order(r[p].subject) < Order(r[q].subject))
  {
    var a, b := Slot(h, g, m, 0), Slot(h, g, m, 1);
    var r := Interleave(h, g, m);
    SlotShape(h, g, m, 0);
    SlotShape(h, g, m, 1);
    InterleaveSlots(h, g, m);
    forall p, q | 0 <= p < q < |r|
      ensures SlotOf(r, p) < SlotOf(r, q) || (SlotOf(r, p) == SlotOf(r, q) && Order(r[p].subject) < Order(r[q].subject))
    {
      if q < |a| {
        assert r[p] == a[p] && r[q] == a[q];
      } else if p >= |a| {
        assert r[p] == b[p - |a|] && r[q] == b[q - |a|];
      }
    }
  }

  /**
    The order of the suggestions: the entry at each position is the
    best-ranked item of its subject still unsuggested, the first slot of every
    subject precedes any second one, and within a slot History comes before
    Geography and Geography before Mathematics.
   */
  lemma SuggestionsOrder(e: Edital, checked: Checked)
    ensures var r := Suggestions(e, checked);
      var h, g, m := Ranked(e.historia, checked), Ranked(e.geografia, checked), Ranked(e.matematica, checked);
      forall p :: 0 <= p < |r| ==>
        (SlotOf(r, p) < 2 && SlotOf(r, p) < |Pick(h, g, m, r[p].subject)| && r[p].item == Pick(h, g, m, r[p].subject)[SlotOf(r, p)])
    ensures var r := Suggestions(e, checked);
      forall p, q :: 0 <= p < q < |r| ==>
        SlotOf(r, p) < SlotOf(r, q) || (SlotOf(r, p) == SlotOf(r, q) && Order(r[p].subject) < Order(r[q].subject))
  {
    var h, g, m := Ranked(e.historia, checked), Ranked(e.geografia, checked), Ranked(e.matematica, checked);
    InterleaveItemsAt(h, g, m);
    InterleaveOrdered(h, g, m);
  }

  /**
    The notepad's `handleSave`: a blank draft changes nothing; otherwise the
    note goes in front of the others and the draft is cleared.
   */
  function SaveNote(notes: seq<Note>, draft: string, id: int, date: string): (r: (seq<Note>, string))
    ensures Blank(draft) ==> r == (notes, draft)
    ensures !Blank(draft) ==> |r.0| == |notes| + 1 && r.0[0] == Note(id, draft, date) && r.0[1..] == notes
    ensures !Blank(draft) ==> r.1 == ""
  {
    if |JsTrim(draft)| == 0 then (notes, draft) else ([Note(id, draft, date)] + notes, "")
  }

  /** Milliseconds in a day. */
  const DayMs: int := 86400000

  /** Integer division truncating toward zero, as `differenceInDays` reports whole days. */
  function TruncDiv(a: int, b: int): int
    requires b > 0
  {
    if a >= 0 then a / b else -((-a) / b)
  }

  /** The inactivity alert shows exactly when a last activity is recorded and three whole days have passed. */
  function ShowAlert(lastActivity: Option<int>, now: int): (r: bool)
    ensures r <==> lastActivity.Some? && now - lastActivity.value >= 3 * DayMs
  {
    lastActivity.Some? && TruncDiv(now - lastActivity.value, DayMs) >= 3
  }
}
