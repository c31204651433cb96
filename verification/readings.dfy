/** The required-reading tracker (`Readings.jsx`): per-book status with a default, and the read count. */
module Readings {
  import opened Wrappers
  import opened Seqs
  import opened Percent
  import opened Sync

  datatype Book = Book(id: int, title: string, author: string)

  /** `bookStatus[id] || 'unread'`: a missing or empty status reads as "unread". */
  function GetStatus(m: map<int, string>, id: int): (s: string)
    ensures id !in m ==> s == "unread"
    ensures id in m && m[id] != "" ==> s == m[id]
    ensures id in m && m[id] == "" ==> s == "unread"
    ensures s != ""
  {
    if id in m && m[id] != "" then m[id] else "unread"
  }

  /** A book counts as read once it is read or summarized. */
  predicate IsFinished(status: string) {
    status == "read" || status == "summarized"
  }

  /** `readCount`: the books whose status is read or summarized. */
  function ReadCount(books: seq<Book>, m: map<int, string>): (n: nat)
    ensures n <= |books|
    ensures n == 0 <==> forall i :: 0 <= i < |books| ==> !IsFinished(GetStatus(m, books[i].id))
    ensures n == |books| <==> forall i :: 0 <= i < |books| ==> IsFinished(GetStatus(m, books[i].id))
  {
    Count(books, (b: Book) => IsFinished(GetStatus(m, b.id)))
  }

  /** The progress ring: rounded percentage of books read; `NaN` (here `None`) when there are no books. */
  function ReadingProgress(books: seq<Book>, m: map<int, string>): (r: Option<int>)
    ensures r.None? <==> |books| == 0
    ensures r.Some? ==> 0 <= r.value <= 100
    ensures r.Some? ==>
      2 * |books| * r.value <= 200 * ReadCount(books, m) + |books| < 2 * |books| * r.value + 2 * |books|
  {
    if |books| == 0 then None
    else
      var read := ReadCount(books, m);
      var total := |books|;
      var p := RoundPercent(read, total);
      Some(p)
  }

  /** `handleStatusChange`: the selected book shows the new status and no other book's status changes. */
  function HandleStatusChange(m: map<int, string>, id: int, newStatus: string): (r: map<int, string>)
    ensures newStatus != "" ==> GetStatus(r, id) == newStatus
    ensures forall other :: other != id ==> GetStatus(r, other) == GetStatus(m, other)
  {
    UpdateStatus(m, id, newStatus)
  }

  /** Marking an unread book (listed once) as read raises the read count by exactly one. */
  lemma {:induction false} MarkingReadCountsOnce(books: seq<Book>, m: map<int, string>, id: int)
    requires Count(books, (b: Book) => b.id == id) == 1
    requires !IsFinished(GetStatus(m, id))
    ensures ReadCount(books, HandleStatusChange(m, id, "read")) == ReadCount(books, m) + 1
    decreases |books|
  {
    var m' := HandleStatusChange(m, id, "read");
    if books[0].id == id {
      SameReadCountWithout(books[1..], m, id);
    } else {
      MarkingReadCountsOnce(books[1..], m, id);
    }
  }

  lemma {:induction false} SameReadCountWithout(books: seq<Book>, m: map<int, string>, id: int)
    requires Count(books, (b: Book) => b.id == id) == 0
    ensures ReadCount(books, HandleStatusChange(m, id, "read")) == ReadCount(books, m)
    decreases |books|
  {
    if |books| > 0 {
      assert books[0].id != id;
      SameReadCountWithout(books[1..], m, id);
    }
  }
}
