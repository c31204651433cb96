/**
  The local-state side of the backend hooks (`useSupabaseData.js`): what each
  fetch, optimistic update and insert does to the component state. The remote
  calls themselves are replaced by their outcome (`None` for an error).
 */
module Sync {
  import opened Wrappers
  import opened Seqs
  import opened Sorting
  import opened Syllabus

  /** A hook's state: its value and whether the first fetch is still pending. */
  datatype Loadable<T> = Loadable(value: T, loading: bool)

  /**
    A fetch effect: without a user nothing runs; on an error the value is kept
    and loading ends; on success the converted rows replace the value.
   */
  function FetchEffect<R, T>(hasUser: bool, response: Option<R>, convert: R -> T, st: Loadable<T>): (r: Loadable<T>)
    ensures !hasUser ==> r == st
    ensures hasUser ==> !r.loading
    ensures hasUser && response.None? ==> r.value == st.value
    ensures hasUser && response.Some? ==> r.value == convert(response.value)
  {
    if !hasUser then st
    else if response.None? then st.(loading := false)
    else Loadable(convert(response.value), false)
  }

  /** `useSyllabus` fetch: every fetched `item_id` maps to true, and nothing else is present. */
  function SyllabusFromRows(itemIds: seq<string>): (m: Checked)
    ensures m.Keys == set i | 0 <= i < |itemIds| :: itemIds[i]
    ensures forall k :: k in m ==> m[k]
  {
    map i | 0 <= i < |itemIds| :: itemIds[i] := true
  }

  /** The write `toggleItem` sends after its optimistic update. */
  datatype SyllabusWrite = InsertRow(itemId: string) | DeleteRow(itemId: string)

  /** `toggleItem`: flips the item locally, then deletes its row if it was checked and inserts one otherwise. */
  function ToggleItem(m: Checked, itemId: string): (r: (Checked, SyllabusWrite))
    ensures r.0 == Toggle(m, itemId)
    ensures r.1.itemId == itemId
    ensures r.1.DeleteRow? <==> IsChecked(m, itemId)
    ensures r.1.DeleteRow? <==> !IsChecked(r.0, itemId)
  {
    (Toggle(m, itemId), if IsChecked(m, itemId) then DeleteRow(itemId) else InsertRow(itemId))
  }

  /** One row of `books_progress`. */
  datatype BookRow = BookRow(bookId: int, status: string)

  function RowPair(row: BookRow): (int, string) {
    (row.bookId, row.status)
  }

  /** `useBooks` fetch: book id to status, the last row of a repeated id winning. */
  function BooksFromRows(rows: seq<BookRow>): (m: map<int, string>)
    ensures forall i :: 0 <= i < |rows| ==> rows[i].bookId in m
    ensures forall k :: k in m ==> exists i :: 0 <= i < |rows| && rows[i].bookId == k
    ensures forall i :: 0 <= i < |rows| && (forall j :: i < j < |rows| ==> rows[j].bookId != rows[i].bookId) ==>
      m[rows[i].bookId] == rows[i].status
  {
    var pairs := seq(|rows|, i requires 0 <= i < |rows| => RowPair(rows[i]));
    assert forall i :: 0 <= i < |rows| ==> pairs[i].0 == rows[i].bookId && pairs[i].1 == rows[i].status;
    LastWins(pairs)
  }

  /** `updateStatus`: only `bookId` takes the new status. */
  function UpdateStatus(m: map<int, string>, bookId: int, newStatus: string): (r: map<int, string>)
    ensures r.Keys == m.Keys + {bookId}
    ensures r[bookId] == newStatus
    ensures forall k :: k in m && k != bookId ==> r[k] == m[k]
  {
    m[bookId := newStatus]
  }

  /** A practice-exam score entry; `date` is its timestamp. */
  datatype Simulado = Simulado(id: int, date: int, score: int, total: int)

  function DateKey(s: Simulado): Key {
    Plain(s.date)
  }

  /** `addSimulado`: on success the inserted row joins the list, which is re-sorted by date; on error nothing changes. */
  function AddSimulado(list: seq<Simulado>, inserted: Option<Simulado>): (r: seq<Simulado>)
    ensures inserted.None? ==> r == list
    ensures inserted.Some? ==> multiset(r) == multiset(list) + multiset{inserted.value}
    ensures inserted.Some? ==> forall i, j :: 0 <= i < j < |r| ==> r[i].date <= r[j].date
    ensures inserted.Some? ==> forall k :: WithKey(r, DateKey, k) == WithKey(list + [inserted.value], DateKey, k)
  {
    if inserted.None? then list
    else
      var r := SortBy(list + [inserted.value], DateKey);
      assert forall i, j :: 0 <= i < j < |r| ==> KeyLe(DateKey(r[i]), DateKey(r[j]));
      r
  }

  /** `deleteSimulado`: every entry with `id` goes, the rest keep their order. */
  function DeleteSimulado(list: seq<Simulado>, id: int): (r: seq<Simulado>)
    ensures forall i :: 0 <= i < |r| ==> r[i].id != id && r[i] in list
    ensures forall i :: 0 <= i < |list| && list[i].id != id ==> list[i] in r
    ensures |r| == |list| - Count(list, (s: Simulado) => s.id == id)
  {
    var r := Filter(list, (s: Simulado) => s.id != id);
    CountSplit(list, (s: Simulado) => s.id != id, (s: Simulado) => s.id == id);
    r
  }

  /**
    Deleting keeps the other exams in their order and their copies: it works
    entry by entry, dropping an entry exactly when it has the id.
   */
  lemma {:induction false} DeleteSimuladoKeepsOrder(a: seq<Simulado>, b: seq<Simulado>, s: Simulado, id: int)
    ensures DeleteSimulado(a + b, id) == DeleteSimulado(a, id) + DeleteSimulado(b, id)
    ensures DeleteSimulado([s], id) == if s.id == id then [] else [s]
  {
    FilterConcat(a, b, (x: Simulado) => x.id != id);
    assert [s][1..] == [];
  }

  /** A note, in the local notepad or in the `notes` table. */
  datatype Note = Note(id: int, text: string, date: string)

  /** `addNote`: on success the inserted row goes in front; on error nothing changes. */
  function AddNote(notes: seq<Note>, inserted: Option<Note>): (r: seq<Note>)
    ensures inserted.None? ==> r == notes
    ensures inserted.Some? ==> |r| == |notes| + 1 && r[0] == inserted.value && r[1..] == notes
  {
    if inserted.None? then notes else [inserted.value] + notes
  }

  /** `deleteNote` and the notepad's `handleDelete`: every note with `id` goes, the rest keep their order. */
  function DeleteNote(notes: seq<Note>, id: int): (r: seq<Note>)
    ensures forall i :: 0 <= i < |r| ==> r[i].id != id && r[i] in notes
    ensures forall i :: 0 <= i < |notes| && notes[i].id != id ==> notes[i] in r
    ensures |r| == |notes| - Count(notes, (n: Note) => n.id == id)
  {
    var r := Filter(notes, (n: Note) => n.id != id);
    CountSplit(notes, (n: Note) => n.id != id, (n: Note) => n.id == id);
    r
  }

  /** Deleting keeps the relative order of the notes that stay. */
  lemma {:induction false} DeleteNoteKeepsOrder(notes: seq<Note>, id: int, a: seq<Note>, b: seq<Note>)
    requires notes == a + b
    ensures DeleteNote(notes, id) == DeleteNote(a, id) + DeleteNote(b, id)
    ensures |a| == 1 ==> DeleteNote(a, id) == if a[0].id == id then [] else a
  {
    FilterConcat(a, b, (n: Note) => n.id != id);
    if |a| == 1 {
      assert a[1..] == [];
    }
  }
}
