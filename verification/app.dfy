/**
 The page's event handlers as a state machine. The state holds the in-memory
 catalog, the copy last written to storage (write-through `save()`), and the
 form mode that the `data-edit-id` attribute encodes.
 */
module App {
  import opened Options
  import opened Books
  import Text
  import Transfer

  /** `Editing(id)` while the form carries `data-edit-id="id"`, `Idle` when it has none. */
  datatype Mode = Idle | Editing(id: string)

  datatype State = State(books: seq<Book>, stored: seq<Book>, mode: Mode)

  /** The toast or alert an action ends with. */
  datatype Notice =
    | Silent | Required | Added | Updated | Deleted | Cleared | Exported | Imported | EditCanceled
    | ImportFailed(error: Transfer.ImportError)

  datatype Reply = Reply(state: State, notice: Notice)

  /** Storage holds exactly the in-memory catalog. */
  predicate Persisted(st: State)
  {
    st.stored == st.books
  }

  /** `if(idField)`: the attribute is present and non-empty. */
  predicate EditsRecord(mode: Mode)
  {
    mode.Editing? && mode.id != ""
  }

  /** The record a valid submission writes, with every field trimmed. */
  function Entry(id: string, title: string, author: string, year: string): Book
  {
    Book(id, Text.Trim(title), Text.Trim(author), Some(Text.Trim(year)))
  }

  /** Startup: the catalog is what storage held, and the form is idle. */
  function Load(saved: seq<Book>): (st: State)
    ensures st.books == saved && Persisted(st)
    ensures st.mode == Idle
  {
    State(saved, saved, Idle)
  }

  /** `books` replaced by `next` and written through to storage. */
  function Save(st: State, next: seq<Book>): (r: State)
    ensures Persisted(r) && r.books == next && r.mode == st.mode
  {
    st.(books := next, stored := next)
  }

  /**
   The form's submit handler. An empty trimmed title or author changes nothing;
   otherwise the first record with the edited id is updated and the form goes
   idle, or, with no edit id, a record with id `stamp` is appended.
   */
  function Submit(st: State, title: string, author: string, year: string, stamp: string): (r: Reply)
    ensures Text.Trim(title) == "" || Text.Trim(author) == "" ==> r == Reply(st, Required)
    ensures Text.Trim(title) != "" && Text.Trim(author) != "" ==> Persisted(r.state)
    ensures Text.Trim(title) != "" && Text.Trim(author) != "" && EditsRecord(st.mode) ==>
      && r.state.mode == Idle
      && (Absent(st.books, st.mode.id) ==> r.state.books == st.books && r.notice == Silent)
      && (forall k :: IsFirst(st.books, st.mode.id, k) ==>
            r.state.books == st.books[k := Entry(st.mode.id, title, author, year)] && r.notice == Updated)
    ensures Text.Trim(title) != "" && Text.Trim(author) != "" && !EditsRecord(st.mode) ==>
      && r.state.books == st.books + [Entry(stamp, title, author, year)]
      && r.state.mode == st.mode
      && r.notice == Added
  {
    var t, a, y := Text.Trim(title), Text.Trim(author), Text.Trim(year);
    if t == "" || a == "" then Reply(st, Required)
    else if EditsRecord(st.mode) then
      var found := FindIndex(st.books, st.mode.id).Some?;
      var next := UpdateFirst(st.books, st.mode.id, t, a, Some(y));
      Reply(Save(st, next).(mode := Idle), if found then Updated else Silent)
    else
      Reply(Save(st, st.books + [Book(stamp, t, a, Some(y))]), Added)
  }

  /** The edit button: enter `Editing(id)` when a record has `id`, otherwise do nothing. */
  function StartEdit(st: State, id: string): (r: Reply)
    ensures r.state.books == st.books && r.state.stored == st.stored && r.notice == Silent
    ensures Absent(st.books, id) ==> r.state == st
    ensures !Absent(st.books, id) ==> r.state.mode == Editing(id)
  {
    if FindIndex(st.books, id).Some? then Reply(st.(mode := Editing(id)), Silent) else Reply(st, Silent)
  }

  /** The cancel button: drop the edit id and touch nothing else. */
  function CancelEdit(st: State): (r: Reply)
    ensures r.state.books == st.books && r.state.stored == st.stored
    ensures r.state.mode == Idle && r.notice == EditCanceled
  {
    Reply(st.(mode := Idle), EditCanceled)
  }

  /** The delete button, `confirmed` being the answer to the dialog. */
  function DeleteBook(st: State, id: string, confirmed: bool): (r: Reply)
    ensures !confirmed ==> r == Reply(st, Silent)
    ensures confirmed ==> r.state.books == Remove(st.books, id)
    ensures confirmed ==>
      && Persisted(r.state)
      && r.state.mode == st.mode
      && r.notice == Deleted
      && (forall b :: b in r.state.books <==> b in st.books && b.id != id)
      && (Absent(st.books, id) ==> r.state.books == st.books)
  {
    if confirmed then Reply(Save(st, Remove(st.books, id)), Deleted) else Reply(st, Silent)
  }

  /** The clear-all button. */
  function ClearAll(st: State, confirmed: bool): (r: Reply)
    ensures !confirmed ==> r == Reply(st, Silent)
    ensures confirmed ==> r.state.books == [] && Persisted(r.state) && r.state.mode == st.mode && r.notice == Cleared
  {
    if confirmed then Reply(Save(st, []), Cleared) else Reply(st, Silent)
  }

  /** The import handler: all or nothing. A refused payload leaves the state as it was. */
  function ImportBooks(st: State, p: Transfer.Payload, clock: nat -> string): (r: Reply)
    ensures Transfer.Import(p, clock).Err? ==>
      r == Reply(st, ImportFailed(Transfer.Import(p, clock).error))
    ensures Transfer.Import(p, clock).Ok? ==>
      && r.state.books == Transfer.Import(p, clock).value
      && Persisted(r.state)
      && r.state.mode == st.mode
      && r.notice == Imported
  {
    match Transfer.Import(p, clock)
    case Err(e) => Reply(st, ImportFailed(e))
    case Ok(next) => Reply(Save(st, next), Imported)
  }

  /** A user action, with the clock readings and dialog answers it involves. */
  datatype Event =
    | Submitted(title: string, author: string, year: string, stamp: string)
    | EditPressed(id: string)
    | CancelPressed
    | DeletePressed(id: string, confirmed: bool)
    | ClearPressed(confirmed: bool)
    | ExportPressed
    | FileChosen(payload: Transfer.Payload, clock: nat -> string)

  function Step(st: State, ev: Event): Reply
  {
    match ev
    case Submitted(t, a, y, stamp) => Submit(st, t, a, y, stamp)
    case EditPressed(id) => StartEdit(st, id)
    case CancelPressed => CancelEdit(st)
    case DeletePressed(id, ok) => DeleteBook(st, id, ok)
    case ClearPressed(ok) => ClearAll(st, ok)
    case ExportPressed => Reply(st, Exported)
    case FileChosen(p, clock) => ImportBooks(st, p, clock)
  }

  function Run(st: State, evs: seq<Event>): State
    decreases |evs|
  {
    if evs == [] then st else Run(Step(st, evs[0]).state, evs[1..])
  }

  /** `Date.now().toString(36)` never yields the empty string. */
  ghost predicate FreshIds(ev: Event)
  {
    match ev
    case Submitted(_, _, _, stamp) => stamp != ""
    case FileChosen(_, clock) => forall i: nat :: clock(i) != ""
    case _ => true
  }

  /**
   What every reachable state satisfies: storage equals memory, every record
   has a non-empty id, title and author, and an edit id is never empty.
   */
  predicate Good(st: State)
  {
    Persisted(st) && WellFormed(st.books) && (st.mode.Editing? ==> st.mode.id != "")
  }

  lemma StepKeepsGood(st: State, ev: Event)
    requires Good(st) && FreshIds(ev)
    ensures Good(Step(st, ev).state)
  {
  }

  /** Every state reached from a good one by any sequence of actions is good. */
  lemma {:induction false} RunKeepsGood(st: State, evs: seq<Event>)
    requires Good(st)
    requires forall i :: 0 <= i < |evs| ==> FreshIds(evs[i])
    ensures Good(Run(st, evs))
    decreases |evs|
  {
    if evs != [] {
      StepKeepsGood(st, evs[0]);
      RunKeepsGood(Step(st, evs[0]).state, evs[1..]);
    }
  }

  /**
   Starting from well-formed storage, after any actions the storage still
   equals memory, and importing an export of the catalog gives it back unchanged.
   */
  lemma ReachableRoundTrip(saved: seq<Book>, evs: seq<Event>, clock: nat -> string)
    requires WellFormed(saved)
    requires forall i :: 0 <= i < |evs| ==> FreshIds(evs[i])
    ensures Persisted(Run(Load(saved), evs))
    ensures Transfer.Import(Transfer.Array(Transfer.Export(Run(Load(saved), evs).books)), clock)
         == Ok(Run(Load(saved), evs).books)
  {
    RunKeepsGood(Load(saved), evs);
    Transfer.ExportImportRoundTrip(Run(Load(saved), evs).books, clock);
  }
}
