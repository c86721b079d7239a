/** Sequences of user actions, composed from the handlers of `App`. */
module Flows {
  import opened Options
  import opened Books
  import Text
  import opened App

  /** Adding a record with an unused id and then deleting that id leaves the catalog as it was. */
  lemma AddThenDelete(st: State, title: string, author: string, year: string, stamp: string)
    requires st.mode == Idle
    requires Text.Trim(title) != "" && Text.Trim(author) != ""
    requires Absent(st.books, stamp)
    ensures DeleteBook(Submit(st, title, author, year, stamp).state, stamp, true).state.books == st.books
  {
    RemoveUndoesAppend(st.books, Entry(stamp, title, author, year));
  }

  /**
   Pressing edit on a record and submitting valid fields rewrites that record
   in place with the trimmed fields, keeps its id and position, and ends idle.
   */
  lemma EditThenSubmit(st: State, k: nat, title: string, author: string, year: string, stamp: string)
    requires k < |st.books| && st.books[k].id != ""
    requires forall j :: 0 <= j < k ==> st.books[j].id != st.books[k].id
    requires Text.Trim(title) != "" && Text.Trim(author) != ""
    ensures
      var id := st.books[k].id;
      var r := Submit(StartEdit(st, id).state, title, author, year, stamp).state;
      && r.books == st.books[k := Entry(id, title, author, year)]
      && r.books[k].id == id
      && r.stored == r.books
      && r.mode == Idle
  {
  }

  /**
   A record whose id is the empty string can be put in edit mode, but the
   next valid submit sees a falsy edit id: it appends a new record and the
   form stays in edit mode.
   */
  lemma EditOfEmptyIdAppends(st: State, k: nat, title: string, author: string, year: string, stamp: string)
    requires k < |st.books| && st.books[k].id == ""
    requires Text.Trim(title) != "" && Text.Trim(author) != ""
    ensures
      var r := Submit(StartEdit(st, "").state, title, author, year, stamp).state;
      && r.books == st.books + [Entry(stamp, title, author, year)]
      && r.mode == Editing("")
  {
  }

  /** Deleting the record being edited, then submitting, changes nothing but the mode. */
  lemma DeleteWhileEditing(st: State, title: string, author: string, year: string, stamp: string)
    requires EditsRecord(st.mode)
    requires Text.Trim(title) != "" && Text.Trim(author) != ""
    ensures
      var gone := DeleteBook(st, st.mode.id, true).state;
      var r := Submit(gone, title, author, year, stamp);
      && r.state.books == gone.books
      && r.state.mode == Idle
      && r.notice == Silent
  {
  }

  /** The lower-case filter "smith" finds the capitalised title "Smithsonian Guide" in any catalog holding it. */
  lemma SearchIgnoresCase(books: seq<Book>, b: Book)
    requires b in books && b.title == "Smithsonian Guide"
    ensures b in Visible(books, "smith")
  {
  }
}
