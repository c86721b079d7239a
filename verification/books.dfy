/**
 The catalog proper: book records and the sequence operations the page
 performs on them (search view, update of the first match, delete of every match).
 */
module Books {
  import opened Options
  import Text
  import Seqs

  /** A catalog record. `year` is absent only when an imported item had none. */
  datatype Book = Book(id: string, title: string, author: string, year: Option<string>)

  /** Every record has a non-empty id, title and author. */
  predicate WellFormed(books: seq<Book>)
  {
    forall i :: 0 <= i < |books| ==> books[i].id != "" && books[i].title != "" && books[i].author != ""
  }

  /** No record carries `id`. */
  predicate Absent(books: seq<Book>, id: string)
  {
    forall i :: 0 <= i < |books| ==> books[i].id != id
  }

  /** `k` is the first position holding a record with `id`. */
  predicate IsFirst(books: seq<Book>, id: string, k: int)
  {
    0 <= k < |books| && books[k].id == id && forall j :: 0 <= j < k ==> books[j].id != id
  }

  /** The search test: lower-cased "title author" contains the lower-cased filter. */
  predicate Matches(b: Book, filter: string)
  {
    Text.Contains(Text.Lower(b.title + " " + b.author), Text.Lower(filter))
  }

  /** The search test as a filter callback. */
  function Shown(filter: string): Book -> bool
  {
    (b: Book) => Matches(b, filter)
  }

  /** The delete filter callback: keep records whose id differs. */
  function Kept(id: string): Book -> bool
  {
    (b: Book) => b.id != id
  }

  /** The rows the table shows for `filter`. */
  function Visible(books: seq<Book>, filter: string): (rows: seq<Book>)
    ensures forall b :: b in rows <==> b in books && Matches(b, filter)
    ensures filter == "" ==> rows == books
  {
    Seqs.FilterMembers(books, Shown(filter));
    if filter == "" then
      assert forall b: Book :: Matches(b, filter) by {
        forall b: Book {
          Text.ContainsEmpty(Text.Lower(b.title + " " + b.author));
        }
      }
      Seqs.FilterAll(books, Shown(filter));
      Seqs.Filter(books, Shown(filter))
    else
      Seqs.Filter(books, Shown(filter))
  }

  /**
   The search view keeps its rows in catalog order: row k is `books[idx[k]]`
   for strictly increasing positions `idx`, which are exactly the matching ones.
   */
  lemma VisibleInOrder(books: seq<Book>, filter: string) returns (idx: seq<nat>)
    ensures |idx| == |Visible(books, filter)|
    ensures forall k :: 0 <= k < |idx| ==> idx[k] < |books| && Visible(books, filter)[k] == books[idx[k]]
    ensures forall k, l :: 0 <= k < l < |idx| ==> idx[k] < idx[l]
    ensures forall i :: 0 <= i < |books| ==> (Matches(books[i], filter) <==> i in idx)
  {
    idx := Seqs.FilterPositions(books, Shown(filter));
  }

  /** A record whose title or author alone contains the filter (ignoring ASCII case) is shown. */
  lemma MatchesByField(b: Book, filter: string)
    requires Text.Contains(Text.Lower(b.title), Text.Lower(filter))
          || Text.Contains(Text.Lower(b.author), Text.Lower(filter))
    ensures Matches(b, filter)
  {
    var lt, la, q := Text.Lower(b.title), Text.Lower(b.author), Text.Lower(filter);
    Text.LowerConcat(b.title, " " + b.author);
    Text.LowerConcat(" ", b.author);
    assert Text.Lower(b.title + " " + b.author) == lt + (Text.Lower(" ") + la) by {
      assert b.title + " " + b.author == b.title + (" " + b.author);
    }
    if Text.Contains(la, q) {
      Text.ContainsInConcat(Text.Lower(" "), la, q);
    }
    Text.ContainsInConcat(lt, Text.Lower(" ") + la, q);
  }

  /** `books.findIndex(x => x.id === id)`, with `None` for -1. */
  function FindIndex(books: seq<Book>, id: string): (r: Option<nat>)
    ensures r.None? <==> Absent(books, id)
    ensures r.Some? ==> IsFirst(books, id, r.value)
  {
    if books == [] then None
    else if books[0].id == id then Some(0)
    else
      match FindIndex(books[1..], id)
      case None => None
      case Some(k) => Some(k + 1)
  }

  /**
   Overwrite title, author and year of the first record with `id`; its id and
   position stay, every other record stays, and an absent id changes nothing.
   */
  function UpdateFirst(books: seq<Book>, id: string, title: string, author: string, year: Option<string>): (r: seq<Book>)
    ensures |r| == |books|
    ensures forall i :: 0 <= i < |books| ==> r[i].id == books[i].id
    ensures Absent(books, id) ==> r == books
    ensures forall k :: IsFirst(books, id, k) ==> r == books[k := Book(id, title, author, year)]
  {
    match FindIndex(books, id)
    case None => books
    case Some(k) => books[k := books[k].(title := title, author := author, year := year)]
  }

  /** `books.filter(b => b.id !== id)`. */
  function Remove(books: seq<Book>, id: string): (r: seq<Book>)
    ensures forall b :: b in r <==> b in books && b.id != id
    ensures Absent(r, id)
    ensures Absent(books, id) ==> r == books
  {
    Seqs.FilterMembers(books, Kept(id));
    if Absent(books, id) then
      Seqs.FilterAll(books, Kept(id));
      Seqs.Filter(books, Kept(id))
    else
      Seqs.Filter(books, Kept(id))
  }

  /** Delete keeps the surviving records in their original order. */
  lemma RemoveInOrder(books: seq<Book>, id: string) returns (idx: seq<nat>)
    ensures |idx| == |Remove(books, id)|
    ensures forall k :: 0 <= k < |idx| ==> idx[k] < |books| && Remove(books, id)[k] == books[idx[k]]
    ensures forall k, l :: 0 <= k < l < |idx| ==> idx[k] < idx[l]
    ensures forall i :: 0 <= i < |books| ==> (books[i].id != id <==> i in idx)
  {
    idx := Seqs.FilterPositions(books, Kept(id));
  }

  /** Deleting the id of a record just appended with a fresh id undoes the append. */
  lemma RemoveUndoesAppend(books: seq<Book>, b: Book)
    requires Absent(books, b.id)
    ensures Remove(books + [b], b.id) == books
  {
    Seqs.FilterConcat(books, [b], Kept(b.id));
    Seqs.FilterAll(books, Kept(b.id));
    assert Seqs.Filter([b], Kept(b.id)) == [];
  }

  /** Deleting twice is deleting once. */
  lemma RemoveIdempotent(books: seq<Book>, id: string)
    ensures Remove(Remove(books, id), id) == Remove(books, id)
  {
  }

  /** Update reaches only the first record with a repeated id; delete removes all of them. */
  lemma DuplicateIdsDiverge(books: seq<Book>, id: string, i: nat, j: nat, title: string, author: string, year: Option<string>)
    requires i < j < |books| && books[i].id == id && books[j].id == id
    ensures UpdateFirst(books, id, title, author, year)[j] == books[j]
    ensures books[j] !in Remove(books, id)
  {
  }
}
