/**
 Export and import of the whole catalog. The JSON text itself is not modelled:
 export yields the items that `JSON.stringify` would write, and import starts
 from what `JSON.parse` returned.
 */
module Transfer {
  import opened Options
  import opened Books

  /** One element of a parsed import file; each property may be missing. */
  datatype Item = Item(id: Option<string>, title: Option<string>, author: Option<string>, year: Option<string>)

  /** What `JSON.parse` made of the chosen file. */
  datatype Payload = Unparsable | NotArray | Array(items: seq<Item>)

  /** Why an import was refused: the parse threw, "Invalid file", "Invalid item". */
  datatype ImportError = ParseFailed | InvalidFile | InvalidItem

  /** JavaScript truthiness of a string property: present and non-empty. */
  predicate Truthy(v: Option<string>)
  {
    v.Some? && v.value != ""
  }

  /** The minimal shape check: title and author are truthy. */
  predicate ValidItem(x: Item)
  {
    Truthy(x.title) && Truthy(x.author)
  }

  /** The `forEach` pass that throws at the first invalid item. */
  function CheckItems(items: seq<Item>): (ok: bool)
    ensures ok <==> forall i :: 0 <= i < |items| ==> ValidItem(items[i])
  {
    if items == [] then true
    else if !ValidItem(items[0]) then false
    else CheckItems(items[1..])
  }

  /** The item the export file holds for a record. */
  function ItemOf(b: Book): Item
  {
    Item(Some(b.id), Some(b.title), Some(b.author), b.year)
  }

  /** The export snapshot of the full catalog, not the filtered view. */
  function Export(books: seq<Book>): (items: seq<Item>)
    ensures |items| == |books|
    ensures forall i :: 0 <= i < |books| ==> items[i] == ItemOf(books[i])
  {
    seq(|books|, i requires 0 <= i < |books| => ItemOf(books[i]))
  }

  /** The record an accepted item becomes; `stamp` is the clock reading used when it has no id. */
  function BookOf(x: Item, stamp: string): Book
    requires ValidItem(x)
  {
    Book(if Truthy(x.id) then x.id.value else stamp, x.title.value, x.author.value, x.year)
  }

  /** The `arr.map` step: item i becomes `BookOf(items[i], clock(i))`. */
  function Normalize(items: seq<Item>, clock: nat -> string): (books: seq<Book>)
    requires forall i :: 0 <= i < |items| ==> ValidItem(items[i])
    ensures |books| == |items|
    ensures forall i :: 0 <= i < |items| ==> books[i] == BookOf(items[i], clock(i))
  {
    seq(|items|, i requires 0 <= i < |items| => BookOf(items[i], clock(i)))
  }

  /**
   Import: refuse a payload that is not an array or that holds an item without
   a truthy title or author; otherwise item i becomes record i, with its title,
   author and year copied and its id kept when truthy, else `clock(i)`.
   */
  function Import(p: Payload, clock: nat -> string): (r: Result<seq<Book>, ImportError>)
    ensures p.Unparsable? ==> r == Err(ParseFailed)
    ensures p.NotArray? ==> r == Err(InvalidFile)
    ensures p.Array? ==> (r.Ok? <==> forall i :: 0 <= i < |p.items| ==> ValidItem(p.items[i]))
    ensures p.Array? && r.Err? ==> r.error == InvalidItem
    ensures r.Ok? ==> p.Array? && |r.value| == |p.items|
    ensures r.Ok? ==> forall i :: 0 <= i < |p.items| ==>
      && r.value[i].title == p.items[i].title.value
      && r.value[i].author == p.items[i].author.value
      && r.value[i].year == p.items[i].year
      && r.value[i].id == (if Truthy(p.items[i].id) then p.items[i].id.value else clock(i))
  {
    match p
    case Unparsable => Err(ParseFailed)
    case NotArray => Err(InvalidFile)
    case Array(items) =>
      if !CheckItems(items) then Err(InvalidItem)
      else Ok(Normalize(items, clock))
  }

  /** Importing an export gives back the catalog when every id, title and author is non-empty. */
  lemma ExportImportRoundTrip(books: seq<Book>, clock: nat -> string)
    requires WellFormed(books)
    ensures Import(Array(Export(books)), clock) == Ok(books)
  {
    var r := Import(Array(Export(books)), clock);
    assert r.Ok?;
    assert r.value == books;
  }

  /** An export is importable exactly when no record has an empty title or author. */
  lemma ExportImportAccepted(books: seq<Book>, clock: nat -> string)
    ensures Import(Array(Export(books)), clock).Ok?
        <==> forall i :: 0 <= i < |books| ==> books[i].title != "" && books[i].author != ""
  {
  }

  /** Every accepted import yields a well-formed catalog when the clock never reads as empty. */
  lemma ImportWellFormed(p: Payload, clock: nat -> string)
    requires forall i: nat :: clock(i) != ""
    requires Import(p, clock).Ok?
    ensures WellFormed(Import(p, clock).value)
  {
  }
}
