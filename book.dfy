/** The catalog entity (`Book`) and the defaults its constructor applies. */
module Books {
  import opened Common

  /** The constructor's argument: every field may be missing. */
  datatype BookData = BookData(
    Id: Option<string>,
    Name: Option<string>,
    AuthorName: Option<string>,
    Edition: Option<string>,
    Genre: Option<string>,
    TotalCopies: Option<int>,
    AvailableCopies: Option<int>)

  /** A constructed book. */
  datatype Book = Book(
    Id: Option<string>,
    Name: string,
    AuthorName: string,
    Edition: string,
    Genre: string,
    TotalCopies: int,
    AvailableCopies: int)

  /** `x || ""` on an optional string. */
  function OrEmpty(v: Option<string>): (r: string)
    ensures r == v.GetOr("")
  {
    if v.Some? && v.value != "" then v.value else ""
  }

  /** `new Book(data)`: text fields `|| ""`, TotalCopies `|| 0`, and
      AvailableCopies `?? data.TotalCopies ?? 0`, so a supplied 0 is kept. */
  function NewBook(data: BookData): (b: Book)
    ensures b.Id == data.Id
    ensures b.Name == data.Name.GetOr("") && b.AuthorName == data.AuthorName.GetOr("")
    ensures b.Edition == data.Edition.GetOr("") && b.Genre == data.Genre.GetOr("")
    ensures b.TotalCopies == data.TotalCopies.GetOr(0)
    ensures data.AvailableCopies.Some? ==> b.AvailableCopies == data.AvailableCopies.value
    ensures data.AvailableCopies.None? ==> b.AvailableCopies == b.TotalCopies
  {
    Book(
      Id := data.Id,
      Name := OrEmpty(data.Name),
      AuthorName := OrEmpty(data.AuthorName),
      Edition := OrEmpty(data.Edition),
      Genre := OrEmpty(data.Genre),
      TotalCopies := if data.TotalCopies.Some? && data.TotalCopies.value != 0 then data.TotalCopies.value else 0,
      AvailableCopies :=
        if data.AvailableCopies.Some? then data.AvailableCopies.value
        else if data.TotalCopies.Some? then data.TotalCopies.value
        else 0)
  }

  /** The constructor does not relate the two counts: more copies available
      than exist is accepted as given. */
  lemma NewBookKeepsExcessAvailable(total: int, available: int)
    requires available > total
    ensures var b := NewBook(BookData(None, None, None, None, None, Some(total), Some(available)));
      b.AvailableCopies > b.TotalCopies
  {
  }

  /** A book seen again as constructor input. */
  function AsData(b: Book): BookData {
    BookData(b.Id, Some(b.Name), Some(b.AuthorName), Some(b.Edition), Some(b.Genre),
             Some(b.TotalCopies), Some(b.AvailableCopies))
  }

  /** Rebuilding a constructed book changes nothing. */
  lemma RebuildUnchanged(b: Book)
    ensures NewBook(AsData(b)) == b
  {
  }
}
