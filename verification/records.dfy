/** The two entities the library keeps: books and users. */
module Records {

  /** A catalogue entry. `isBorrowed` is the availability flag the lending operations maintain. */
  datatype Book = Book(id: int, title: string, author: string, isBorrowed: bool, isbn: string)

  /** A registered reader. */
  datatype User = User(id: int, name: string, email: string)

  /** The key the store looks books up by. */
  function BookId(b: Book): int { b.id }

  /** The key the store looks users up by. */
  function UserId(u: User): int { u.id }

  /** A book as `new Book()` builds it: the id and flag at their type defaults, the texts empty. */
  const DefaultBook: Book := Book(0, "", "", false, "")

  /** A book's lending state. */
  datatype Availability = Available | Borrowed

  function AvailabilityOf(b: Book): Availability {
    if b.isBorrowed then Borrowed else Available
  }
}
