/**
 * The row format of the two data files, as pure functions over a list of
 * lines: `SaveBooks`/`SaveUsers` write a header and one comma-joined row per
 * record; `ReadBooks`/`ReadUsers` skip the first line and parse the rest.
 * There is no quoting, so a text field holding a comma does not survive.
 */
module Csv {
  import opened Outcomes
  import opened Records
  import opened Text

  const BookHeader: string := "Id,Title,Author,IsBorrowed,ISBN"
  const UserHeader: string := "Id,Name,Email"

  /** `int.Parse` rejected a user id; the exception ends the whole read. */
  datatype LoadError = UserIdFormat

  /**
   * A record field the format carries intact: it holds no field separator,
   * and no line break, which would split its row in two when the written
   * lines are read back.
   */
  predicate Plain(s: string) { ',' !in s && '\n' !in s && '\r' !in s }

  predicate PlainBook(b: Book) { Plain(b.title) && Plain(b.author) && Plain(b.isbn) }

  predicate PlainUser(u: User) { Plain(u.name) && Plain(u.email) }

  // ---------------------------------------------------------------- books

  /** One book row: the five properties, comma-separated, the id first. */
  function FormatBook(b: Book): (r: string)
    ensures PlainBook(b) ==> Split(r) == [IntToString(b.id), b.title, b.author, BoolToString(b.isBorrowed), b.isbn]
  {
    var fields := [IntToString(b.id), b.title, b.author, BoolToString(b.isBorrowed), b.isbn];
    IntToStringPlain(b.id);
    FlagRoundTrip(b.isBorrowed);
    if PlainBook(b) then SplitJoin(fields); Join(fields) else Join(fields)
  }

  /**
   * One data line of the book file. The line is kept when it has at least
   * five fields and the first is an integer; fields past the fifth are ignored.
   */
  function ParseBookRow(line: string): (r: Option<Book>)
    ensures r.Some? <==> |Split(line)| >= 5 && ParseInt(Split(line)[0]).Some?
    ensures r.Some? ==>
      && Some(r.value.id) == ParseInt(Split(line)[0])
      && r.value.title == Split(line)[1]
      && r.value.author == Split(line)[2]
      && (r.value.isBorrowed <==> SameIgnoringCase(Split(line)[3], "true"))
      && r.value.isbn == Split(line)[4]
  {
    var parts := Split(line);
    if |parts| >= 5 then
      match ParseInt(parts[0])
      case Some(id) => Some(Book(id, parts[1], parts[2], ReadFlag(parts[3]), parts[4]))
      case None => None
    else None
  }

  /** The books of the kept rows, in file order; malformed rows are dropped. */
  function ParseBookRows(rows: seq<string>): (r: seq<Book>)
    ensures |r| <= |rows|
    ensures forall b | b in r :: exists i :: 0 <= i < |rows| && ParseBookRow(rows[i]) == Some(b)
    ensures (forall i :: 0 <= i < |rows| ==> ParseBookRow(rows[i]).Some?) ==>
      |r| == |rows| && forall i :: 0 <= i < |rows| ==> ParseBookRow(rows[i]) == Some(r[i])
  {
    if |rows| == 0 then []
    else
      var rest := ParseBookRows(rows[1..]);
      assert forall i :: 1 <= i < |rows| ==> rows[i] == rows[1..][i - 1];
      match ParseBookRow(rows[0])
      case Some(b) => [b] + rest
      case None => rest
  }

  /** `ReadBooks` on the lines of the file: the first line is skipped whatever it holds. */
  function ReadBooks(lines: seq<string>): (r: seq<Book>)
    ensures |lines| <= 1 ==> r == []
    ensures |lines| > 0 ==> |r| <= |lines| - 1
    ensures forall b | b in r :: exists i :: 1 <= i < |lines| && ParseBookRow(lines[i]) == Some(b)
  {
    if |lines| == 0 then []
    else
      assert forall i :: 0 <= i < |lines| - 1 ==> lines[1..][i] == lines[i + 1];
      ParseBookRows(lines[1..])
  }

  /** `SaveBooks`: the header, then one row per book in list order. */
  function SaveBooks(books: seq<Book>): (r: seq<string>)
    ensures |r| == |books| + 1 && r[0] == BookHeader
    ensures forall i :: 0 <= i < |books| ==> r[i + 1] == FormatBook(books[i])
  {
    var rows := seq(|books|, i requires 0 <= i < |books| => FormatBook(books[i]));
    assert forall i :: 0 <= i < |books| ==> ([BookHeader] + rows)[i + 1] == rows[i];
    [BookHeader] + rows
  }

  // ---------------------------------------------------------------- users

  /** One user row: the three properties, comma-separated, the id first. */
  function FormatUser(u: User): (r: string)
    ensures PlainUser(u) ==> Split(r) == [IntToString(u.id), u.name, u.email]
  {
    var fields := [IntToString(u.id), u.name, u.email];
    IntToStringPlain(u.id);
    if PlainUser(u) then SplitJoin(fields); Join(fields) else Join(fields)
  }

  /** A row `ReadUsers` does not skip (three or more fields) whose id `int.Parse` rejects. */
  predicate BadUserRow(line: string) {
    |Split(line)| >= 3 && ParseInt(Split(line)[0]).None?
  }

  /**
   * The users of the rows with at least three fields, in file order. Shorter
   * rows are dropped, but a kept row with a non-integer id fails the read.
   */
  function ParseUserRows(rows: seq<string>): (r: Result<seq<User>, LoadError>)
    ensures r.Err? <==> exists i :: 0 <= i < |rows| && BadUserRow(rows[i])
    ensures r.Ok? ==> |r.value| <= |rows|
    ensures r.Ok? && (forall i :: 0 <= i < |rows| ==> |Split(rows[i])| >= 3) ==>
      |r.value| == |rows| &&
      forall i :: 0 <= i < |rows| ==>
        && Some(r.value[i].id) == ParseInt(Split(rows[i])[0])
        && r.value[i].name == Split(rows[i])[1]
        && r.value[i].email == Split(rows[i])[2]
  {
    if |rows| == 0 then Ok([])
    else
      var parts := Split(rows[0]);
      var rest := ParseUserRows(rows[1..]);
      assert forall i :: 1 <= i < |rows| ==> rows[i] == rows[1..][i - 1];
      if |parts| < 3 then rest
      else
        match ParseInt(parts[0])
        case None => Err(UserIdFormat)
        case Some(id) =>
          match rest
          case Err(e) => Err(e)
          case Ok(us) => Ok([User(id, parts[1], parts[2])] + us)
  }

  /** `ReadUsers` on the lines of the file: the first line is skipped whatever it holds. */
  function ReadUsers(lines: seq<string>): (r: Result<seq<User>, LoadError>)
    ensures r.Err? <==> exists i :: 1 <= i < |lines| && BadUserRow(lines[i])
    ensures r.Ok? && |lines| > 0 ==> |r.value| <= |lines| - 1
    ensures |lines| <= 1 ==> r == Ok([])
  {
    if |lines| == 0 then Ok([])
    else
      assert forall i :: 0 <= i < |lines| - 1 ==> lines[1..][i] == lines[i + 1];
      ParseUserRows(lines[1..])
  }

  /** `SaveUsers`: the header, then one row per user in list order. */
  function SaveUsers(users: seq<User>): (r: seq<string>)
    ensures |r| == |users| + 1 && r[0] == UserHeader
    ensures forall i :: 0 <= i < |users| ==> r[i + 1] == FormatUser(users[i])
  {
    var rows := seq(|users|, i requires 0 <= i < |users| => FormatUser(users[i]));
    assert forall i :: 0 <= i < |users| ==> ([UserHeader] + rows)[i + 1] == rows[i];
    [UserHeader] + rows
  }

  // ---------------------------------------------------------------- row by row

  /** Book rows are read one at a time: the books of two blocks of rows, one after the other. */
  lemma {:induction false} ParseBookRowsAppend(xs: seq<string>, ys: seq<string>)
    ensures ParseBookRows(xs + ys) == ParseBookRows(xs) + ParseBookRows(ys)
  {
    if |xs| == 0 {
      assert xs + ys == ys;
    } else {
      assert (xs + ys)[0] == xs[0] && (xs + ys)[1..] == xs[1..] + ys;
      ParseBookRowsAppend(xs[1..], ys);
    }
  }

  /** A single book row gives its book when it parses, and nothing otherwise. */
  lemma ParseBookRowsOne(row: string)
    ensures ParseBookRows([row]) == if ParseBookRow(row).Some? then [ParseBookRow(row).value] else []
  {
    assert [row][1..] == [];
  }

  /** The outcome of reading two blocks of user rows: a failure in either fails the read. */
  function Concat(a: Result<seq<User>, LoadError>, b: Result<seq<User>, LoadError>): Result<seq<User>, LoadError> {
    if a.Err? then a else if b.Err? then b else Ok(a.value + b.value)
  }

  /** User rows are read one at a time: two blocks of rows give their users one after the other. */
  lemma {:induction false} ParseUserRowsAppend(xs: seq<string>, ys: seq<string>)
    ensures ParseUserRows(xs + ys) == Concat(ParseUserRows(xs), ParseUserRows(ys))
  {
    if |xs| == 0 {
      assert xs + ys == ys;
      if ParseUserRows(ys).Ok? {
        assert [] + ParseUserRows(ys).value == ParseUserRows(ys).value;
      }
    } else {
      var all := xs + ys;
      assert all[0] == xs[0] && all[1..] == xs[1..] + ys;
      ParseUserRowsAppend(xs[1..], ys);
      var parts := Split(xs[0]);
      if |parts| >= 3 && ParseInt(parts[0]).Some? {
        var u := User(ParseInt(parts[0]).value, parts[1], parts[2]);
        var rest := ParseUserRows(xs[1..]);
        if rest.Ok? && ParseUserRows(ys).Ok? {
          assert [u] + (rest.value + ParseUserRows(ys).value) == ([u] + rest.value) + ParseUserRows(ys).value;
        }
      }
    }
  }

  /** A single user row: skipped when short, a failure when its id is unreadable, else its user. */
  lemma ParseUserRowsOne(row: string)
    ensures |Split(row)| < 3 ==> ParseUserRows([row]) == Ok([])
    ensures BadUserRow(row) ==> ParseUserRows([row]) == Err(UserIdFormat)
    ensures |Split(row)| >= 3 && ParseInt(Split(row)[0]).Some? ==>
      ParseUserRows([row]) == Ok([User(ParseInt(Split(row)[0]).value, Split(row)[1], Split(row)[2])])
  {
    assert [row][1..] == [];
    if |Split(row)| >= 3 && ParseInt(Split(row)[0]).Some? {
      var u := User(ParseInt(Split(row)[0]).value, Split(row)[1], Split(row)[2]);
      assert [u] + [] == [u];
    }
  }

  // ---------------------------------------------------------------- properties

  /** A book row reads back as the same book. */
  lemma BookRowRoundTrip(b: Book)
    requires PlainBook(b)
    ensures ParseBookRow(FormatBook(b)) == Some(b)
  {
    var fields := [IntToString(b.id), b.title, b.author, BoolToString(b.isBorrowed), b.isbn];
    IntToStringPlain(b.id);
    FlagRoundTrip(b.isBorrowed);
    IntRoundTrip(b.id);
    SplitJoin(fields);
  }

  /** Saving books whose texts hold no comma or line break and reading the file back gives the same books, in order. */
  lemma BooksRoundTrip(books: seq<Book>)
    requires forall i :: 0 <= i < |books| ==> PlainBook(books[i])
    ensures ReadBooks(SaveBooks(books)) == books
  {
    var rows := SaveBooks(books)[1..];
    assert SaveBooks(books) == [BookHeader] + rows;
    ReadBooksSkipsHeader(BookHeader, rows);
    forall i | 0 <= i < |rows|
      ensures ParseBookRow(rows[i]) == Some(books[i])
    {
      BookRowRoundTrip(books[i]);
    }
    ParseAllBookRows(rows, books);
  }

  /** Rows that each parse to the matching book give exactly those books. */
  lemma ParseAllBookRows(rows: seq<string>, books: seq<Book>)
    requires |rows| == |books|
    requires forall i :: 0 <= i < |rows| ==> ParseBookRow(rows[i]) == Some(books[i])
    ensures ParseBookRows(rows) == books
  {
    var r := ParseBookRows(rows);
    assert |r| == |books|;
    assert forall i :: 0 <= i < |r| ==> r[i] == books[i];
  }

  /** A user row never fails a read, and on its own it reads back as the same user. */
  lemma UserRowRoundTrip(u: User)
    requires PlainUser(u)
    ensures !BadUserRow(FormatUser(u))
    ensures ParseUserRows([FormatUser(u)]) == Ok([u])
  {
    var row := FormatUser(u);
    assert Split(row) == [IntToString(u.id), u.name, u.email];
    IntRoundTrip(u.id);
    ParseUserRowsOne(row);
  }

  /** A well-formed user row in front of readable rows adds that user in front. */
  lemma UserRowCons(u: User, rows: seq<string>, us: seq<User>)
    requires PlainUser(u)
    requires ParseUserRows(rows) == Ok(us)
    ensures ParseUserRows([FormatUser(u)] + rows) == Ok([u] + us)
  {
    UserRowRoundTrip(u);
    ParseUserRowsAppend([FormatUser(u)], rows);
  }

  /** Saving users whose texts hold no comma or line break and reading the file back gives the same users, in order. */
  lemma UsersRoundTrip(users: seq<User>)
    requires forall i :: 0 <= i < |users| ==> PlainUser(users[i])
    ensures ReadUsers(SaveUsers(users)) == Ok(users)
  {
    var rows := SaveUsers(users)[1..];
    assert SaveUsers(users) == [UserHeader] + rows;
    ReadUsersSkipsHeader(UserHeader, rows);
    UserRowsRoundTrip(users);
  }

  /** The saved rows after the header read back as the same users, in order. */
  lemma {:induction false} UserRowsRoundTrip(users: seq<User>)
    requires forall i :: 0 <= i < |users| ==> PlainUser(users[i])
    ensures ParseUserRows(SaveUsers(users)[1..]) == Ok(users)
  {
    if |users| > 0 {
      SaveUsersCons(users);
      UserRowsRoundTrip(users[1..]);
      UserRowCons(users[0], SaveUsers(users[1..])[1..], users[1..]);
      assert users == [users[0]] + users[1..];
    } else {
      assert SaveUsers(users)[1..] == [];
    }
  }

  /** The rows after the header: the first user's row, then the rows of the rest. */
  lemma SaveUsersCons(users: seq<User>)
    requires |users| > 0
    ensures SaveUsers(users)[1..] == [FormatUser(users[0])] + SaveUsers(users[1..])[1..]
  {
    var a := SaveUsers(users)[1..];
    var b := [FormatUser(users[0])] + SaveUsers(users[1..])[1..];
    var later := SaveUsers(users[1..]);
    assert |a| == |b|;
    forall i | 0 <= i < |a|
      ensures a[i] == b[i]
    {
      if i > 0 {
        assert b[i] == later[i] == FormatUser(users[1..][i - 1]);
        assert users[1..][i - 1] == users[i];
      }
    }
  }

  /** Reading books is parsing the rows after the first line, whatever that line holds. */
  lemma ReadBooksSkipsHeader(h: string, rows: seq<string>)
    ensures ReadBooks([h] + rows) == ParseBookRows(rows)
  {
    assert ([h] + rows)[1..] == rows;
  }

  /** Reading users is parsing the rows after the first line, whatever that line holds. */
  lemma ReadUsersSkipsHeader(h: string, rows: seq<string>)
    ensures ReadUsers([h] + rows) == ParseUserRows(rows)
  {
    assert ([h] + rows)[1..] == rows;
  }

  /** Reading books never depends on the first line: any header gives the same list. */
  lemma BookHeaderIgnored(h1: string, h2: string, rows: seq<string>)
    ensures ReadBooks([h1] + rows) == ReadBooks([h2] + rows)
    ensures |ReadBooks([h1] + rows)| <= |rows|
  {
  }

  /** The book header would be dropped as malformed anyway: its first field is not an integer. */
  lemma BookHeaderIsNotABook()
    ensures ParseBookRow(BookHeader) == None
  {
    HeaderFirstField(BookHeader, "Title,Author,IsBorrowed,ISBN");
    UnreadableIdDropped(BookHeader);
  }

  /** A header line starts with the field name `Id`, which is not an integer. */
  lemma HeaderFirstField(header: string, rest: string)
    requires header == "Id" + "," + rest
    ensures Split(header)[0] == "Id"
    ensures ParseInt(Split(header)[0]).None?
  {
    SplitCons("Id", rest);
    assert !IsDigit("Id"[0]);
  }

  /** A book row whose first field is not an integer is dropped, whatever else it holds. */
  lemma UnreadableIdDropped(line: string)
    requires ParseInt(Split(line)[0]).None?
    ensures ParseBookRow(line) == None
  {
  }

  /** The user header, by contrast, would fail the read: skipping it is what keeps a saved file readable. */
  lemma UserHeaderWouldFail()
    ensures BadUserRow(UserHeader)
    ensures ParseUserRows([UserHeader]).Err?
  {
    ThreeFieldHeaderFails(UserHeader, "Name", "Email");
  }

  /** A kept row whose first field is the text `Id` fails a user read. */
  lemma ThreeFieldHeaderFails(header: string, a: string, b: string)
    requires ',' !in a && ',' !in b
    requires header == "Id" + "," + (a + "," + b)
    ensures BadUserRow(header)
    ensures ParseUserRows([header]).Err?
  {
  }

  /** A short book row is dropped; a short user row is dropped too, but a bad user id is fatal. */
  lemma DropVersusFail(rows: seq<string>)
    requires forall i :: 0 <= i < |rows| ==> |Split(rows[i])| < 3
    ensures ParseBookRows(rows) == []
    ensures ParseUserRows(rows) == Ok([])
  {
  }

  /**
   * A comma inside a title shifts the fields: the part after the comma reads
   * as the author, the author as the flag, and the flag's text as the ISBN.
   */
  lemma CommaInTitleCorrupts(id: int, a: string, b: string, author: string, flag: bool, isbn: string)
    requires Plain(a) && Plain(b) && Plain(author) && Plain(isbn)
    ensures ParseBookRow(FormatBook(Book(id, a + "," + b, author, flag, isbn)))
      == Some(Book(id, a, b, ReadFlag(author), BoolToString(flag)))
  {
    CommaTitleSplits(id, a, b, author, flag, isbn);
    IntRoundTrip(id);
  }

  /** The row of a book whose title holds one comma splits into six fields. */
  lemma CommaTitleSplits(id: int, a: string, b: string, author: string, flag: bool, isbn: string)
    requires Plain(a) && Plain(b) && Plain(author) && Plain(isbn)
    ensures Split(FormatBook(Book(id, a + "," + b, author, flag, isbn)))
      == [IntToString(id), a, b, author, BoolToString(flag), isbn]
  {
    var n := IntToString(id);
    var f := BoolToString(flag);
    var fields := [n, a, b, author, f, isbn];
    assert [n, a + "," + b, author, f, isbn] == [n, a + "," + b] + [author, f, isbn];
    JoinCommaField(n, a, b, [author, f, isbn]);
    assert [n, a, b] + [author, f, isbn] == fields;
    IntToStringPlain(id);
    FlagRoundTrip(flag);
    SplitJoin(fields);
  }
}
