/** The author record and its CSV store: building an author from the login
    form, logging in by scanning the store, and registering by appending to
    it after a duplicate check. */
module Authors {
  import opened Types
  import opened Email
  import opened Crypto
  import opened CsvStore

  /** One user. `password` holds the encoded hash, never the plaintext. */
  datatype Author = Author(id: Uuid, name: string, email: string, password: string, createdOn: Timestamp)

  datatype LoginState = LoggedIn | DoesNotExist | InvalidCredentials

  /** `Author::build`. The UUID, the clock reading and the salt, which the
      source draws itself, are inputs. The e-mail is checked before
      anything is hashed: an invalid address is `InvalidEmail` whatever the
      hasher does. */
  function Build(h: Hasher, name: string, email: string, password: string, salt: string,
                 id: Uuid, now: Timestamp): (r: Result<Author>)
    ensures r == Err(InvalidEmail) <==> !ValidEmail(email)
    ensures r.Ok? <==> ValidEmail(email) && h.hash(password, salt).Some?
    ensures r.Err? && ValidEmail(email) ==> r.error == HashingError
    ensures r.Ok? ==> r.value == Author(id, name, email, h.hash(password, salt).value, now)
  {
    match IsValidEmail(email)
    case Err(e) => Err(e)
    case Ok(valid) =>
      if !valid then Err(InvalidEmail)
      else
        match EncryptPassword(h, password, salt)
        case Err(e) => Err(e)
        case Ok(encoded) => Ok(Author(id, name, email, encoded, now))
  }

  // ---------------------------------------------------------------------
  // Scanning the store

  /** A record ends a scan for `email`: it does not deserialise as an
      author (the `?` on each record), or it is an author with that e-mail. */
  predicate EndsScan(line: Line<Author>, email: string) {
    !line.Row? || line.record.email == email
  }

  /** Where a scan for `email` stops: the first record that ends it, or
      `|records|` when it runs off the end. */
  function FirstStop(records: seq<Line<Author>>, email: string): (k: nat)
    ensures k <= |records|
    ensures forall j :: 0 <= j < k ==> !EndsScan(records[j], email)
    ensures k < |records| ==> EndsScan(records[k], email)
  {
    if records == [] then 0
    else if EndsScan(records[0], email) then 0
    else 1 + FirstStop(records[1..], email)
  }

  /** `k` is the first author with `email`, and every record before it
      deserialises. */
  ghost predicate FirstMatchAt(records: seq<Line<Author>>, email: string, k: int) {
    && 0 <= k < |records| && records[k].Row? && records[k].record.email == email
    && forall j :: 0 <= j < k ==> records[j].Row? && records[j].record.email != email
  }

  /** The answer of `Author::login` on the records of an existing file. */
  function LoginOutcome(h: Hasher, records: seq<Line<Author>>, email: string, password: string): Result<LoginState> {
    var k := FirstStop(records, email);
    if k == |records| then Ok(DoesNotExist)
    else
      match records[k]
      case Row(author) =>
        (match VerifyPassword(h, password, author.password)
         case Err(e) => Err(e)
         case Ok(verified) => if verified then Ok(LoggedIn) else Ok(InvalidCredentials))
      case _ => Err(CsvError)
  }

  /** The outcome of the duplicate check of `Author::write_to_csv`. */
  function DuplicateCheck(records: seq<Line<Author>>, email: string): Result<()> {
    var k := FirstStop(records, email);
    if k == |records| then Ok(())
    else if records[k].Row? then Err(AuthorExists)
    else Err(CsvError)
  }

  /** `Author::login`: opens the file for reading (a missing file is an I/O
      error) and returns at the first record that has the e-mail. */
  method Login(h: Hasher, email: string, password: string, file: CsvFile<Author>) returns (r: Result<LoginState>)
    ensures r == if file.present then LoginOutcome(h, DataLines(file.lines), email, password) else Err(IoError)
  {
    if !file.present {
      return Err(IoError);
    }
    var records := DataLines(file.lines);
    var i := 0;
    while i < |records|
      invariant i <= |records|
      invariant forall j :: 0 <= j < i ==> !EndsScan(records[j], email)
    {
      match records[i] {
        case Row(author) =>
          if author.email == email {
            var verified := VerifyPassword(h, password, author.password);
            if verified.Err? {
              return Err(verified.error);
            }
            r := if verified.value then Ok(LoggedIn) else Ok(InvalidCredentials);
            return;
          }
        case _ =>
          return Err(CsvError);
      }
      i := i + 1;
    }
    return Ok(DoesNotExist);
  }

  /** `Author::write_to_csv`: opens (creating) the file, notes whether it
      was empty, fails on the first record with the same e-mail, and
      otherwise appends the author, after a header when the file was empty.
      The source compares against a JSON round-trip copy of the author,
      which equals the author itself. */
  method WriteToCsv(author: Author, file: CsvFile<Author>) returns (r: Result<()>)
    requires file.Valid()
    modifies file
    ensures file.Valid()
    ensures r == if file.writable then DuplicateCheck(DataLines(old(file.lines)), author.email) else Err(IoError)
    ensures file.present == (old(file.present) || file.writable)
    ensures file.lines == if r.Ok? then Appended(old(file.lines), [author]) else old(file.lines)
  {
    var canAppend := file.OpenAppendCreate();
    if !canAppend {
      return Err(IoError);
    }
    var isEmpty := file.lines == [];
    var records := DataLines(file.lines);
    var i := 0;
    while i < |records|
      invariant i <= |records|
      invariant forall j :: 0 <= j < i ==> !EndsScan(records[j], author.email)
      invariant file.Valid() && file.present && file.lines == old(file.lines)
    {
      match records[i] {
        case Row(existing) =>
          if existing.email == author.email {
            return Err(AuthorExists);
          }
        case _ =>
          return Err(CsvError);
      }
      i := i + 1;
    }
    file.Serialize(author, isEmpty);
    assert Rows([author]) == [Row(author)];
    r := Ok(());
  }

  // ---------------------------------------------------------------------
  // Properties of the scans

  /** A scan that stops inside `records` never looks at what follows. */
  lemma FirstStopPrefix(records: seq<Line<Author>>, more: seq<Line<Author>>, email: string)
    ensures FirstStop(records + more, email) ==
      if FirstStop(records, email) < |records| then FirstStop(records, email)
      else |records| + FirstStop(more, email)
  {
    var all := records + more;
    var k, k' := FirstStop(records, email), FirstStop(all, email);
    assert forall j :: 0 <= j < |records| ==> all[j] == records[j];
    if k == |records| {
      var m := FirstStop(more, email);
      assert forall j :: 0 <= j < |more| ==> all[|records| + j] == more[j];
      assert forall j :: 0 <= j < k' - |records| ==> !EndsScan(more[j], email);
      assert k' == |records| + m;
    }
  }

  /** Login is decided by the first record with the e-mail alone: `LoggedIn`
      when the stored hash verifies, `InvalidCredentials` when it parses but
      does not match, a hashing error when it does not parse. */
  lemma {:induction false} LoginDecidedByFirstMatch(h: Hasher, records: seq<Line<Author>>, email: string, password: string, k: int)
    requires FirstMatchAt(records, email, k)
    ensures var stored := records[k].record.password;
      LoginOutcome(h, records, email, password) ==
        if !h.wellFormed(stored) then Err(HashingError)
        else if h.matches(password, stored) then Ok(LoggedIn)
        else Ok(InvalidCredentials)
  {
    var stop := FirstStop(records, email);
    assert stop <= k;
    assert stop == k by {
      assert !EndsScan(records[stop], email) || stop >= k;
    }
  }

  /** Records after the first one with the e-mail are never consulted. */
  lemma LaterRecordsIgnored(h: Hasher, records: seq<Line<Author>>, later: seq<Line<Author>>, email: string, password: string, k: int)
    requires FirstMatchAt(records, email, k)
    ensures LoginOutcome(h, records + later, email, password) == LoginOutcome(h, records, email, password)
  {
    FirstStopPrefix(records, later, email);
    assert (records + later)[FirstStop(records, email)] == records[FirstStop(records, email)];
  }

  /** `DoesNotExist` exactly when every record deserialises and none has
      the e-mail. */
  lemma LoginDoesNotExistIff(h: Hasher, records: seq<Line<Author>>, email: string, password: string)
    ensures LoginOutcome(h, records, email, password) == Ok(DoesNotExist) <==>
      forall j :: 0 <= j < |records| ==> records[j].Row? && records[j].record.email != email
  {
    var k := FirstStop(records, email);
    if k < |records| && records[k].Row? {
      var v := VerifyPassword(h, password, records[k].record.password);
      assert LoginOutcome(h, records, email, password) != Ok(DoesNotExist);
    }
  }

  /** `LoggedIn` exactly when there is a first record with the e-mail,
      every record before it deserialises, and its hash verifies. */
  lemma LoginLoggedInIff(h: Hasher, records: seq<Line<Author>>, email: string, password: string)
    ensures LoginOutcome(h, records, email, password) == Ok(LoggedIn) <==>
      exists k :: FirstMatchAt(records, email, k)
        && h.wellFormed(records[k].record.password) && h.matches(password, records[k].record.password)
  {
    var k := FirstStop(records, email);
    if k < |records| && records[k].Row? {
      assert FirstMatchAt(records, email, k);
      LoginDecidedByFirstMatch(h, records, email, password, k);
    }
    if exists k :: FirstMatchAt(records, email, k) {
      var m :| FirstMatchAt(records, email, m);
      LoginDecidedByFirstMatch(h, records, email, password, m);
    }
  }

  /** The duplicate check fails with `AuthorExists` exactly when login
      would reach a record with the e-mail. */
  lemma DuplicateIff(records: seq<Line<Author>>, email: string)
    ensures DuplicateCheck(records, email) == Err(AuthorExists) <==> exists k :: FirstMatchAt(records, email, k)
    ensures (forall j :: 0 <= j < |records| ==> records[j].Row?) ==>
      (DuplicateCheck(records, email) == Err(AuthorExists) <==>
        exists j :: 0 <= j < |records| && records[j].record.email == email)
  {
    var k := FirstStop(records, email);
    if k < |records| && records[k].Row? {
      assert FirstMatchAt(records, email, k);
    }
    if exists m :: FirstMatchAt(records, email, m) {
      var m :| FirstMatchAt(records, email, m);
      assert k <= m;
    }
  }

  /** Login and registration scan alike: login answers `DoesNotExist`
      exactly when registering that e-mail passes the duplicate check. */
  lemma DoesNotExistIffRegistrable(h: Hasher, records: seq<Line<Author>>, email: string, password: string)
    ensures LoginOutcome(h, records, email, password) == Ok(DoesNotExist) <==> DuplicateCheck(records, email) == Ok(())
  {
    var k := FirstStop(records, email);
    if k < |records| && records[k].Row? {
      var v := VerifyPassword(h, password, records[k].record.password);
      assert LoginOutcome(h, records, email, password) != Ok(DoesNotExist);
    }
  }

  /** On a store that starts with the header, as every store this layer
      writes does, after a successful registration of an author built from
      `password`, logging in with the same e-mail and password succeeds,
      given that the hasher is `Sound`. */
  lemma RegisterThenLogin(h: Hasher, lines: seq<Line<Author>>, name: string, email: string, password: string,
                          salt: string, id: Uuid, now: Timestamp)
    requires Sound(h)
    requires Build(h, name, email, password, salt, id, now).Ok?
    requires HeaderFirst(lines)
    requires DuplicateCheck(DataLines(lines), email) == Ok(())
    ensures LoginOutcome(h, DataLines(Appended(lines, [Build(h, name, email, password, salt, id, now).value])), email, password)
      == Ok(LoggedIn)
  {
    var author := Build(h, name, email, password, salt, id, now).value;
    var before := DataLines(lines);
    AppendedShape(lines, [author]);
    var records := DataLines(Appended(lines, [author]));
    assert records == before + [Row(author)];
    var n := |before|;
    assert forall j :: 0 <= j < n ==> !EndsScan(before[j], email);
    assert FirstMatchAt(records, email, n);
    LoginDecidedByFirstMatch(h, records, email, password, n);
  }

  /** On a store that starts with the header, registering the same e-mail
      a second time fails with `AuthorExists` and leaves the store as the
      first registration left it. */
  lemma SecondRegistrationFails(lines: seq<Line<Author>>, first: Author, second: Author)
    requires HeaderFirst(lines)
    requires DuplicateCheck(DataLines(lines), first.email) == Ok(())
    requires second.email == first.email
    ensures DuplicateCheck(DataLines(Appended(lines, [first])), second.email) == Err(AuthorExists)
  {
    AppendedShape(lines, [first]);
    var before := DataLines(lines);
    var records := DataLines(Appended(lines, [first]));
    assert records == before + [Row(first)];
    assert forall j :: 0 <= j < |before| ==> !EndsScan(before[j], first.email);
    assert FirstMatchAt(records, first.email, |before|);
    DuplicateIff(records, first.email);
  }

  /** A store whose first line is not the header gives the reader no field
      names: once it holds a second line, both login and registration stop
      at that line with a CSV error, whatever the e-mail and the hasher. */
  lemma HeaderlessStoreFails(h: Hasher, lines: seq<Line<Author>>, email: string, password: string)
    requires |lines| >= 2 && !lines[0].Header?
    ensures LoginOutcome(h, DataLines(lines), email, password) == Err(CsvError)
    ensures DuplicateCheck(DataLines(lines), email) == Err(CsvError)
  {
    var records := DataLines(lines);
    assert records[0] == Malformed;
    assert FirstStop(records, email) == 0;
  }
}
