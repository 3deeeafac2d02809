/**
 * The book registration workflow (`BookRegisterCompleteView.post`) as a state
 * transition over an abstract store: the catalogue of books, the outstanding
 * requests by ISBN (with their request counts) and the user-request rows that
 * link requesters to an ISBN. The Naver API, the image download, the
 * serializer's verdict and the mail dispatcher are inputs.
 */
module Registration {

  import opened Wrappers
  import NaverCache

  /** A `Book` row, as the view builds it before validation. */
  datatype Book = Book(
    isbn: string,
    title: string,
    genre: string,
    author: string,
    publisher: string,
    publicationDate: int,
    description: string,
    likes: int,
    owner: int)

  /** The part of a user the workflow reads. An email of `""` stands for a missing one. */
  datatype Requester = Requester(nickname: string, email: string)

  /** A `UserRequestBook` row: who asked for which ISBN. */
  datatype UserRequest = UserRequest(user: Requester, isbn: string)

  /** One mail attempt: the recipient, and whether `send_async_mail` returned without raising. */
  datatype Mail = Mail(to: string, dispatched: bool)

  /** How a registration request ends. */
  datatype Outcome =
    | DuplicateIsbn        // the ISBN is already in the catalogue
    | DetailsNotFound      // the metadata fetch yielded nothing
    | ImageDownloadFailed  // the cover image URL did not answer 200
    | NoContentFile        // no content file was uploaded
    | ValidationFailed     // the serializer rejected the record
    | RequestNotFound      // the book was saved, but no request row exists (`get_object_or_404`)
    | ServerError          // an exception escaped the view
    | Registered

  /** The HTTP status of each outcome. */
  function StatusCode(o: Outcome): (code: int)
    ensures code == 200 <==> o == Registered
    ensures code == 500 <==> o == ServerError
    ensures code == 404 <==> o == DetailsNotFound || o == RequestNotFound
    ensures code == 400 <==> o == DuplicateIsbn || o == ImageDownloadFailed || o == NoContentFile || o == ValidationFailed
  {
    match o
    case DuplicateIsbn => 400
    case DetailsNotFound => 404
    case ImageDownloadFailed => 400
    case NoContentFile => 400
    case ValidationFailed => 400
    case RequestNotFound => 404
    case ServerError => 500
    case Registered => 200
  }

  /** The POSTed form: ISBN, genre, the uploaded content file's name (if any) and the staff user's id. */
  datatype Form = Form(isbn: string, genre: string, content: Option<string>, staff: int)

  /**
   * The collaborators: the search API, the status of a download from an image
   * URL, the serializer's verdict on a record, whether dispatching mail to an
   * address raises, and today's date.
   */
  datatype Env = Env(
    remote: NaverCache.Remote,
    imageStatus: string -> int,
    isValid: Book -> bool,
    mailOk: string -> bool,
    today: int)

  /** The store the workflow reads and writes. */
  datatype StoreState = StoreState(books: set<Book>, requests: map<string, int>, userRequests: seq<UserRequest>)

  /** The result of one registration request: outcome, store and cache afterwards, and the mails attempted. */
  datatype Result = Result(outcome: Outcome, store: StoreState, cache: map<string, NaverCache.Entry>, mails: seq<Mail>)

  /** `Book.objects.get(book_isbn=isbn)` finds a row. */
  function HasIsbn(books: set<Book>, isbn: string): (found: bool)
    ensures found <==> isbn in (set b | b in books :: b.isbn)
  {
    exists b :: b in books && b.isbn == isbn
  }

  /** An uploaded file is truthy when it has a non-empty name. */
  function HasContent(content: Option<string>): (b: bool)
    ensures b <==> content.Some? && |content.value| > 0
  {
    content.Some? && content.value != ""
  }

  /** The record combining the fetched metadata with the form. */
  function NewBook(form: Form, md: NaverCache.Metadata, today: int): (b: Book)
    ensures b.isbn == form.isbn && b.genre == form.genre && b.owner == form.staff
    ensures b.title == md.title && b.author == md.author && b.publisher == md.publisher
    ensures b.description == md.description && b.likes == 0 && b.publicationDate == today
  {
    Book(form.isbn, md.title, form.genre, md.author, md.publisher, today, md.description, 0, form.staff)
  }

  /** `UserRequestBook.objects.filter(request=...)`: the rows for `isbn`, in order. */
  function Matching(rows: seq<UserRequest>, isbn: string): (r: seq<UserRequest>)
    ensures forall u :: u in r <==> u in rows && u.isbn == isbn
  {
    if rows == [] then []
    else (if rows[0].isbn == isbn then [rows[0]] else []) + Matching(rows[1..], isbn)
  }

  /** The user-request rows left once those for `isbn` are deleted. */
  function Without(rows: seq<UserRequest>, isbn: string): (r: seq<UserRequest>)
    ensures forall u :: u in r <==> u in rows && u.isbn != isbn
  {
    if rows == [] then []
    else (if rows[0].isbn != isbn then [rows[0]] else []) + Without(rows[1..], isbn)
  }

  /** Deleting the matching rows keeps every other row: the two together are the old rows. */
  lemma {:induction false} MatchingWithoutSplit(rows: seq<UserRequest>, isbn: string)
    ensures multiset(Matching(rows, isbn)) + multiset(Without(rows, isbn)) == multiset(rows)
  {
    if rows != [] {
      MatchingWithoutSplit(rows[1..], isbn);
      assert rows == [rows[0]] + rows[1..];
    }
  }

  /** The mail loop over the requesters: one attempt per requester with an email, in order. */
  function Notify(requesters: seq<UserRequest>, mailOk: string -> bool): (mails: seq<Mail>)
    ensures |mails| <= |requesters|
    ensures forall m :: m in mails ==> m.to != "" && m.dispatched == mailOk(m.to)
    decreases |requesters|
  {
    if requesters == [] then []
    else
      var last := requesters[|requesters| - 1];
      Notify(requesters[..|requesters| - 1], mailOk)
        + (if last.user.email != "" then [Mail(last.user.email, mailOk(last.user.email))] else [])
  }

  /** The positions of the requesters that have an email. */
  function WithEmail(requesters: seq<UserRequest>): set<int>
  {
    set j | 0 <= j < |requesters| && requesters[j].user.email != ""
  }

  /**
   * Exactly one mail attempt is made per requester with an email: as many
   * attempts as such requesters, each addressed to one of them, and none missed.
   */
  lemma NotifyOnePerRequester(requesters: seq<UserRequest>, mailOk: string -> bool)
    ensures |Notify(requesters, mailOk)| == |WithEmail(requesters)|
    ensures forall m :: m in Notify(requesters, mailOk) <==>
      exists j :: 0 <= j < |requesters| && requesters[j].user.email != "" &&
                  m == Mail(requesters[j].user.email, mailOk(requesters[j].user.email))
  {
    NotifyCount(requesters, mailOk);
    NotifyMembers(requesters, mailOk);
  }

  /** The number of attempts is the number of requesters with an email. */
  lemma {:induction false} NotifyCount(requesters: seq<UserRequest>, mailOk: string -> bool)
    ensures |Notify(requesters, mailOk)| == |WithEmail(requesters)|
  {
    if requesters != [] {
      var n := |requesters| - 1;
      var init := requesters[..n];
      NotifyCount(init, mailOk);
      var s := WithEmail(init);
      if requesters[n].user.email != "" {
        assert WithEmail(requesters) == s + {n};
        assert n !in s;
      } else {
        assert WithEmail(requesters) == s;
      }
    }
  }

  /** Each attempt goes to a requester with an email, and every such requester gets one. */
  lemma {:induction false} NotifyMembers(requesters: seq<UserRequest>, mailOk: string -> bool)
    ensures forall m :: m in Notify(requesters, mailOk) <==>
      exists j :: 0 <= j < |requesters| && requesters[j].user.email != "" &&
                  m == Mail(requesters[j].user.email, mailOk(requesters[j].user.email))
  {
    if requesters != [] {
      var n := |requesters| - 1;
      var init := requesters[..n];
      NotifyMembers(init, mailOk);
      forall m | m in Notify(requesters, mailOk)
        ensures exists j :: 0 <= j < |requesters| && requesters[j].user.email != "" &&
                  m == Mail(requesters[j].user.email, mailOk(requesters[j].user.email))
      {
        if m in Notify(init, mailOk) {
          var j :| 0 <= j < |init| && init[j].user.email != "" &&
                  m == Mail(init[j].user.email, mailOk(init[j].user.email));
          assert requesters[j] == init[j];
        }
      }
      forall j | 0 <= j < |requesters| && requesters[j].user.email != ""
        ensures Mail(requesters[j].user.email, mailOk(requesters[j].user.email)) in Notify(requesters, mailOk)
      {
        if j < n {
          assert init[j] == requesters[j];
        }
      }
    }
  }

  /** Where the first four checks leave the request: stopped with a result, or on to building the record. */
  datatype Checked = Stop(result: Result) | Proceed(md: NaverCache.Metadata, cache: map<string, NaverCache.Entry>)

  /** The duplicate check, the metadata fetch, the image download and the content-file check, in that order. */
  function Precheck(st: StoreState, cache: map<string, NaverCache.Entry>, form: Form, env: Env): (c: Checked)
    ensures c.Stop? ==> c.result.store == st && c.result.mails == []
    ensures c.Stop? ==> c.result.outcome != Registered && c.result.outcome != RequestNotFound && c.result.outcome != ValidationFailed
    ensures c.Proceed? ==> !HasIsbn(st.books, form.isbn) && HasContent(form.content) && env.imageStatus(c.md.image) == 200
  {
    if HasIsbn(st.books, form.isbn) then Stop(Result(DuplicateIsbn, st, cache, []))
    else
      var (fetched, after) := NaverCache.Fetch(cache, form.isbn, env.remote);
      match fetched
      case Fault => Stop(Result(ServerError, st, after, []))
      case Absent => Stop(Result(DetailsNotFound, st, after, []))
      case Found(md) =>
        if env.imageStatus(md.image) != 200 then Stop(Result(ImageDownloadFailed, st, after, []))
        else if !HasContent(form.content) then Stop(Result(NoContentFile, st, after, []))
        else Proceed(md, after)
  }

  /**
   * The workflow as written: building the record evaluates
   * `datetime.date.today()` where `datetime` names the class (the module import
   * is shadowed by `from datetime import datetime`), which raises, so every
   * request that passes the first four checks ends in a server error.
   */
  function RegisterAsWritten(st: StoreState, cache: map<string, NaverCache.Entry>, form: Form, env: Env): (r: Result)
    ensures r.store == st && r.mails == []
  {
    match Precheck(st, cache, form, env)
    case Stop(r) => r
    case Proceed(_, after) => Result(ServerError, st, after, [])
  }


  /**
   * The workflow with the publication date taken as today's date, as intended:
   * checks, record construction, validation, save, the request-row lookup,
   * the mail loop and the cleanup.
   */
  function RegisterSpec(st: StoreState, cache: map<string, NaverCache.Entry>, form: Form, env: Env): (r: Result)
    ensures st.books <= r.store.books
    ensures forall b :: b in r.store.books && b !in st.books ==> b.isbn == form.isbn && b.likes == 0
    ensures r.outcome != Registered ==> r.store.requests == st.requests && r.store.userRequests == st.userRequests
  {
    match Precheck(st, cache, form, env)
    case Stop(r) => r
    case Proceed(md, after) =>
      var book := NewBook(form, md, env.today);
      if !env.isValid(book) then Result(ValidationFailed, st, after, [])
      else
        var books := st.books + {book};
        if form.isbn !in st.requests then Result(RequestNotFound, st.(books := books), after, [])
        else
          var requesters := Matching(st.userRequests, form.isbn);
          Result(Registered,
                 StoreState(books, st.requests - {form.isbn}, Without(st.userRequests, form.isbn)),
                 after,
                 Notify(requesters, env.mailOk))
  }

  /**
   * As written, no request ever registers a book or changes the store: every
   * request that passes the first four checks, including each one the intended
   * workflow registers, ends in a server error instead.
   */
  lemma RegisterAsWrittenNeverSaves(st: StoreState, cache: map<string, NaverCache.Entry>, form: Form, env: Env)
    ensures RegisterAsWritten(st, cache, form, env).outcome != Registered
    ensures RegisterAsWritten(st, cache, form, env).store == st
    ensures Precheck(st, cache, form, env).Proceed? ==> RegisterAsWritten(st, cache, form, env).outcome == ServerError
    ensures RegisterSpec(st, cache, form, env).outcome == Registered ==>
      RegisterAsWritten(st, cache, form, env).outcome == ServerError
  {
  }

  /**
   * The checks run in a fixed order and the first that fails decides the outcome.
   */
  lemma RegisterChecksInOrder(st: StoreState, cache: map<string, NaverCache.Entry>, form: Form, env: Env)
    ensures var r := RegisterSpec(st, cache, form, env);
      var fetched := NaverCache.Resolve(cache, form.isbn, env.remote);
      && (HasIsbn(st.books, form.isbn) ==> r.outcome == DuplicateIsbn)
      && (!HasIsbn(st.books, form.isbn) && fetched.Absent? ==> r.outcome == DetailsNotFound)
      && (!HasIsbn(st.books, form.isbn) && fetched.Fault? ==> r.outcome == ServerError)
      && (!HasIsbn(st.books, form.isbn) && fetched.Found? ==>
            && (env.imageStatus(fetched.md.image) != 200 ==> r.outcome == ImageDownloadFailed)
            && (env.imageStatus(fetched.md.image) == 200 && !HasContent(form.content) ==> r.outcome == NoContentFile)
            && (env.imageStatus(fetched.md.image) == 200 && HasContent(form.content) ==>
                  !env.isValid(NewBook(form, fetched.md, env.today)) ==> r.outcome == ValidationFailed))
  {
  }

  /** Every failure before the save leaves the store as it was and sends no mail. */
  lemma RegisterFailureLeavesStore(st: StoreState, cache: map<string, NaverCache.Entry>, form: Form, env: Env)
    ensures var r := RegisterSpec(st, cache, form, env);
      r.outcome != Registered && r.outcome != RequestNotFound ==> r.store == st && r.mails == []
  {
  }

  /**
   * A registration succeeds exactly when every check passes and a request row
   * exists; then the catalogue gains the new record (given ISBN and genre, no
   * likes, the metadata's title, author, publisher and description), the
   * request row and every user-request row for the ISBN are gone, all other
   * rows stay, and one mail is attempted per requester with an email.
   */
  lemma RegisterSucceeds(st: StoreState, cache: map<string, NaverCache.Entry>, form: Form, env: Env)
    ensures var r := RegisterSpec(st, cache, form, env);
      var fetched := NaverCache.Resolve(cache, form.isbn, env.remote);
      && (r.outcome == Registered <==>
            && !HasIsbn(st.books, form.isbn) && fetched.Found?
            && env.imageStatus(fetched.md.image) == 200 && HasContent(form.content)
            && env.isValid(NewBook(form, fetched.md, env.today))
            && form.isbn in st.requests)
      && (r.outcome == Registered ==>
            var book := NewBook(form, fetched.md, env.today);
            && r.store.books == st.books + {book}
            && book.isbn == form.isbn && book.genre == form.genre && book.likes == 0
            && book.title == fetched.md.title && book.author == fetched.md.author
            && book.publisher == fetched.md.publisher && book.description == fetched.md.description
            && HasIsbn(r.store.books, form.isbn)
            && r.store.requests == st.requests - {form.isbn}
            && (forall u :: u in r.store.userRequests <==> u in st.userRequests && u.isbn != form.isbn)
            && r.mails == Notify(Matching(st.userRequests, form.isbn), env.mailOk)
            && |r.mails| == |WithEmail(Matching(st.userRequests, form.isbn))|)
  {
    var r := RegisterSpec(st, cache, form, env);
    if r.outcome == Registered {
      var fetched := NaverCache.Resolve(cache, form.isbn, env.remote);
      var book := NewBook(form, fetched.md, env.today);
      assert book in r.store.books;
      NotifyOnePerRequester(Matching(st.userRequests, form.isbn), env.mailOk);
    }
  }

  /**
   * The `get_object_or_404` quirk: with every check passed but no request row,
   * the caller gets 404 although the book has been saved; nothing else changes
   * and no mail is sent.
   */
  lemma RegisterWithoutRequest(st: StoreState, cache: map<string, NaverCache.Entry>, form: Form, env: Env)
    ensures var r := RegisterSpec(st, cache, form, env);
      var fetched := NaverCache.Resolve(cache, form.isbn, env.remote);
      (&& !HasIsbn(st.books, form.isbn) && fetched.Found?
       && env.imageStatus(fetched.md.image) == 200 && HasContent(form.content)
       && env.isValid(NewBook(form, fetched.md, env.today))
       && form.isbn !in st.requests) ==>
        && r.outcome == RequestNotFound
        && r.store.books == st.books + {NewBook(form, fetched.md, env.today)}
    ensures var r := RegisterSpec(st, cache, form, env);
      r.outcome == RequestNotFound ==>
        && StatusCode(r.outcome) == 404
        && form.isbn !in st.requests
        && HasIsbn(r.store.books, form.isbn) && !HasIsbn(st.books, form.isbn)
        && r.store.requests == st.requests && r.store.userRequests == st.userRequests
        && r.mails == []
  {
    var r := RegisterSpec(st, cache, form, env);
    if r.outcome == RequestNotFound {
      var book := NewBook(form, NaverCache.Resolve(cache, form.isbn, env.remote).md, env.today);
      assert book in r.store.books;
    }
  }

  /** Whether mail dispatch raises changes nothing but the record of the attempts. */
  lemma MailFailuresDoNotMatter(st: StoreState, cache: map<string, NaverCache.Entry>, form: Form, env: Env, mailOk: string -> bool)
    ensures var r1, r2 := RegisterSpec(st, cache, form, env), RegisterSpec(st, cache, form, env.(mailOk := mailOk));
      && r1.outcome == r2.outcome && r1.store == r2.store && r1.cache == r2.cache
      && |r1.mails| == |r2.mails|
      && (forall i :: 0 <= i < |r1.mails| ==> r1.mails[i].to == r2.mails[i].to)
  {
    var r1, r2 := RegisterSpec(st, cache, form, env), RegisterSpec(st, cache, form, env.(mailOk := mailOk));
    if r1.outcome == Registered {
      NotifyRecipients(Matching(st.userRequests, form.isbn), env.mailOk, mailOk);
    }
  }

  lemma {:induction false} NotifyRecipients(requesters: seq<UserRequest>, ok1: string -> bool, ok2: string -> bool)
    ensures |Notify(requesters, ok1)| == |Notify(requesters, ok2)|
    ensures forall i :: 0 <= i < |Notify(requesters, ok1)| ==> Notify(requesters, ok1)[i].to == Notify(requesters, ok2)[i].to
  {
    if requesters != [] {
      NotifyRecipients(requesters[..|requesters| - 1], ok1, ok2);
    }
  }

  /** Once a request has saved the book, registering the same ISBN again fails as a duplicate. */
  lemma RegisterTwice(st: StoreState, cache: map<string, NaverCache.Entry>, form: Form, env: Env, again: Form, env2: Env)
    requires again.isbn == form.isbn
    ensures var r := RegisterSpec(st, cache, form, env);
      r.outcome == Registered || r.outcome == RequestNotFound ==>
        RegisterSpec(r.store, r.cache, again, env2).outcome == DuplicateIsbn
  {
    var r := RegisterSpec(st, cache, form, env);
    if r.outcome == Registered || r.outcome == RequestNotFound {
      var book := NewBook(form, NaverCache.Resolve(cache, form.isbn, env.remote).md, env.today);
      assert book in r.store.books;
    }
  }

  /** The mail loop: one dispatch per requester that has an email, recording whether it raised. */
  method SendMails(requesters: seq<UserRequest>, mailOk: string -> bool) returns (mails: seq<Mail>)
    ensures mails == Notify(requesters, mailOk)
  {
    mails := [];
    var i := 0;
    while i < |requesters|
      invariant 0 <= i <= |requesters|
      invariant mails == Notify(requesters[..i], mailOk)
    {
      var user := requesters[i].user;
      if user.email != "" {
        mails := mails + [Mail(user.email, mailOk(user.email))];
      }
      assert requesters[..i + 1][..i] == requesters[..i];
      i := i + 1;
    }
    assert requesters[..|requesters|] == requesters;
  }

  /** The store, updated in place by the view. */
  class Store {
    var books: set<Book>
    var requests: map<string, int>
    var userRequests: seq<UserRequest>

    constructor (st: StoreState)
      ensures State() == st
    {
      books, requests, userRequests := st.books, st.requests, st.userRequests;
    }

    function State(): StoreState
      reads this
    {
      StoreState(books, requests, userRequests)
    }

    /** The duplicate check, the metadata fetch, the image download and the content-file check. */
    method RunChecks(cache: NaverCache.Cache, form: Form, env: Env) returns (checked: Checked)
      modifies cache
      ensures checked == Precheck(State(), old(cache.entries), form, env)
      ensures checked.Stop? ==> cache.entries == checked.result.cache
      ensures checked.Proceed? ==> cache.entries == checked.cache
    {
      var isbn := form.isbn;
      if exists b :: b in books && b.isbn == isbn {
        return Stop(Result(DuplicateIsbn, State(), cache.entries, []));
      }
      var details := NaverCache.FetchDetails(cache, isbn, env.remote);
      if details.Fault? {
        return Stop(Result(ServerError, State(), cache.entries, []));
      }
      if details.Absent? {
        return Stop(Result(DetailsNotFound, State(), cache.entries, []));
      }
      var md := details.md;
      if env.imageStatus(md.image) != 200 {
        return Stop(Result(ImageDownloadFailed, State(), cache.entries, []));
      }
      if form.content.None? || form.content.value == "" {
        return Stop(Result(NoContentFile, State(), cache.entries, []));
      }
      checked := Proceed(md, cache.entries);
    }

    /** `BookRegisterCompleteView.post` after the admin check, with the publication date taken as today. */
    method Register(cache: NaverCache.Cache, form: Form, env: Env) returns (outcome: Outcome, mails: seq<Mail>)
      modifies this, cache
      ensures var r := RegisterSpec(old(State()), old(cache.entries), form, env);
        && outcome == r.outcome && State() == r.store && cache.entries == r.cache && mails == r.mails
    {
      mails := [];
      var isbn := form.isbn;
      ghost var st, c0 := State(), cache.entries;
      var checked := RunChecks(cache, form, env);
      assert checked == Precheck(st, c0, form, env);
      if checked.Stop? {
        return checked.result.outcome, [];
      }
      var md := checked.md;
      var book := Book(isbn, md.title, form.genre, md.author, md.publisher, env.today, md.description, 0, form.staff);
      if !env.isValid(book) {
        return ValidationFailed, [];
      }
      books := books + {book};
      if isbn !in requests {
        return RequestNotFound, [];
      }
      var requesters := Matching(userRequests, isbn);
      mails := SendMails(requesters, env.mailOk);
      requests := requests - {isbn};
      userRequests := Without(userRequests, isbn);
      outcome := Registered;
    }
  }
}
