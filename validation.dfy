/** The input checks of the `add_author` and `add_books` handlers (app.py): an ordered list
    of checks in which the first failing one decides the message shown. */
module Validation {
  import opened Wrappers
  import opened Dates

  /** One step of a validation pipeline: whether it passes, and the refusal it reports if not. */
  datatype Check<E> = Check(passes: bool, error: E)

  /** The refusal of the first failing check, or None when every check passes. */
  function FirstFailure<E(==)>(checks: seq<Check<E>>): (r: Option<E>)
    ensures r.None? <==> forall i :: 0 <= i < |checks| ==> checks[i].passes
    ensures r.Some? ==> exists i :: 0 <= i < |checks| && FailsFirstAt(checks, i) && checks[i].error == r.value
  {
    if checks == [] then None
    else if !checks[0].passes then (assert FailsFirstAt(checks, 0); Some(checks[0].error))
    else
      var rest := FirstFailure(checks[1..]);
      if rest.Some? then
        var i :| 0 <= i < |checks[1..]| && FailsFirstAt(checks[1..], i) && checks[1..][i].error == rest.value;
        assert FailsFirstAt(checks, i + 1);
        rest
      else rest
  }

  /** Check `i` fails and every check before it passes. */
  predicate FailsFirstAt<E>(checks: seq<Check<E>>, i: int)
    requires 0 <= i < |checks|
  {
    !checks[i].passes && forall j :: 0 <= j < i ==> checks[j].passes
  }

  /** The first failing check is the one reported, whatever the later checks say. */
  lemma {:induction false} FirstFailureAt<E>(checks: seq<Check<E>>, i: int)
    requires 0 <= i < |checks| && FailsFirstAt(checks, i)
    ensures FirstFailure(checks) == Some(checks[i].error)
  {
    if i > 0 {
      assert checks[0].passes;
      assert FailsFirstAt(checks[1..], i - 1);
      FirstFailureAt(checks[1..], i - 1);
    }
  }

  // ----- add_author (app.py:54-99) -----

  datatype AuthorError =
    | NameRequired
    | InvalidBirthdate
    | FutureBirthdate
    | InvalidDeathDate
    | FutureDeathDate
    | DeathBeforeBirth

  /** The checks of `add_author`, in the order the handler runs them. The death-date checks
      only apply when a death date was typed in; each check assumes the ones before it passed. */
  function AuthorChecks(name: string, birthInput: string, deathInput: string, today: Date): seq<Check<AuthorError>>
  {
    var birth := ParseDate(birthInput);
    var death := ParseDate(deathInput);
    [ Check(name != [], NameRequired),
      Check(birth.Some?, InvalidBirthdate),
      Check(birth.None? || !After(birth.value, today), FutureBirthdate),
      Check(deathInput == [] || death.Some?, InvalidDeathDate),
      Check(deathInput == [] || death.None? || !After(death.value, today), FutureDeathDate),
      Check(deathInput == [] || death.None? || birth.None? || !Before(death.value, birth.value), DeathBeforeBirth) ]
  }

  function AuthorRejection(name: string, birthInput: string, deathInput: string, today: Date): Option<AuthorError>
  {
    FirstFailure(AuthorChecks(name, birthInput, deathInput, today))
  }

  /** The date of death an accepted author is stored with: none when the field was left empty. */
  function DeathDateOf(deathInput: string): Option<Date>
  {
    if deathInput == [] then None else ParseDate(deathInput)
  }

  /** The author the data model admits: a name, a birth date no later than today, and an
      optional death date no later than today and no earlier than the birth date. */
  predicate AdmissibleAuthor(name: string, birth: Date, death: Option<Date>, today: Date)
  {
    && name != []
    && !After(birth, today)
    && (death.Some? ==> !After(death.value, today) && !Before(death.value, birth))
  }

  /** `add_author` accepts exactly the inputs that parse to an admissible author. */
  lemma AuthorAccepted(name: string, birthInput: string, deathInput: string, today: Date)
    ensures AuthorRejection(name, birthInput, deathInput, today).None?
            <==> ParseDate(birthInput).Some?
                 && (deathInput != [] ==> ParseDate(deathInput).Some?)
                 && AdmissibleAuthor(name, ParseDate(birthInput).value, DeathDateOf(deathInput), today)
  {
    var checks := AuthorChecks(name, birthInput, deathInput, today);
    assert checks[0].passes && checks[1].passes && checks[2].passes && checks[3].passes
           && checks[4].passes && checks[5].passes
           <==> forall i :: 0 <= i < |checks| ==> checks[i].passes;
  }

  /** An empty name is reported first, whatever the dates. */
  lemma EmptyNameFirst(birthInput: string, deathInput: string, today: Date)
    ensures AuthorRejection([], birthInput, deathInput, today) == Some(NameRequired)
    ensures AuthorPageMessage(AuthorRejection([], birthInput, deathInput, today)) == "Name is required."
  {
    FirstFailureAt(AuthorChecks([], birthInput, deathInput, today), 0);
  }

  /** An unreadable birth date is reported next, before anything about the death date. */
  lemma InvalidBirthdateSecond(name: string, birthInput: string, deathInput: string, today: Date)
    requires name != [] && ParseDate(birthInput).None?
    ensures AuthorRejection(name, birthInput, deathInput, today) == Some(InvalidBirthdate)
  {
    FirstFailureAt(AuthorChecks(name, birthInput, deathInput, today), 1);
  }

  /** A birth date after today is refused whatever the death-date field holds. */
  lemma FutureBirthdateThird(name: string, birthInput: string, deathInput: string, today: Date)
    requires name != [] && ParseDate(birthInput).Some? && After(ParseDate(birthInput).value, today)
    ensures AuthorRejection(name, birthInput, deathInput, today) == Some(FutureBirthdate)
  {
    FirstFailureAt(AuthorChecks(name, birthInput, deathInput, today), 2);
  }

  /** With name and birth date in order, an empty death-date field passes every remaining check. */
  lemma NoDeathDateAccepted(name: string, birthInput: string, today: Date)
    requires name != [] && ParseDate(birthInput).Some? && !After(ParseDate(birthInput).value, today)
    ensures AuthorRejection(name, birthInput, [], today).None?
  {
    AuthorAccepted(name, birthInput, [], today);
  }

  /** A death date typed in is checked in turn for format, for lying in the future and for
      preceding the birth date; the first of these that fails is reported. */
  lemma DeathDateChecks(name: string, birthInput: string, deathInput: string, today: Date)
    requires name != [] && ParseDate(birthInput).Some? && !After(ParseDate(birthInput).value, today)
    requires deathInput != []
    ensures ParseDate(deathInput).None? ==> AuthorRejection(name, birthInput, deathInput, today) == Some(InvalidDeathDate)
    ensures ParseDate(deathInput).Some? && After(ParseDate(deathInput).value, today)
            ==> AuthorRejection(name, birthInput, deathInput, today) == Some(FutureDeathDate)
    ensures ParseDate(deathInput).Some? && !After(ParseDate(deathInput).value, today)
            && Before(ParseDate(deathInput).value, ParseDate(birthInput).value)
            ==> AuthorRejection(name, birthInput, deathInput, today) == Some(DeathBeforeBirth)
  {
    var checks := AuthorChecks(name, birthInput, deathInput, today);
    if ParseDate(deathInput).None? {
      FirstFailureAt(checks, 3);
    } else if After(ParseDate(deathInput).value, today) {
      FirstFailureAt(checks, 4);
    } else if Before(ParseDate(deathInput).value, ParseDate(birthInput).value) {
      FirstFailureAt(checks, 5);
    }
  }

  /** The comparisons are strict (app.py:69, 82, 86): a birth date of today, a death date of
      today, and a death on the very day of birth are all accepted. */
  lemma BoundaryDatesAccepted(name: string, birthInput: string, deathInput: string, today: Date)
    requires name != []
    ensures ParseDate(birthInput) == Some(today) ==> AuthorRejection(name, birthInput, [], today).None?
    ensures ParseDate(birthInput).Some? && !After(ParseDate(birthInput).value, today)
            && ParseDate(deathInput) == Some(today)
            ==> AuthorRejection(name, birthInput, deathInput, today).None?
    ensures ParseDate(birthInput).Some? && !After(ParseDate(birthInput).value, today)
            && ParseDate(deathInput) == ParseDate(birthInput)
            ==> AuthorRejection(name, birthInput, deathInput, today).None?
  {
    AuthorAccepted(name, birthInput, [], today);
    AuthorAccepted(name, birthInput, deathInput, today);
  }

  /** The message `add_author` renders for a refusal (app.py:61-88); none reads as the success message. */
  function AuthorErrorMessage(e: AuthorError): (m: string)
    ensures m != AUTHOR_ADDED_MESSAGE
  {
    match e
    case NameRequired => "Name is required."
    case InvalidBirthdate => "Invalid birthdate format."
    case FutureBirthdate => "Birthdate cannot be in the future."
    case InvalidDeathDate => "Invalid death date format."
    case FutureDeathDate => "Death date cannot be in the future."
    case DeathBeforeBirth => "Death date must be after birth date."
  }

  const AUTHOR_ADDED_MESSAGE := "Author has been added!"

  /** The message of the page a POST to `add_author` renders, given the first refusal if any. */
  function AuthorPageMessage(rejection: Option<AuthorError>): (m: string)
    ensures m == AUTHOR_ADDED_MESSAGE <==> rejection.None?
  {
    match rejection
    case None => AUTHOR_ADDED_MESSAGE
    case Some(e) => AuthorErrorMessage(e)
  }

  /** The rendered message tells every outcome apart: success and each refusal have their own text. */
  lemma AuthorPageMessageInjective(a: Option<AuthorError>, b: Option<AuthorError>)
    ensures AuthorPageMessage(a) == AuthorPageMessage(b) ==> a == b
  {
  }

  // ----- add_books (app.py:112-143) -----

  datatype BookError =
    | FieldsRequired
    | InvalidPublicationDate
    | FuturePublicationDate
      /** The `unique` constraint on isbn rejected the insert at commit. */
    | DuplicateIsbn

  /** The form checks of `add_books`, in order. */
  function BookChecks(title: string, isbn: string, publicationInput: string, today: Date): seq<Check<BookError>>
  {
    var published := ParseDate(publicationInput);
    [ Check(title != [] && isbn != [] && publicationInput != [], FieldsRequired),
      Check(published.Some?, InvalidPublicationDate),
      Check(published.None? || !After(published.value, today), FuturePublicationDate) ]
  }

  function BookRejection(title: string, isbn: string, publicationInput: string, today: Date): Option<BookError>
  {
    FirstFailure(BookChecks(title, isbn, publicationInput, today))
  }

  /** The form checks of `add_books` pass exactly when all three fields are filled in and the
      publication date parses to a day no later than today; each refusal is the first check that fails. */
  lemma BookChecksOutcome(title: string, isbn: string, publicationInput: string, today: Date)
    ensures BookRejection(title, isbn, publicationInput, today).None?
            <==> title != [] && isbn != [] && publicationInput != []
                 && ParseDate(publicationInput).Some? && !After(ParseDate(publicationInput).value, today)
    ensures title == [] || isbn == [] || publicationInput == []
            ==> BookRejection(title, isbn, publicationInput, today) == Some(FieldsRequired)
    ensures title != [] && isbn != [] && publicationInput != [] && ParseDate(publicationInput).None?
            ==> BookRejection(title, isbn, publicationInput, today) == Some(InvalidPublicationDate)
    ensures title != [] && isbn != [] && ParseDate(publicationInput).Some? && After(ParseDate(publicationInput).value, today)
            ==> BookRejection(title, isbn, publicationInput, today) == Some(FuturePublicationDate)
  {
    var checks := BookChecks(title, isbn, publicationInput, today);
    assert checks[0].passes && checks[1].passes && checks[2].passes
           <==> forall i :: 0 <= i < |checks| ==> checks[i].passes;
    if !checks[0].passes {
      FirstFailureAt(checks, 0);
    } else if !checks[1].passes {
      FirstFailureAt(checks, 1);
    } else if !checks[2].passes {
      FirstFailureAt(checks, 2);
    }
  }

  /** The message `add_books` renders (app.py:120-143). A duplicate isbn renders nothing:
      the constraint error escapes the handler and the request fails. */
  function BookErrorMessage(e: BookError): (m: Option<string>)
    ensures m.None? <==> e == DuplicateIsbn
    ensures m != Some(BOOK_ADDED_MESSAGE)
  {
    match e
    case FieldsRequired => Some("All fields are required.")
    case InvalidPublicationDate => Some("Invalid publication date.")
    case FuturePublicationDate => Some("Publication date can't be in the future.")
    case DuplicateIsbn => None
  }

  const BOOK_ADDED_MESSAGE := "Book has been added!"

  /** The message of the page a POST to `add_books` renders, given the refusal if any;
      None when no page is rendered. */
  function BookPageMessage(rejection: Option<BookError>): (m: Option<string>)
    ensures m == Some(BOOK_ADDED_MESSAGE) <==> rejection.None?
    ensures m.None? <==> rejection == Some(DuplicateIsbn)
  {
    match rejection
    case None => Some(BOOK_ADDED_MESSAGE)
    case Some(e) => BookErrorMessage(e)
  }

  /** Every rendered page tells its outcome apart from all others. */
  lemma BookPageMessageInjective(a: Option<BookError>, b: Option<BookError>)
    requires BookPageMessage(a).Some?
    ensures BookPageMessage(a) == BookPageMessage(b) ==> a == b
  {
  }
}
