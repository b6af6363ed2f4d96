/**
 * `format_email` of cold_email.py: pick the greeting, the sender's first name
 * and the template for an email type, and give back the subject and the body.
 * The template files and Python's positional `str.format` are not modelled: a
 * body records which template it fills and the five arguments handed to
 * `format`, in their positional order.
 */
module Render {
  import opened Common
  import opened Sanitize

  /** The Name-cell value that means "no specific recruiter". */
  const NoName: string := "NO_NAME"

  /** The one subject line, used for every template. */
  const PersonalSubject: string := "Recruit top talent through V1 Startup Fair @ University of Michigan!"

  /** The default of `format_email`'s `email_type` parameter. */
  const DefaultEmailType: string := "personal"

  datatype TemplateKind = PersonalTemplate | BusinessTemplate

  /** A filled template: the template file and the arguments of `format`, in positional order. */
  datatype Body = Body(
    template: TemplateKind,
    greeting: string,
    fullName: string,
    year: string,
    company: string,
    firstName: string)

  datatype Email = Email(subject: string, body: Body)

  /**
   * Why `format_email` gives no `(subject, body)` pair: an unknown type makes it
   * return `None` (the caller's tuple unpacking then fails), and a sender name
   * without a word makes `name.split()[0]` raise.
   */
  datatype FormatError = UnrecognizedType(emailType: string) | BlankSenderName

  /** The template an email type selects, if any. */
  function TemplateFor(emailType: string): Option<TemplateKind> {
    if emailType == "Regular" || emailType == "Small" then Some(PersonalTemplate)
    else if emailType == "Business" then Some(BusinessTemplate)
    else None
  }

  /** The recruiter name a greeting was made for: the inverse of Greeting. */
  function GreetedName(greeting: string): string {
    if greeting == "Hello" || |greeting| < 6 then NoName else greeting[6..]
  }

  /** The first `format` argument: a bare "Hello" for the sentinel name and "Hello <name>" otherwise. */
  function Greeting(recruiterName: string): string {
    if recruiterName == NoName then "Hello" else "Hello " + recruiterName
  }

  /**
   * A greeting always starts with "Hello", is bare exactly for the sentinel
   * name, has "Hello " followed by the name otherwise, and determines the
   * name it was made for.
   */
  lemma GreetingShape(recruiterName: string)
    ensures var g := Greeting(recruiterName);
      && |g| >= 5 && g[..5] == "Hello"
      && (recruiterName != NoName ==> |g| >= 6 && g[..6] == "Hello ")
      && (g == "Hello" <==> recruiterName == NoName)
      && GreetedName(g) == recruiterName
  {
    var g := Greeting(recruiterName);
    if recruiterName != NoName {
      assert g[..5] == "Hello" && g[6..] == recruiterName;
      assert g != "Hello" by {
        assert |g| > 5;
      }
    }
  }

  /** Different recruiter names never get the same greeting. */
  lemma GreetingInjective(a: string, b: string)
    requires Greeting(a) == Greeting(b)
    ensures a == b
  {
    GreetingShape(a);
    GreetingShape(b);
  }

  /** `name.split()[0]`: absent when `name` has no word, where Python raises `IndexError`. */
  function FirstName(name: string): (r: Option<string>)
    ensures r.Some? <==> HasWord(name)
    ensures r.Some? ==> exists i :: FirstWordAt(name, r.value, i)
  {
    WordsEmpty(name);
    if Words(name) == [] then None
    else
      WordsStartWithFirstWord(name);
      Some(Words(name)[0])
  }

  /** The sender "Jordan Lee" is addressed by the first name "Jordan". */
  lemma FirstNameExample()
    ensures FirstName("Jordan Lee") == Some("Jordan")
  {
    var s := "Jordan Lee";
    assert IsWhitespace(s[6]);
    assert FirstWordAt(s, "Jordan", 0);
    FirstWordUnique(s, "Jordan", 0);
  }

  /**
   * `format_email(name, company, recruiter_name, email_type)` with the
   * configured `year`. An unknown type fails before anything else is looked
   * at; a recognised type fails only for a sender name without a word.
   */
  function FormatEmail(year: string, name: string, company: string, recruiterName: string, emailType: string)
    : (r: Result<Email, FormatError>)
    ensures r == Failure(UnrecognizedType(emailType)) <==> TemplateFor(emailType).None?
    ensures r == Failure(BlankSenderName) <==> TemplateFor(emailType).Some? && !HasWord(name)
    ensures r.Success? <==> TemplateFor(emailType).Some? && HasWord(name)
  {
    match TemplateFor(emailType)
    case None => Failure(UnrecognizedType(emailType))
    case Some(kind) =>
      match FirstName(name)
      case None => Failure(BlankSenderName)
      case Some(first) => Success(Email(PersonalSubject, Body(kind, Greeting(recruiterName), name, year, company, first)))
  }

  /**
   * A formatted email has the fixed subject and the type's template, and its
   * body carries a greeting for the recruiter, the sender's full name, the
   * year, the company and the sender's first word.
   */
  lemma FormatEmailContent(year: string, name: string, company: string, recruiterName: string, emailType: string)
    requires FormatEmail(year, name, company, recruiterName, emailType).Success?
    ensures var e := FormatEmail(year, name, company, recruiterName, emailType).value;
      && e.subject == PersonalSubject
      && TemplateFor(emailType) == Some(e.body.template)
      && e.body.greeting == Greeting(recruiterName)
      && GreetedName(e.body.greeting) == recruiterName
      && (e.body.greeting == "Hello" <==> recruiterName == NoName)
      && e.body.fullName == name
      && e.body.year == year
      && e.body.company == company
      && exists i :: FirstWordAt(name, e.body.firstName, i)
  {
    GreetingShape(recruiterName);
  }

  /**
   * The three recognised types share one subject: "Regular" and "Small" give
   * the same email, and "Business" the same one on the business template.
   */
  lemma RecognizedTypesAgree(year: string, name: string, company: string, recruiterName: string)
    ensures FormatEmail(year, name, company, recruiterName, "Small")
         == FormatEmail(year, name, company, recruiterName, "Regular")
    ensures var b := FormatEmail(year, name, company, recruiterName, "Business");
            var p := FormatEmail(year, name, company, recruiterName, "Regular");
            && b.Success? == p.Success?
            && (b.Success? ==> b.value == p.value.(body := p.value.body.(template := BusinessTemplate)))
  {
  }

  /** The parameter's own default, "personal", is not a recognised type. */
  lemma DefaultTypeUnrecognized(year: string, name: string, company: string, recruiterName: string)
    ensures FormatEmail(year, name, company, recruiterName, DefaultEmailType)
         == Failure(UnrecognizedType(DefaultEmailType))
  {
  }
}
