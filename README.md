# cold_email.py in Dafny

A model of the cold-email script `cold_email.py`. The script reads a
spreadsheet of companies and, for every recruiter listed in a row, sends one
templated outreach email, unless that address is already in the persisted
list `emails_sent`.

The model has five modules:

- `Common`: `Option` and `Result`, which stand in for Python's `None` and for raised errors.
- `Sanitize`: `sanitize_split`, which deletes every whitespace character from a cell and cuts the rest at commas. The model builds it from Python's `str.split()` (`Words`), `''.join` (`Concat`) and `str.split(',')` (`Split`). `','.join` (`Join`) is modelled as the inverse of `Split`. Whitespace is the set of code points that `str.split()` treats as whitespace.
- `Render`: `format_email`. It covers dispatch on the email type, the greeting, the sender's first name and the fixed subject. A body records which template it fills and the five positional `format` arguments.
- `Campaign`: the row and recipient loops of `main`. They are specified by functions over a `Ledger`, which holds:
  - the sent list;
  - the messages sent;
  - the two warnings printed;
  - the formatting error that ended the run, if any.

  The class `Mailer` keeps the same state in fields. Its methods run the loops and are proved equal to those functions.
- `Scenarios`: one sample row, run from an empty sent list and again with its address already recorded.

A formatting error is an exception the script does not catch, so it ends the run. `Mailer.Run` returns that error, and its fields then hold the state at the point of failure. A cell such as `"Pat Doe"` becomes the single name `"PatDoe"`: `sanitize_split` deletes inner spaces too, and that name then appears in the greeting.

## Model

| member | source | states |
|---|---|---|
| Sanitize.RemoveWhitespace | cold_email.py:79-81 | Reference definition of "the cell with every whitespace character deleted"; the result holds no whitespace |
| Sanitize.Words | cold_email.py:81 | Reference definition of `str.split()`: the maximal runs of non-whitespace characters, in order. Each word is nonempty and holds no whitespace (the ensures of `WordsFrom`). WordsEmpty, WordsConcat, WordsStartWithFirstWord and FirstWordUnique state its properties |
| Sanitize.Concat | cold_email.py:81 | Reference definition of `''.join`. WordsConcat states what it gives on the words of a cell |
| Sanitize.Split | cold_email.py:81 | Reference definition of `s.split(sep)`: at least one piece, and no piece holds `sep`. SplitThenJoin and JoinThenSplit relate it to Join |
| Sanitize.Join | cold_email.py:81 | Reference definition of `sep.join(parts)`, the inverse of Split, as SplitThenJoin and JoinThenSplit state |
| Sanitize.WordsEmpty | cold_email.py:81 | `field.split()` is empty exactly when the cell holds no non-whitespace character |
| Sanitize.WordsConcat | cold_email.py:81 | `''.join(field.split())` is the cell with exactly its whitespace deleted |
| Sanitize.WordsStartWithFirstWord | cold_email.py:34 | For a name with a word, `name.split()[0]` is a first word: nonempty, no whitespace, preceded only by whitespace, followed by whitespace or the end |
| Sanitize.FirstWordUnique | cold_email.py:34 | Any first word of a name, in that sense, is `name.split()[0]` |
| Sanitize.SplitThenJoin | cold_email.py:81 | `sep.join(s.split(sep)) == s` for every string |
| Sanitize.JoinThenSplit | cold_email.py:81 | Separator-free pieces joined with `sep` split back into the same pieces |
| Sanitize.SanitizeSplit | cold_email.py:79-81 | At least one token; no token holds whitespace or a comma; the tokens joined with commas give the cell with its whitespace deleted |
| Sanitize.SanitizeSplitOfJoin | cold_email.py:81 | Inverse round trip: tokens without whitespace or commas, joined with commas, are split back into themselves |
| Sanitize.SanitizeSplitIgnoresWhitespace | cold_email.py:81 | Two cells that agree once whitespace is deleted give the same tokens |
| Sanitize.SanitizeSplitSingle | cold_email.py:81 | A cell without a comma gives one token: the cell with its whitespace deleted |
| Render.TemplateFor | cold_email.py:26-47 | Reference definition of the type dispatch: "Regular" and "Small" select the personal template, "Business" the business one, and any other type none. FormatEmail, RecognizedTypesAgree and DefaultTypeUnrecognized state its consequences |
| Render.Greeting | cold_email.py:30 | Reference definition of the first `format` argument. GreetingShape and GreetingInjective state its properties |
| Render.GreetingShape | cold_email.py:30 | The greeting starts with "Hello". It is bare "Hello" exactly for the name "NO_NAME", and otherwise starts with "Hello " followed by the name. The recruiter name can be recovered from it |
| Render.GreetingInjective | cold_email.py:30 | Different recruiter names get different greetings |
| Render.FirstName | cold_email.py:34 | `name.split()[0]` exists exactly when the name has a non-whitespace character, and is then the name's first word |
| Render.FirstNameExample | cold_email.py:34 | The sender "Jordan Lee" is addressed as "Jordan" |
| Render.FormatEmail | cold_email.py:25-47 | An unrecognised type fails, whatever the other arguments; a recognised type fails exactly when the sender name has no word; otherwise an email results |
| Render.FormatEmailContent | cold_email.py:26-47 | A formatted email has the fixed subject and the type's template; its body holds the greeting built for the recruiter's name, the sender's full name, the year, the company and the sender's first word |
| Render.RecognizedTypesAgree | cold_email.py:26-47 | "Small" gives the same result as "Regular"; "Business" succeeds exactly when "Regular" does, with the same email on the business template |
| Render.DefaultTypeUnrecognized | cold_email.py:25-47 | The parameter's own default "personal" is not a recognised type and fails |
| Campaign.Deliver | cold_email.py:104-111 | The step fails exactly when the address is new and `format_email` fails, that is, for an unrecognised type or a sender name with no word, and it records the error `format_email` gives. A send appends exactly the message built from the configured sender, `[email]`, the organiser in copy, the fixed subject and the body `format_email` returned. A known address changes neither the sent list nor the outbox and logs one "already sent" warning. A new address either appends exactly one message and the address, leaving the log unchanged, or records the error and changes nothing else |
| Campaign.DeliverExtends | cold_email.py:104-111 | One recipient step only appends; a send appends `email` to the sent list, and its message goes to `[email]` only, greeting the recruiter |
| Campaign.DeliverAll | cold_email.py:104-111 | Reference definition of the recipient loop over the pairs, stopping at the first error. DeliverAllExtends, DeliverAllNoFailure, DeliverAllSendsOnlyPairs and PairsByPosition state its properties |
| Campaign.DeliverAllSendsOnlyPairs | cold_email.py:96-110 | The recipient loop sends only for its own pairs: every new message goes to one of the row's addresses and greets the name paired with it |
| Campaign.DeliverAllExtends | cold_email.py:104-111 | The recipient loop only appends to the ledger, and when no error ends it every address of the row is in the sent list |
| Campaign.DeliverAllNoFailure | cold_email.py:104-111 | For a recognised type and a sender name with a word, the recipient loop ends without error |
| Campaign.Names | cold_email.py:94 | Reference definition: the names of a row are `sanitize_split` of its Name cell (properties in SanitizeSplit) |
| Campaign.Addresses | cold_email.py:95 | Reference definition: the addresses of a row are `sanitize_split` of its Email cell (properties in SanitizeSplit) |
| Campaign.WellFormed | cold_email.py:98 | Reference definition: a row is processed exactly when it has as many names as addresses. ProcessRow states what happens otherwise |
| Campaign.ProcessRows | cold_email.py:91-113 | Reference definition of the row loop, stopping at the first error. RunExtends, RunSendsOnlyPairs, RunNoFailure and NoResend state its properties, and Mailer.Run is proved equal to it |
| Campaign.ProcessRow | cold_email.py:92-100 | A row whose name count differs from its address count leaves the sent list and the outbox unchanged and logs one "badly formatted" warning for its company |
| Campaign.RunExtends | cold_email.py:91-113 | The run only appends. The addresses appended are exactly the recipients of the messages sent, in send order. Every message comes from the configured sender, goes to one address, copies the organiser and has the fixed subject. With no error, every address of every well-formed row ends up in the sent list |
| Campaign.RunSendsOnlyPairs | cold_email.py:91-113 | Converse of the coverage in RunExtends: every message sent in a run goes to an address of a well-formed row and greets the name paired with that address |
| Campaign.RunNoFailure | cold_email.py:91-113 | A run over rows of recognised types, by a sender whose name has a word, ends without error |
| Campaign.NoResend | cold_email.py:105-111 | The recipients of the messages sent in a run are exactly the addresses appended to the sent list. None of them was in the sent list at the start of the run, and no address gets two messages in one run |
| Campaign.PairsByPosition | cold_email.py:96 | For a recognised type, a sender name with a word and distinct addresses not yet sent to, the row ends without error, sends one message per pair, and the k-th message goes to the k-th address and greets the k-th name |
| Campaign.SingleRecipientRow | cold_email.py:91-111 | For a row with one name and one address: a known address gives one "already sent" warning and no send. A new address, with a recognised type and a sender name with a word, gives exactly one message to that address with the organiser in copy, and the address is recorded. A new address with an unrecognised type, or a sender name with no word, ends the run with the error `format_email` gives, and nothing is sent, recorded or logged |
| Campaign.Mailer.constructor | cold_email.py:17-20 | The run starts from the previously persisted sent list, with nothing sent and nothing logged |
| Campaign.Mailer.Send | cold_email.py:105-111 | The fields after one recipient step are Deliver of the fields before |
| Campaign.Mailer.SendRow | cold_email.py:92-111 | The fields after one row are ProcessRow of the fields before, including the early stop on an error |
| Campaign.Mailer.Run | cold_email.py:91-113 | The fields after the loop are ProcessRows of the fields before, and they extend the starting state as RunExtends states |
| Scenarios.NameCellExample | cold_email.py:81 | The Name cell "Pat Doe" gives the single name "PatDoe" |
| Scenarios.EmailCellExample | cold_email.py:81 | The Email cell "pat@acme.com" gives itself as the single address |
| Scenarios.AcmeFirstRun | cold_email.py:91-111 | For a sender whose full name has a word, one row run from an empty sent list: one message to "pat@acme.com", copying the organiser and greeting "PatDoe", and the address is recorded |
| Scenarios.AcmeSecondRun | cold_email.py:105-107 | The same row with its address already recorded: nothing is sent, and one "already sent" warning is logged |

## Left out

- Sending mail (cold_email.py:56-77) is not modelled: the MIME message, the PDF attachment and the SMTP login and send. A send is one `Message` appended to the outbox. The password plays no part in the model.
- Campaign.Deliver: a send always succeeds in the model. In the script, `send_email` can raise, for example when the PDF is missing (cold_email.py:67) or the SMTP login or send fails (cold_email.py:75-77). That would end the run at cold_email.py:110, before the address is appended at cold_email.py:111, and nothing would be saved. The model does not capture this error path, because the outcome of network I/O is outside it.
- Reading `companies.csv` with pandas, selecting the columns and dropping rows with blanks (cold_email.py:88-89). Rows are an input sequence of four strings each. Because `dropna` removes missing types, the `email_type is None` test (cold_email.py:98) can never hold, so a row is judged only by its name and address counts.
- Loading and saving the sent list with pickle (cold_email.py:17-20, 115, 122) is not modelled, and neither is saving it when interrupted from the keyboard. The constructor takes the loaded list as a parameter. After an error the fields hold the state at the point of failure. The script does not catch such an error, so it never saves that state.
- Environment variables and the startup check (cold_email.py:10-23) are replaced by a `Config` parameter, which carries the full name, the year and the address. Reading the template files (cold_email.py:50-54) and the interactive confirmation (cold_email.py:84-85) are not modelled.
- Python's `str.format` on the HTML templates is not modelled. A `Body` records the template and its five positional arguments instead of the rendered text.
- The log holds only the two warnings (cold_email.py:99, 106). The row listing printed for each well-formed row (cold_email.py:102) is not logged, and neither is the blank line that follows each row (cold_email.py:113).
- An unrecognised email type makes `format_email` return `None`, and the tuple unpacking at cold_email.py:109 then raises. The model treats this as the error `UnrecognizedType`, which ends the run. It does not skip the recipient, as a reading of the function on its own might suggest.
- A sender name with no word makes `name.split()[0]` raise `IndexError`. The model treats this as the error `BlankSenderName`, which also ends the run. As in Python, this check comes after the type check.
