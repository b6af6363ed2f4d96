/**
 * The send loop of `main` in cold_email.py. For every spreadsheet row, split the
 * Name and Email cells, skip the row when the counts differ, pair names with
 * addresses by position, skip an address already in `emails_sent`, and
 * otherwise format the email, send it and append the address to
 * `emails_sent`. Sending is an abstract effect: the message is appended to an
 * outbox. The diagnostics the loop prints are kept in a log.
 *
 * The loop is specified by functions over a Ledger (the sent list, the
 * outbox, the log and whether the run was aborted); the class Mailer holds the
 * same state in fields and runs the loop itself.
 */
module Campaign {
  import opened Common
  import opened Sanitize
  import opened Render

  /** The organiser address put in copy of every message. */
  const OrganizerCc: string := "v1startupfair@umich.edu"

  /** A spreadsheet row after the Company, Name, Email and Type columns were selected and blank rows dropped. */
  datatype Row = Row(company: string, name: string, email: string, emailType: string)

  /** The sender's configuration: full name, graduation year and address. */
  datatype Config = Config(fullName: string, year: string, address: string)

  /** What is handed to the mail sender: envelope sender, From name, To list, Cc list, subject and body. */
  datatype Message = Message(sender: string, fromName: string, to: seq<string>, cc: seq<string>, subject: string, body: Body)

  /** The two warnings the loop prints. */
  datatype Diagnostic = BadlyFormatted(company: string) | AlreadySent(name: string, email: string)

  /** The loop's state: `emails_sent`, the messages sent, the warnings printed, and the error that ended the run, if any. */
  datatype Ledger = Ledger(sent: seq<string>, outbox: seq<Message>, log: seq<Diagnostic>, failure: Option<FormatError>)

  /** The addresses a sequence of messages went to, in send order. */
  function Recipients(ms: seq<Message>): seq<string> {
    if ms == [] then [] else ms[0].to + Recipients(ms[1..])
  }

  lemma {:induction false} RecipientsAppend(a: seq<Message>, b: seq<Message>)
    ensures Recipients(a + b) == Recipients(a) + Recipients(b)
  {
    if a == [] {
      assert a + b == b;
    } else {
      assert (a + b)[1..] == a[1..] + b;
      RecipientsAppend(a[1..], b);
    }
  }

  /** A message as the loop sends it: from the configured sender, to one address, with the organiser in copy. */
  predicate IsOutreach(m: Message, config: Config) {
    && m.sender == config.address
    && m.fromName == config.fullName
    && |m.to| == 1
    && m.cc == [OrganizerCc]
    && m.subject == PersonalSubject
  }

  /**
   * `l` is a later state of the loop than `l0`: the sent list, the outbox and
   * the log only grew; the addresses appended to the sent list are exactly
   * the recipients of the new messages, in send order; every new message is
   * an outreach message; and no appended address was in the list before it.
   */
  ghost predicate Extends(l0: Ledger, l: Ledger, config: Config) {
    && l0.sent <= l.sent
    && l0.outbox <= l.outbox
    && l0.log <= l.log
    && l.sent[|l0.sent|..] == Recipients(l.outbox[|l0.outbox|..])
    && (forall k :: |l0.outbox| <= k < |l.outbox| ==> IsOutreach(l.outbox[k], config))
    && (forall j :: |l0.sent| <= j < |l.sent| ==> l.sent[j] !in l.sent[..j])
  }

  lemma ExtendsReflexive(l: Ledger, config: Config)
    ensures Extends(l, l, config)
  {
    assert l.sent[|l.sent|..] == [];
    assert l.outbox[|l.outbox|..] == [];
  }

  lemma ExtendsTransitive(a: Ledger, b: Ledger, c: Ledger, config: Config)
    requires Extends(a, b, config) && Extends(b, c, config)
    ensures Extends(a, c, config)
  {
    assert c.sent[|a.sent|..] == b.sent[|a.sent|..] + c.sent[|b.sent|..];
    assert c.outbox[|a.outbox|..] == b.outbox[|a.outbox|..] + c.outbox[|b.outbox|..];
    RecipientsAppend(b.outbox[|a.outbox|..], c.outbox[|b.outbox|..]);
    forall j | |a.sent| <= j < |c.sent|
      ensures c.sent[j] !in c.sent[..j]
    {
      if j < |b.sent| {
        assert c.sent[..j] == b.sent[..j];
      }
    }
  }

  /**
   * One pass of the recipient loop, for `name` and `email` of a row of
   * `company` and `emailType`: an address already in the sent list is
   * skipped with a warning; otherwise the email is formatted, and either the
   * run ends with the formatting error or the message goes out to `[email]`
   * and `email` is appended to the sent list.
   */
  function Deliver(l: Ledger, config: Config, company: string, emailType: string, name: string, email: string): (r: Ledger)
    requires l.failure.None?
    ensures r.failure.Some? <==> email !in l.sent && !(TemplateFor(emailType).Some? && HasWord(config.fullName))
    ensures email in l.sent ==> r.sent == l.sent && r.outbox == l.outbox && r.log == l.log + [AlreadySent(name, email)]
    ensures email !in l.sent && r.failure.None? ==>
      r.sent == l.sent + [email] && |r.outbox| == |l.outbox| + 1 && r.log == l.log
    ensures r.failure.Some? ==> r.sent == l.sent && r.outbox == l.outbox && r.log == l.log
    ensures var formatted := FormatEmail(config.year, config.fullName, company, name, emailType);
      && (r.failure.Some? ==> r.failure == Some(formatted.error))
      && (email !in l.sent && r.failure.None? ==>
            r.outbox == l.outbox + [Message(config.address, config.fullName, [email], [OrganizerCc], PersonalSubject, formatted.value.body)])
  {
    if email in l.sent then
      l.(log := l.log + [AlreadySent(name, email)])
    else
      match FormatEmail(config.year, config.fullName, company, name, emailType)
      case Failure(e) => l.(failure := Some(e))
      case Success(formatted) =>
        var m := Message(config.address, config.fullName, [email], [OrganizerCc], formatted.subject, formatted.body);
        l.(sent := l.sent + [email], outbox := l.outbox + [m])
  }

  /**
   * A send by Deliver goes to `[email]` only, with the organiser in copy, and
   * greets `name`; `email` is appended to the sent list and was not in it.
   */
  lemma DeliverExtends(l: Ledger, config: Config, company: string, emailType: string, name: string, email: string)
    requires l.failure.None?
    ensures var r := Deliver(l, config, company, emailType, name, email);
      && Extends(l, r, config)
      && (|r.outbox| > |l.outbox| ==>
            && r.sent == l.sent + [email]
            && r.outbox == l.outbox + [r.outbox[|l.outbox|]]
            && SentTo(r.outbox[|l.outbox|], name, email)
            && r.outbox[|l.outbox|].body.company == company)
  {
    var r := Deliver(l, config, company, emailType, name, email);
    if |r.outbox| == |l.outbox| {
      ExtendsReflexive(l, config);
      assert r.sent == l.sent && r.outbox == l.outbox;
    } else {
      var m := r.outbox[|l.outbox|];
      assert r.sent[|l.sent|..] == [email];
      assert r.outbox[|l.outbox|..] == [m];
      assert r.sent[..|l.sent|] == l.sent;
    }
  }

  /** The recipient loop over `names` and `emails` paired by position, stopping at the first formatting error. */
  function DeliverAll(l: Ledger, config: Config, company: string, emailType: string, names: seq<string>, emails: seq<string>)
    : Ledger
    requires |names| == |emails|
    decreases |names|
  {
    if |names| == 0 || l.failure.Some? then l
    else
      DeliverAll(Deliver(l, config, company, emailType, names[0], emails[0]), config, company, emailType, names[1..], emails[1..])
  }

  /** The recipient loop extends the ledger, and when no error ends it, every one of `emails` is in the sent list. */
  lemma {:induction false} DeliverAllExtends(
    l: Ledger, config: Config, company: string, emailType: string, names: seq<string>, emails: seq<string>)
    requires |names| == |emails|
    ensures var r := DeliverAll(l, config, company, emailType, names, emails);
      && Extends(l, r, config)
      && (r.failure.None? ==> forall k :: 0 <= k < |emails| ==> emails[k] in r.sent)
    decreases |names|
  {
    if |names| == 0 || l.failure.Some? {
      ExtendsReflexive(l, config);
    } else {
      var m := Deliver(l, config, company, emailType, names[0], emails[0]);
      var r := DeliverAll(m, config, company, emailType, names[1..], emails[1..]);
      DeliverExtends(l, config, company, emailType, names[0], emails[0]);
      DeliverAllExtends(m, config, company, emailType, names[1..], emails[1..]);
      ExtendsTransitive(l, m, r, config);
      if r.failure.None? {
        assert m.failure.None?;
        forall k | 0 <= k < |emails|
          ensures emails[k] in r.sent
        {
          if k == 0 {
            assert r.sent[..|m.sent|] == m.sent;
          } else {
            assert emails[k] == emails[1..][k - 1];
          }
        }
      }
    }
  }

  /**
   * The recipient loop ends with an error exactly when `format_email` fails:
   * never for a recognised type and a sender name with a word.
   */
  lemma {:induction false} DeliverAllNoFailure(
    l: Ledger, config: Config, company: string, emailType: string, names: seq<string>, emails: seq<string>)
    requires |names| == |emails| && l.failure.None?
    requires TemplateFor(emailType).Some? && HasWord(config.fullName)
    ensures DeliverAll(l, config, company, emailType, names, emails).failure.None?
    decreases |names|
  {
    if |names| > 0 {
      DeliverAllNoFailure(Deliver(l, config, company, emailType, names[0], emails[0]), config, company, emailType, names[1..], emails[1..]);
    }
  }

  /** The names and the addresses of a row, as `sanitize_split` gives them. */
  function Names(row: Row): seq<string> {
    SanitizeSplit(row.name)
  }

  function Addresses(row: Row): seq<string> {
    SanitizeSplit(row.email)
  }

  /** A row whose Name and Email cells hold as many names as addresses. */
  predicate WellFormed(row: Row) {
    |Names(row)| == |Addresses(row)|
  }

  /**
   * One pass of the row loop: a row that is not well formed is skipped with a
   * warning naming its company, and changes neither the sent list nor the
   * outbox; any other row runs the recipient loop.
   */
  function ProcessRow(l: Ledger, config: Config, row: Row): (r: Ledger)
    requires l.failure.None?
    ensures !WellFormed(row) ==>
      && r.sent == l.sent && r.outbox == l.outbox && r.failure.None?
      && r.log == l.log + [BadlyFormatted(row.company)]
  {
    if !WellFormed(row) then l.(log := l.log + [BadlyFormatted(row.company)])
    else DeliverAll(l, config, row.company, row.emailType, Names(row), Addresses(row))
  }

  /** The row loop over `rows`, from ledger `l`, stopping at the first formatting error. */
  function ProcessRows(l: Ledger, config: Config, rows: seq<Row>): Ledger
    decreases |rows|
  {
    if rows == [] || l.failure.Some? then l
    else ProcessRows(ProcessRow(l, config, rows[0]), config, rows[1..])
  }

  /**
   * A run only appends: the sent list, the outbox and the log grow; the
   * addresses appended are exactly the recipients of the messages sent, in
   * send order; every message goes to one address with the organiser in
   * copy; and when no error ended the run, every address of every
   * well-formed row is in the sent list.
   */
  lemma {:induction false} RunExtends(l: Ledger, config: Config, rows: seq<Row>)
    ensures var r := ProcessRows(l, config, rows);
      && Extends(l, r, config)
      && (r.failure.None? ==>
            forall i, e :: 0 <= i < |rows| && WellFormed(rows[i]) && e in Addresses(rows[i]) ==> e in r.sent)
    decreases |rows|
  {
    if rows == [] || l.failure.Some? {
      ExtendsReflexive(l, config);
    } else {
      var row := rows[0];
      var m := ProcessRow(l, config, row);
      var r := ProcessRows(m, config, rows[1..]);
      if WellFormed(row) {
        DeliverAllExtends(l, config, row.company, row.emailType, Names(row), Addresses(row));
      } else {
        ExtendsReflexive(l, config);
        assert Extends(l, m, config) by {
          assert m.sent == l.sent && m.outbox == l.outbox && l.log <= m.log;
        }
      }
      assert WellFormed(row) && m.failure.None? ==>
        forall e :: e in Addresses(row) ==> e in m.sent;
      RunExtends(m, config, rows[1..]);
      ExtendsTransitive(l, m, r, config);
      if r.failure.None? {
        assert m.failure.None?;
        forall i, e | 0 <= i < |rows| && WellFormed(rows[i]) && e in Addresses(rows[i])
          ensures e in r.sent
        {
          if i == 0 {
            PrefixMember(m.sent, r.sent, e);
          } else {
            assert rows[i] == rows[1..][i - 1];
          }
        }
      }
    }
  }

  /** What is in a prefix is in the whole sequence. */
  lemma PrefixMember(a: seq<string>, b: seq<string>, e: string)
    requires a <= b && e in a
    ensures e in b
  {
    assert b[..|a|] == a;
  }

  /** A run over rows of recognised types, by a sender whose name has a word, ends without error. */
  lemma {:induction false} RunNoFailure(l: Ledger, config: Config, rows: seq<Row>)
    requires l.failure.None? && HasWord(config.fullName)
    requires forall i :: 0 <= i < |rows| ==> TemplateFor(rows[i].emailType).Some?
    ensures ProcessRows(l, config, rows).failure.None?
    decreases |rows|
  {
    if rows != [] {
      var row := rows[0];
      if WellFormed(row) {
        DeliverAllNoFailure(l, config, row.company, row.emailType, Names(row), Addresses(row));
      }
      RunNoFailure(ProcessRow(l, config, row), config, rows[1..]);
    }
  }

  /**
   * Deduplication: over a whole run, no message goes to an address that was
   * already in the sent list when the run started, and no address gets two
   * messages within the run; the sent list records exactly those recipients.
   */
  lemma NoResend(l: Ledger, config: Config, rows: seq<Row>)
    ensures var r := ProcessRows(l, config, rows);
      && |l.sent| <= |r.sent| && |l.outbox| <= |r.outbox|
      && var sentTo := Recipients(r.outbox[|l.outbox|..]);
      && r.sent[|l.sent|..] == sentTo
      && (forall j :: 0 <= j < |sentTo| ==> sentTo[j] !in l.sent)
      && (forall i, j :: 0 <= i < j < |sentTo| ==> sentTo[i] != sentTo[j])
  {
    var r := ProcessRows(l, config, rows);
    RunExtends(l, config, rows);
    var sentTo := r.sent[|l.sent|..];
    forall j | 0 <= j < |sentTo|
      ensures sentTo[j] !in l.sent
    {
      assert sentTo[j] == r.sent[|l.sent| + j];
      assert l.sent == r.sent[..|l.sent| + j][..|l.sent|];
    }
    forall i, j | 0 <= i < j < |sentTo|
      ensures sentTo[i] != sentTo[j]
    {
      assert sentTo[j] == r.sent[|l.sent| + j];
      assert sentTo[i] == r.sent[..|l.sent| + j][|l.sent| + i];
    }
  }

  /**
   * Positional pairing: when a row's addresses are distinct, none was sent
   * before and no error ends the loop, the k-th message goes to the k-th
   * address and greets the k-th name.
   */
  lemma {:induction false} PairsByPosition(
    l: Ledger, config: Config, company: string, emailType: string, names: seq<string>, emails: seq<string>)
    requires l.failure.None?
    requires |names| == |emails|
    requires forall k :: 0 <= k < |emails| ==> emails[k] !in l.sent
    requires forall i, j :: 0 <= i < j < |emails| ==> emails[i] != emails[j]
    requires TemplateFor(emailType).Some? && HasWord(config.fullName)
    ensures var r := DeliverAll(l, config, company, emailType, names, emails);
      && r.failure.None?
      && |r.outbox| == |l.outbox| + |names|
      && Paired(r.outbox, |l.outbox|, names, emails)
    decreases |names|
  {
    if |names| > 0 {
      var m := Deliver(l, config, company, emailType, names[0], emails[0]);
      var r := DeliverAll(m, config, company, emailType, names[1..], emails[1..]);
      assert r == DeliverAll(l, config, company, emailType, names, emails);
      assert m.failure.None?;
      DeliverFresh(l, config, company, emailType, names[0], emails[0]);
      assert r.outbox[..|m.outbox|] == m.outbox by {
        DeliverAllExtends(m, config, company, emailType, names[1..], emails[1..]);
      }
      DistinctTail(l.sent, emails);
      PairsByPosition(m, config, company, emailType, names[1..], emails[1..]);
      PairsShift(l.outbox, m.outbox, r.outbox, names, emails);
    }
  }

  /** A send to an address not yet sent to appends one message, to that address, greeting `name`. */
  lemma DeliverFresh(l: Ledger, config: Config, company: string, emailType: string, name: string, email: string)
    requires l.failure.None? && email !in l.sent
    requires Deliver(l, config, company, emailType, name, email).failure.None?
    ensures var m := Deliver(l, config, company, emailType, name, email);
      && m.sent == l.sent + [email]
      && |m.outbox| == |l.outbox| + 1 && m.outbox[..|l.outbox|] == l.outbox
      && SentTo(m.outbox[|l.outbox|], name, email)
  {
    var m := Deliver(l, config, company, emailType, name, email);
    assert m.outbox[..|l.outbox|] == l.outbox;
  }

  /** Distinct addresses not yet sent to stay so after the first is sent to. */
  lemma DistinctTail(sent: seq<string>, emails: seq<string>)
    requires 0 < |emails|
    requires forall k :: 0 <= k < |emails| ==> emails[k] !in sent
    requires forall i, j :: 0 <= i < j < |emails| ==> emails[i] != emails[j]
    ensures forall k :: 0 <= k < |emails[1..]| ==> emails[1..][k] !in sent + [emails[0]]
  {
    forall k | 0 <= k < |emails[1..]|
      ensures emails[1..][k] !in sent + [emails[0]]
    {
      assert emails[1..][k] == emails[k + 1];
    }
  }

  /** `m` was sent to `email` alone and greets `name`. */
  predicate SentTo(m: Message, name: string, email: string) {
    m.to == [email] && m.body.greeting == Greeting(name)
  }

  /** From index `start` on, `out` holds one message per pair of `names` and `emails`, in order. */
  predicate Paired(out: seq<Message>, start: nat, names: seq<string>, emails: seq<string>)
    requires |names| == |emails| && start + |names| <= |out|
  {
    forall k :: 0 <= k < |names| ==> SentTo(out[start + k], names[k], emails[k])
  }

  /** Pairing the first message, then the rest, pairs all of them. */
  lemma PairsShift(before: seq<Message>, middle: seq<Message>, after: seq<Message>, names: seq<string>, emails: seq<string>)
    requires 0 < |names| == |emails|
    requires |middle| == |before| + 1 && middle[..|before|] == before && SentTo(middle[|before|], names[0], emails[0])
    requires |after| == |middle| + |names| - 1 && after[..|middle|] == middle
    requires Paired(after, |middle|, names[1..], emails[1..])
    ensures Paired(after, |before|, names, emails)
  {
    forall k | 0 <= k < |names|
      ensures SentTo(after[|before| + k], names[k], emails[k])
    {
      if k == 0 {
        assert after[|before|] == after[..|middle|][|before|];
      } else {
        assert names[1..][k - 1] == names[k] && emails[1..][k - 1] == emails[k];
        assert |before| + k == |middle| + (k - 1);
      }
    }
  }

  /** `m` was sent for one of the (name, address) pairs of `names` and `emails`. */
  predicate ForPair(m: Message, names: seq<string>, emails: seq<string>) {
    exists k :: 0 <= k < |names| && k < |emails| && SentTo(m, names[k], emails[k])
  }

  /** `m` was sent for a (name, address) pair of one of the well-formed `rows`. */
  predicate ForRow(m: Message, rows: seq<Row>) {
    exists i :: 0 <= i < |rows| && WellFormed(rows[i]) && ForPair(m, Names(rows[i]), Addresses(rows[i]))
  }

  /** The recipient loop sends only for its own pairs: each new message goes to one address and greets its name. */
  lemma {:induction false} DeliverAllSendsOnlyPairs(
    l: Ledger, config: Config, company: string, emailType: string, names: seq<string>, emails: seq<string>)
    requires |names| == |emails|
    ensures var r := DeliverAll(l, config, company, emailType, names, emails);
      && |l.outbox| <= |r.outbox|
      && forall j :: |l.outbox| <= j < |r.outbox| ==> ForPair(r.outbox[j], names, emails)
    decreases |names|
  {
    if |names| > 0 && l.failure.None? {
      var m := Deliver(l, config, company, emailType, names[0], emails[0]);
      var r := DeliverAll(m, config, company, emailType, names[1..], emails[1..]);
      DeliverExtends(l, config, company, emailType, names[0], emails[0]);
      assert r.outbox[..|m.outbox|] == m.outbox by {
        DeliverAllExtends(m, config, company, emailType, names[1..], emails[1..]);
      }
      DeliverAllSendsOnlyPairs(m, config, company, emailType, names[1..], emails[1..]);
      forall j | |l.outbox| <= j < |r.outbox|
        ensures ForPair(r.outbox[j], names, emails)
      {
        if j < |m.outbox| {
          assert j == |l.outbox|;
          assert r.outbox[j] == m.outbox[j];
          assert SentTo(r.outbox[j], names[0], emails[0]);
        } else {
          var k :| 0 <= k < |names[1..]| && k < |emails[1..]| && SentTo(r.outbox[j], names[1..][k], emails[1..][k]);
          assert names[1..][k] == names[k + 1] && emails[1..][k] == emails[k + 1];
        }
      }
    }
  }

  /**
   * A run sends only for the pairs of its well-formed rows: every new message
   * goes to an address of such a row and greets the name paired with it.
   */
  lemma {:induction false} RunSendsOnlyPairs(l: Ledger, config: Config, rows: seq<Row>)
    ensures var r := ProcessRows(l, config, rows);
      && |l.outbox| <= |r.outbox|
      && forall j :: |l.outbox| <= j < |r.outbox| ==> ForRow(r.outbox[j], rows)
    decreases |rows|
  {
    if rows != [] && l.failure.None? {
      var row := rows[0];
      var m := ProcessRow(l, config, row);
      var r := ProcessRows(m, config, rows[1..]);
      assert |l.outbox| <= |m.outbox| && forall j :: |l.outbox| <= j < |m.outbox| ==> ForRow(m.outbox[j], rows) by {
        if WellFormed(row) {
          DeliverAllSendsOnlyPairs(l, config, row.company, row.emailType, Names(row), Addresses(row));
          forall j | |l.outbox| <= j < |m.outbox|
            ensures ForRow(m.outbox[j], rows)
          {
            ForFirstRow(m.outbox[j], rows);
          }
        }
      }
      assert r.outbox[..|m.outbox|] == m.outbox by {
        RunExtends(m, config, rows[1..]);
      }
      RunSendsOnlyPairs(m, config, rows[1..]);
      ForRowShift(l.outbox, m.outbox, r.outbox, rows);
    }
  }

  lemma ForFirstRow(m: Message, rows: seq<Row>)
    requires rows != [] && WellFormed(rows[0]) && ForPair(m, Names(rows[0]), Addresses(rows[0]))
    ensures ForRow(m, rows)
  {
  }

  /** Messages for the first row, then messages for the later rows, are all messages for the rows. */
  lemma ForRowShift(before: seq<Message>, middle: seq<Message>, after: seq<Message>, rows: seq<Row>)
    requires rows != []
    requires |before| <= |middle| <= |after| && after[..|middle|] == middle
    requires forall j :: |before| <= j < |middle| ==> ForRow(middle[j], rows)
    requires forall j :: |middle| <= j < |after| ==> ForRow(after[j], rows[1..])
    ensures forall j :: |before| <= j < |after| ==> ForRow(after[j], rows)
  {
    forall j | |before| <= j < |after|
      ensures ForRow(after[j], rows)
    {
      if j < |middle| {
        assert after[j] == middle[j];
      } else {
        var i :| 0 <= i < |rows[1..]| && WellFormed(rows[1..][i])
          && ForPair(after[j], Names(rows[1..][i]), Addresses(rows[1..][i]));
        assert rows[1..][i] == rows[i + 1];
      }
    }
  }

  /**
   * A row with one name and one address: a run over that row alone either
   * skips the address, already in the sent list, with one warning and no
   * send, or makes exactly one send, to that address with the organiser in
   * copy, and appends the address to the sent list.
   */
  lemma SingleRecipientRow(config: Config, row: Row, known: seq<string>)
    requires |Names(row)| == 1 && |Addresses(row)| == 1
    ensures var r := ProcessRows(Ledger(known, [], [], None), config, [row]);
            var name := Names(row)[0];
            var email := Addresses(row)[0];
      && (email in known ==> r == Ledger(known, [], [AlreadySent(name, email)], None))
      && (email !in known && TemplateFor(row.emailType).Some? && HasWord(config.fullName) ==>
            && r.failure.None? && r.sent == known + [email] && r.log == []
            && |r.outbox| == 1 && r.outbox[0].to == [email] && r.outbox[0].cc == [OrganizerCc]
            && r.outbox[0].body.greeting == Greeting(name))
      && (email !in known && !(TemplateFor(row.emailType).Some? && HasWord(config.fullName)) ==>
            r == Ledger(known, [], [], Some(FormatEmail(config.year, config.fullName, row.company, name, row.emailType).error)))
  {
    var l := Ledger(known, [], [], None);
    var name, email := Names(row)[0], Addresses(row)[0];
    var d := Deliver(l, config, row.company, row.emailType, name, email);
    assert DeliverAll(l, config, row.company, row.emailType, Names(row), Addresses(row)) == d by {
      assert Names(row)[1..] == [] && Addresses(row)[1..] == [];
    }
    assert ProcessRows(l, config, [row]) == d by {
      assert [row][1..] == [];
    }
  }

  /** The row loop after `i` rows: process row `i`, then the rows after it. */
  lemma RowsStep(l: Ledger, config: Config, rows: seq<Row>, i: nat)
    requires i < |rows| && l.failure.None?
    ensures ProcessRows(l, config, rows[i..]) == ProcessRows(ProcessRow(l, config, rows[i]), config, rows[i + 1..])
  {
    assert rows[i..][0] == rows[i] && rows[i..][1..] == rows[i + 1..];
  }

  /** The recipient loop after `j` pairs: deliver pair `j`, then the pairs after it. */
  lemma PairsStep(
    l: Ledger, config: Config, company: string, emailType: string, names: seq<string>, emails: seq<string>, j: nat)
    requires j < |names| == |emails| && l.failure.None?
    ensures DeliverAll(l, config, company, emailType, names[j..], emails[j..])
         == DeliverAll(Deliver(l, config, company, emailType, names[j], emails[j]), config, company, emailType, names[j + 1..], emails[j + 1..])
  {
    assert names[j..][0] == names[j] && names[j..][1..] == names[j + 1..];
    assert emails[j..][0] == emails[j] && emails[j..][1..] == emails[j + 1..];
  }

  /**
   * The running script's state: `emails_sent` as loaded at start, and the
   * messages and warnings of the run.
   */
  class Mailer {
    const config: Config
    var sent: seq<string>
    var outbox: seq<Message>
    var log: seq<Diagnostic>

    /** Start from the sent list loaded from the previous run (empty when there was none). */
    constructor (config: Config, previouslySent: seq<string>)
      ensures this.config == config
      ensures sent == previouslySent && outbox == [] && log == []
    {
      this.config := config;
      sent := previouslySent;
      outbox := [];
      log := [];
    }

    function State(failure: Option<FormatError>): Ledger
      reads this
    {
      Ledger(sent, outbox, log, failure)
    }

    /**
     * One pass of the recipient loop: skip an address already sent to, with a
     * warning; otherwise format the email and either report the formatting
     * error, changing nothing, or send the message and record the address.
     */
    method Send(company: string, emailType: string, name: string, email: string) returns (failure: Option<FormatError>)
      modifies this
      ensures State(failure) == Deliver(old(State(None)), config, company, emailType, name, email)
    {
      failure := None;
      if email in sent {
        log := log + [AlreadySent(name, email)];
        return;
      }
      var formatted := FormatEmail(config.year, config.fullName, company, name, emailType);
      if formatted.Failure? {
        failure := Some(formatted.error);
        return;
      }
      var m := Message(config.address, config.fullName, [email], [OrganizerCc], formatted.value.subject, formatted.value.body);
      outbox := outbox + [m];
      sent := sent + [email];
    }

    /**
     * One pass of the row loop: split the Name and Email cells, skip the row
     * with a warning when the counts differ, and otherwise send to each
     * (name, address) pair in order until a formatting error stops the run.
     */
    method SendRow(row: Row) returns (failure: Option<FormatError>)
      modifies this
      ensures State(failure) == ProcessRow(old(State(None)), config, row)
    {
      ghost var goal := ProcessRow(State(None), config, row);
      var names := SanitizeSplit(row.name);
      var emails := SanitizeSplit(row.email);
      if |names| != |emails| {
        log := log + [BadlyFormatted(row.company)];
        return None;
      }
      for j := 0 to |names|
        invariant DeliverAll(State(None), config, row.company, row.emailType, names[j..], emails[j..]) == goal
      {
        PairsStep(State(None), config, row.company, row.emailType, names, emails, j);
        failure := Send(row.company, row.emailType, names[j], emails[j]);
        if failure.Some? {
          return;
        }
      }
      assert names[|names|..] == [] && emails[|emails|..] == [];
      return None;
    }

    /**
     * The loop of `main` over `rows`. It returns the formatting error that
     * ended the run early, if any; the fields then hold the state as of that
     * point, as ProcessRows describes it.
     */
    method Run(rows: seq<Row>) returns (failure: Option<FormatError>)
      modifies this
      ensures State(failure) == ProcessRows(old(State(None)), config, rows)
      ensures Extends(old(State(None)), State(failure), config)
    {
      ghost var goal := ProcessRows(State(None), config, rows);
      RunExtends(State(None), config, rows);
      for i := 0 to |rows|
        invariant ProcessRows(State(None), config, rows[i..]) == goal
      {
        RowsStep(State(None), config, rows, i);
        failure := SendRow(rows[i]);
        if failure.Some? {
          return;
        }
      }
      assert rows[|rows|..] == [];
      return None;
    }
  }
}
