/**
 * Concrete runs of the script: how the Name and Email cells of one sample row
 * are cleaned, and what two runs over that row send and print.
 */
module Scenarios {
  import opened Common
  import opened Sanitize
  import opened Render
  import opened Campaign

  /** The Name cell "Pat Doe" gives the single name "PatDoe": the inner space is deleted too. */
  lemma NameCellExample(cell: string)
    requires cell == "Pat Doe"
    ensures SanitizeSplit(cell) == ["PatDoe"]
  {
    var first, last := cell[..3], cell[4..];
    assert cell == first + [cell[3]] + last;
    VisibleIsNotWhitespace(first);
    VisibleIsNotWhitespace(last);
    RemoveWhitespaceOfWord(first);
    RemoveWhitespaceOfWord(last);
    RemoveWhitespaceOfBlank([cell[3]]);
    RemoveWhitespaceAppend(first, [cell[3]]);
    RemoveWhitespaceAppend(first + [cell[3]], last);
    assert RemoveWhitespace(cell) == "PatDoe";
    SanitizeSplitSingle(cell);
  }

  /** The Email cell "pat@acme.com" gives itself as the single address. */
  lemma EmailCellExample(cell: string)
    requires cell == "pat@acme.com"
    ensures SanitizeSplit(cell) == [cell]
  {
    VisibleIsNotWhitespace(cell);
    RemoveWhitespaceOfWord(cell);
    SanitizeSplitSingle(cell);
  }

  /**
   * The run over the single row Acme, "Pat Doe", "pat@acme.com", "Regular":
   * from an empty sent list it sends one message to "pat@acme.com", with the
   * organiser in copy, greeting "PatDoe", and records the address.
   */
  lemma AcmeFirstRun(config: Config, row: Row)
    requires row == Row("Acme", "Pat Doe", "pat@acme.com", "Regular")
    requires HasWord(config.fullName)
    ensures var r := ProcessRows(Ledger([], [], [], None), config, [row]);
      && r.failure.None? && r.sent == [row.email] && r.log == [] && |r.outbox| == 1
      && r.outbox[0].to == [row.email] && r.outbox[0].cc == [OrganizerCc]
      && r.outbox[0].body.greeting == Greeting("PatDoe")
  {
    NameCellExample(row.name);
    EmailCellExample(row.email);
    SingleRecipientRow(config, row, []);
  }

  /** A second run over that row, with the address already recorded, sends nothing and prints one warning. */
  lemma AcmeSecondRun(config: Config, row: Row)
    requires row == Row("Acme", "Pat Doe", "pat@acme.com", "Regular")
    ensures ProcessRows(Ledger([row.email], [], [], None), config, [row])
         == Ledger([row.email], [], [AlreadySent("PatDoe", row.email)], None)
  {
    NameCellExample(row.name);
    EmailCellExample(row.email);
    SingleRecipientRow(config, row, [row.email]);
  }
}
