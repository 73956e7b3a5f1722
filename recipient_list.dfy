/** `load_recipient_list` and the sending loop of `main` in
    automation/mail/info_sess_link.py. The rows of events.csv come in as a
    sequence holding, for each row, its "Invitee Email" and "Invitee First
    Name" columns. */
module RecipientList {
  import opened Strings
  import opened Services
  import opened OrderedDict

  /** The two columns of a CSV row that the script reads. */
  datatype Row = Row(inviteeEmail: string, inviteeFirstName: string)

  /** What one row contributes, as `(email, first name)`: both stripped, and
      nothing when the stripped email is empty. */
  function RowEntry(row: Row): Option<(string, string)> {
    var email := PyStrip(row.inviteeEmail);
    var firstName := PyStrip(row.inviteeFirstName);
    if email != [] then Some((email, firstName)) else None
  }

  /** A row is skipped exactly when its email column is empty or all white
      space; what it contributes is stripped, and its email is not empty. */
  lemma RowEntryShape(row: Row)
    ensures RowEntry(row).None? <==> forall k :: 0 <= k < |row.inviteeEmail| ==> IsPyWhitespace(row.inviteeEmail[k])
    ensures RowEntry(row).Some? ==> var (email, firstName) := RowEntry(row).value;
      && email != [] && Stripped(email, IsPyWhitespace) && Stripped(firstName, IsPyWhitespace)
  {
    TrimEmpty(row.inviteeEmail, IsPyWhitespace);
    TrimIsStripped(row.inviteeEmail, IsPyWhitespace);
    TrimIsStripped(row.inviteeFirstName, IsPyWhitespace);
  }

  /** The loop over the rows: `email_to_first_name[email] = first_name` for
      every row with an email, in file order. */
  method LoadRecipientList(rows: seq<Row>) returns (emailToFirstName: Dict<string, string>)
    ensures emailToFirstName == Fill(MapItems(RowEntry, rows))
  {
    emailToFirstName := FillFrom(RowEntry, rows);
  }

  /** The addresses of the result are exactly the stripped emails of the rows
      that have one. */
  lemma RecipientEmails(rows: seq<Row>)
    ensures forall email :: (email in Keys(Fill(MapItems(RowEntry, rows)))
      <==> exists i :: 0 <= i < |rows| && RowEntry(rows[i]).Some? && RowEntry(rows[i]).value.0 == email)
  {
    forall email ensures (email in Keys(Fill(MapItems(RowEntry, rows)))
      <==> exists i :: 0 <= i < |rows| && RowEntry(rows[i]).Some? && RowEntry(rows[i]).value.0 == email)
    {
      EmailFromRow(rows, email);
    }
  }

  lemma EmailFromRow(rows: seq<Row>, email: string)
    ensures email in Keys(Fill(MapItems(RowEntry, rows)))
      <==> exists i :: 0 <= i < |rows| && RowEntry(rows[i]).Some? && RowEntry(rows[i]).value.0 == email
  {
    var items := MapItems(RowEntry, rows);
    FillKeyOrder(items);
    AssignedKeysFrom(items);
    if exists i :: 0 <= i < |rows| && RowEntry(rows[i]).Some? && RowEntry(rows[i]).value.0 == email {
      var i :| 0 <= i < |rows| && RowEntry(rows[i]).Some? && RowEntry(rows[i]).value.0 == email;
      assert items[i] == RowEntry(rows[i]);
    }
    if email in AssignedKeys(items) {
      var i :| 0 <= i < |items| && items[i].Some? && items[i].value.0 == email;
      assert items[i] == RowEntry(rows[i]);
    }
  }

  /** No address of the result is empty, and every one is stripped. */
  lemma RecipientEmailsStripped(rows: seq<Row>, email: string)
    requires email in Keys(Fill(MapItems(RowEntry, rows)))
    ensures email != [] && Stripped(email, IsPyWhitespace)
  {
    EmailFromRow(rows, email);
    var i :| 0 <= i < |rows| && RowEntry(rows[i]).Some? && RowEntry(rows[i]).value.0 == email;
    RowEntryShape(rows[i]);
  }

  /** Each address appears once, at the place of its first row, and there are
      no more recipients than rows. */
  lemma RecipientsDistinct(rows: seq<Row>)
    ensures DistinctKeys(Fill(MapItems(RowEntry, rows)))
    ensures |Fill(MapItems(RowEntry, rows))| <= |rows|
    ensures Keys(Fill(MapItems(RowEntry, rows))) == FirstOccurrences(AssignedKeys(MapItems(RowEntry, rows)))
  {
    var items := MapItems(RowEntry, rows);
    FillDistinct(items);
    FillKeyOrder(items);
  }

  /** For an address on several rows the first name of the last one is kept. */
  lemma LastRowWins(rows: seq<Row>, i: nat)
    requires i < |rows| && RowEntry(rows[i]).Some?
    requires forall j :: (i < j < |rows| && RowEntry(rows[j]).Some?
      ==> RowEntry(rows[j]).value.0 != RowEntry(rows[i]).value.0)
    ensures var e := RowEntry(rows[i]).value;
      Lookup(Fill(MapItems(RowEntry, rows)), e.0) == Some(e.1)
  {
    FillLastWins(MapItems(RowEntry, rows), i);
  }

  /** `main`: one invitation per recipient, in the dict's order, each in
      its own `try`, so one that raises is reported and the loop goes on.
      `raises` says which sends raise. The result lists the addresses written
      to and those reported as failed. */
  method SendAll(recipients: Dict<string, string>, raises: (string, string) -> bool)
    returns (sent: seq<string>, failed: seq<string>)
    ensures sent == Keys(recipients)
    ensures failed == FailedKeys(recipients, raises)
  {
    sent, failed := [], [];
    for i := 0 to |recipients|
      invariant |sent| == i
      invariant forall k :: 0 <= k < i ==> sent[k] == recipients[k].0
      invariant failed == FailedKeys(recipients[..i], raises)
    {
      assert recipients[..i + 1][..i] == recipients[..i];
      if raises(recipients[i].0, recipients[i].1) {
        failed := failed + [recipients[i].0];
      }
      sent := sent + [recipients[i].0];
    }
    assert recipients[..|recipients|] == recipients;
  }

  /** Loading and then sending writes to each address exactly once. */
  lemma OneInvitationPerAddress(rows: seq<Row>)
    ensures var sent := Keys(Fill(MapItems(RowEntry, rows)));
      forall i, j :: 0 <= i < j < |sent| ==> sent[i] != sent[j]
  {
    RecipientsDistinct(rows);
  }
}
