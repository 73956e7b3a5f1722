/** `load_school_contacts` and the sending loop of `main` in
    automation/mail/for_schools.py. The contents of schools.txt come in as a
    string: one school per line, its fields separated by tabs, the school's
    name first and its email address last. */
module SchoolContacts {
  import opened Strings
  import opened Services
  import opened OrderedDict

  /** The lines of the file: the whole text stripped, then split on newlines. */
  function Lines(contactData: string): seq<string> {
    Split(PyStrip(contactData), '\n')
  }

  /** What one line contributes, as `(email, school)`: the stripped last and
      first of its tab-separated fields, when there are at least two. */
  function LineEntry(line: string): Option<(string, string)> {
    var parts := Split(PyStrip(line), '\t');
    if |parts| >= 2 then Some((PyStrip(parts[|parts| - 1]), PyStrip(parts[0]))) else None
  }

  /** A line contributes exactly when it still holds a tab after stripping. */
  lemma LineWithTab(line: string)
    ensures LineEntry(line).Some? <==> '\t' in PyStrip(line)
  {
    SplitPieces(PyStrip(line), '\t');
  }

  /** Both parts of what a line contributes are stripped and hold no tab. */
  lemma LineEntryStripped(line: string)
    requires LineEntry(line).Some?
    ensures var (email, school) := LineEntry(line).value;
      && Stripped(email, IsPyWhitespace) && '\t' !in email
      && Stripped(school, IsPyWhitespace) && '\t' !in school
  {
    var parts := Split(PyStrip(line), '\t');
    SplitPiecesLackSeparator(PyStrip(line), '\t');
    TrimKeepsOut(parts[|parts| - 1], IsPyWhitespace, '\t');
    TrimKeepsOut(parts[0], IsPyWhitespace, '\t');
    TrimIsStripped(parts[|parts| - 1], IsPyWhitespace);
    TrimIsStripped(parts[0], IsPyWhitespace);
  }

  /** The parsing loop: `contacts[email] = school` for every line with at
      least two fields, in file order. */
  method LoadSchoolContacts(contactData: string) returns (contacts: Dict<string, string>)
    ensures contacts == Fill(MapItems(LineEntry, Lines(contactData)))
  {
    contacts := FillFrom(LineEntry, Lines(contactData));
  }

  /** A line written as its fields joined with tabs, the first and the last
      of them non-empty and already stripped, yields the last field as the
      email and the first as the school, whatever lies between. */
  lemma SchoolAndEmailOfLine(fields: seq<string>)
    requires |fields| >= 2
    requires forall i :: 0 <= i < |fields| ==> '\t' !in fields[i]
    requires fields[0] != [] && Stripped(fields[0], IsPyWhitespace)
    requires fields[|fields| - 1] != [] && Stripped(fields[|fields| - 1], IsPyWhitespace)
    ensures LineEntry(Join(fields, '\t')) == Some((fields[|fields| - 1], fields[0]))
  {
    var line := Join(fields, '\t');
    JoinedLineIsStripped(fields);
    SplitJoin(fields, '\t');
    var email, school := fields[|fields| - 1], fields[0];
    LineEntryOfFields(line, fields);
    TrimStrippedIsIdentity(school, IsPyWhitespace);
    TrimStrippedIsIdentity(email, IsPyWhitespace);
  }

  lemma LineEntryOfFields(line: string, fields: seq<string>)
    requires fields == Split(PyStrip(line), '\t') && |fields| >= 2
    ensures LineEntry(line) == Some((PyStrip(fields[|fields| - 1]), PyStrip(fields[0])))
  {
  }

  /** Such a line has nothing to strip. */
  lemma JoinedLineIsStripped(fields: seq<string>)
    requires |fields| >= 2
    requires fields[0] != [] && Stripped(fields[0], IsPyWhitespace)
    requires fields[|fields| - 1] != [] && Stripped(fields[|fields| - 1], IsPyWhitespace)
    ensures PyStrip(Join(fields, '\t')) == Join(fields, '\t')
  {
    var line := Join(fields, '\t');
    JoinLast(fields, '\t');
    assert line == fields[0] + ['\t'] + Join(fields[1..], '\t');
    assert line[0] == fields[0][0];
    TrimStrippedIsIdentity(line, IsPyWhitespace);
  }

  /** The emails of the result are exactly those of the contributing lines. */
  lemma ContactEmails(contactData: string)
    ensures var lines := Lines(contactData);
      forall email :: (email in Keys(Fill(MapItems(LineEntry, lines)))
        <==> exists i :: 0 <= i < |lines| && LineEntry(lines[i]).Some? && LineEntry(lines[i]).value.0 == email)
  {
    var lines := Lines(contactData);
    forall email ensures (email in Keys(Fill(MapItems(LineEntry, lines)))
      <==> exists i :: 0 <= i < |lines| && LineEntry(lines[i]).Some? && LineEntry(lines[i]).value.0 == email)
    {
      EmailFromLine(lines, email);
    }
  }

  lemma EmailFromLine(lines: seq<string>, email: string)
    ensures email in Keys(Fill(MapItems(LineEntry, lines)))
      <==> exists i :: 0 <= i < |lines| && LineEntry(lines[i]).Some? && LineEntry(lines[i]).value.0 == email
  {
    var items := MapItems(LineEntry, lines);
    FillKeyOrder(items);
    AssignedKeysFrom(items);
    if exists i :: 0 <= i < |lines| && LineEntry(lines[i]).Some? && LineEntry(lines[i]).value.0 == email {
      var i :| 0 <= i < |lines| && LineEntry(lines[i]).Some? && LineEntry(lines[i]).value.0 == email;
      assert items[i] == LineEntry(lines[i]);
    }
    if email in AssignedKeys(items) {
      var i :| 0 <= i < |items| && items[i].Some? && items[i].value.0 == email;
      assert items[i] == LineEntry(lines[i]);
    }
  }

  /** Every email is listed once, in the order of its first line, and there
      are no more contacts than lines. */
  lemma ContactsDistinct(contactData: string)
    ensures DistinctKeys(Fill(MapItems(LineEntry, Lines(contactData))))
    ensures |Fill(MapItems(LineEntry, Lines(contactData)))| <= |Lines(contactData)|
    ensures Keys(Fill(MapItems(LineEntry, Lines(contactData)))) == FirstOccurrences(AssignedKeys(MapItems(LineEntry, Lines(contactData))))
  {
    var items := MapItems(LineEntry, Lines(contactData));
    FillDistinct(items);
    FillKeyOrder(items);
  }

  /** For an email on several lines the school of the last one is kept. */
  lemma LastLineWins(contactData: string, i: nat)
    requires i < |Lines(contactData)|
    requires LineEntry(Lines(contactData)[i]).Some?
    requires forall j :: (i < j < |Lines(contactData)| && LineEntry(Lines(contactData)[j]).Some?
      ==> LineEntry(Lines(contactData)[j]).value.0 != LineEntry(Lines(contactData)[i]).value.0)
    ensures var e := LineEntry(Lines(contactData)[i]).value;
      Lookup(Fill(MapItems(LineEntry, Lines(contactData))), e.0) == Some(e.1)
  {
    FillLastWins(MapItems(LineEntry, Lines(contactData)), i);
  }

  /** `main`: one send per contact, in the dict's order, each in its own
      `try`, so a send that raises is reported and the loop goes on.
      `raises` says which sends raise. The result lists the `(email, school)`
      pairs attempted and the emails reported as failed. */
  method SendAll(contacts: Dict<string, string>, raises: (string, string) -> bool)
    returns (attempted: seq<(string, string)>, failed: seq<string>)
    ensures attempted == contacts
    ensures failed == FailedKeys(contacts, raises)
  {
    attempted, failed := [], [];
    for i := 0 to |contacts|
      invariant attempted == contacts[..i]
      invariant failed == FailedKeys(contacts[..i], raises)
    {
      assert contacts[..i + 1][..i] == contacts[..i];
      if raises(contacts[i].0, contacts[i].1) {
        failed := failed + [contacts[i].0];
      }
      attempted := attempted + [contacts[i]];
    }
    assert contacts[..|contacts|] == contacts;
  }
}
