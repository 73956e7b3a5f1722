/** `transfer_data_to_google_sheets` in automation/google_sheets.py: the
    applications table, as a data frame, has its `createdBy` column replaced
    by the users' emails, its columns put into the sheet's order, its rows
    sorted by `id` and its missing values blanked, and is then handed to the
    worksheet as a header row followed by one list per row. */
module GoogleSheets {
  import opened Services
  import opened OrderedDict

  /** No element occurs twice. */
  predicate Distinct<T(==)>(s: seq<T>) {
    forall i, j :: 0 <= i < j < |s| ==> s[i] != s[j]
  }

  // ---------------------------------------------------------------------
  // Column order

  /** The sheet's columns, in the sheet's order. */
  const DesiredOrder: seq<string> := [
    "id", "email", "firstName", "lastName", "city", "country", "phone",
    "ieltsScore", "satScore", "schoolName", "grade", "gpa", "parentPhone",
    "fieldsOfInterest", "researchInterest", "motivation",
    "financialAid", "noFinancialAidMoney", "extracurriculars",
    "parentFirstName", "parentLastName", "additionalInfo", "createdAt"
  ]

  /** `[col for col in desired if col in existing]`. */
  function Present(desired: seq<string>, existing: seq<string>): (r: seq<string>)
    ensures forall c :: c in r <==> c in desired && c in existing
    ensures Distinct(desired) ==> Distinct(r)
  {
    if desired == [] then []
    else
      var rest := Present(desired[1..], existing);
      if desired[0] in existing then [desired[0]] + rest else rest
  }

  /** The elements of `cols` that are not in `excluded`, in their order. */
  function Without(cols: seq<string>, excluded: seq<string>): (r: seq<string>)
    ensures forall c :: c in r <==> c in cols && c !in excluded
    ensures Distinct(cols) ==> Distinct(r)
  {
    if cols == [] then []
    else
      var rest := Without(cols[1..], excluded);
      if cols[0] in excluded then rest else [cols[0]] + rest
  }

  /** What the append loop leaves in `acc` after visiting `cols`: each column
      not yet listed is appended. */
  function AppendMissing(acc: seq<string>, cols: seq<string>): seq<string>
    decreases |cols|
  {
    if cols == [] then acc
    else AppendMissing(if cols[0] in acc then acc else acc + [cols[0]], cols[1..])
  }

  /** The columns written to the sheet for a frame with columns `existing`. */
  function FinalColumns(desired: seq<string>, existing: seq<string>): seq<string> {
    AppendMissing(Present(desired, existing), existing)
  }

  /** The comprehension followed by the append loop over the frame's columns.
      For distinct columns the result is the desired columns the frame has, in
      the desired order, then the others in the frame's order; and it is a
      permutation of the frame's columns. */
  method OrderColumns(desired: seq<string>, existing: seq<string>) returns (finalColumns: seq<string>)
    ensures finalColumns == FinalColumns(desired, existing)
    ensures Distinct(existing) ==> finalColumns == Present(desired, existing) + Without(existing, desired)
    ensures Distinct(desired) && Distinct(existing) ==> multiset(finalColumns) == multiset(existing)
  {
    finalColumns := Present(desired, existing);
    for i := 0 to |existing|
      invariant AppendMissing(finalColumns, existing[i..]) == FinalColumns(desired, existing)
    {
      assert existing[i..][1..] == existing[i + 1..];
      if existing[i] !in finalColumns {
        finalColumns := finalColumns + [existing[i]];
      }
    }
    if Distinct(existing) {
      FinalColumnsShape(desired, existing);
    }
    if Distinct(desired) && Distinct(existing) {
      FinalColumnsPermutation(desired, existing);
    }
  }

  /** With distinct columns the loop appends exactly those not already there. */
  lemma {:induction false} AppendMissingDistinct(acc: seq<string>, cols: seq<string>)
    requires Distinct(cols)
    ensures AppendMissing(acc, cols) == acc + Without(cols, acc)
    decreases |cols|
  {
    if cols != [] {
      var c, rest := cols[0], cols[1..];
      assert Distinct(rest);
      if c in acc {
        AppendMissingDistinct(acc, rest);
      } else {
        AppendMissingDistinct(acc + [c], rest);
        assert c !in rest;
        WithoutSameOn(rest, acc + [c], acc);
      }
    }
  }

  /** `Without` only asks about the columns it visits. */
  lemma {:induction false} WithoutSameOn(cols: seq<string>, a: seq<string>, b: seq<string>)
    requires forall c :: c in cols ==> (c in a <==> c in b)
    ensures Without(cols, a) == Without(cols, b)
  {
    if cols != [] {
      WithoutSameOn(cols[1..], a, b);
    }
  }

  /** The column order promised to the sheet. */
  lemma FinalColumnsShape(desired: seq<string>, existing: seq<string>)
    requires Distinct(existing)
    ensures FinalColumns(desired, existing) == Present(desired, existing) + Without(existing, desired)
  {
    var present := Present(desired, existing);
    AppendMissingDistinct(present, existing);
    WithoutSameOn(existing, present, desired);
  }

  /** Nothing lost and nothing duplicated. */
  lemma FinalColumnsPermutation(desired: seq<string>, existing: seq<string>)
    requires Distinct(desired) && Distinct(existing)
    ensures multiset(FinalColumns(desired, existing)) == multiset(existing)
    ensures Distinct(FinalColumns(desired, existing))
  {
    FinalColumnsShape(desired, existing);
    var present, others := Present(desired, existing), Without(existing, desired);
    var r := present + others;
    assert Distinct(r) by {
      forall i, j | 0 <= i < j < |r| ensures r[i] != r[j] {
        if j < |present| {
        } else if i >= |present| {
          assert r[i] == others[i - |present|] && r[j] == others[j - |present|];
        } else {
          assert r[i] in present && r[j] in others;
        }
      }
    }
    DistinctMultiset(r, existing);
  }

  /** Two distinct sequences with the same elements are permutations of each
      other. */
  lemma DistinctMultiset(a: seq<string>, b: seq<string>)
    requires Distinct(a) && Distinct(b)
    requires forall c :: c in a <==> c in b
    ensures multiset(a) == multiset(b)
  {
    forall c ensures multiset(a)[c] == multiset(b)[c] {
      DistinctCount(a, c);
      DistinctCount(b, c);
    }
  }

  lemma {:induction false} DistinctCount(s: seq<string>, c: string)
    requires Distinct(s)
    ensures multiset(s)[c] == if c in s then 1 else 0
  {
    if s != [] {
      assert s == [s[0]] + s[1..];
      assert Distinct(s[1..]);
      DistinctCount(s[1..], c);
    }
  }

  /** The sheet's column names never repeat. */
  lemma DesiredOrderDistinct()
    ensures Distinct(DesiredOrder)
  {
  }

  // ---------------------------------------------------------------------
  // The data frame

  /** A cell of the applications table: missing, a number or a text. */
  datatype Cell = Null | Int(i: int) | Text(s: string)

  type Row = seq<Cell>

  /** A data frame: column labels and, per row, one cell per column. */
  datatype Frame = Frame(columns: seq<string>, rows: seq<Row>)

  /** What every frame built from the table's records satisfies. */
  predicate WellFormed(f: Frame) {
    && Distinct(f.columns)
    && forall i :: 0 <= i < |f.rows| ==> |f.rows[i]| == |f.columns|
  }

  /** `DataFrame.empty`: no rows or no columns. */
  predicate Empty(f: Frame) {
    f.rows == [] || f.columns == []
  }

  const CreatedBy := "createdBy"
  const Email := "email"
  const Id := "id"
  /** The email shown for a `createdBy` that was not looked up. */
  const NotAvailable := "N/A"

  /** The position of a column label. */
  function IndexOf(cols: seq<string>, name: string): (r: Option<nat>)
    ensures r.Some? <==> name in cols
    ensures r.Some? ==> r.value < |cols| && cols[r.value] == name && name !in cols[..r.value]
  {
    if cols == [] then None
    else if cols[0] == name then Some(0)
    else match IndexOf(cols[1..], name) {
      case None => None
      case Some(k) =>
        assert cols[..k + 1] == [cols[0]] + cols[1..][..k];
        Some(k + 1)
    }
  }

  /** With distinct labels the position of the label at `j` is `j`. */
  lemma IndexOfDistinct(cols: seq<string>, j: nat)
    requires Distinct(cols) && j < |cols|
    ensures IndexOf(cols, cols[j]) == Some(j)
  {
    var k := IndexOf(cols, cols[j]).value;
    assert forall m :: 0 <= m < k ==> cols[..k][m] == cols[m];
  }

  /** The cell of row `i` under column `name`, if the frame has that column. */
  function CellAt(f: Frame, i: nat, name: string): Option<Cell>
    requires WellFormed(f) && i < |f.rows|
  {
    match IndexOf(f.columns, name) {
      case None => None
      case Some(k) => Some(f.rows[i][k])
    }
  }

  /** `df[name]`: the cells of one column, top to bottom. */
  function Column(f: Frame, k: nat): (r: seq<Cell>)
    requires WellFormed(f) && k < |f.columns|
    ensures |r| == |f.rows|
  {
    seq(|f.rows|, i requires 0 <= i < |f.rows| => f.rows[i][k])
  }

  /** `df[name] = cells`: an existing column is overwritten in place, a new
      one is added at the right. Every other column keeps its cells. */
  function SetColumn(f: Frame, name: string, cells: seq<Cell>): (r: Frame)
    requires WellFormed(f) && |cells| == |f.rows|
    ensures WellFormed(r) && |r.rows| == |f.rows|
    ensures forall c :: c in r.columns <==> c in f.columns || c == name
    ensures forall i :: 0 <= i < |r.rows| ==> CellAt(r, i, name) == Some(cells[i])
    ensures forall i, c :: 0 <= i < |r.rows| && c != name ==> CellAt(r, i, c) == CellAt(f, i, c)
  {
    match IndexOf(f.columns, name) {
      case Some(k) =>
        Frame(f.columns, seq(|f.rows|, i requires 0 <= i < |f.rows| => f.rows[i][k := cells[i]]))
      case None =>
        var r := Frame(f.columns + [name], seq(|f.rows|, i requires 0 <= i < |f.rows| => f.rows[i] + [cells[i]]));
        SetColumnNew(f, name, cells, r);
        r
    }
  }

  /** The labels are unchanged when the column exists; otherwise `name` is
      added at the right. */
  lemma SetColumnLabels(f: Frame, name: string, cells: seq<Cell>)
    requires WellFormed(f) && |cells| == |f.rows|
    ensures SetColumn(f, name, cells).columns == if name in f.columns then f.columns else f.columns + [name]
  {
  }

  lemma SetColumnNew(f: Frame, name: string, cells: seq<Cell>, r: Frame)
    requires WellFormed(f) && |cells| == |f.rows| && name !in f.columns
    requires r == Frame(f.columns + [name], seq(|f.rows|, i requires 0 <= i < |f.rows| => f.rows[i] + [cells[i]]))
    ensures WellFormed(r)
    ensures forall i :: 0 <= i < |r.rows| ==> CellAt(r, i, name) == Some(cells[i])
    ensures forall i, c :: 0 <= i < |r.rows| && c != name ==> CellAt(r, i, c) == CellAt(f, i, c)
  {
    var n := |f.columns|;
    assert Distinct(r.columns);
    IndexOfDistinct(r.columns, n);
    forall i, c | 0 <= i < |r.rows| && c != name ensures CellAt(r, i, c) == CellAt(f, i, c) {
      SetColumnNewCell(f, name, r, i, c);
    }
  }

  lemma SetColumnNewCell(f: Frame, name: string, r: Frame, i: nat, c: string)
    requires WellFormed(f) && WellFormed(r) && c != name
    requires r.columns == f.columns + [name] && |r.rows| == |f.rows| && i < |f.rows|
    requires r.rows[i][..|f.columns|] == f.rows[i]
    ensures CellAt(r, i, c) == CellAt(f, i, c)
  {
    if c in f.columns {
      var k := IndexOf(f.columns, c).value;
      IndexOfDistinct(r.columns, k);
      assert r.rows[i][k] == r.rows[i][..|f.columns|][k];
    } else {
      assert c !in r.columns;
    }
  }

  /** The labels with the one at `k` taken out. */
  function Remove<T>(s: seq<T>, k: nat): (r: seq<T>)
    requires k < |s|
    ensures |r| == |s| - 1
    ensures forall m :: 0 <= m < |r| ==> r[m] == if m < k then s[m] else s[m + 1]
  {
    s[..k] + s[k + 1..]
  }

  /** `df.drop(columns=[name])` for the column at `k`: it goes, and every
      other column keeps its cells. */
  function DropColumn(f: Frame, k: nat): (r: Frame)
    requires WellFormed(f) && k < |f.columns|
    ensures WellFormed(r) && |r.rows| == |f.rows|
    ensures forall c :: c in r.columns <==> c in f.columns && c != f.columns[k]
    ensures forall i, c :: 0 <= i < |r.rows| && c != f.columns[k] ==> CellAt(r, i, c) == CellAt(f, i, c)
  {
    var r := Frame(Remove(f.columns, k), seq(|f.rows|, i requires 0 <= i < |f.rows| => Remove(f.rows[i], k)));
    DropColumnCells(f, k, r);
    r
  }

  /** The labels after the drop are the old ones, in order, without the one
      at `k`. */
  lemma DropColumnLabels(f: Frame, k: nat)
    requires WellFormed(f) && k < |f.columns|
    ensures DropColumn(f, k).columns == Remove(f.columns, k)
  {
  }

  lemma DropColumnCells(f: Frame, k: nat, r: Frame)
    requires WellFormed(f) && k < |f.columns|
    requires r == Frame(Remove(f.columns, k), seq(|f.rows|, i requires 0 <= i < |f.rows| => Remove(f.rows[i], k)))
    ensures WellFormed(r)
    ensures forall c :: c in r.columns <==> c in f.columns && c != f.columns[k]
    ensures forall i, c :: 0 <= i < |r.rows| && c != f.columns[k] ==> CellAt(r, i, c) == CellAt(f, i, c)
  {
    RemoveLabel(f.columns, k);
    forall i, c | 0 <= i < |r.rows| && c != f.columns[k] ensures CellAt(r, i, c) == CellAt(f, i, c) {
      DropColumnCell(f, k, r, i, c);
    }
  }

  lemma DropColumnCell(f: Frame, k: nat, r: Frame, i: nat, c: string)
    requires WellFormed(f) && k < |f.columns| && WellFormed(r)
    requires r.columns == Remove(f.columns, k) && |r.rows| == |f.rows|
    requires i < |f.rows| && r.rows[i] == Remove(f.rows[i], k)
    requires forall c :: c in r.columns <==> c in f.columns && c != f.columns[k]
    requires c != f.columns[k]
    ensures CellAt(r, i, c) == CellAt(f, i, c)
  {
    if c in f.columns {
      DropColumnKept(f, k, r, i, IndexOf(f.columns, c).value);
    }
  }

  lemma DropColumnKept(f: Frame, k: nat, r: Frame, i: nat, m: nat)
    requires WellFormed(f) && k < |f.columns| && WellFormed(r)
    requires r.columns == Remove(f.columns, k) && |r.rows| == |f.rows|
    requires i < |f.rows| && r.rows[i] == Remove(f.rows[i], k)
    requires m < |f.columns| && m != k && IndexOf(f.columns, f.columns[m]) == Some(m)
    ensures CellAt(r, i, f.columns[m]) == Some(f.rows[i][m])
  {
    var m' := if m < k then m else m - 1;
    assert r.columns[m'] == f.columns[m];
    IndexOfDistinct(r.columns, m');
  }

  /** Taking out a distinct label keeps the others distinct and present. */
  lemma RemoveLabel(cols: seq<string>, k: nat)
    requires Distinct(cols) && k < |cols|
    ensures Distinct(Remove(cols, k))
    ensures forall c :: c in Remove(cols, k) <==> c in cols && c != cols[k]
  {
    var r := Remove(cols, k);
    forall a, b | 0 <= a < b < |r| ensures r[a] != r[b] {
      assert r[a] == cols[if a < k then a else a + 1];
      assert r[b] == cols[if b < k then b else b + 1];
    }
    forall c | c in cols && c != cols[k] ensures c in r {
      var m := IndexOf(cols, c).value;
      assert r[if m < k then m else m - 1] == c;
    }
  }

  /** `df[order]`: the frame with the columns `order`, in that order. Every
      row keeps the cell it had under each chosen column. */
  function Select(f: Frame, order: seq<string>): (r: Frame)
    requires WellFormed(f) && Distinct(order)
    requires forall j :: 0 <= j < |order| ==> order[j] in f.columns
    ensures WellFormed(r) && r.columns == order && |r.rows| == |f.rows|
    ensures forall i, c :: 0 <= i < |r.rows| && c in order ==> CellAt(r, i, c) == CellAt(f, i, c)
  {
    var r := Frame(order, seq(|f.rows|, i requires 0 <= i < |f.rows| =>
      seq(|order|, j requires 0 <= j < |order| => f.rows[i][IndexOf(f.columns, order[j]).value])));
    SelectCells(f, order, r);
    r
  }

  lemma SelectCells(f: Frame, order: seq<string>, r: Frame)
    requires WellFormed(f) && Distinct(order)
    requires forall j :: 0 <= j < |order| ==> order[j] in f.columns
    requires r == Frame(order, seq(|f.rows|, i requires 0 <= i < |f.rows| =>
      seq(|order|, j requires 0 <= j < |order| => f.rows[i][IndexOf(f.columns, order[j]).value])))
    ensures WellFormed(r)
    ensures forall i, c :: 0 <= i < |r.rows| && c in order ==> CellAt(r, i, c) == CellAt(f, i, c)
  {
    forall i, c | 0 <= i < |r.rows| && c in order ensures CellAt(r, i, c) == CellAt(f, i, c) {
      var j := IndexOf(order, c).value;
      IndexOfDistinct(order, j);
    }
  }

  // ---------------------------------------------------------------------
  // From `createdBy` to email

  /** The cells that are not missing, in order: `dropna()`. */
  function NonNull(cells: seq<Cell>): (r: seq<Cell>)
    ensures forall c :: c in r <==> c in cells && c != Null
  {
    if cells == [] then []
    else
      var rest := NonNull(cells[1..]);
      assert cells == [cells[0]] + cells[1..];
      if cells[0] == Null then rest else [cells[0]] + rest
  }

  /** `df["createdBy"].dropna().unique().tolist()`: the ids to look up. */
  function LookupIds(createdBy: seq<Cell>): (ids: seq<Cell>)
    ensures forall c :: c in ids <==> c in createdBy && c != Null
    ensures Distinct(ids)
  {
    FirstOccurrences(NonNull(createdBy))
  }

  /** What `supabase.auth.admin.get_user_by_id` gave for one id: a user with
      its email (empty when it has none), no user, or an exception. */
  datatype UserLookup = Found(email: string) | NotFound | Failed

  /** The text `get_user_emails_from_auth_users_by_id` stores for a result. */
  function EmailText(l: UserLookup): (r: string)
    ensures l.Found? && l.email != [] ==> r == l.email
    ensures l.Found? && l.email == [] ==> r == "Email Not Found"
    ensures l.NotFound? ==> r == "User Not Found"
    ensures l.Failed? ==> r == "Error Fetching Email"
    ensures r != []
  {
    match l {
      case Found(e) => if e == [] then "Email Not Found" else e
      case NotFound => "User Not Found"
      case Failed => "Error Fetching Email"
    }
  }

  /** The map the loop over `ids` builds, `lookup` standing for the
      Supabase call. */
  function UserEmailsMap(ids: seq<Cell>, lookup: Cell -> UserLookup): Dict<Cell, string> {
    if ids == [] then []
    else
      var last := ids[|ids| - 1];
      Put(UserEmailsMap(ids[..|ids| - 1], lookup), last, EmailText(lookup(last)))
  }

  /** `get_user_emails_from_auth_users_by_id`: the loop over the ids. */
  method UserEmailsById(ids: seq<Cell>, lookup: Cell -> UserLookup) returns (userEmailsMap: Dict<Cell, string>)
    ensures userEmailsMap == UserEmailsMap(ids, lookup)
    ensures forall c :: Lookup(userEmailsMap, c) == if c in ids then Some(EmailText(lookup(c))) else None
  {
    userEmailsMap := [];
    for i := 0 to |ids|
      invariant userEmailsMap == UserEmailsMap(ids[..i], lookup)
    {
      assert ids[..i + 1][..i] == ids[..i];
      userEmailsMap := Put(userEmailsMap, ids[i], EmailText(lookup(ids[i])));
    }
    assert ids[..|ids|] == ids;
    forall c ensures Lookup(userEmailsMap, c) == if c in ids then Some(EmailText(lookup(c))) else None {
      UserEmailsLookup(ids, lookup, c);
    }
  }

  /** The map never repeats an id. */
  lemma {:induction false} UserEmailsDistinct(ids: seq<Cell>, lookup: Cell -> UserLookup)
    ensures DistinctKeys(UserEmailsMap(ids, lookup))
  {
    if ids != [] {
      var init, last := ids[..|ids| - 1], ids[|ids| - 1];
      UserEmailsDistinct(init, lookup);
      PutDistinct(UserEmailsMap(init, lookup), last, EmailText(lookup(last)));
    }
  }

  /** Every id looked up maps to the text for its result, and nothing else
      is in the map. */
  lemma {:induction false} UserEmailsLookup(ids: seq<Cell>, lookup: Cell -> UserLookup, c: Cell)
    ensures Lookup(UserEmailsMap(ids, lookup), c) == if c in ids then Some(EmailText(lookup(c))) else None
  {
    if ids != [] {
      var init, last := ids[..|ids| - 1], ids[|ids| - 1];
      assert ids == init + [last];
      var before := UserEmailsMap(init, lookup);
      if c == last {
        PutLookupSame(before, last, EmailText(lookup(last)));
      } else {
        UserEmailsLookup(init, lookup, c);
        UserEmailsDistinct(init, lookup);
        PutLookupOther(before, last, EmailText(lookup(last)), c);
      }
    }
  }

  /** `user_emails_map.get(uuid, "N/A")`. */
  function EmailFor(emails: Dict<Cell, string>, c: Cell): string {
    match Lookup(emails, c) {
      case Some(e) => e
      case None => NotAvailable
    }
  }

  /** The new `email` column: `df["createdBy"].apply(...)`. */
  function EmailColumn(createdBy: seq<Cell>, emails: Dict<Cell, string>): (r: seq<Cell>)
    ensures |r| == |createdBy|
  {
    seq(|createdBy|, i requires 0 <= i < |createdBy| => Text(EmailFor(emails, createdBy[i])))
  }

  /** Each row's email is the text fetched for its `createdBy`, or "N/A" when
      that is missing. */
  lemma EmailOfCreator(createdBy: seq<Cell>, lookup: Cell -> UserLookup, i: nat)
    requires i < |createdBy|
    ensures var column := EmailColumn(createdBy, UserEmailsMap(LookupIds(createdBy), lookup));
      column[i] == Text(if createdBy[i] == Null then NotAvailable else EmailText(lookup(createdBy[i])))
  {
    UserEmailsLookup(LookupIds(createdBy), lookup, createdBy[i]);
  }

  /** `df["email"] = ...` followed by `df.drop(columns=["createdBy"])`. */
  function WithEmails(f: Frame, lookup: Cell -> UserLookup): (r: Frame)
    requires WellFormed(f) && CreatedBy in f.columns
    ensures WellFormed(r) && |r.rows| == |f.rows|
    ensures forall c :: c in r.columns <==> (c in f.columns || c == Email) && c != CreatedBy
    ensures forall i, c :: 0 <= i < |r.rows| && c != Email && c != CreatedBy ==> CellAt(r, i, c) == CellAt(f, i, c)
  {
    var createdBy := Column(f, IndexOf(f.columns, CreatedBy).value);
    var emails := UserEmailsMap(LookupIds(createdBy), lookup);
    var g := SetColumn(f, Email, EmailColumn(createdBy, emails));
    DropColumn(g, IndexOf(g.columns, CreatedBy).value)
  }

  /** The labels after the replacement: the old ones in order without
      `createdBy`, then `email` when the table had none. */
  lemma WithEmailsColumns(f: Frame, lookup: Cell -> UserLookup)
    requires WellFormed(f) && CreatedBy in f.columns
    ensures WithEmails(f, lookup).columns == Without(f.columns, [CreatedBy]) + (if Email in f.columns then [] else [Email])
  {
    var createdBy := Column(f, IndexOf(f.columns, CreatedBy).value);
    var emails := UserEmailsMap(LookupIds(createdBy), lookup);
    var g := SetColumn(f, Email, EmailColumn(createdBy, emails));
    SetColumnLabels(f, Email, EmailColumn(createdBy, emails));
    DropColumnLabels(g, IndexOf(g.columns, CreatedBy).value);
    SetThenDrop(f.columns, Email, CreatedBy);
  }

  /** Labels `cols` that gain `added` when it is missing and then lose
      `dropped`. */
  lemma SetThenDrop(cols: seq<string>, added: string, dropped: string)
    requires Distinct(cols) && dropped in cols && added != dropped
    ensures var s := if added in cols then cols else cols + [added];
      Remove(s, IndexOf(s, dropped).value) == Without(cols, [dropped]) + (if added in cols then [] else [added])
  {
    if added in cols {
      DropPresent(cols, dropped);
    } else {
      DropAfterAppend(cols, added, dropped);
    }
  }

  /** Dropping a label that was there all along. */
  lemma DropPresent(cols: seq<string>, dropped: string)
    requires Distinct(cols) && dropped in cols
    ensures Remove(cols, IndexOf(cols, dropped).value) == Without(cols, [dropped])
  {
    RemoveDistinct(cols, IndexOf(cols, dropped).value);
  }

  /** Dropping a label after appending another that was missing. */
  lemma DropAfterAppend(cols: seq<string>, added: string, dropped: string)
    requires Distinct(cols) && dropped in cols && added != dropped && added !in cols
    ensures Remove(cols + [added], IndexOf(cols + [added], dropped).value) == Without(cols, [dropped]) + [added]
  {
    AppendedDistinct(cols, added);
    RemoveDistinct(cols + [added], IndexOf(cols + [added], dropped).value);
    WithoutConcat(cols, [added], [dropped]);
    assert Without([added], [dropped]) == [added] + Without([], [dropped]);
  }

  /** Appending a missing label keeps the labels free of repeats. */
  lemma AppendedDistinct(cols: seq<string>, added: string)
    requires Distinct(cols) && added !in cols
    ensures Distinct(cols + [added])
  {
    var s := cols + [added];
    forall i, j | 0 <= i < j < |s| ensures s[i] != s[j] {
      assert s[i] == cols[i];
      if j < |cols| {
        assert s[j] == cols[j];
      }
    }
  }

  /** Filtering works element by element: filtering a concatenation filters
      each part. */
  lemma {:induction false} WithoutConcat(a: seq<string>, b: seq<string>, excluded: seq<string>)
    ensures Without(a + b, excluded) == Without(a, excluded) + Without(b, excluded)
  {
    if a == [] {
      assert a + b == b;
    } else {
      assert (a + b)[1..] == a[1..] + b;
      WithoutConcat(a[1..], b, excluded);
    }
  }

  /** In a list without repeats, removing the label at `k` is filtering that
      label out. */
  lemma {:induction false} RemoveDistinct(s: seq<string>, k: nat)
    requires Distinct(s) && k < |s|
    ensures Remove(s, k) == Without(s, [s[k]])
  {
    if k == 0 {
      WithoutAbsent(s[1..], [s[0]]);
      assert Remove(s, k) == s[1..];
    } else {
      assert Remove(s, k) == [s[0]] + Remove(s[1..], k - 1);
      assert s[1..][k - 1] == s[k];
      RemoveDistinct(s[1..], k - 1);
    }
  }

  /** Filtering out labels that do not occur changes nothing. */
  lemma {:induction false} WithoutAbsent(cols: seq<string>, excluded: seq<string>)
    requires forall c :: c in cols ==> c !in excluded
    ensures Without(cols, excluded) == cols
  {
    if cols != [] {
      WithoutAbsent(cols[1..], excluded);
    }
  }

  /** The email the sheet shows for row `i` of the table. */
  function CreatorEmail(f: Frame, lookup: Cell -> UserLookup, i: nat): string
    requires WellFormed(f) && CreatedBy in f.columns && i < |f.rows|
  {
    var creator := CellAt(f, i, CreatedBy).value;
    if creator == Null then NotAvailable else EmailText(lookup(creator))
  }

  /** After the replacement, each row's `email` is the text fetched for its
      `createdBy`, or "N/A" when that is missing. */
  lemma WithEmailsEmail(f: Frame, lookup: Cell -> UserLookup, i: nat)
    requires WellFormed(f) && CreatedBy in f.columns && i < |f.rows|
    ensures CellAt(WithEmails(f, lookup), i, Email) == Some(Text(CreatorEmail(f, lookup, i)))
  {
    var createdBy := Column(f, IndexOf(f.columns, CreatedBy).value);
    EmailOfCreator(createdBy, lookup, i);
  }

  // ---------------------------------------------------------------------
  // Sorting by id

  /** The id of a row, the column at `k` holding integers. */
  function IdValue(row: Row, k: nat): int {
    if k < |row| && row[k].Int? then row[k].i else 0
  }

  /** Every row's cell at `k` is an integer. */
  predicate IntIds(rows: seq<Row>, k: nat) {
    forall i :: 0 <= i < |rows| ==> k < |rows[i]| && rows[i][k].Int?
  }

  predicate SortedById(rows: seq<Row>, k: nat) {
    forall a, b :: 0 <= a < b < |rows| ==> IdValue(rows[a], k) <= IdValue(rows[b], k)
  }

  /** `row` put before the first row with an id at least its own. */
  function InsertById(row: Row, rows: seq<Row>, k: nat): (r: seq<Row>)
    ensures |r| == |rows| + 1 && multiset(r) == multiset(rows) + multiset{row}
  {
    if rows == [] then [row]
    else if IdValue(row, k) <= IdValue(rows[0], k) then [row] + rows
    else
      assert rows == [rows[0]] + rows[1..];
      [rows[0]] + InsertById(row, rows[1..], k)
  }

  /** Inserting into sorted rows keeps them sorted. */
  lemma {:induction false} InsertSorted(row: Row, rows: seq<Row>, k: nat)
    requires SortedById(rows, k)
    ensures SortedById(InsertById(row, rows, k), k)
  {
    if rows != [] && IdValue(row, k) > IdValue(rows[0], k) {
      var tail := rows[1..];
      var rest := InsertById(row, tail, k);
      InsertSorted(row, tail, k);
      InsertLowerBound(row, tail, k, IdValue(rows[0], k));
      ConsSorted(rows[0], rest, k);
    }
  }

  /** A row no greater than any of sorted rows can go in front of them. */
  lemma ConsSorted(first: Row, rest: seq<Row>, k: nat)
    requires SortedById(rest, k)
    requires forall x :: x in rest ==> IdValue(first, k) <= IdValue(x, k)
    ensures SortedById([first] + rest, k)
  {
    var r := [first] + rest;
    forall a, b | 0 <= a < b < |r| ensures IdValue(r[a], k) <= IdValue(r[b], k) {
      if a > 0 {
        assert r[a] == rest[a - 1] && r[b] == rest[b - 1];
      } else {
        assert r[b] in rest;
      }
    }
  }

  /** A bound below the row and all the rows is a bound below the result. */
  lemma InsertLowerBound(row: Row, rows: seq<Row>, k: nat, low: int)
    requires low <= IdValue(row, k)
    requires forall m :: 0 <= m < |rows| ==> low <= IdValue(rows[m], k)
    ensures forall x :: x in InsertById(row, rows, k) ==> low <= IdValue(x, k)
  {
    var r := InsertById(row, rows, k);
    forall x | x in r ensures low <= IdValue(x, k) {
      assert x in multiset(r);
      if x != row {
        assert x in multiset(rows);
      }
    }
  }

  /** `df.sort_values(by="id")`: the rows in ascending order of id. */
  function SortById(rows: seq<Row>, k: nat): (r: seq<Row>)
    ensures |r| == |rows| && multiset(r) == multiset(rows)
    ensures SortedById(r, k)
  {
    if rows == [] then []
    else
      assert rows == [rows[0]] + rows[1..];
      var sortedTail := SortById(rows[1..], k);
      InsertSorted(rows[0], sortedTail, k);
      InsertById(rows[0], sortedTail, k)
  }

  /** The frame with its rows sorted by the column at `k`. */
  function SortFrame(f: Frame, k: nat): (r: Frame)
    requires WellFormed(f)
    ensures WellFormed(r) && r.columns == f.columns && |r.rows| == |f.rows|
    ensures multiset(r.rows) == multiset(f.rows) && SortedById(r.rows, k)
  {
    var rows := SortById(f.rows, k);
    assert forall i :: 0 <= i < |rows| ==> rows[i] in multiset(f.rows);
    Frame(f.columns, rows)
  }

  // ---------------------------------------------------------------------
  // Blanking and writing

  /** `fillna("")` on one cell. */
  function Blank(c: Cell): Cell {
    if c == Null then Text("") else c
  }

  /** A row with each missing value blanked. */
  function BlankRow(row: Row): (r: Row)
    ensures |r| == |row|
  {
    seq(|row|, j requires 0 <= j < |row| => Blank(row[j]))
  }

  /** The frame after the loop over its columns. */
  function Filled(f: Frame): (r: Frame)
    ensures r.columns == f.columns && |r.rows| == |f.rows|
  {
    Frame(f.columns, seq(|f.rows|, i requires 0 <= i < |f.rows| => BlankRow(f.rows[i])))
  }

  /** Blanking leaves the shape alone, removes every missing value and keeps
      every other cell. */
  lemma FilledCells(f: Frame)
    ensures var g := Filled(f);
      && g.columns == f.columns && |g.rows| == |f.rows|
      && (forall i :: 0 <= i < |g.rows| ==> |g.rows[i]| == |f.rows[i]|)
      && (forall i, j :: 0 <= i < |g.rows| && 0 <= j < |g.rows[i]| ==> g.rows[i][j] != Null)
      && (forall i, j :: 0 <= i < |g.rows| && 0 <= j < |g.rows[i]| && f.rows[i][j] != Null ==> g.rows[i][j] == f.rows[i][j])
  {
  }

  /** The loop over the columns that blanks each column's missing values. */
  method FillNulls(f: Frame) returns (g: Frame)
    requires WellFormed(f)
    ensures g == Filled(f)
  {
    var rows := f.rows;
    for j := 0 to |f.columns|
      invariant |rows| == |f.rows|
      invariant forall i :: 0 <= i < |rows| ==> |rows[i]| == |f.columns|
      invariant forall i, m :: 0 <= i < |rows| && 0 <= m < |f.columns| ==> rows[i][m] == if m < j then Blank(f.rows[i][m]) else f.rows[i][m]
    {
      rows := seq(|rows|, i requires 0 <= i < |rows| => rows[i][j := Blank(rows[i][j])]);
    }
    g := Frame(f.columns, rows);
    assert forall i :: 0 <= i < |rows| ==> rows[i] == BlankRow(f.rows[i]);
  }

  /** The header row: the column labels as text. */
  function Header(columns: seq<string>): (r: Row)
    ensures |r| == |columns|
  {
    seq(|columns|, j requires 0 <= j < |columns| => Text(columns[j]))
  }

  /** `[df.columns.tolist()] + df.values.tolist()`. */
  function DataToWrite(f: Frame): seq<Row> {
    [Header(f.columns)] + f.rows
  }

  // ---------------------------------------------------------------------
  // The transfer

  /** What the script hands to `worksheet.update`, or why it stops before. */
  datatype Transfer =
    | NothingToTransfer
    | MissingColumn(name: string)
    | IdsNotIntegers
    | Write(data: seq<Row>)

  /** `df[final_columns_filtered]`: the columns in the sheet's order, every
      row keeping every cell. */
  function Ordered(f: Frame): (r: Frame)
    requires WellFormed(f)
    ensures WellFormed(r) && r.columns == FinalColumns(DesiredOrder, f.columns) && |r.rows| == |f.rows|
    ensures forall c :: c in r.columns <==> c in f.columns
    ensures forall i, c :: 0 <= i < |r.rows| ==> CellAt(r, i, c) == CellAt(f, i, c)
  {
    SheetColumns(f.columns);
    Select(f, FinalColumns(DesiredOrder, f.columns))
  }

  /** The sheet's columns for distinct labels are those labels, once each. */
  lemma SheetColumns(cols: seq<string>)
    requires Distinct(cols)
    ensures Distinct(FinalColumns(DesiredOrder, cols))
    ensures forall c :: c in FinalColumns(DesiredOrder, cols) <==> c in cols
  {
    DesiredOrderDistinct();
    FinalColumnsPermutation(DesiredOrder, cols);
    var order := FinalColumns(DesiredOrder, cols);
    forall c ensures c in order <==> c in cols {
      assert c in order <==> c in multiset(order);
      assert c in cols <==> c in multiset(cols);
    }
  }

  /** The whole of `transfer_data_to_google_sheets` up to the write, with
      `lookup` standing for the user fetches. */
  function Transform(f: Frame, lookup: Cell -> UserLookup): Transfer
    requires WellFormed(f)
  {
    if Empty(f) then NothingToTransfer
    else if CreatedBy !in f.columns then MissingColumn(CreatedBy)
    else Finish(Ordered(WithEmails(f, lookup)))
  }

  /** From the reordered frame on: sort by `id`, blank, add the header. */
  function Finish(g: Frame): Transfer
    requires WellFormed(g)
  {
    match IndexOf(g.columns, Id) {
      case None => MissingColumn(Id)
      case Some(k) =>
        if !IntIds(g.rows, k) then IdsNotIntegers
        else Write(DataToWrite(Filled(SortFrame(g, k))))
    }
  }

  /** The script's steps one after another, the frame rebound at each. */
  method TransferToSheet(f: Frame, lookup: Cell -> UserLookup) returns (r: Transfer)
    requires WellFormed(f)
    ensures r == Transform(f, lookup)
  {
    if Empty(f) {
      return NothingToTransfer;
    }
    if CreatedBy !in f.columns {
      return MissingColumn(CreatedBy);
    }
    var createdBy := Column(f, IndexOf(f.columns, CreatedBy).value);
    var userEmailsMap := UserEmailsById(LookupIds(createdBy), lookup);
    var df := SetColumn(f, Email, EmailColumn(createdBy, userEmailsMap));
    df := DropColumn(df, IndexOf(df.columns, CreatedBy).value);
    assert df == WithEmails(f, lookup);
    var finalColumns := OrderColumns(DesiredOrder, df.columns);
    df := Ordered(df);
    assert df.columns == finalColumns;
    match IndexOf(df.columns, Id) {
      case None =>
        return MissingColumn(Id);
      case Some(k) =>
        if !IntIds(df.rows, k) {
          return IdsNotIntegers;
        }
        df := SortFrame(df, k);
        df := FillNulls(df);
        r := Write(DataToWrite(df));
    }
  }

  /** An empty table writes nothing; a table without `createdBy` or `id`
      stops with that column's name. */
  lemma TransferStops(f: Frame, lookup: Cell -> UserLookup)
    requires WellFormed(f)
    ensures Transform(f, lookup) == NothingToTransfer <==> Empty(f)
    ensures !Empty(f) && CreatedBy !in f.columns ==> Transform(f, lookup) == MissingColumn(CreatedBy)
    ensures !Empty(f) && CreatedBy in f.columns && Id !in f.columns ==> Transform(f, lookup) == MissingColumn(Id)
    ensures !Empty(f) && CreatedBy in f.columns && Id in f.columns ==> !Transform(f, lookup).MissingColumn?
  {
    if !Empty(f) && CreatedBy in f.columns {
      var g := Ordered(WithEmails(f, lookup));
      assert Id in g.columns <==> Id in f.columns;
      FinishStops(g);
    }
  }

  lemma FinishStops(g: Frame)
    requires WellFormed(g)
    ensures Finish(g) == MissingColumn(Id) <==> Id !in g.columns
    ensures Finish(g) != NothingToTransfer
  {
  }

  /** What is written: the header and then as many rows as the frame has,
      in ascending order of id, with no missing value left. */
  lemma FinishWrites(g: Frame)
    requires WellFormed(g)
    ensures Finish(g).Write? ==>
      var data, k := Finish(g).data, IndexOf(g.columns, Id).value;
      var rows := data[1..];
      && |data| == |g.rows| + 1
      && data[0] == Header(g.columns)
      && SortedById(rows, k)
      && (forall a, j :: 0 <= a < |rows| && 0 <= j < |rows[a]| ==> rows[a][j] != Null)
  {
    if Finish(g).Write? {
      var k := IndexOf(g.columns, Id).value;
      var sorted := SortFrame(g, k);
      FilledCells(sorted);
      FilledSorted(sorted, k);
      assert Finish(g).data == [Header(g.columns)] + Filled(sorted).rows;
      assert Finish(g).data[1..] == Filled(sorted).rows;
    }
  }

  /** `row` is one of the frame's rows, blanked. */
  predicate BlankedRowOf(row: Row, g: Frame) {
    exists i :: 0 <= i < |g.rows| && row == Filled(g).rows[i]
  }

  /** Each written row is a row of the frame, blanked. */
  lemma FinishRows(g: Frame)
    requires WellFormed(g)
    ensures Finish(g).Write? ==>
      var rows := Finish(g).data[1..];
      forall a :: 0 <= a < |rows| ==> BlankedRowOf(rows[a], g)
  {
    if Finish(g).Write? {
      var k := IndexOf(g.columns, Id).value;
      var sorted := SortFrame(g, k);
      assert Finish(g).data == [Header(g.columns)] + Filled(sorted).rows;
      var rows := Finish(g).data[1..];
      assert rows == Filled(sorted).rows;
      forall a | 0 <= a < |rows| ensures BlankedRowOf(rows[a], g) {
        var i := FilledRowFrom(g, sorted, a);
      }
    }
  }

  /** Blanking keeps the rows in order of id. */
  lemma FilledSorted(f: Frame, k: nat)
    requires SortedById(f.rows, k)
    ensures SortedById(Filled(f).rows, k)
  {
    var filled := Filled(f);
    forall a, b | 0 <= a < b < |filled.rows| ensures IdValue(filled.rows[a], k) <= IdValue(filled.rows[b], k) {
      BlankIdValue(f.rows[a], k);
      BlankIdValue(f.rows[b], k);
    }
  }

  /** A blanked row of a permutation is a blanked row of the original. */
  lemma FilledRowFrom(g: Frame, sorted: Frame, a: nat) returns (i: nat)
    requires multiset(sorted.rows) == multiset(g.rows) && a < |sorted.rows|
    ensures i < |g.rows| && Filled(sorted).rows[a] == Filled(g).rows[i]
  {
    assert sorted.rows[a] in multiset(g.rows);
    i :| 0 <= i < |g.rows| && g.rows[i] == sorted.rows[a];
    assert Filled(sorted).rows[a] == BlankRow(sorted.rows[a]);
  }

  /** Blanking does not change a row's id. */
  lemma BlankIdValue(row: Row, k: nat)
    ensures IdValue(BlankRow(row), k) == IdValue(row, k)
  {
    if k < |row| {
      assert BlankRow(row)[k] == Blank(row[k]);
    }
  }

  /** What a transfer that gets as far as writing hands to the sheet: the
      header lists the table's columns with `createdBy` replaced by `email`,
      the sheet's own columns first and in its order and the others after
      them in the table's order, each once; then one row per application,
      sorted by id, with no missing value. */
  lemma TransferWrites(f: Frame, lookup: Cell -> UserLookup)
    requires WellFormed(f)
    ensures Transform(f, lookup).Write? ==>
      var data := Transform(f, lookup).data;
      var remaining := WithEmails(f, lookup).columns;
      var cols := FinalColumns(DesiredOrder, remaining);
      var rows := data[1..];
      && |data| == |f.rows| + 1
      && data[0] == Header(cols)
      && cols == Present(DesiredOrder, remaining) + Without(remaining, DesiredOrder)
      && Distinct(cols)
      && Without(remaining, DesiredOrder) == Without(f.columns, DesiredOrder + [CreatedBy])
      && (forall c :: c in cols <==> (c in f.columns || c == Email) && c != CreatedBy)
      && Id in cols && SortedById(rows, IndexOf(cols, Id).value)
      && (forall a, j :: 0 <= a < |rows| && 0 <= j < |rows[a]| ==> rows[a][j] != Null)
  {
    if Transform(f, lookup).Write? {
      var g := WithEmails(f, lookup);
      FinishWrites(Ordered(g));
      FinishStops(Ordered(g));
      FinalColumnsShape(DesiredOrder, g.columns);
      SheetColumns(g.columns);
      RestInTableOrder(f, lookup);
    }
  }

  /** The columns after the sheet's own are the table's, in the table's
      order, without `createdBy`. */
  lemma RestInTableOrder(f: Frame, lookup: Cell -> UserLookup)
    requires WellFormed(f) && CreatedBy in f.columns
    ensures Without(WithEmails(f, lookup).columns, DesiredOrder) == Without(f.columns, DesiredOrder + [CreatedBy])
  {
    WithEmailsColumns(f, lookup);
    var a := Without(f.columns, [CreatedBy]);
    var tail := if Email in f.columns then [] else [Email];
    WithoutConcat(a, tail, DesiredOrder);
    assert Email in DesiredOrder;
    assert Without(tail, DesiredOrder) == [];
    WithoutTwice(f.columns, [CreatedBy], DesiredOrder);
  }

  /** Filtering twice is filtering once by both lists. */
  lemma {:induction false} WithoutTwice(cols: seq<string>, first: seq<string>, second: seq<string>)
    ensures Without(Without(cols, first), second) == Without(cols, second + first)
  {
    if cols != [] {
      WithoutTwice(cols[1..], first, second);
    }
  }

  /** The cell of row `i` under `c`, blanked. */
  function BlankAt(f: Frame, i: nat, c: string): Option<Cell>
    requires WellFormed(f) && i < |f.rows|
  {
    match CellAt(f, i, c) {
      case None => None
      case Some(x) => Some(Blank(x))
    }
  }

  /** Every written row is one application of the table: under `email` the
      email of its creator, under every other column its own cell, blanked. */
  lemma WrittenRow(f: Frame, lookup: Cell -> UserLookup, a: nat) returns (i: nat)
    requires WellFormed(f) && Transform(f, lookup).Write? && a + 1 < |Transform(f, lookup).data|
    ensures CreatedBy in f.columns && i < |f.rows|
    ensures var row := Transform(f, lookup).data[a + 1];
      var cols := FinalColumns(DesiredOrder, WithEmails(f, lookup).columns);
      && |row| == |cols|
      && (forall j :: 0 <= j < |cols| && cols[j] == Email ==> row[j] == Text(CreatorEmail(f, lookup, i)))
      && (forall j :: 0 <= j < |cols| && cols[j] != Email ==> Some(row[j]) == BlankAt(f, i, cols[j]))
  {
    var o := Ordered(WithEmails(f, lookup));
    assert Transform(f, lookup) == Finish(o);
    var row;
    i, row := FinishRow(o, a);
    var cols := o.columns;
    OrderedEmailCell(f, lookup, i);
    forall j | 0 <= j < |cols| && cols[j] != Email ensures Some(row[j]) == BlankAt(f, i, cols[j]) {
      assert cols[j] != CreatedBy;
      OrderedOtherCell(f, lookup, i, cols[j]);
    }
  }

  /** A written row is a blanked row of the reordered frame. */
  lemma FinishRow(o: Frame, a: nat) returns (i: nat, row: Row)
    requires WellFormed(o) && Finish(o).Write? && a + 1 < |Finish(o).data|
    ensures i < |o.rows| && row == Finish(o).data[a + 1] && |row| == |o.columns|
    ensures forall j :: 0 <= j < |o.columns| ==> Some(row[j]) == BlankAt(o, i, o.columns[j])
  {
    FinishWrites(o);
    FinishRows(o);
    var rows := Finish(o).data[1..];
    row := rows[a];
    i :| 0 <= i < |o.rows| && row == Filled(o).rows[i];
    assert row == BlankRow(o.rows[i]);
    forall j | 0 <= j < |o.columns| ensures Some(row[j]) == BlankAt(o, i, o.columns[j]) {
      IndexOfDistinct(o.columns, j);
    }
  }

  /** Through the replacement and the reordering each row gains its
      creator's email... */
  lemma OrderedEmailCell(f: Frame, lookup: Cell -> UserLookup, i: nat)
    requires WellFormed(f) && CreatedBy in f.columns && i < |f.rows|
    ensures BlankAt(Ordered(WithEmails(f, lookup)), i, Email) == Some(Text(CreatorEmail(f, lookup, i)))
  {
    WithEmailsEmail(f, lookup, i);
  }

  /** ... and keeps every other cell. */
  lemma OrderedOtherCell(f: Frame, lookup: Cell -> UserLookup, i: nat, c: string)
    requires WellFormed(f) && CreatedBy in f.columns && i < |f.rows|
    requires c != Email && c != CreatedBy
    ensures BlankAt(Ordered(WithEmails(f, lookup)), i, c) == BlankAt(f, i, c)
  {
  }
}
