/** The application form of src/components/application/application-form.tsx:
    the record the applicant fills in, the per-field validation rules, the capped
    "fields of interest" toggle, the whole-form validation pass and the submit
    decision. The insert into the hosted `applications` table is a parameter. */
module ApplicationForm {
  import opened Strings
  import opened Services

  // ---------------------------------------------------------------------------
  // The record (FormDataType)
  // ---------------------------------------------------------------------------

  /** The string-valued fields of the form, in declaration order. */
  datatype TextField =
    | Email | FullName | CityCountry | Phone | IeltsScore | SatScore | SchoolName
    | CurrentGrade | Gpa | ParentName | ParentPhone | ResearchInterest
    | Extracurricular | Motivation | FinancialAid | AdditionalInfo

  datatype FormData = FormData(
    email: string,
    fullName: string,
    cityCountry: string,
    phone: string,
    ieltsScore: string,
    satScore: string,
    schoolName: string,
    currentGrade: string,
    gpa: string,
    parentName: string,
    parentPhone: string,
    fieldsOfInterest: seq<string>,
    researchInterest: string,
    extracurricular: string,
    motivation: string,
    financialAid: string,
    additionalInfo: string)

  /** The defaults the form starts from and is reset to after a successful submit. */
  function EmptyForm(): (d: FormData)
    ensures forall f :: Get(d, f) == []
    ensures d.fieldsOfInterest == []
  {
    FormData("", "", "", "", "", "", "", "", "", "", "", [], "", "", "", "", "")
  }

  /** The property name of a field, as the input elements carry it in `name`. */
  function FieldName(f: TextField): string {
    match f
    case Email => "email"
    case FullName => "fullName"
    case CityCountry => "cityCountry"
    case Phone => "phone"
    case IeltsScore => "ieltsScore"
    case SatScore => "satScore"
    case SchoolName => "schoolName"
    case CurrentGrade => "currentGrade"
    case Gpa => "gpa"
    case ParentName => "parentName"
    case ParentPhone => "parentPhone"
    case ResearchInterest => "researchInterest"
    case Extracurricular => "extracurricular"
    case Motivation => "motivation"
    case FinancialAid => "financialAid"
    case AdditionalInfo => "additionalInfo"
  }

  /** `formData[name]` for a string-valued field. */
  function Get(d: FormData, f: TextField): string {
    match f
    case Email => d.email
    case FullName => d.fullName
    case CityCountry => d.cityCountry
    case Phone => d.phone
    case IeltsScore => d.ieltsScore
    case SatScore => d.satScore
    case SchoolName => d.schoolName
    case CurrentGrade => d.currentGrade
    case Gpa => d.gpa
    case ParentName => d.parentName
    case ParentPhone => d.parentPhone
    case ResearchInterest => d.researchInterest
    case Extracurricular => d.extracurricular
    case Motivation => d.motivation
    case FinancialAid => d.financialAid
    case AdditionalInfo => d.additionalInfo
  }

  /** `{ ...d, [name]: value }`: the named field takes the new value and every
      other field, the interest list included, keeps its old one. */
  function Set(d: FormData, f: TextField, value: string): (r: FormData)
    ensures Get(r, f) == value
    ensures forall g :: g != f ==> Get(r, g) == Get(d, g)
    ensures r.fieldsOfInterest == d.fieldsOfInterest
  {
    match f
    case Email => d.(email := value)
    case FullName => d.(fullName := value)
    case CityCountry => d.(cityCountry := value)
    case Phone => d.(phone := value)
    case IeltsScore => d.(ieltsScore := value)
    case SatScore => d.(satScore := value)
    case SchoolName => d.(schoolName := value)
    case CurrentGrade => d.(currentGrade := value)
    case Gpa => d.(gpa := value)
    case ParentName => d.(parentName := value)
    case ParentPhone => d.(parentPhone := value)
    case ResearchInterest => d.(researchInterest := value)
    case Extracurricular => d.(extracurricular := value)
    case Motivation => d.(motivation := value)
    case FinancialAid => d.(financialAid := value)
    case AdditionalInfo => d.(additionalInfo := value)
  }

  /** A property of the record: one of the sixteen strings or the interest list. */
  datatype Key = TextKey(field: TextField) | InterestsKey

  function KeyName(k: Key): string {
    match k
    case TextKey(f) => FieldName(f)
    case InterestsKey => "fieldsOfInterest"
  }

  /** The order in which `Object.entries(formData)` lists the properties: the
      order of the object literal the state is created from. */
  const KeyOrder: seq<Key> := [
    TextKey(Email), TextKey(FullName), TextKey(CityCountry), TextKey(Phone),
    TextKey(IeltsScore), TextKey(SatScore), TextKey(SchoolName),
    TextKey(CurrentGrade), TextKey(Gpa), TextKey(ParentName), TextKey(ParentPhone),
    InterestsKey, TextKey(ResearchInterest), TextKey(Extracurricular),
    TextKey(Motivation), TextKey(FinancialAid), TextKey(AdditionalInfo)]

  /** Every property of the record is listed once, under a name of its own. */
  lemma KeyOrderIsComplete()
    ensures forall k: Key :: k in KeyOrder
    ensures forall i, j :: 0 <= i < j < |KeyOrder| ==> KeyName(KeyOrder[i]) != KeyName(KeyOrder[j])
  {
    forall k: Key ensures k in KeyOrder {
      match k
      case InterestsKey => assert KeyOrder[11] == k;
      case TextKey(f) =>
        match f
        case Email => assert KeyOrder[0] == k;
        case FullName => assert KeyOrder[1] == k;
        case CityCountry => assert KeyOrder[2] == k;
        case Phone => assert KeyOrder[3] == k;
        case IeltsScore => assert KeyOrder[4] == k;
        case SatScore => assert KeyOrder[5] == k;
        case SchoolName => assert KeyOrder[6] == k;
        case CurrentGrade => assert KeyOrder[7] == k;
        case Gpa => assert KeyOrder[8] == k;
        case ParentName => assert KeyOrder[9] == k;
        case ParentPhone => assert KeyOrder[10] == k;
        case ResearchInterest => assert KeyOrder[12] == k;
        case Extracurricular => assert KeyOrder[13] == k;
        case Motivation => assert KeyOrder[14] == k;
        case FinancialAid => assert KeyOrder[15] == k;
        case AdditionalInfo => assert KeyOrder[16] == k;
    }
  }

  // ---------------------------------------------------------------------------
  // countWords: text.trim().split(/\s+/).filter(Boolean).length
  // ---------------------------------------------------------------------------

  /** `s.split(/\s+/)`: the pieces between maximal runs of white space; a
      leading run gives an empty first piece, a trailing run an empty last one. */
  function SplitOnWhitespaceRuns(s: string): (r: seq<string>)
    ensures |r| >= 1
    ensures r[0] == [] <==> s == [] || IsJsWhitespace(s[0])
    decreases |s|
  {
    if s == [] then [[]]
    else if IsJsWhitespace(s[0]) then
      var rest := TrimStart(s, IsJsWhitespace);
      [[]] + SplitOnWhitespaceRuns(rest)
    else
      var pieces := SplitOnWhitespaceRuns(s[1..]);
      [[s[0]] + pieces[0]] + pieces[1..]
  }

  /** `.filter(Boolean)` on strings: keeps the non-empty ones. */
  function NonEmpty(pieces: seq<string>): (r: seq<string>)
    ensures |r| <= |pieces|
    ensures forall p :: p in r <==> p in pieces && p != []
  {
    if pieces == [] then []
    else (if pieces[0] == [] then [] else [pieces[0]]) + NonEmpty(pieces[1..])
  }

  function CountWords(text: string): nat {
    |NonEmpty(SplitOnWhitespaceRuns(JsTrim(text)))|
  }

  /** Reference count of words: the number of positions where a maximal run of
      non-white-space characters ends. */
  function WordEnds(s: string): nat {
    if s == [] then 0
    else
      (if !IsJsWhitespace(s[0]) && (|s| == 1 || IsJsWhitespace(s[1])) then 1 else 0)
      + WordEnds(s[1..])
  }

  lemma {:induction false} WordEndsAllWhitespace(s: string)
    requires forall k :: 0 <= k < |s| ==> IsJsWhitespace(s[k])
    ensures WordEnds(s) == 0
  {
    if s != [] { WordEndsAllWhitespace(s[1..]); }
  }

  lemma {:induction false} WordEndsDropLeading(s: string)
    ensures WordEnds(TrimStart(s, IsJsWhitespace)) == WordEnds(s)
  {
    if s != [] && IsJsWhitespace(s[0]) { WordEndsDropLeading(s[1..]); }
  }

  lemma {:induction false} WordEndsAppendWhitespace(a: string, b: string)
    requires forall k :: 0 <= k < |b| ==> IsJsWhitespace(b[k])
    ensures WordEnds(a + b) == WordEnds(a)
  {
    if a == [] {
      assert a + b == b;
      WordEndsAllWhitespace(b);
    } else {
      assert (a + b)[1..] == a[1..] + b;
      WordEndsAppendWhitespace(a[1..], b);
    }
  }

  lemma WordEndsTrim(s: string)
    ensures WordEnds(JsTrim(s)) == WordEnds(s)
  {
    TrimBothEnds(s, IsJsWhitespace);
    WordEndsTrimEnds(s);
  }

  lemma WordEndsTrimEnds(s: string)
    ensures WordEnds(TrimEnd(TrimStart(s, IsJsWhitespace), IsJsWhitespace)) == WordEnds(s)
  {
    var t := TrimStart(s, IsJsWhitespace);
    var u := TrimEnd(t, IsJsWhitespace);
    WordEndsDropLeading(s);
    TrimEndTail(t, IsJsWhitespace);
    WordEndsAppendWhitespace(u, t[|u|..]);
  }

  lemma {:induction false} NonEmptySplitCountsRuns(s: string)
    ensures |NonEmpty(SplitOnWhitespaceRuns(s))| == WordEnds(s)
    decreases |s|
  {
    if s == [] {
    } else if IsJsWhitespace(s[0]) {
      var rest := TrimStart(s, IsJsWhitespace);
      NonEmptySplitCountsRuns(rest);
      WordEndsDropLeading(s);
      assert ([[]] + SplitOnWhitespaceRuns(rest))[1..] == SplitOnWhitespaceRuns(rest);
    } else {
      var pieces := SplitOnWhitespaceRuns(s[1..]);
      NonEmptySplitCountsRuns(s[1..]);
      var r := [[s[0]] + pieces[0]] + pieces[1..];
      assert r[1..] == pieces[1..];
      assert NonEmpty(r) == [r[0]] + NonEmpty(pieces[1..]);
    }
  }

  /** countWords counts the maximal runs of non-white-space characters. */
  lemma CountWordsCountsRuns(text: string)
    ensures CountWords(text) == WordEnds(text)
  {
    NonEmptySplitCountsRuns(JsTrim(text));
    WordEndsTrim(text);
  }

  /** countWords is 0 exactly for empty or all-white-space text. */
  lemma CountWordsZero(text: string)
    ensures CountWords(text) == 0 <==> forall k :: 0 <= k < |text| ==> IsJsWhitespace(text[k])
  {
    var t := JsTrim(text);
    var pieces := SplitOnWhitespaceRuns(t);
    TrimEmpty(text, IsJsWhitespace);
    TrimIsStripped(text, IsJsWhitespace);
    if t != [] {
      assert pieces[0] in NonEmpty(pieces);
    }
  }

  // ---------------------------------------------------------------------------
  // validateField
  // ---------------------------------------------------------------------------

  /** The names that must not be left empty. */
  const RequiredFields: seq<string> := ["email", "fullName", "phone", "currentGrade", "gpa"]

  const RequiredMessage := "This field is required."
  const InvalidEmailMessage := "Invalid email format."
  const ResearchInterestMessage := "Max 300 words allowed."
  const MotivationMessage := "Should be 100-150 words."

  /** The regular expression `/\S+@\S+\.\S+/` matches at the `@` in position
      `at` and the `.` in position `dot`: a non-white-space character just
      before the `@`, one or more non-white-space characters between the two,
      and one just after the `.`. */
  predicate EmailMatchAt(s: string, at: int, dot: int) {
    && 0 < at && at + 1 < dot && dot + 1 < |s|
    && s[at] == '@' && s[dot] == '.'
    && !IsJsWhitespace(s[at - 1]) && !IsJsWhitespace(s[dot + 1])
    && (forall k :: at < k < dot ==> !IsJsWhitespace(s[k]))
  }

  /** `/\S+@\S+\.\S+/.test(s)`: the pattern is not anchored, so it holds when
      it matches anywhere in `s`. */
  predicate MatchesEmailPattern(s: string) {
    exists at, dot | 0 < at < dot < |s| :: EmailMatchAt(s, at, dot)
  }

  /** An address standing alone, `local@domain.tld` with three non-empty parts
      free of white space, matches. */
  lemma AddressMatches(local: string, domain: string, tld: string)
    requires local != [] && domain != [] && tld != []
    requires forall k :: 0 <= k < |local| ==> !IsJsWhitespace(local[k])
    requires forall k :: 0 <= k < |domain| ==> !IsJsWhitespace(domain[k])
    requires forall k :: 0 <= k < |tld| ==> !IsJsWhitespace(tld[k])
    ensures MatchesEmailPattern(local + "@" + domain + "." + tld)
  {
    var s := local + "@" + domain + "." + tld;
    var at, dot := |local|, |local| + 1 + |domain|;
    assert s[at] == '@' && s[dot] == '.';
    assert s[at - 1] == local[|local| - 1];
    assert s[dot + 1] == tld[0];
    forall k | at < k < dot ensures !IsJsWhitespace(s[k]) {
      assert s[k] == domain[k - at - 1];
    }
    assert EmailMatchAt(s, at, dot);
  }

  /** A match needs an `@` with a `.` somewhere after it. */
  lemma MatchNeedsAtThenDot(s: string)
    requires MatchesEmailPattern(s)
    ensures exists i, j :: 0 <= i < j < |s| && s[i] == '@' && s[j] == '.'
  {
    var at, dot :| 0 < at < dot < |s| && EmailMatchAt(s, at, dot);
    assert s[at] == '@' && s[dot] == '.';
  }

  /** Two sample inputs: `a@b.com` passes, `not-an-email` fails. */
  lemma EmailExamples()
    ensures MatchesEmailPattern("a@b.com")
    ensures !MatchesEmailPattern("not-an-email")
  {
    AddressMatches("a", "b", "com");
    assert "a" + "@" + "b" + "." + "com" == "a@b.com";
    var s := "not-an-email";
    assert forall k :: 0 <= k < |s| ==> s[k] != '@';
  }

  /** `validateField`: the rules run in order and a later rule that fires
      overwrites the message of an earlier one. */
  function ValidateField(name: string, value: string): (error: string)
    ensures name in RequiredFields && value == [] ==> error == RequiredMessage
    ensures name == "email" && value != [] ==>
      (error == [] <==> MatchesEmailPattern(value))
      && (error != [] ==> error == InvalidEmailMessage)
    ensures name == "motivation" ==>
      (error == [] <==> 100 <= CountWords(value) <= 150)
      && (error != [] ==> error == MotivationMessage)
    ensures name == "researchInterest" ==>
      (error == [] <==> CountWords(value) <= 300)
      && (error != [] ==> error == ResearchInterestMessage)
    ensures name !in RequiredFields && name != "researchInterest" && name != "motivation"
      ==> error == []
    ensures name in RequiredFields && name != "email" ==>
      (error == [] <==> value != [])
  {
    var afterRequired := if name in RequiredFields && value == [] then RequiredMessage else [];
    var afterEmail :=
      if name == "email" && value != [] && !MatchesEmailPattern(value) then InvalidEmailMessage
      else afterRequired;
    var afterResearch :=
      if name == "researchInterest" && CountWords(value) > 300 then ResearchInterestMessage
      else afterEmail;
    var words := CountWords(value);
    if name == "motivation" && (words < 100 || words > 150) then MotivationMessage
    else afterResearch
  }

  /** Empty motivation is an error, since it has no words. */
  lemma EmptyMotivationIsError()
    ensures ValidateField("motivation", "") == MotivationMessage
  {
    CountWordsZero("");
  }

  // ---------------------------------------------------------------------------
  // handleMultiSelectChange: the capped toggle
  // ---------------------------------------------------------------------------

  /** The most interests the toggle keeps (`.slice(0, 3)`). */
  const MaxInterests := 3

  /** `list.filter((item) => item !== value)`. */
  function Without(list: seq<string>, value: string): (r: seq<string>)
    ensures |r| <= |list|
    ensures value !in r
    ensures forall x :: x in r <==> x in list && x != value
    ensures forall x :: x != value ==> multiset(r)[x] == multiset(list)[x]
  {
    if list == [] then []
    else
      assert list == [list[0]] + list[1..];
      (if list[0] == value then [] else [list[0]]) + Without(list[1..], value)
  }

  /** Filtering out a value the list does not hold leaves the list as it is. */
  lemma {:induction false} WithoutAbsent(list: seq<string>, value: string)
    requires value !in list
    ensures Without(list, value) == list
  {
    if list != [] {
      assert list == [list[0]] + list[1..];
      WithoutAbsent(list[1..], value);
    }
  }

  /** The filter works element by element, so it keeps the order of what
      remains: filtering a concatenation filters each part. */
  lemma {:induction false} WithoutConcat(a: seq<string>, b: seq<string>, value: string)
    ensures Without(a + b, value) == Without(a, value) + Without(b, value)
  {
    if a == [] {
      assert a + b == b;
    } else {
      var head := if a[0] == value then [] else [a[0]];
      assert (a + b)[0] == a[0] && (a + b)[1..] == a[1..] + b;
      assert Without(a + b, value) == head + Without(a[1..] + b, value);
      assert Without(a, value) == head + Without(a[1..], value);
      WithoutConcat(a[1..], b, value);
    }
  }

  /** A present value is removed; an absent one is appended and the list cut
      to its first three entries. */
  function ToggleInterest(list: seq<string>, value: string): (r: seq<string>)
    ensures value in r <==> value !in list && |list| < MaxInterests
    ensures value in list ==> r == Without(list, value)
    ensures value in list ==> forall x :: x in r <==> x in list && x != value
    ensures value !in list && |list| < MaxInterests ==> r == list + [value]
    ensures value !in list && |list| >= MaxInterests ==> r == list[..MaxInterests]
    ensures |list| <= MaxInterests ==> |r| <= MaxInterests
  {
    if value in list then Without(list, value)
    else
      var appended := list + [value];
      assert |list| >= MaxInterests ==>
        appended[..MaxInterests] == list[..MaxInterests] && value !in list[..MaxInterests] by {
        if |list| >= MaxInterests {
          assert forall x :: x in list[..MaxInterests] ==> x in list;
        }
      }
      assert |list| < MaxInterests ==> appended[..|appended|][|list|] == value;
      appended[..if |appended| < MaxInterests then |appended| else MaxInterests]
  }

  /** Toggling a full list with a new value leaves it unchanged. */
  lemma ToggleFullListUnchanged(list: seq<string>, value: string)
    requires |list| == MaxInterests && value !in list
    ensures ToggleInterest(list, value) == list
  {
  }

  /** Toggling the same value twice on a list with room gives the list back
      when the value was absent and occurs once after the first toggle. */
  lemma {:induction false} ToggleTwice(list: seq<string>, value: string)
    requires value !in list && |list| < MaxInterests
    ensures ToggleInterest(ToggleInterest(list, value), value) == list
  {
    WithoutAppended(list, value);
  }

  lemma {:induction false} WithoutAppended(list: seq<string>, value: string)
    requires value !in list
    ensures Without(list + [value], value) == list
  {
    if list == [] {
    } else {
      assert (list + [value])[1..] == list[1..] + [value];
      WithoutAppended(list[1..], value);
    }
  }

  // ---------------------------------------------------------------------------
  // validateAll
  // ---------------------------------------------------------------------------

  /** `validateField(key, val)` for one entry of the record. The interest list
      has no rule under its name, so its entry is always valid. */
  function ValidateEntry(d: FormData, k: Key): string {
    match k
    case TextKey(f) => ValidateField(FieldName(f), Get(d, f))
    case InterestsKey => ""
  }

  /** Some property of the record fails its rule. */
  ghost predicate HasErrors(d: FormData) {
    exists k :: ValidateEntry(d, k) != []
  }

  /** Only the string fields have rules, so an error is a string field failing. */
  lemma HasErrorsInField(d: FormData)
    ensures HasErrors(d) <==> exists f :: ValidateField(FieldName(f), Get(d, f)) != []
  {
    if HasErrors(d) {
      var k :| ValidateEntry(d, k) != [];
      assert ValidateField(FieldName(k.field), Get(d, k.field)) != [];
    }
    if exists f :: ValidateField(FieldName(f), Get(d, f)) != [] {
      var f :| ValidateField(FieldName(f), Get(d, f)) != [];
      assert ValidateEntry(d, TextKey(f)) != [];
    }
  }

  /** The error entries for the properties in `keys`. */
  function ErrorsFor(d: FormData, keys: seq<Key>): map<Key, string>
  {
    map k | k in keys :: ValidateEntry(d, k)
  }

  /** One more key adds or refreshes its own entry. */
  lemma ErrorsForSnoc(d: FormData, keys: seq<Key>, k: Key)
    ensures ErrorsFor(d, keys + [k]) == ErrorsFor(d, keys)[k := ValidateEntry(d, k)]
  {
  }

  /** The error record `validateAll` builds: one entry per property of the form. */
  function ErrorMap(d: FormData): map<Key, string> {
    ErrorsFor(d, KeyOrder)
  }

  /** The error record holds exactly the properties of the form, each with the
      message of its own rule. */
  lemma ErrorMapEntries(d: FormData)
    ensures forall k :: k in ErrorMap(d) && ErrorMap(d)[k] == ValidateEntry(d, k)
  {
    KeyOrderIsComplete();
  }

  /** `Object.values(errors).some(Boolean)` on the record `validateAll` builds
      holds exactly when some string field fails its rule. */
  lemma ErrorMapReportsErrors(d: FormData)
    ensures (exists k | k in ErrorMap(d) :: ErrorMap(d)[k] != []) <==> HasErrors(d)
  {
    ErrorMapEntries(d);
    var errs := ErrorMap(d);
    if HasErrors(d) {
      var k :| ValidateEntry(d, k) != [];
      assert errs[k] != [];
    }
  }

  /** The `forEach` loop of `validateAll` followed by `.some(Boolean)`: one
      error entry per property of the record, and whether any is non-empty. */
  method ComputeErrors(d: FormData) returns (newErrors: map<Key, string>, anyError: bool)
    ensures newErrors == ErrorMap(d)
    ensures anyError <==> HasErrors(d)
  {
    newErrors := map[];
    var i := 0;
    while i < |KeyOrder|
      invariant 0 <= i <= |KeyOrder|
      invariant newErrors == ErrorsFor(d, KeyOrder[..i])
    {
      var k := KeyOrder[i];
      assert KeyOrder[..i + 1] == KeyOrder[..i] + [k];
      ErrorsForSnoc(d, KeyOrder[..i], k);
      newErrors := newErrors[k := ValidateEntry(d, k)];
      i := i + 1;
    }
    assert KeyOrder[..i] == KeyOrder;
    anyError := exists k | k in newErrors :: newErrors[k] != [];
    ErrorMapReportsErrors(d);
  }

  /** A form with an empty required field has an error, so it is not submitted. */
  lemma EmptyRequiredFieldFails(d: FormData, f: TextField)
    requires FieldName(f) in RequiredFields && Get(d, f) == []
    ensures HasErrors(d)
  {
    assert ValidateEntry(d, TextKey(f)) == RequiredMessage;
  }

  // ---------------------------------------------------------------------------
  // The component state and its handlers
  // ---------------------------------------------------------------------------

  const CorrectErrorsMessage := "Please correct the errors before submitting."

  class ApplicationFormState {
    var formData: FormData
    var errors: map<Key, string>
    var financialAidDialogOpen: bool
    var submissionErrorDialogOpen: bool
    var submissionSuccessDialogOpen: bool
    var submissionErrorMessage: string

    /** The interest list never holds more than three entries. */
    ghost predicate Valid()
      reads this
    {
      |formData.fieldsOfInterest| <= MaxInterests
    }

    constructor ()
      ensures Valid()
      ensures formData == EmptyForm() && errors == map[]
      ensures !financialAidDialogOpen && !submissionErrorDialogOpen && !submissionSuccessDialogOpen
      ensures submissionErrorMessage == ""
    {
      formData := EmptyForm();
      errors := map[];
      financialAidDialogOpen := false;
      submissionErrorDialogOpen := false;
      submissionSuccessDialogOpen := false;
      submissionErrorMessage := "";
    }

    /** `handleChange`: the edited field takes the value and its error entry is
        recomputed; nothing else changes. */
    method HandleChange(f: TextField, value: string)
      requires Valid()
      modifies this
      ensures Valid()
      ensures formData == Set(old(formData), f, value)
      ensures errors == old(errors)[TextKey(f) := ValidateField(FieldName(f), value)]
      ensures financialAidDialogOpen == old(financialAidDialogOpen)
      ensures submissionErrorDialogOpen == old(submissionErrorDialogOpen)
      ensures submissionSuccessDialogOpen == old(submissionSuccessDialogOpen)
      ensures submissionErrorMessage == old(submissionErrorMessage)
    {
      var name := FieldName(f);
      formData := Set(formData, f, value);
      errors := errors[TextKey(f) := ValidateField(name, value)];
    }

    /** `handleMultiSelectChange("fieldsOfInterest", value)`. */
    method HandleMultiSelectChange(value: string)
      requires Valid()
      modifies this`formData
      ensures Valid()
      ensures formData == old(formData).(fieldsOfInterest := ToggleInterest(old(formData).fieldsOfInterest, value))
    {
      var updated := ToggleInterest(formData.fieldsOfInterest, value);
      formData := formData.(fieldsOfInterest := updated);
    }

    /** `handleSelectChange`: choosing "yes" for financial aid opens its dialog.
        The errors are not touched. */
    method HandleSelectChange(f: TextField, value: string)
      requires Valid()
      modifies this`formData, this`financialAidDialogOpen
      ensures Valid()
      ensures formData == Set(old(formData), f, value)
      ensures financialAidDialogOpen ==
        (old(financialAidDialogOpen) || (f == FinancialAid && value == "yes"))
    {
      formData := Set(formData, f, value);
      if f == FinancialAid && value == "yes" {
        financialAidDialogOpen := true;
      }
    }

    /** `validateAll`: replaces the errors by a fresh entry for every property. */
    method ValidateAll() returns (hasErrors: bool)
      requires Valid()
      modifies this`errors
      ensures Valid()
      ensures errors == ErrorMap(formData)
      ensures hasErrors <==> HasErrors(formData)
    {
      var newErrors, any := ComputeErrors(formData);
      errors := newErrors;
      hasErrors := any;
    }

    /** `handleSubmit`. `insert` is what the awaited insert of the record did;
        `sent` is the record handed to it, or None when the insert was not
        attempted. */
    method HandleSubmit(insert: Outcome) returns (sent: Option<FormData>)
      requires Valid()
      modifies this
      ensures Valid()
      ensures errors == ErrorMap(old(formData))
      ensures financialAidDialogOpen == old(financialAidDialogOpen)
      ensures sent == None <==> HasErrors(old(formData))
      ensures sent != None ==> sent == Some(old(formData))
      ensures sent == None ==>
        && formData == old(formData)
        && submissionErrorMessage == CorrectErrorsMessage
        && submissionErrorDialogOpen
        && submissionSuccessDialogOpen == old(submissionSuccessDialogOpen)
      ensures sent != None && insert.Err? ==>
        && formData == old(formData)
        && submissionErrorMessage == insert.error.message
        && submissionErrorDialogOpen
        && submissionSuccessDialogOpen == old(submissionSuccessDialogOpen)
      ensures sent != None && insert.Ok? ==>
        && formData == EmptyForm()
        && submissionSuccessDialogOpen
        && submissionErrorMessage == old(submissionErrorMessage)
        && submissionErrorDialogOpen == old(submissionErrorDialogOpen)
      ensures sent != None && insert.Threw? ==>
        && formData == old(formData)
        && submissionErrorMessage == old(submissionErrorMessage)
        && submissionErrorDialogOpen == old(submissionErrorDialogOpen)
        && submissionSuccessDialogOpen == old(submissionSuccessDialogOpen)
    {
      var hasErrors := ValidateAll();
      assert formData == old(formData) && submissionSuccessDialogOpen == old(submissionSuccessDialogOpen);
      if hasErrors {
        submissionErrorMessage := CorrectErrorsMessage;
        submissionErrorDialogOpen := true;
        return None;
      }
      sent := Some(formData);
      match insert {
        case Err(error) =>
          submissionErrorMessage := error.message;
          submissionErrorDialogOpen := true;
        case Ok =>
          submissionSuccessDialogOpen := true;
          formData := EmptyForm();
        case Threw =>
      }
    }
  }
}
