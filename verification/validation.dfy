/**
 * The validation gate of the add-inventory page (pages/add_inventory.tsx):
 * required fields in a fixed order, then the year range, the e-mail shape,
 * the scans link shape and positive page numbers. The first failing rule
 * supplies the one message returned; `None` means the draft passes.
 */
module Validation {
  import opened Wrappers
  import opened JsText
  import opened JsValue
  import opened Form

  const MarkType := "mark_type"
  const Email := "email"
  const InventoryYear := "inventory_year"
  const ScansUrl := "scans_url"
  const PagesCount := "pages_count"
  const StartPage := "inventory_start_page"

  /** The fields every draft must fill, in the order they are checked. */
  const AlwaysRequired: seq<string> :=
    [Region, District, Community, SettlementType, SettlementName, Latitude, Longitude, MarkType, Email]

  const ArchiveParts: seq<string> := [Archive, Fonds, Series, RecordNo]

  /** The four signature parts for a Ukrainian holding, the free-form signature otherwise. */
  function RequiredFields(d: Record): seq<string> {
    AlwaysRequired + if Get(d, IsUkrainianArchive) == Str(Yes) then ArchiveParts else [CaseSignature]
  }

  /** The label a message names a field by; fields without a label are named by their key. */
  function Label(field: string): string {
    if field == Region then "Область"
    else if field == District then "Район"
    else if field == Community then "ОТГ"
    else if field == SettlementType then "Тип населеного пункту"
    else if field == SettlementName then "Назва населеного пункту"
    else if field == Latitude then "Широта"
    else if field == Longitude then "Довгота"
    else if field == MarkType then "Тип позначки"
    else if field == Email then "Email"
    else if field == CaseSignature then "Шифр справи"
    else field
  }

  function RequiredMessage(field: string): string {
    "Поле \"" + Label(field) + "\" обов’язкове."
  }

  const YearMessage := "Поле \"inventory_year\" має бути числом від 1500 до 2000"
  const EmailMessage := "Поле \"email\" має містити дійсну електронну адресу."
  const UrlMessage := "Поле \"Посилання на скани\" має містити одне коректне посилання або бути порожнім."
  const PagesMessage := "Поле \"Кількість сторінок справи\" має бути числом більшим за 0."
  const StartPageMessage := "Поле \"Сторінка початку інвентаря\" має бути числом більшим за 0."

  /** The position of the first field left empty (falsy), if any. */
  function FirstMissing(fields: seq<string>, d: Record): (r: Option<nat>)
    ensures r.None? <==> forall i :: 0 <= i < |fields| ==> Truthy(Get(d, fields[i]))
    ensures r.Some? ==>
      && r.value < |fields| && !Truthy(Get(d, fields[r.value]))
      && forall j :: 0 <= j < r.value ==> Truthy(Get(d, fields[j]))
  {
    if |fields| == 0 then None
    else if !Truthy(Get(d, fields[0])) then Some(0)
    else match FirstMissing(fields[1..], d)
      case None => None
      case Some(k) => Some(k + 1)
  }

  /** An empty year passes; any other must read, by `parseInt`, as an integer from 1500 to 2000. */
  predicate YearOk(d: Record) {
    var v := Get(d, InventoryYear);
    !Truthy(v) || (var y := ParseIntJS(ToStr(v)); y.Some? && 1500 <= y.value <= 2000)
  }

  /** Neither white space nor `@`: the class `[^\s@]`. */
  predicate PlainChars(s: string) {
    forall i :: 0 <= i < |s| ==> !IsSpace(s[i]) && s[i] != '@'
  }

  /** The e-mail pattern `^[^\s@]+@[^\s@]+\.[^\s@]+$`, with `@` at `i` and the dot at `j`. */
  predicate EmailPattern(s: string) {
    exists i, j | 0 < i < j - 1 && j < |s| - 1 ::
      s[i] == '@' && s[j] == '.' && PlainChars(s[..i]) && PlainChars(s[i + 1..j]) && PlainChars(s[j + 1..])
  }

  /** A dot with at least one character on each side. */
  predicate InnerDot(s: string) {
    exists k | 0 < k < |s| - 1 :: s[k] == '.'
  }

  /**
   * The shape the pattern accepts, stated plainly: no white space, exactly
   * one `@` with something before it, and a dot inside what follows it.
   */
  predicate WellFormedEmail(s: string) {
    NoSpace(s) && exists i | 0 < i < |s| :: s[i] == '@' && PlainChars(s[..i]) && PlainChars(s[i + 1..]) && InnerDot(s[i + 1..])
  }

  /** Two plain parts around a dot make a plain text with an inner dot. */
  lemma DottedPlain(a: string, b: string)
    requires |a| > 0 && |b| > 0 && PlainChars(a) && PlainChars(b)
    ensures PlainChars(a + ['.'] + b) && InnerDot(a + ['.'] + b)
  {
    var dom := a + ['.'] + b;
    forall m | 0 <= m < |dom| ensures !IsSpace(dom[m]) && dom[m] != '@' {
      if m < |a| { assert dom[m] == a[m]; }
      else if m > |a| { assert dom[m] == b[m - |a| - 1]; }
    }
    assert dom[|a|] == '.';
  }

  /** Plain text on both sides of an `@` has no white space anywhere. */
  lemma PlainAroundAt(s: string, i: int)
    requires 0 <= i < |s| && s[i] == '@' && PlainChars(s[..i]) && PlainChars(s[i + 1..])
    ensures NoSpace(s)
  {
    forall m | 0 <= m < |s| ensures !IsSpace(s[m]) {
      if m < i { assert s[m] == s[..i][m]; }
      else if m > i { assert s[m] == s[i + 1..][m - i - 1]; }
    }
  }

  /** A text from `lo` is its part before `j`, the character at `j` and the rest. */
  lemma Rejoin(s: string, lo: int, j: int)
    requires 0 <= lo <= j < |s|
    ensures s[lo..] == s[lo..j] + [s[j]] + s[j + 1..]
  {
  }

  lemma PatternIsWellFormed(s: string)
    requires EmailPattern(s)
    ensures WellFormedEmail(s)
  {
    var i, j :| 0 < i < j - 1 && j < |s| - 1 &&
      s[i] == '@' && s[j] == '.' && PlainChars(s[..i]) && PlainChars(s[i + 1..j]) && PlainChars(s[j + 1..]);
    var a, b := s[i + 1..j], s[j + 1..];
    Rejoin(s, i + 1, j);
    DottedPlain(a, b);
    PlainAroundAt(s, i);
    assert s[i] == '@' && PlainChars(s[..i]) && PlainChars(s[i + 1..]) && InnerDot(s[i + 1..]);
  }

  /** Cutting a plain text at one of its positions leaves two plain texts. */
  lemma PlainAroundCut(t: string, k: int)
    requires 0 <= k < |t| && PlainChars(t)
    ensures PlainChars(t[..k]) && PlainChars(t[k + 1..])
  {
    var u := t[k + 1..];
    forall m | 0 <= m < |u| ensures !IsSpace(u[m]) && u[m] != '@' {
      assert u[m] == t[k + 1 + m];
    }
  }

  lemma WellFormedIsPattern(s: string)
    requires WellFormedEmail(s)
    ensures EmailPattern(s)
  {
    var i :| 0 < i < |s| && s[i] == '@' && PlainChars(s[..i]) && PlainChars(s[i + 1..]) && InnerDot(s[i + 1..]);
    var dom := s[i + 1..];
    var k :| 0 < k < |dom| - 1 && dom[k] == '.';
    var j := i + 1 + k;
    PlainAroundCut(dom, k);
    assert s[i + 1..j] == dom[..k] && s[j + 1..] == dom[k + 1..];
    assert s[j] == '.';
  }

  /** The e-mail pattern accepts exactly the well-formed addresses. */
  lemma EmailPatternIffWellFormed(s: string)
    ensures EmailPattern(s) <==> WellFormedEmail(s)
  {
    if EmailPattern(s) { PatternIsWellFormed(s); }
    if WellFormedEmail(s) { WellFormedIsPattern(s); }
  }

  /** The link pattern `^https?:\/\/[^\s]+$`. */
  predicate UrlPattern(s: string) {
    || ("http://" <= s && |s| > 7 && NoSpace(s[7..]))
    || ("https://" <= s && |s| > 8 && NoSpace(s[8..]))
  }

  /** `parseInt` reads a number greater than zero. */
  predicate PositiveCount(v: Value) {
    var n := ParseIntJS(ToStr(v));
    n.Some? && n.value > 0
  }

  /** Every rule holds. */
  predicate Valid(d: Record) {
    && (forall f :: f in RequiredFields(d) ==> Truthy(Get(d, f)))
    && YearOk(d)
    && EmailPattern(ToStr(Get(d, Email)))
    && (Truthy(Get(d, ScansUrl)) ==> UrlPattern(ToStr(Get(d, ScansUrl))))
    && (Truthy(Get(d, PagesCount)) ==> PositiveCount(Get(d, PagesCount)))
    && (Truthy(Get(d, StartPage)) ==> PositiveCount(Get(d, StartPage)))
  }

  /** The gate: `None` when every rule holds, otherwise the message of the first rule that fails. */
  function Validate(d: Record): (r: Option<string>)
    ensures r.None? <==> Valid(d)
    ensures FirstMissing(RequiredFields(d), d).Some? ==>
      r == Some(RequiredMessage(RequiredFields(d)[FirstMissing(RequiredFields(d), d).value]))
  {
    var fields := RequiredFields(d);
    match FirstMissing(fields, d)
    case Some(i) => Some(RequiredMessage(fields[i]))
    case None =>
      assert forall f :: f in fields ==> Truthy(Get(d, f));
      if !YearOk(d) then Some(YearMessage)
      else if !EmailPattern(ToStr(Get(d, Email))) then Some(EmailMessage)
      else if Truthy(Get(d, ScansUrl)) && !UrlPattern(ToStr(Get(d, ScansUrl))) then Some(UrlMessage)
      else if Truthy(Get(d, PagesCount)) && !PositiveCount(Get(d, PagesCount)) then Some(PagesMessage)
      else if Truthy(Get(d, StartPage)) && !PositiveCount(Get(d, StartPage)) then Some(StartPageMessage)
      else None
  }

  /** One rule of the gate. */
  datatype Rule = Required(field: string) | YearRange | EmailShape | UrlShape | PagesPositive | StartPagePositive

  function Rules(d: Record): seq<Rule> {
    seq(|RequiredFields(d)|, i requires 0 <= i < |RequiredFields(d)| => Required(RequiredFields(d)[i]))
      + [YearRange, EmailShape, UrlShape, PagesPositive, StartPagePositive]
  }

  predicate Passes(rule: Rule, d: Record) {
    match rule
    case Required(f) => Truthy(Get(d, f))
    case YearRange => YearOk(d)
    case EmailShape => EmailPattern(ToStr(Get(d, Email)))
    case UrlShape => Truthy(Get(d, ScansUrl)) ==> UrlPattern(ToStr(Get(d, ScansUrl)))
    case PagesPositive => Truthy(Get(d, PagesCount)) ==> PositiveCount(Get(d, PagesCount))
    case StartPagePositive => Truthy(Get(d, StartPage)) ==> PositiveCount(Get(d, StartPage))
  }

  function Message(rule: Rule): string {
    match rule
    case Required(f) => RequiredMessage(f)
    case YearRange => YearMessage
    case EmailShape => EmailMessage
    case UrlShape => UrlMessage
    case PagesPositive => PagesMessage
    case StartPagePositive => StartPageMessage
  }

  /** Reference semantics of a fail-fast gate: the message of the first rule that does not pass. */
  function FirstFailing(rules: seq<Rule>, d: Record): Option<string> {
    if |rules| == 0 then None
    else if !Passes(rules[0], d) then Some(Message(rules[0]))
    else FirstFailing(rules[1..], d)
  }

  lemma {:induction false} FirstFailingAppend(a: seq<Rule>, b: seq<Rule>, d: Record)
    ensures FirstFailing(a + b, d) == if FirstFailing(a, d).Some? then FirstFailing(a, d) else FirstFailing(b, d)
  {
    if |a| > 0 {
      assert (a + b)[1..] == a[1..] + b;
      FirstFailingAppend(a[1..], b, d);
    } else {
      assert a + b == b;
    }
  }

  lemma {:induction false} FirstFailingRequired(fields: seq<string>, d: Record)
    ensures
      var rules := seq(|fields|, i requires 0 <= i < |fields| => Required(fields[i]));
      FirstFailing(rules, d) == match FirstMissing(fields, d)
        case Some(i) => Some(RequiredMessage(fields[i]))
        case None => None
  {
    var rules := seq(|fields|, i requires 0 <= i < |fields| => Required(fields[i]));
    if |fields| > 0 {
      var tail := seq(|fields| - 1, i requires 0 <= i < |fields| - 1 => Required(fields[1..][i]));
      assert rules[1..] == tail;
      FirstFailingRequired(fields[1..], d);
    }
  }

  /** The gate is exactly the fail-fast reading of its rule list. */
  lemma ValidateIsFirstFailingRule(d: Record)
    ensures Validate(d) == FirstFailing(Rules(d), d)
  {
    var fields := RequiredFields(d);
    var req := seq(|fields|, i requires 0 <= i < |fields| => Required(fields[i]));
    var rest := [YearRange, EmailShape, UrlShape, PagesPositive, StartPagePositive];
    assert Rules(d) == req + rest;
    FirstFailingAppend(req, rest, d);
    FirstFailingRequired(fields, d);
    if FirstMissing(fields, d).None? {
      assert FirstFailing(Rules(d), d) == FirstFailing(rest, d);
      RestRules(d);
    }
  }

  lemma RestRules(d: Record)
    ensures FirstFailing([YearRange, EmailShape, UrlShape, PagesPositive, StartPagePositive], d) ==
      if !YearOk(d) then Some(YearMessage)
      else if !EmailPattern(ToStr(Get(d, Email))) then Some(EmailMessage)
      else if Truthy(Get(d, ScansUrl)) && !UrlPattern(ToStr(Get(d, ScansUrl))) then Some(UrlMessage)
      else if Truthy(Get(d, PagesCount)) && !PositiveCount(Get(d, PagesCount)) then Some(PagesMessage)
      else if Truthy(Get(d, StartPage)) && !PositiveCount(Get(d, StartPage)) then Some(StartPageMessage)
      else None
  {
    var r5: seq<Rule> := [StartPagePositive];
    var r4 := [PagesPositive] + r5;
    var r3 := [UrlShape] + r4;
    var r2 := [EmailShape] + r3;
    var r1 := [YearRange] + r2;
    assert r1 == [YearRange, EmailShape, UrlShape, PagesPositive, StartPagePositive];
    assert r5[1..] == [];
    assert FirstFailing(r5, d) == if Passes(StartPagePositive, d) then None else Some(StartPageMessage);
    assert r4[1..] == r5;
    assert FirstFailing(r4, d) == if Passes(PagesPositive, d) then FirstFailing(r5, d) else Some(PagesMessage);
    assert r3[1..] == r4;
    assert FirstFailing(r3, d) == if Passes(UrlShape, d) then FirstFailing(r4, d) else Some(UrlMessage);
    assert r2[1..] == r3;
    assert FirstFailing(r2, d) == if Passes(EmailShape, d) then FirstFailing(r3, d) else Some(EmailMessage);
    assert r1[1..] == r2;
    assert FirstFailing(r1, d) == if Passes(YearRange, d) then FirstFailing(r2, d) else Some(YearMessage);
  }

  /**
   * Required fields are reported in their fixed order: the first empty one
   * among the always-required fields is the one named, whatever else is
   * missing. An empty region therefore masks an empty e-mail.
   */
  lemma RequiredInOrder(d: Record, k: nat)
    requires k < |AlwaysRequired| && !Truthy(Get(d, AlwaysRequired[k]))
    requires forall j :: 0 <= j < k ==> Truthy(Get(d, AlwaysRequired[j]))
    ensures Validate(d) == Some(RequiredMessage(AlwaysRequired[k]))
  {
    var fields := RequiredFields(d);
    assert forall j :: 0 <= j < |AlwaysRequired| ==> fields[j] == AlwaysRequired[j];
    assert !Truthy(Get(d, fields[k]));
    var m := FirstMissing(fields, d);
    assert m.Some?;
    assert m.value == k;
  }

  lemma EmptyRegionMasksEmail(d: Record)
    requires !Truthy(Get(d, Region))
    ensures Validate(d) == Some("Поле \"Область\" обов’язкове.")
  {
    assert AlwaysRequired[0] == Region;
    RequiredInOrder(d, 0);
    RegionMessage();
  }

  lemma RegionMessage()
    ensures RequiredMessage(Region) == "Поле \"Область\" обов’язкове."
  {
    assert Label(Region) == "Область";
  }

  /**
   * Once every required field is filled, the year is what is checked next:
   * the gate reports it exactly when a year is given and does not read as
   * an integer from 1500 to 2000.
   */
  lemma YearCheckedAfterRequired(d: Record)
    requires forall f :: f in RequiredFields(d) ==> Truthy(Get(d, f))
    ensures Validate(d) == Some(YearMessage) <==>
      Truthy(Get(d, InventoryYear))
      && (ParseIntJS(ToStr(Get(d, InventoryYear))).None?
          || ParseIntJS(ToStr(Get(d, InventoryYear))).value < 1500
          || ParseIntJS(ToStr(Get(d, InventoryYear))).value > 2000)
  {
    assert FirstMissing(RequiredFields(d), d).None?;
  }

  /**
   * With the required fields filled and the year in range, the e-mail
   * check comes next and fails exactly when the address is not well formed.
   */
  lemma EmailCheckedAfterYear(d: Record)
    requires forall f :: f in RequiredFields(d) ==> Truthy(Get(d, f))
    requires YearOk(d)
    ensures Validate(d) == Some(EmailMessage) <==> !WellFormedEmail(ToStr(Get(d, Email)))
  {
    assert FirstMissing(RequiredFields(d), d).None?;
    EmailPatternIffWellFormed(ToStr(Get(d, Email)));
  }
}
