/** Validation of a submitted employee form: three independent field rules
    run in a fixed order (code, name, password), each contributing at most
    one error, with every rule run whatever the earlier ones found. */
module EmployeeValidator {
  import opened Wrappers
  import opened Views

  /** The four rule failures; each stands for one message constant. */
  datatype ValidationError = NoCode | CodeExists | NoName | NoPassword

  /** The field an error belongs to, numbered in the order the rules run. */
  function FieldOf(e: ValidationError): nat {
    match e
    case NoCode | CodeExists => 0
    case NoName => 1
    case NoPassword => 2
  }

  /** The storage collaborator: how many employees are already registered
      under a code. A database count, so never negative. */
  type Counter = string -> nat

  /** The outcome of the code rule: its error, if any, and every code it
      asked the storage collaborator about, in order. */
  datatype CodeCheck = CodeCheck(error: Option<ValidationError>, queries: seq<string>)

  /** The outcome of a whole validation: the error list the caller sees,
      and the storage lookups made while producing it. */
  datatype Report = Report(errors: seq<ValidationError>, queries: seq<string>)

  /** The duplicate lookup: one call to the collaborator, recorded. Its
      result is the number of employees already holding the code. */
  function IsDuplicateEmployee(countByCode: Counter, code: string): (r: (nat, seq<string>))
    ensures r.0 == countByCode(code)
    ensures r.1 == [code]
  {
    (countByCode(code), [code])
  }

  /** The code rule. A missing code fails at once, before any lookup; a
      present code is looked up only when the duplicate check is requested. */
  function ValidateCode(countByCode: Counter, code: Option<string>, codeDuplicateCheckFlag: bool): (r: CodeCheck)
    ensures Blank(code) ==> r.error == Some(NoCode) && r.queries == []
    ensures !Blank(code) && !codeDuplicateCheckFlag ==> r.error == None && r.queries == []
    ensures !Blank(code) && codeDuplicateCheckFlag ==>
              && r.queries == [code.value]
              && (r.error == Some(CodeExists) <==> countByCode(code.value) > 0)
              && (r.error == None <==> countByCode(code.value) == 0)
  {
    if Blank(code) then
      CodeCheck(Some(NoCode), [])
    else if codeDuplicateCheckFlag then
      var (employeesCount, queries) := IsDuplicateEmployee(countByCode, code.value);
      if employeesCount > 0 then CodeCheck(Some(CodeExists), queries) else CodeCheck(None, queries)
    else
      CodeCheck(None, [])
  }

  /** The name rule: a missing name is the only failure. */
  function ValidateName(name: Option<string>): (r: Option<ValidationError>)
    ensures r == Some(NoName) <==> Blank(name)
    ensures r == None <==> !Blank(name)
  {
    if Blank(name) then Some(NoName) else None
  }

  /** The password rule: fails only when the check is requested and the
      password is missing; with the check off it never fails. */
  function ValidatePassword(password: Option<string>, passwordCheckFlag: bool): (r: Option<ValidationError>)
    ensures r == Some(NoPassword) <==> passwordCheckFlag && Blank(password)
    ensures r == None <==> !passwordCheckFlag || !Blank(password)
  {
    if passwordCheckFlag && Blank(password) then Some(NoPassword) else None
  }

  /** The errors a rule contributes to the list: its error if it failed,
      nothing if it passed. */
  function Reported(outcome: Option<ValidationError>): seq<ValidationError> {
    match outcome
    case Some(e) => [e]
    case None => []
  }

  /** Whether every rule that applies passes. */
  predicate Passes(countByCode: Counter, ev: EmployeeView, codeDuplicateCheckFlag: bool, passwordCheckFlag: bool) {
    && !Blank(ev.code)
    && (codeDuplicateCheckFlag ==> countByCode(ev.code.value) == 0)
    && !Blank(ev.name)
    && (passwordCheckFlag ==> !Blank(ev.password))
  }

  /** The whole validation: all three rules run, and their errors are
      listed code first, then name, then password. */
  function Validate(countByCode: Counter, ev: EmployeeView, codeDuplicateCheckFlag: bool, passwordCheckFlag: bool): (r: Report)
    ensures |r.errors| <= 3
    ensures forall i, j :: 0 <= i < j < |r.errors| ==> FieldOf(r.errors[i]) < FieldOf(r.errors[j])
    ensures NoCode in r.errors <==> Blank(ev.code)
    ensures CodeExists in r.errors <==>
              !Blank(ev.code) && codeDuplicateCheckFlag && countByCode(ev.code.value) > 0
    ensures NoName in r.errors <==> Blank(ev.name)
    ensures NoPassword in r.errors <==> passwordCheckFlag && Blank(ev.password)
    ensures r.errors == [] <==> Passes(countByCode, ev, codeDuplicateCheckFlag, passwordCheckFlag)
    ensures r.queries == (if !Blank(ev.code) && codeDuplicateCheckFlag then [ev.code.value] else [])
  {
    var codeCheck := ValidateCode(countByCode, ev.code, codeDuplicateCheckFlag);
    var nameError := ValidateName(ev.name);
    var passError := ValidatePassword(ev.password, passwordCheckFlag);
    ListedInFieldOrder(codeCheck.error, nameError, passError);
    Report(Reported(codeCheck.error) + Reported(nameError) + Reported(passError), codeCheck.queries)
  }

  /** Reporting the three rules' outcomes field by field lists exactly the
      errors that occurred, strictly ordered by field. */
  lemma ListedInFieldOrder(codeError: Option<ValidationError>, nameError: Option<ValidationError>, passError: Option<ValidationError>)
    requires codeError.Some? ==> FieldOf(codeError.value) == 0
    requires nameError.Some? ==> nameError.value == NoName
    requires passError.Some? ==> passError.value == NoPassword
    ensures var errors := Reported(codeError) + Reported(nameError) + Reported(passError);
            && |errors| <= 3
            && (forall i, j :: 0 <= i < j < |errors| ==> FieldOf(errors[i]) < FieldOf(errors[j]))
            && (NoCode in errors <==> codeError == Some(NoCode))
            && (CodeExists in errors <==> codeError == Some(CodeExists))
            && (NoName in errors <==> nameError.Some?)
            && (NoPassword in errors <==> passError.Some?)
            && (errors == [] <==> codeError.None? && nameError.None? && passError.None?)
  {
    var errors := Reported(codeError) + Reported(nameError) + Reported(passError);
    match (codeError, nameError, passError)
    case (Some(c), Some(n), Some(p)) => assert errors == [c, n, p];
    case (Some(c), Some(n), None) => assert errors == [c, n];
    case (Some(c), None, Some(p)) => assert errors == [c, p];
    case (Some(c), None, None) => assert errors == [c];
    case (None, Some(n), Some(p)) => assert errors == [n, p];
    case (None, Some(n), None) => assert errors == [n];
    case (None, None, Some(p)) => assert errors == [p];
    case (None, None, None) => assert errors == [];
  }

  /** The storage collaborator is consulted only about the submitted code,
      and only when that code is present and the duplicate check is on: two
      counters that agree there give the same validation, lookups included. */
  lemma OnlyCheckedCodeIsCounted(c1: Counter, c2: Counter, ev: EmployeeView, codeDuplicateCheckFlag: bool, passwordCheckFlag: bool)
    requires Blank(ev.code) || !codeDuplicateCheckFlag || c1(ev.code.value) == c2(ev.code.value)
    ensures Validate(c1, ev, codeDuplicateCheckFlag, passwordCheckFlag) == Validate(c2, ev, codeDuplicateCheckFlag, passwordCheckFlag)
  {
  }

  /** A form with every field missing and the password required reports
      exactly the three missing-field errors, in rule order. */
  lemma AllFieldsMissing(countByCode: Counter, ev: EmployeeView, codeDuplicateCheckFlag: bool)
    requires Blank(ev.code) && Blank(ev.name) && Blank(ev.password)
    ensures Validate(countByCode, ev, codeDuplicateCheckFlag, true).errors == [NoCode, NoName, NoPassword]
  {
  }

  /** With the duplicate check on, a present code that the collaborator
      already counts is reported as existing exactly once, and first. */
  lemma DuplicateReportedOnce(countByCode: Counter, ev: EmployeeView, passwordCheckFlag: bool)
    requires !Blank(ev.code) && countByCode(ev.code.value) > 0
    ensures var errors := Validate(countByCode, ev, true, passwordCheckFlag).errors;
            |errors| > 0 && errors[0] == CodeExists && multiset(errors)[CodeExists] == 1
  {
  }

  /** Turning the password check on adds exactly a trailing "no password"
      when the password is missing, and changes nothing else. */
  lemma PasswordFlagAddsOnlyNoPassword(countByCode: Counter, ev: EmployeeView, codeDuplicateCheckFlag: bool)
    ensures Validate(countByCode, ev, codeDuplicateCheckFlag, true).errors
            == Validate(countByCode, ev, codeDuplicateCheckFlag, false).errors
               + (if Blank(ev.password) then [NoPassword] else [])
    ensures Validate(countByCode, ev, codeDuplicateCheckFlag, true).queries
            == Validate(countByCode, ev, codeDuplicateCheckFlag, false).queries
  {
  }

  /** Turning the duplicate check on adds exactly a leading "code exists"
      when the present code is already counted, and changes no other error;
      it is also the only way a lookup happens. */
  lemma DuplicateFlagAddsOnlyCodeExists(countByCode: Counter, ev: EmployeeView, passwordCheckFlag: bool)
    ensures Validate(countByCode, ev, true, passwordCheckFlag).errors
            == (if !Blank(ev.code) && countByCode(ev.code.value) > 0 then [CodeExists] else [])
               + Validate(countByCode, ev, false, passwordCheckFlag).errors
    ensures Validate(countByCode, ev, false, passwordCheckFlag).queries == []
  {
    var nameErrors := Reported(ValidateName(ev.name));
    var passErrors := Reported(ValidatePassword(ev.password, passwordCheckFlag));
    var offCode := Reported(ValidateCode(countByCode, ev.code, false).error);
    var onCode := Reported(ValidateCode(countByCode, ev.code, true).error);
    var added := if !Blank(ev.code) && countByCode(ev.code.value) > 0 then [CodeExists] else [];
    // the code rule with the check on reports what it reports with the check off, after the added error
    assert onCode == added + offCode;
    calc {
      Validate(countByCode, ev, true, passwordCheckFlag).errors;
      (added + offCode) + nameErrors + passErrors;
      { assert (added + offCode) + nameErrors == added + (offCode + nameErrors); }
      added + ((offCode + nameErrors) + passErrors);
      added + Validate(countByCode, ev, false, passwordCheckFlag).errors;
    }
  }

  // The Java validator's representation: each rule yields message text, with
  // the empty string meaning "no error", and only non-empty texts are listed.

  /** The text a rule hands back: the message of its error, or "" when it passed. */
  function RuleText(message: ValidationError -> string, outcome: Option<ValidationError>): string {
    match outcome
    case Some(e) => message(e)
    case None => ""
  }

  /** Appends a rule's text unless it is the empty "no error" text. */
  function AddUnlessEmpty(texts: seq<string>, text: string): (r: seq<string>)
    ensures text == "" ==> r == texts
    ensures text != "" ==> |r| == |texts| + 1 && r[..|texts|] == texts && r[|texts|] == text
  {
    if text != "" then texts + [text] else texts
  }

  /** Validation as the Java validator writes it, over message texts. When
      no message text is empty, its list is exactly the messages of the
      modelled error list: the empty-string convention and the optional
      error agree. */
  function ValidateMessages(message: ValidationError -> string, countByCode: Counter, ev: EmployeeView,
                            codeDuplicateCheckFlag: bool, passwordCheckFlag: bool): (r: seq<string>)
    ensures (forall e :: message(e) != "") ==>
              r == Texts(message, Validate(countByCode, ev, codeDuplicateCheckFlag, passwordCheckFlag).errors)
  {
    var codeText := RuleText(message, ValidateCode(countByCode, ev.code, codeDuplicateCheckFlag).error);
    var nameText := RuleText(message, ValidateName(ev.name));
    var passText := RuleText(message, ValidatePassword(ev.password, passwordCheckFlag));
    AddUnlessEmpty(AddUnlessEmpty(AddUnlessEmpty([], codeText), nameText), passText)
  }

  /** The message texts of a list of errors, in the same order. */
  function Texts(message: ValidationError -> string, errors: seq<ValidationError>): seq<string>
  {
    seq(|errors|, i requires 0 <= i < |errors| => message(errors[i]))
  }

  /** With non-empty message texts, each rule's text is the "no error" text
      exactly when the rule passes. */
  lemma RuleTextEmptyIffPasses(message: ValidationError -> string, countByCode: Counter, ev: EmployeeView,
                               codeDuplicateCheckFlag: bool, passwordCheckFlag: bool)
    requires forall e :: message(e) != ""
    ensures RuleText(message, ValidateCode(countByCode, ev.code, codeDuplicateCheckFlag).error) == ""
            <==> !Blank(ev.code) && (codeDuplicateCheckFlag ==> countByCode(ev.code.value) == 0)
    ensures RuleText(message, ValidateName(ev.name)) == "" <==> !Blank(ev.name)
    ensures RuleText(message, ValidatePassword(ev.password, passwordCheckFlag)) == ""
            <==> !passwordCheckFlag || !Blank(ev.password)
  {
  }

  /** Why the non-empty assumption is needed: were the missing-name message
      empty, a missing name would vanish from the Java validator's list. */
  lemma EmptyMessageIsLost(message: ValidationError -> string, countByCode: Counter, ev: EmployeeView,
                           codeDuplicateCheckFlag: bool, passwordCheckFlag: bool)
    requires message(NoName) == "" && Blank(ev.name)
    ensures |ValidateMessages(message, countByCode, ev, codeDuplicateCheckFlag, passwordCheckFlag)|
            < |Validate(countByCode, ev, codeDuplicateCheckFlag, passwordCheckFlag).errors|
  {
  }
}
