# Employee form validation and the top page's flash hand-off

This project models two pieces of the request-handling core of a small
employee-management web application (daily report system), and proves
properties of them in Dafny.

- **Employee validation** (`EmployeeValidator`): a submitted employee is
  checked by three independent rules run in a fixed order: employee code,
  then name, then password. Every rule runs whatever the earlier ones found,
  and each adds at most one error to the list. The code rule fails with
  "no code" when the code is absent or empty, before any storage lookup.
  Only when the caller sets the duplicate-check flag does it ask the
  storage collaborator how many employees already hold the code, failing
  with "code exists" when that count is positive. The password rule fails
  only when the caller sets the password-check flag and the password is
  absent or empty. The storage count (`countByCode`) is a function
  parameter `string -> nat`. `isDuplicateEmployee` is the single forwarding
  call to it and is modelled as `IsDuplicateEmployee`. Every lookup made is
  recorded in the result (`Report.queries`), so "the counter is never
  consulted" is a statement about that list. Nullable strings are
  `Option<string>`. Message constants are the constructors `NoCode`,
  `CodeExists`, `NoName` and `NoPassword`.
- **Message texts** (`ValidateMessages`): the Java validator has each rule
  return a message string, with `""` meaning "no error", and lists only the non-empty
  ones. The model keeps this text-level form next to the `Option`-based one.
  It proves the two agree whenever no message text is empty, and shows an
  error would be lost if one were.
- **Flash hand-off** (`TopAction.Index`): the top page's default operation
  looks for a flash message in the session scope. If one is there, it copies
  it to the request scope under the same key and deletes it from the
  session. It then forwards to the top-page view. The two scopes are
  `map<string, string>` values (`ScopeStore.Scopes`), and the operation
  returns the new scopes together with the one transfer it ends with.
  `Deliveries` runs the operation for several requests of one session, one
  after another, each with a fresh request scope. It reads what each request
  received through `ScopeStore.GetRequest`. It is used to prove that, over
  sequential requests, a flash message is shown exactly once.

Files: `wrappers.dfy` (`Option`), `employee_view.dfy` (the employee record
and the "absent or empty" test), `employee_validator.dfy`,
`scope_store.dfy` (the scope accessors), `top_action.dfy`.

## Model

| member | source | states |
|---|---|---|
| EmployeeValidator.Validate | src/main/java/models/valiidators/EmployeeValidator.java:22-44 | At most three errors, strictly ordered by field (code, name, password), so at most one per field. "No code" is listed exactly when the code is absent or empty. "Code exists" is listed exactly when the code is present, the duplicate check is on and the count is positive. "No name" is listed exactly when the name is missing. "No password" is listed exactly when the password check is on and the password is missing. The list is empty exactly when every applicable rule passes. One lookup, of the submitted code, is made exactly when the code is present and the duplicate check is on. |
| EmployeeValidator.ValidateCode | src/main/java/models/valiidators/EmployeeValidator.java:53-82 | A missing code gives "no code" with no lookup. A present code with the check off gives no error and no lookup. A present code with the check on makes exactly one lookup of that code and fails with "code exists" exactly when the count is positive. |
| EmployeeValidator.IsDuplicateEmployee | src/main/java/models/valiidators/EmployeeValidator.java:79-82 | Returns the storage collaborator's count of employees holding the code, and makes exactly one lookup, of that code. |
| EmployeeValidator.ListedInFieldOrder | src/main/java/models/valiidators/EmployeeValidator.java:24-43 | Adding the three rules' outcomes one after another lists exactly the errors that occurred: at most three, strictly ordered by field, and empty exactly when no rule failed. |
| EmployeeValidator.ValidateName | src/main/java/models/valiidators/EmployeeValidator.java:89-96 | Fails with "no name" exactly when the name is absent or empty, and passes otherwise. |
| EmployeeValidator.ValidatePassword | src/main/java/models/valiidators/EmployeeValidator.java:104-112 | Fails with "no password" exactly when the check is on and the password is absent or empty. With the check off it never fails. |
| EmployeeValidator.OnlyCheckedCodeIsCounted | src/main/java/models/valiidators/EmployeeValidator.java:56-81 | The result depends on the storage count only at the submitted code, and only when that code is present and the duplicate check is on. Two counters agreeing there give identical results, so re-validation with an unchanged count is deterministic. |
| EmployeeValidator.AllFieldsMissing | src/main/java/models/valiidators/EmployeeValidator.java:22-44 | Missing code, name and password, with the password check on, give exactly the errors no code, no name, no password, in that order. |
| EmployeeValidator.DuplicateReportedOnce | src/main/java/models/valiidators/EmployeeValidator.java:60-67 | With the duplicate check on, a present code with any positive count is reported as existing exactly once, at the head of the list. |
| EmployeeValidator.PasswordFlagAddsOnlyNoPassword | src/main/java/models/valiidators/EmployeeValidator.java:39-42 | The list with the password check on equals the list with it off, plus a trailing "no password" exactly when the password is missing. The lookups are the same either way. |
| EmployeeValidator.DuplicateFlagAddsOnlyCodeExists | src/main/java/models/valiidators/EmployeeValidator.java:60-71 | The list with the duplicate check on equals the list with it off, plus a leading "code exists" exactly when the code is present and its count is positive. With the check off, no lookup is made. |
| EmployeeValidator.RuleTextEmptyIffPasses | src/main/java/models/valiidators/EmployeeValidator.java:53-112 | With non-empty message texts, each rule returns the empty "no error" text exactly when it passes. The code rule passes when the code is present and, if checked, uncounted. The name rule passes when the name is present. The password rule passes when the check is off or the password is present. |
| EmployeeValidator.AddUnlessEmpty | src/main/java/models/valiidators/EmployeeValidator.java:28-30 | An empty "no error" text leaves the list unchanged. Any other text is appended at the end, and the earlier entries are kept. |
| EmployeeValidator.ValidateMessages | src/main/java/models/valiidators/EmployeeValidator.java:22-44 | The text list built with the empty-string convention equals the messages of the modelled error list, element by element, whenever no message text is empty. |
| EmployeeValidator.EmptyMessageIsLost | src/main/java/models/valiidators/EmployeeValidator.java:33-36 | If the "no name" message text were empty, a missing name would produce no entry in the text list. The list would then be shorter than the error list, so the convention relies on non-empty messages. |
| ScopeStore.GetSession | src/main/java/actions/TopAction.java:20 | Returns a value exactly when the key is in the session scope, and that value is the one stored. |
| ScopeStore.PutRequest | src/main/java/actions/TopAction.java:22 | The key holds the new value in the request scope. Other request keys and the whole session are unchanged. |
| ScopeStore.RemoveSession | src/main/java/actions/TopAction.java:23 | The key is gone from the session scope. Other session keys and the whole request scope are unchanged. |
| TopAction.Index | src/main/java/actions/TopAction.java:18-28 | A flash message in the session reaches the request scope with the same value. Afterwards the session never holds the flash key. With no flash message both scopes are unchanged. Every other key keeps its presence and value in both scopes. The run ends with exactly one transfer, a forward to the top-page view. |
| TopAction.SecondIndexDeliversNothing | src/main/java/actions/TopAction.java:20-24 | A following run on the resulting session, with a fresh request scope, puts no flash message in the request and leaves the session as it was. |
| TopAction.DeliveredExactlyOnce | src/main/java/actions/TopAction.java:18-28 | Over any number of sequential requests in one session with no new write, the first receives whatever flash message the session held and every later one receives none. |
| TopAction.NothingLeftToDeliver | src/main/java/actions/TopAction.java:20-23 | Once the session holds no flash message, no later request receives one. |

## Left out

- Request dispatch (`process` calling `invoke`, command lookup by name, the dispatch errors) lives in the handler base class. That class is not part of this model; `Index` is modelled directly.
- The scope accessors' real storage (servlet request and session attributes) is not modelled; they are map operations here. Session values are taken to be strings, which is what the flash key holds in this code.
- The concrete text of the flash key and of the top-page view constant is not part of this model. The key is the stand-in `"flush"`, and no property depends on its text.
- Servlet forward mechanics, `ServletException`/`IOException` and page rendering are left out. A run's forward is the `Transfer` value it returns.
- Concurrent requests of one session are not modelled. `index` reads the flash key and then removes it, without a lock, so two overlapping requests can both deliver it. `DeliveredExactlyOnce` is about requests that run one after another.
- `countByCode` is a database query and is a pure `string -> nat` parameter here. Connectivity failures, which would abort validation, are not modelled. Neither is the unlocked window between the duplicate check and a later insert.
- The count is a Java `long`; `nat` assumes the query never returns a negative count and never overflows.
- Message text and localisation are opaque: errors are enum constructors. The text-level form takes the message lookup as a parameter.
- The validator's flags are Java `Boolean`. A `null` flag would throw on unboxing; the flags are plain `bool` here.
- The employee record keeps only code, name and password. The id, administrator flag, deletion flag and timestamps play no part in validation.
- Whether callers set the duplicate-check flag correctly is not modelled: for example, an edit that keeps an employee's own code. The rule itself does no such inference.
