/** The part of an employee record that form validation looks at.
    Identity, the administrator and deletion flags and the timestamps
    play no part in any rule and are not carried. */
module Views {
  import opened Wrappers

  /** A submitted employee; `None` stands for a Java `null` field. */
  datatype EmployeeView = EmployeeView(
    code: Option<string>,
    name: Option<string>,
    password: Option<string>
  )

  /** A text field counts as missing when it is absent or empty. */
  predicate Blank(s: Option<string>) {
    s.None? || s.value == ""
  }
}
