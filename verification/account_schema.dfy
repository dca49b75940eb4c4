/**
  The editable row of the accounts form and the schema every row must pass
  before it is sent to the backend: four per-field limits and one cross-field
  rule tying the password to the account type.
 */
module AccountSchema {
  import opened AccountTypes
  import opened JsText

  /** One editable row: the account with its labels held as one `;`-separated
      string and its type as whatever string the form holds. */
  datatype Row = Row(
    id: Option<string>,
    labels: Option<string>,
    kind: string,
    login: string,
    password: Option<string>)

  /** The fields a schema issue can be attached to. */
  datatype Field = IdField | LabelsField | TypeField | LoginField | PasswordField

  const MaxLabelsLength := 50
  const MaxLoginLength := 100
  const MaxPasswordLength := 100

  /** The cross-field rule exactly as the refinement tests it: a local row
      whose password is null, empty, or empty once trimmed. */
  predicate MissingLocalPassword(row: Row) {
    row.kind == "local" && (row.password.None? || Trim(row.password.value) == "")
  }

  /** The set of fields the schema reports an issue on; a row passes when it is empty. */
  function Issues(row: Row): (issues: set<Field>)
    ensures IdField !in issues
    ensures LabelsField in issues <==> row.labels.Some? && |row.labels.value| > MaxLabelsLength
    ensures TypeField in issues <==> row.kind != "local" && row.kind != "ldap"
    ensures LoginField in issues <==> |row.login| < 1 || |row.login| > MaxLoginLength
    ensures PasswordField in issues <==>
              || (row.password.Some? && |row.password.value| > MaxPasswordLength)
              || (row.kind == "local" && (row.password.None? || Blank(row.password.value)))
  {
    TrimEmptyIffBlank(row.password.GetOr(""));
    (if row.labels.Some? && |row.labels.value| > MaxLabelsLength then {LabelsField} else {})
    + (if ParseType(row.kind).None? then {TypeField} else {})
    + (if |row.login| < 1 || |row.login| > MaxLoginLength then {LoginField} else {})
    + (if (row.password.Some? && |row.password.value| > MaxPasswordLength) || MissingLocalPassword(row)
       then {PasswordField} else {})
  }

  /** The per-field limits, stated independently of the cross-field rule. */
  ghost predicate FieldsWithinLimits(row: Row) {
    && (row.labels.None? || |row.labels.value| <= MaxLabelsLength)
    && (row.kind == "local" || row.kind == "ldap")
    && 1 <= |row.login| <= MaxLoginLength
    && (row.password.None? || |row.password.value| <= MaxPasswordLength)
  }

  /** The schema reports no issue exactly when every field is within its
      limits and a local row carries a password with a non-whitespace character. */
  lemma NoIssuesIff(row: Row)
    ensures Issues(row) == {} <==>
              FieldsWithinLimits(row)
              && (row.kind == "local" ==> row.password.Some? && !Blank(row.password.value))
  {
    var issues := Issues(row);
    if issues != {} {
      var f :| f in issues;
    }
  }

  /** The schema accepts the row: exactly when every field is within its
      limits and a local row carries a password with at least one
      non-whitespace character. */
  predicate Valid(row: Row)
    ensures Valid(row) <==>
              FieldsWithinLimits(row)
              && (row.kind == "local" ==> row.password.Some? && !Blank(row.password.value))
  {
    NoIssuesIff(row);
    Issues(row) == {}
  }

  /** The cross-field rule on its own: with every field within its limits, a
      local row is rejected exactly when its password is null or blank, and
      an ldap row is never rejected, whatever its password holds. */
  lemma PasswordRule(row: Row)
    requires FieldsWithinLimits(row)
    ensures row.kind == "local" ==> (!Valid(row) <==> row.password.None? || Blank(row.password.value))
    ensures row.kind == "ldap" ==> Valid(row)
  {
  }
}
