/**
  The two transforms between a stored account and an editable row: the one
  applied to a row that passed the schema before it is sent to the store,
  and the one applied to stored accounts when they are loaded into the form
  (and to the account the backend returns after a create).
 */
module RowCodec {
  import opened AccountTypes
  import opened AccountSchema
  import opened LabelCodec

  /** Row to account: labels parsed from the edit string, and the password
      dropped (null) for an ldap account; id, type and login carried over. */
  function ToAccount(row: Row): (a: Account)
    requires ParseType(row.kind).Some?
    ensures a.id == row.id && a.login == row.login && TypeName(a.kind) == row.kind
    ensures a.password.None? <==> a.kind == Ldap || row.password.None?
    ensures a.kind == Local ==> a.password == row.password
    ensures a.labels == Some(ParseLabels(row.labels)) && AllEditable(a.labels.value)
  {
    var kind := ParseType(row.kind).value;
    Account(
      row.id,
      Some(ParseLabels(row.labels)),
      kind,
      row.login,
      if kind == Ldap then None else row.password)
  }

  /** Account to row: the label texts joined with `;` (an absent list counts
      as empty); every other field carried over. */
  function ToRow(a: Account): (row: Row)
    ensures row.id == a.id && row.login == a.login && row.password == a.password
    ensures ParseType(row.kind) == Some(a.kind)
    ensures row.labels == Some(JoinLabels(a.labels.GetOr([])))
    ensures a.labels.None? ==> row.labels == Some("")
  {
    Row(a.id, Some(JoinLabels(a.labels.GetOr([]))), TypeName(a.kind), a.login, a.password)
  }

  /** An account the form can reproduce: its labels are present and
      editable, and an ldap account carries no password. */
  ghost predicate Representable(a: Account) {
    && a.labels.Some?
    && AllEditable(a.labels.value)
    && (a.kind == Ldap ==> a.password.None?)
  }

  /** Loading an account into a row and saving the row gives the account back,
      exactly when the account is representable. */
  lemma AccountRowRoundTrip(a: Account)
    ensures ToAccount(ToRow(a)) == a <==> Representable(a)
  {
    TypeNameRoundTrip(a.kind);
    if Representable(a) {
      ParseJoinRoundTrip(a.labels.value);
    }
  }

  /** What saving does to a row: reading the saved account back into the form
      normalises the labels and, for ldap, nulls the password. */
  lemma RowAccountRow(row: Row)
    requires ParseType(row.kind).Some?
    ensures ToRow(ToAccount(row)) ==
              row.(labels := Some(JoinLabels(ParseLabels(row.labels))),
                   password := if row.kind == "ldap" then None else row.password)
  {
  }

  /** Saving is idempotent: a saved row, loaded back and saved again, gives the same account. */
  lemma SaveIdempotent(row: Row)
    requires ParseType(row.kind).Some?
    ensures ToAccount(ToRow(ToAccount(row))) == ToAccount(row)
  {
    AccountRowRoundTrip(ToAccount(row));
  }

  /** A row the schema accepted is still accepted after being saved and loaded back. */
  lemma SavedRowStaysValid(row: Row)
    requires Valid(row)
    ensures Valid(ToRow(ToAccount(row)))
  {
    if row.labels.Some? {
      NormalisedNoLonger(row.labels.value);
    } else {
      assert JoinLabels([]) == "";
    }
  }
}
