/**
  The account record exchanged with the backend and held by the store.
 */
module AccountTypes {

  /** An optional (`undefined`) or nullable (`null`) TypeScript value. */
  datatype Option<+T> = None | Some(value: T) {
    function GetOr(default: T): T {
      match this
      case Some(v) => v
      case None => default
    }
  }

  /** The two kinds of account, spelled "local" and "ldap" on the wire and in the form. */
  datatype AccountType = Local | Ldap

  /** One free-text tag of an account. */
  datatype Label = Label(text: string)

  /** A stored account: `id` and `labels` may be absent, `password` may be null. */
  datatype Account = Account(
    id: Option<string>,
    labels: Option<seq<Label>>,
    kind: AccountType,
    login: string,
    password: Option<string>)

  /** The wire spelling of an account type. */
  function TypeName(t: AccountType): string {
    match t
    case Local => "local"
    case Ldap => "ldap"
  }

  /** Reads a wire spelling back; any other string is not an account type. */
  function ParseType(name: string): (t: Option<AccountType>)
    ensures t.Some? <==> name == "local" || name == "ldap"
    ensures t.Some? ==> TypeName(t.value) == name
  {
    if name == "local" then Some(Local)
    else if name == "ldap" then Some(Ldap)
    else None
  }

  /** Every account type survives being written to the form and read back. */
  lemma TypeNameRoundTrip(t: AccountType)
    ensures ParseType(TypeName(t)) == Some(t)
  {
  }
}
