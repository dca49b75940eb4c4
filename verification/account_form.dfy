/**
  The accounts form controller: the editable rows, the per-row password
  visibility, the row picked for deletion and whether the confirmation prompt
  is open, together with the store it drives. Every handler is one atomic
  step that takes the backend's answers as a parameter.
 */
module AccountForm {
  import opened AccountTypes
  import opened AccountSchema
  import opened RowCodec
  import opened AccountStore

  /** The form's own state. */
  datatype Form = Form(
    rows: seq<Row>,
    passwordVisible: map<int, bool>,
    selected: int,
    confirmOpen: bool)

  /** The form together with the store it reads and writes. */
  datatype Page = Page(store: Store, form: Form)

  /** What the backend answers to each kind of request during one handler. */
  datatype Backend = Backend(
    list: Reply<seq<Account>>,
    create: Reply<Account>,
    update: Reply<()>,
    delete: Reply<()>)

  const InitialPage := Page(AccountStore.Initial, Form([], map[], 0, false))

  /** The row `handleAdd` appends: a local account with empty login, password and labels, and no id. */
  const BlankRow := Row(None, Some(""), "local", "", Some(""))

  /** JavaScript truthiness of an optional id: present and not the empty string. */
  predicate HasId(id: Option<string>) {
    id.Some? && id.value != ""
  }

  /** Whether the password of a row is shown in clear; an index never toggled is masked. */
  function Visible(form: Form, index: int): bool {
    if index in form.passwordVisible then form.passwordVisible[index] else false
  }

  /** `rows.splice(start, 1)`: a negative start counts from the end, and a
      start at or past the end removes nothing. */
  function SpliceOne(rows: seq<Row>, start: int): (r: seq<Row>)
    ensures 0 <= start < |rows| ==> r == rows[..start] + rows[start + 1..]
    ensures start >= |rows| ==> r == rows
    ensures |r| == if |rows| == 0 || start >= |rows| then |rows| else |rows| - 1
  {
    var from := if start < 0 then (if |rows| + start < 0 then 0 else |rows| + start) else start;
    if from < |rows| then rows[..from] + rows[from + 1..] else rows
  }

  /** `loadAccounts`: load the store, then rebuild every row from the store's
      list, one row per account in the same order, whether or not the load succeeded. */
  function LoadAccounts(p: Page, server: Backend): (r: Page)
    ensures r.store == Load(p.store, server.list)
    ensures |r.form.rows| == |r.store.accounts|
    ensures server.list.Ok? ==> r.store.accounts == server.list.data
    ensures server.list.Err? ==> r.store.accounts == p.store.accounts
    ensures forall i :: 0 <= i < |r.form.rows| ==>
              && r.form.rows[i].id == r.store.accounts[i].id
              && r.form.rows[i].login == r.store.accounts[i].login
              && r.form.rows[i].password == r.store.accounts[i].password
              && ParseType(r.form.rows[i].kind) == Some(r.store.accounts[i].kind)
              && r.form.rows[i].labels == Some(LabelCodec.JoinLabels(r.store.accounts[i].labels.GetOr([])))
    ensures r.form.passwordVisible == p.form.passwordVisible
    ensures r.form.selected == p.form.selected && r.form.confirmOpen == p.form.confirmOpen
  {
    var store := Load(p.store, server.list);
    var rows := seq(|store.accounts|, i requires 0 <= i < |store.accounts| => ToRow(store.accounts[i]));
    Page(store, p.form.(rows := rows))
  }

  /** `handleBlur(index)`: a missing or rejected row is left alone; an
      accepted row with an id is sent as an update; one without is sent as a
      create, and the row is overwritten with the created account when the
      backend returned one with labels. */
  function HandleBlur(p: Page, index: int, server: Backend): (r: Page)
    ensures r.form.passwordVisible == p.form.passwordVisible
    ensures r.form.selected == p.form.selected && r.form.confirmOpen == p.form.confirmOpen
    ensures |r.form.rows| == |p.form.rows|
    ensures forall i :: 0 <= i < |p.form.rows| && i != index ==> r.form.rows[i] == p.form.rows[i]
    ensures !(0 <= index < |p.form.rows| && Valid(p.form.rows[index])) ==> r == p
    ensures 0 <= index < |p.form.rows| && Valid(p.form.rows[index]) ==>
              var row := p.form.rows[index];
              if HasId(row.id) then
                r == p.(store := Update(p.store, ToAccount(row), server.update))
              else
                && r.store == Add(p.store, ToAccount(row), server.create).0
                && r.form.rows[index] ==
                   if server.create.Ok? && server.create.data.labels.Some?
                   then ToRow(server.create.data) else row
  {
    if !(0 <= index < |p.form.rows|) then p
    else
      var row := p.form.rows[index];
      if !Valid(row) then p
      else
        var account := ToAccount(row);
        if HasId(row.id) then
          p.(store := Update(p.store, account, server.update))
        else
          var (store, created) := Add(p.store, account, server.create);
          if created.Some? && created.value.labels.Some? then
            Page(store, p.form.(rows := p.form.rows[index := ToRow(created.value)]))
          else
            p.(store := store)
  }

  /** `handleAdd`: one blank row appended after the existing ones. */
  function HandleAdd(p: Page): (r: Page)
    ensures r.store == p.store
    ensures |r.form.rows| == |p.form.rows| + 1
    ensures r.form.rows[..|p.form.rows|] == p.form.rows
    ensures var row := r.form.rows[|p.form.rows|];
            row.id.None? && row.kind == "local" && row.login == "" && row.password == Some("") && row.labels == Some("")
    ensures r.form.passwordVisible == p.form.passwordVisible
    ensures r.form.selected == p.form.selected && r.form.confirmOpen == p.form.confirmOpen
  {
    p.(form := p.form.(rows := p.form.rows + [BlankRow]))
  }

  /** `handleRemove(index)`: remember the row and open the confirmation prompt; nothing else changes. */
  function HandleRemove(p: Page, index: int): (r: Page)
    ensures r.store == p.store && r.form.rows == p.form.rows
    ensures r.form.passwordVisible == p.form.passwordVisible
    ensures r.form.selected == index && r.form.confirmOpen
  {
    p.(form := p.form.(selected := index, confirmOpen := true))
  }

  /** `handleConfirm`: delete the selected row's account from the backend when
      the row has an id, then drop the row from the form whatever the backend
      answered, and close the prompt. */
  function HandleConfirm(p: Page, server: Backend): (r: Page)
    ensures !r.form.confirmOpen
    ensures r.form.selected == p.form.selected && r.form.passwordVisible == p.form.passwordVisible
    ensures 0 <= p.form.selected < |p.form.rows| ==>
              r.form.rows == p.form.rows[..p.form.selected] + p.form.rows[p.form.selected + 1..]
    ensures p.form.selected >= |p.form.rows| ==> r.form.rows == p.form.rows
    ensures 0 <= p.form.selected < |p.form.rows| && HasId(p.form.rows[p.form.selected].id) ==>
              r.store == RemoveAccount(p.store, p.form.rows[p.form.selected].id.value, server.delete)
    ensures !(0 <= p.form.selected < |p.form.rows| && HasId(p.form.rows[p.form.selected].id)) ==>
              r.store == p.store
  {
    var selected := p.form.selected;
    var rows := p.form.rows;
    var store :=
      if 0 <= selected < |rows| && HasId(rows[selected].id)
      then RemoveAccount(p.store, rows[selected].id.value, server.delete)
      else p.store;
    Page(store, p.form.(rows := SpliceOne(rows, selected), confirmOpen := false))
  }

  /** `togglePasswordVisibility(index)`: flip the visibility of that row's password only. */
  function TogglePasswordVisibility(p: Page, index: int): (r: Page)
    ensures Visible(r.form, index) == !Visible(p.form, index)
    ensures forall i :: i != index ==> Visible(r.form, i) == Visible(p.form, i)
    ensures r.store == p.store && r.form.rows == p.form.rows
    ensures r.form.selected == p.form.selected && r.form.confirmOpen == p.form.confirmOpen
  {
    p.(form := p.form.(passwordVisible := p.form.passwordVisible[index := !Visible(p.form, index)]))
  }

  /** Visibility flags are keyed by row index and are not renumbered when a
      row is removed: the row that moves into the removed row's place shows
      or hides its password as the removed row did. */
  lemma ConfirmKeepsVisibilityByIndex(p: Page, server: Backend)
    requires 0 <= p.form.selected && p.form.selected + 1 < |p.form.rows|
    ensures var r := HandleConfirm(p, server);
            var i := p.form.selected;
            && r.form.rows[i] == p.form.rows[i + 1]
            && Visible(r.form, i) == Visible(p.form, i)
            && (forall j :: Visible(r.form, j) == Visible(p.form, j))
  {
  }

  /** Toggling twice shows every password as before. */
  lemma ToggleTwice(p: Page, index: int, i: int)
    ensures Visible(TogglePasswordVisibility(TogglePasswordVisibility(p, index), index).form, i) == Visible(p.form, i)
  {
  }

  /** A blur makes at most one request, and makes one exactly when the row exists and is accepted. */
  lemma BlurRequestsOnlyValidRows(p: Page, index: int, server: Backend)
    ensures var r := HandleBlur(p, index, server);
            |r.store.requests| == |p.store.requests| + if 0 <= index < |p.form.rows| && Valid(p.form.rows[index]) then 1 else 0
  {
  }

  /** A freshly added row is rejected (its login is empty), so blurring it sends nothing. */
  lemma BlurOfBlankRowSendsNothing(p: Page, server: Backend)
    ensures var added := HandleAdd(p);
            HandleBlur(added, |p.form.rows|, server) == added
  {
    var added := HandleAdd(p);
    assert LoginField in Issues(added.form.rows[|p.form.rows|]);
  }

  /** A blur of an accepted row sends an update when its id is truthy and a
      create otherwise, so a row whose id is the empty string is created again. */
  lemma BlurCreatesIffNoId(p: Page, index: int, server: Backend)
    requires 0 <= index < |p.form.rows| && Valid(p.form.rows[index])
    ensures var row := p.form.rows[index];
            HandleBlur(p, index, server).store.requests ==
            p.store.requests + [if HasId(row.id) then Put(ToAccount(row)) else Post(ToAccount(row))]
    ensures p.form.rows[index].id == Some("") ==>
              HandleBlur(p, index, server).store.requests == p.store.requests + [Post(ToAccount(p.form.rows[index]))]
  {
  }

  /** A row with an id is never created again: its blur sends an update or nothing. */
  lemma SavedRowIsNeverCreated(p: Page, index: int, server: Backend)
    requires 0 <= index < |p.form.rows| && HasId(p.form.rows[index].id)
    ensures var r := HandleBlur(p, index, server);
            forall k :: |p.store.requests| <= k < |r.store.requests| ==> r.store.requests[k].Put?
  {
  }

  /** The first save of a new row: when the backend creates it with an id and
      labels, the row takes that id, so the next blur of the row, if accepted,
      is an update of the created account rather than a second create. */
  lemma CreateThenUpdate(p: Page, index: int, server: Backend, next: Backend)
    requires 0 <= index < |p.form.rows|
    requires Valid(p.form.rows[index]) && !HasId(p.form.rows[index].id)
    requires server.create.Ok? && HasId(server.create.data.id) && server.create.data.labels.Some?
    ensures var saved := HandleBlur(p, index, server);
            && saved.form.rows[index] == ToRow(server.create.data)
            && HasId(saved.form.rows[index].id)
            && saved.store.accounts == p.store.accounts + [server.create.data]
            && (Valid(saved.form.rows[index]) ==>
                  HandleBlur(saved, index, next).store.requests ==
                  saved.store.requests + [Put(ToAccount(ToRow(server.create.data)))])
  {
    var saved := HandleBlur(p, index, server);
    assert saved.store.accounts[..|p.store.accounts|] == p.store.accounts;
  }

  /** Asking to remove a row and confirming drops exactly that row from the
      form whatever the backend answers; the account leaves the store only
      when the row had an id and the delete succeeded. */
  lemma RemoveThenConfirm(p: Page, index: int, server: Backend)
    requires 0 <= index < |p.form.rows|
    ensures var r := HandleConfirm(HandleRemove(p, index), server);
            && r.form.rows == p.form.rows[..index] + p.form.rows[index + 1..]
            && !r.form.confirmOpen
            && (HasId(p.form.rows[index].id) && server.delete.Ok? ==>
                  forall a :: a in r.store.accounts ==> a.id != p.form.rows[index].id)
            && (!HasId(p.form.rows[index].id) || server.delete.Err? ==> r.store.accounts == p.store.accounts)
  {
  }

  /** After a load, saving any row gives back the account it came from, when
      every account the store holds is one the form can reproduce. */
  lemma LoadedRowsSaveBack(p: Page, server: Backend)
    ensures var r := LoadAccounts(p, server);
            (forall k :: 0 <= k < |r.store.accounts| ==> Representable(r.store.accounts[k])) ==>
            forall i :: 0 <= i < |r.form.rows| ==> ToAccount(r.form.rows[i]) == r.store.accounts[i]
  {
    var r := LoadAccounts(p, server);
    forall i | 0 <= i < |r.form.rows| && Representable(r.store.accounts[i])
      ensures ToAccount(r.form.rows[i]) == r.store.accounts[i]
    {
      AccountRowRoundTrip(r.store.accounts[i]);
    }
  }

  /** The page starts with no accounts, no rows, every password masked and
      the prompt closed; a blank row added there and blurred sends nothing,
      and a failed first load leaves the form empty with one load error. */
  lemma InitialTrace(server: Backend, i: int)
    ensures InitialPage.store.accounts == [] && !InitialPage.store.isLoading
    ensures InitialPage.form.rows == [] && !Visible(InitialPage.form, i) && !InitialPage.form.confirmOpen
    ensures HandleBlur(HandleAdd(InitialPage), 0, server).store.requests == []
    ensures server.list.Err? ==>
              var r := LoadAccounts(InitialPage, server);
              && r.form.rows == []
              && r.store.requests == [GetAll]
              && r.store.notices == [ErrorReport(Loading)]
  {
    BlurOfBlankRowSendsNothing(InitialPage, server);
  }

  /** Example: loading one local account with one label gives one row whose
      labels edit string is that label. */
  lemma LoadExample(p: Page, server: Backend)
    requires server.list == Ok([Account(Some("1"), Some([Label("admin")]), Local, "bob", Some("x"))])
    ensures LoadAccounts(p, server).form.rows == [Row(Some("1"), Some("admin"), "local", "bob", Some("x"))]
  {
    assert LabelCodec.Texts([Label("admin")]) == ["admin"];
  }
}
