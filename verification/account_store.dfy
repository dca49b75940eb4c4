/**
  The account store: the list of accounts the page shows and a loading flag,
  changed only by four operations that each make one backend request. The
  backend's answer is a parameter of each operation; every failure is turned
  into an error report naming the action, and never reaches the caller.
 */
module AccountStore {
  import opened AccountTypes

  /** The backend's answer to one request: its payload, or a failure
      (a network fault or a non-2xx status). */
  datatype Reply<T> = Ok(data: T) | Err

  /** The action an error report or a success notice names. */
  datatype Action = Loading | Adding | Updating | Removing

  /** A user-visible notification: the error report of a failed request
      (a toast plus a console entry), or the toast of a successful change. */
  datatype Notice = ErrorReport(action: Action) | SuccessNotice(action: Action)

  /** A request sent to the accounts resource. */
  datatype Request = GetAll | Post(account: Account) | Put(account: Account) | Delete(id: string)

  /** The store's state, with the requests it has made and the notices it has shown. */
  datatype Store = Store(
    accounts: seq<Account>,
    isLoading: bool,
    requests: seq<Request>,
    notices: seq<Notice>)

  const Initial := Store([], false, [], [])

  /** `load`: the whole list replaced by the server's list, or left alone on
      failure; the loading flag, raised for the request, is down again afterwards. */
  function Load(s: Store, reply: Reply<seq<Account>>): (r: Store)
    ensures !r.isLoading
    ensures r.requests == s.requests + [GetAll]
    ensures reply.Ok? ==> r.accounts == reply.data && r.notices == s.notices
    ensures reply.Err? ==> r.accounts == s.accounts && r.notices == s.notices + [ErrorReport(Loading)]
  {
    var requested := s.(isLoading := true, requests := s.requests + [GetAll]);
    match reply
    case Ok(data) => requested.(accounts := data, isLoading := false)
    case Err => requested.(isLoading := false, notices := s.notices + [ErrorReport(Loading)])
  }

  /** `add`: on success the created account (as the server returned it) is
      appended and returned; on failure the list is untouched and the result is null. */
  function Add(s: Store, account: Account, reply: Reply<Account>): (r: (Store, Option<Account>))
    ensures r.0.requests == s.requests + [Post(account)]
    ensures r.0.isLoading == s.isLoading
    ensures reply.Ok? ==>
              && |r.0.accounts| == |s.accounts| + 1
              && r.0.accounts[..|s.accounts|] == s.accounts
              && r.0.accounts[|s.accounts|] == reply.data
              && r.1 == Some(reply.data)
              && r.0.notices == s.notices + [SuccessNotice(Adding)]
    ensures reply.Err? ==>
              && r.0.accounts == s.accounts
              && r.1 == None
              && r.0.notices == s.notices + [ErrorReport(Adding)]
  {
    var requested := s.(requests := s.requests + [Post(account)]);
    match reply
    case Ok(data) =>
      (requested.(accounts := s.accounts + [data], notices := s.notices + [SuccessNotice(Adding)]), Some(data))
    case Err =>
      (requested.(notices := s.notices + [ErrorReport(Adding)]), None)
  }

  /** Index `k` holds the first account whose id equals `id`. */
  ghost predicate FirstWithId(accounts: seq<Account>, id: Option<string>, k: int) {
    && 0 <= k < |accounts|
    && accounts[k].id == id
    && forall j :: 0 <= j < k ==> accounts[j].id != id
  }

  /** `findIndex(a => a.id === id)`: the first index whose id matches, or -1 when none does. */
  function FindIndex(accounts: seq<Account>, id: Option<string>): (k: int)
    ensures -1 <= k < |accounts|
    ensures k == -1 <==> forall j :: 0 <= j < |accounts| ==> accounts[j].id != id
    ensures k != -1 ==> FirstWithId(accounts, id, k)
  {
    if accounts == [] then -1
    else if accounts[0].id == id then 0
    else
      var k := FindIndex(accounts[1..], id);
      if k == -1 then -1 else k + 1
  }

  /** `update`: on success the first account with the same id is replaced by
      the sent account and every other entry stays; on failure nothing changes. */
  function Update(s: Store, account: Account, reply: Reply<()>): (r: Store)
    ensures r.requests == s.requests + [Put(account)]
    ensures r.isLoading == s.isLoading
    ensures |r.accounts| == |s.accounts|
    ensures reply.Ok? ==>
              && (forall k :: 0 <= k < |s.accounts| ==>
                    r.accounts[k] == if FirstWithId(s.accounts, account.id, k) then account else s.accounts[k])
              && r.notices == s.notices + [SuccessNotice(Updating)]
    ensures reply.Err? ==> r.accounts == s.accounts && r.notices == s.notices + [ErrorReport(Updating)]
  {
    var requested := s.(requests := s.requests + [Put(account)]);
    match reply
    case Ok(_) =>
      var k := FindIndex(s.accounts, account.id);
      var accounts := if k != -1 then s.accounts[k := account] else s.accounts;
      requested.(accounts := accounts, notices := s.notices + [SuccessNotice(Updating)])
    case Err =>
      requested.(notices := s.notices + [ErrorReport(Updating)])
  }

  /** `filter(a => a.id !== id)`: the accounts with another id (or none), in order. */
  function WithoutId(accounts: seq<Account>, id: string): (r: seq<Account>)
    ensures |r| <= |accounts|
    ensures forall k :: 0 <= k < |r| ==> r[k].id != Some(id) && r[k] in accounts
    ensures forall a :: a in accounts && a.id != Some(id) ==> a in r
  {
    if accounts == [] then []
    else
      var rest := WithoutId(accounts[1..], id);
      if accounts[0].id != Some(id) then [accounts[0]] + rest else rest
  }

  /** `removeAccount`: on success every account with the id is gone; on failure nothing changes. */
  function RemoveAccount(s: Store, id: string, reply: Reply<()>): (r: Store)
    ensures r.requests == s.requests + [Delete(id)]
    ensures r.isLoading == s.isLoading
    ensures reply.Ok? ==>
              && (forall a :: a in r.accounts <==> a in s.accounts && a.id != Some(id))
              && r.notices == s.notices + [SuccessNotice(Removing)]
    ensures reply.Err? ==> r.accounts == s.accounts && r.notices == s.notices + [ErrorReport(Removing)]
  {
    var requested := s.(requests := s.requests + [Delete(id)]);
    match reply
    case Ok(_) =>
      requested.(accounts := WithoutId(s.accounts, id), notices := s.notices + [SuccessNotice(Removing)])
    case Err =>
      requested.(notices := s.notices + [ErrorReport(Removing)])
  }

  /** Removal keeps order: removing from two lists joined is removing from each. */
  lemma {:induction false} WithoutIdAppend(a: seq<Account>, b: seq<Account>, id: string)
    ensures WithoutId(a + b, id) == WithoutId(a, id) + WithoutId(b, id)
  {
    if a == [] {
      assert a + b == b;
    } else {
      assert (a + b)[0] == a[0];
      assert (a + b)[1..] == a[1..] + b;
      WithoutIdAppend(a[1..], b, id);
    }
  }

  /** Removing an id no account has leaves the list as it is. */
  lemma {:induction false} WithoutAbsentId(accounts: seq<Account>, id: string)
    requires forall k :: 0 <= k < |accounts| ==> accounts[k].id != Some(id)
    ensures WithoutId(accounts, id) == accounts
  {
    if accounts != [] {
      WithoutAbsentId(accounts[1..], id);
      assert [accounts[0]] + accounts[1..] == accounts;
    }
  }

  /** Removing twice is removing once. */
  lemma RemoveIdempotent(s: Store, id: string)
    ensures RemoveAccount(RemoveAccount(s, id, Ok(())), id, Ok(())).accounts
         == RemoveAccount(s, id, Ok(())).accounts
  {
    WithoutAbsentId(WithoutId(s.accounts, id), id);
  }

  /** Removal undoes creation: adding an account whose server-assigned id is
      new, then removing that id, leaves the list as it was. */
  lemma AddThenRemove(s: Store, account: Account, created: Account, id: string)
    requires created.id == Some(id)
    requires forall k :: 0 <= k < |s.accounts| ==> s.accounts[k].id != Some(id)
    ensures RemoveAccount(Add(s, account, Ok(created)).0, id, Ok(())).accounts == s.accounts
  {
    WithoutIdAppend(s.accounts, [created], id);
    WithoutAbsentId(s.accounts, id);
    assert WithoutId([created], id) == [];
  }

  /** An update keeps every id in place, and the sent account is in the list
      afterwards exactly when some entry already had its id. */
  lemma UpdateKeepsIds(s: Store, account: Account)
    ensures var r := Update(s, account, Ok(()));
            && (forall k :: 0 <= k < |s.accounts| ==> r.accounts[k].id == s.accounts[k].id)
            && (account in r.accounts <==> exists k :: 0 <= k < |s.accounts| && s.accounts[k].id == account.id)
  {
    var r := Update(s, account, Ok(()));
    var k := FindIndex(s.accounts, account.id);
    if k != -1 {
      assert r.accounts[k] == account;
    }
  }

  /** Sending the same update twice gives the list one update gives. */
  lemma UpdateIdempotent(s: Store, account: Account)
    ensures Update(Update(s, account, Ok(())), account, Ok(())).accounts == Update(s, account, Ok(())).accounts
  {
    var once := Update(s, account, Ok(()));
    var twice := Update(once, account, Ok(()));
    forall k | 0 <= k < |s.accounts| ensures twice.accounts[k] == once.accounts[k] {
      if FirstWithId(once.accounts, account.id, k) {
        assert FirstWithId(s.accounts, account.id, k) by {
          forall j | 0 <= j < k ensures s.accounts[j].id != account.id {
            assert once.accounts[j].id != account.id;
          }
          if !FirstWithId(s.accounts, account.id, k) {
            assert once.accounts[k] == s.accounts[k];
          }
        }
      }
    }
  }
}
