/** The generated account, entry and transfer queries, each read from its SQL
    text and stated as a pure operation on an immutable store. */
module Queries {
  import opened Wrappers

  /** The message of `sql.ErrNoRows`: a `:one` query whose WHERE clause matched no row. */
  const ErrNoRows: Error := "sql: no rows in result set"

  /** PostgreSQL's rejections of a negative LIMIT or OFFSET. */
  const ErrNegativeLimit: Error := "LIMIT must not be negative"
  const ErrNegativeOffset: Error := "OFFSET must not be negative"

  /** A failure the database or driver may report for one statement (bigint overflow,
      a foreign-key violation, a lost connection, a cancelled context). `Some(e)` makes
      the statement fail with `e` and change nothing; `None` lets it run. */
  type Fault = Option<Error>

  /** Go's `int32`, the type of ListAccounts' LIMIT and OFFSET arguments. */
  newtype int32 = x: int | -0x8000_0000 <= x < 0x8000_0000

  datatype Account = Account(id: int, owner: string, balance: int)

  datatype Entry = Entry(id: int, accountId: int, amount: int)

  datatype Transfer = Transfer(id: int, fromAccountId: int, toAccountId: int, amount: int)

  /** The database: the accounts table keyed by id, the entries and transfers tables in
      insertion order, the next value of the id sequence, and the ids of the account rows
      that row-locking statements have locked, in the order they locked them. */
  datatype State = State(
    accounts: map<int, Account>,
    entries: seq<Entry>,
    transfers: seq<Transfer>,
    nextId: int,
    lockLog: seq<int>)

  const Empty: State := State(map[], [], [], 1, [])

  /** Invariant of every reachable state: each account is stored under its own id, and
      every id already handed out lies below `nextId`, entries and transfers in ascending id order. */
  ghost predicate Valid(s: State) {
    && (forall k :: k in s.accounts ==> s.accounts[k].id == k && k < s.nextId)
    && (forall i :: 0 <= i < |s.entries| ==> s.entries[i].id < s.nextId)
    && (forall i, j :: 0 <= i < j < |s.entries| ==> s.entries[i].id < s.entries[j].id)
    && (forall i :: 0 <= i < |s.transfers| ==> s.transfers[i].id < s.nextId)
    && (forall i, j :: 0 <= i < j < |s.transfers| ==> s.transfers[i].id < s.transfers[j].id)
  }

  /** The freshly migrated database satisfies the invariant. */
  lemma EmptyIsValid()
    ensures Valid(Empty) && Empty.accounts == map[] && Empty.entries == [] && Empty.transfers == []
  {
  }

  /** Entries, transfers and the id sequence are the same in `s` and `t`. */
  predicate SameLedger(s: State, t: State) {
    s.entries == t.entries && s.transfers == t.transfers && s.nextId == t.nextId
  }

  /** `t` holds exactly the accounts of `s`, with the same ids and owners. */
  predicate SameAccountRows(s: State, t: State) {
    && t.accounts.Keys == s.accounts.Keys
    && forall k :: k in s.accounts ==>
         t.accounts[k].id == s.accounts[k].id && t.accounts[k].owner == s.accounts[k].owner
  }

  /** The first row of `rows` whose id is `id`. */
  function Find<T>(rows: seq<T>, idOf: T -> int, id: int): (r: Option<T>)
    ensures r.Some? ==> r.value in rows && idOf(r.value) == id
    ensures r.None? <==> forall i :: 0 <= i < |rows| ==> idOf(rows[i]) != id
  {
    if rows == [] then None
    else if idOf(rows[0]) == id then Some(rows[0])
    else Find(rows[1..], idOf, id)
  }

  /** Adds `amount` to the balance of account `id`, locking its row, and returns the updated row. */
  function AddAccountBalance(s: State, id: int, amount: int, fault: Fault): (r: Result<(Account, State)>)
    ensures fault.Some? ==> r == Err(fault.value)
    ensures fault.None? ==> (r.Ok? <==> id in s.accounts) && (r.Err? ==> r.error == ErrNoRows)
    ensures r.Ok? ==>
      var (a, t) := r.value;
      && a.id == s.accounts[id].id && a.owner == s.accounts[id].owner
      && a.balance == s.accounts[id].balance + amount
      && t.accounts.Keys == s.accounts.Keys && t.accounts[id] == a
      && (forall k :: k in s.accounts && k != id ==> t.accounts[k] == s.accounts[k])
      && SameLedger(s, t) && t.lockLog == s.lockLog + [id]
      && (Valid(s) ==> Valid(t))
  {
    if fault.Some? then Err(fault.value)
    else if id !in s.accounts then Err(ErrNoRows)
    else
      var row := s.accounts[id];
      var updated := Account(row.id, row.owner, row.balance + amount);
      Ok((updated, s.(accounts := s.accounts[id := updated], lockLog := s.lockLog + [id])))
  }

  /** Inserts an account under the next id of the sequence and returns the stored row. */
  function CreateAccount(s: State, owner: string, balance: int, fault: Fault): (r: Result<(Account, State)>)
    ensures fault.Some? <==> r.Err?
    ensures r.Err? ==> r.error == fault.value
    ensures r.Ok? ==>
      var (a, t) := r.value;
      && a.owner == owner && a.balance == balance
      && (Valid(s) ==> a.id !in s.accounts && Valid(t))
      && t.accounts == s.accounts[a.id := a]
      && t.entries == s.entries && t.transfers == s.transfers && t.lockLog == s.lockLog
  {
    if fault.Some? then Err(fault.value)
    else
      var a := Account(s.nextId, owner, balance);
      Ok((a, s.(accounts := s.accounts[a.id := a], nextId := s.nextId + 1)))
  }

  /** Appends an entry under the next id of the sequence and returns the stored row. */
  function CreateEntry(s: State, accountId: int, amount: int, fault: Fault): (r: Result<(Entry, State)>)
    ensures fault.Some? <==> r.Err?
    ensures r.Err? ==> r.error == fault.value
    ensures r.Ok? ==>
      var (e, t) := r.value;
      && e.accountId == accountId && e.amount == amount
      && t.entries == s.entries + [e]
      && e.id == s.nextId && t.nextId > e.id
      && (Valid(s) ==> Valid(t))
      && t.accounts == s.accounts && t.transfers == s.transfers && t.lockLog == s.lockLog
  {
    if fault.Some? then Err(fault.value)
    else
      var e := Entry(s.nextId, accountId, amount);
      Ok((e, s.(entries := s.entries + [e], nextId := s.nextId + 1)))
  }

  /** Appends a transfer under the next id of the sequence and returns the stored row. */
  function CreateTransfer(s: State, fromAccountId: int, toAccountId: int, amount: int, fault: Fault): (r: Result<(Transfer, State)>)
    ensures fault.Some? <==> r.Err?
    ensures r.Err? ==> r.error == fault.value
    ensures r.Ok? ==>
      var (x, t) := r.value;
      && x.fromAccountId == fromAccountId && x.toAccountId == toAccountId && x.amount == amount
      && t.transfers == s.transfers + [x]
      && x.id == s.nextId && t.nextId > x.id
      && (Valid(s) ==> Valid(t))
      && t.accounts == s.accounts && t.entries == s.entries && t.lockLog == s.lockLog
  {
    if fault.Some? then Err(fault.value)
    else
      var x := Transfer(s.nextId, fromAccountId, toAccountId, amount);
      Ok((x, s.(transfers := s.transfers + [x], nextId := s.nextId + 1)))
  }

  /** Removes account `id`, locking its row if it exists; the query reports no row count,
      so deleting a missing id succeeds and changes nothing. */
  function DeleteAccount(s: State, id: int, fault: Fault): (r: Result<State>)
    ensures fault.Some? <==> r.Err?
    ensures r.Err? ==> r.error == fault.value
    ensures r.Ok? ==>
      var t := r.value;
      && id !in t.accounts
      && t.accounts.Keys == s.accounts.Keys - {id}
      && (forall k :: k in t.accounts ==> t.accounts[k] == s.accounts[k])
      && SameLedger(s, t)
      && t.lockLog == (if id in s.accounts then s.lockLog + [id] else s.lockLog)
      && (Valid(s) ==> Valid(t))
  {
    if fault.Some? then Err(fault.value)
    else if id !in s.accounts then Ok(s)
    else Ok(s.(accounts := s.accounts - {id}, lockLog := s.lockLog + [id]))
  }

  /** Reads account `id`, or fails with `ErrNoRows`. */
  function GetAccount(s: State, id: int, fault: Fault): (r: Result<Account>)
    ensures fault.Some? ==> r == Err(fault.value)
    ensures fault.None? ==> (r.Ok? <==> id in s.accounts) && (r.Err? ==> r.error == ErrNoRows)
    ensures r.Ok? ==> r.value in s.accounts.Values && (Valid(s) ==> r.value.id == id)
  {
    if fault.Some? then Err(fault.value)
    else if id !in s.accounts then Err(ErrNoRows)
    else Ok(s.accounts[id])
  }

  /** Reads account `id` and locks its row for the rest of the transaction. */
  function GetAccountForUpdate(s: State, id: int, fault: Fault): (r: Result<(Account, State)>)
    ensures fault.Some? ==> r == Err(fault.value)
    ensures fault.None? ==> (r.Ok? <==> id in s.accounts) && (r.Err? ==> r.error == ErrNoRows)
    ensures r.Ok? ==>
      var (a, t) := r.value;
      && a == s.accounts[id] && (Valid(s) ==> a.id == id)
      && t == s.(lockLog := s.lockLog + [id])
      && (Valid(s) ==> Valid(t))
  {
    if fault.Some? then Err(fault.value)
    else if id !in s.accounts then Err(ErrNoRows)
    else Ok((s.accounts[id], s.(lockLog := s.lockLog + [id])))
  }

  /** Reads the first entry with id `id`, or fails with `ErrNoRows`. */
  function GetEntry(s: State, id: int, fault: Fault): (r: Result<Entry>)
    ensures fault.Some? ==> r == Err(fault.value)
    ensures fault.None? ==>
      (r.Ok? <==> exists i :: 0 <= i < |s.entries| && s.entries[i].id == id)
    ensures fault.None? && r.Err? ==> r.error == ErrNoRows
    ensures r.Ok? ==> r.value in s.entries && r.value.id == id
  {
    if fault.Some? then Err(fault.value)
    else match Find(s.entries, (e: Entry) => e.id, id)
      case None => Err(ErrNoRows)
      case Some(e) => Ok(e)
  }

  /** Reads the first transfer with id `id`, or fails with `ErrNoRows`. */
  function GetTransfer(s: State, id: int, fault: Fault): (r: Result<Transfer>)
    ensures fault.Some? ==> r == Err(fault.value)
    ensures fault.None? ==>
      (r.Ok? <==> exists i :: 0 <= i < |s.transfers| && s.transfers[i].id == id)
    ensures fault.None? && r.Err? ==> r.error == ErrNoRows
    ensures r.Ok? ==> r.value in s.transfers && r.value.id == id
  {
    if fault.Some? then Err(fault.value)
    else match Find(s.transfers, (x: Transfer) => x.id, id)
      case None => Err(ErrNoRows)
      case Some(x) => Ok(x)
  }

  /** Overwrites the balance of account `id`, locking its row, and returns the updated row. */
  function UpdateAccount(s: State, id: int, balance: int, fault: Fault): (r: Result<(Account, State)>)
    ensures fault.Some? ==> r == Err(fault.value)
    ensures fault.None? ==> (r.Ok? <==> id in s.accounts) && (r.Err? ==> r.error == ErrNoRows)
    ensures r.Ok? ==>
      var (a, t) := r.value;
      && a.id == s.accounts[id].id && a.owner == s.accounts[id].owner && a.balance == balance
      && t.accounts.Keys == s.accounts.Keys && t.accounts[id] == a
      && (forall k :: k in s.accounts && k != id ==> t.accounts[k] == s.accounts[k])
      && SameLedger(s, t) && t.lockLog == s.lockLog + [id]
      && (Valid(s) ==> Valid(t))
  {
    if fault.Some? then Err(fault.value)
    else if id !in s.accounts then Err(ErrNoRows)
    else
      var row := s.accounts[id];
      var updated := Account(row.id, row.owner, balance);
      Ok((updated, s.(accounts := s.accounts[id := updated], lockLog := s.lockLog + [id])))
  }

  /** Adds `balance` to the balance of account `id`, locking its row, and returns the
      updated row: the same statement as AddAccountBalance, with the id bound to the first SQL
      placeholder and the amount to the second, the other way round from AddAccountBalance. */
  function UpdateAccountBalance(s: State, id: int, balance: int, fault: Fault): (r: Result<(Account, State)>)
    ensures fault.Some? ==> r == Err(fault.value)
    ensures fault.None? ==> (r.Ok? <==> id in s.accounts) && (r.Err? ==> r.error == ErrNoRows)
    ensures r.Ok? ==>
      var (a, t) := r.value;
      && a.id == s.accounts[id].id && a.owner == s.accounts[id].owner
      && a.balance == s.accounts[id].balance + balance
      && t.accounts.Keys == s.accounts.Keys && t.accounts[id] == a
      && (forall k :: k in s.accounts && k != id ==> t.accounts[k] == s.accounts[k])
      && SameLedger(s, t) && t.lockLog == s.lockLog + [id]
      && (Valid(s) ==> Valid(t))
  {
    if fault.Some? then Err(fault.value)
    else if id !in s.accounts then Err(ErrNoRows)
    else
      var row := s.accounts[id];
      var updated := Account(row.id, row.owner, row.balance + balance);
      Ok((updated, s.(accounts := s.accounts[id := updated], lockLog := s.lockLog + [id])))
  }

  /** The position of `id` in `ORDER BY id` over `ids`: how many ids sort before it. */
  function Rank(ids: set<int>, id: int): nat {
    |set k | k in ids && k < id|
  }

  predicate StrictlyAscending(rows: seq<Account>) {
    forall i, j :: 0 <= i < j < |rows| ==> rows[i].id < rows[j].id
  }

  /** A non-empty set of ids has a member. */
  lemma NonEmptyHasMember(ids: set<int>)
    requires ids != {}
    ensures exists k :: k in ids
  {
    if forall k :: k !in ids {
      assert false;
    }
  }

  /** The least element of a non-empty set of ids. */
  method MinOf(ids: set<int>) returns (m: int)
    requires ids != {}
    ensures m in ids && forall k :: k in ids ==> m <= k
  {
    NonEmptyHasMember(ids);
    m :| m in ids;
    var rest := ids - {m};
    while rest != {}
      invariant rest <= ids && m in ids
      invariant forall k :: k in ids - rest ==> m <= k
      decreases rest
    {
      NonEmptyHasMember(rest);
      var k :| k in rest;
      assert ids - (rest - {k}) == (ids - rest) + {k};
      if k < m {
        m := k;
      }
      rest := rest - {k};
    }
    assert ids - rest == ids;
  }

  lemma {:induction false} SubsetCard(a: set<int>, b: set<int>)
    requires a <= b
    ensures |a| <= |b|
    decreases b
  {
    if a != {} {
      NonEmptyHasMember(a);
      var x :| x in a;
      SubsetCard(a - {x}, b - {x});
    }
  }

  /** When every id already listed sorts before every id still to list, the least id
      still to list has rank equal to the number listed, and every other one ranks after it. */
  lemma RankOfLeast(ids: set<int>, rest: set<int>, m: int)
    requires rest <= ids && m in rest
    requires forall k, j :: k in ids - rest && j in rest ==> k < j
    requires forall k :: k in rest ==> m <= k
    ensures Rank(ids, m) == |ids - rest|
    ensures ids - (rest - {m}) == (ids - rest) + {m}
    ensures forall j :: j in rest - {m} ==> Rank(ids, j) >= |ids - rest| + 1
    ensures forall k, j :: k in ids - (rest - {m}) && j in rest - {m} ==> k < j
  {
    assert (set k | k in ids && k < m) == ids - rest;
    assert ids - (rest - {m}) == (ids - rest) + {m};
    forall j | j in rest - {m}
      ensures Rank(ids, j) >= |ids - rest| + 1
    {
      var below := set k | k in ids && k < j;
      forall x | x in ids - (rest - {m})
        ensures x in below
      {
        if x != m {
          assert x in ids - rest;
        }
      }
      SubsetCard(ids - (rest - {m}), below);
    }
    forall k, j | k in ids - (rest - {m}) && j in rest - {m}
      ensures k < j
    {
      if k != m {
        assert k in ids - rest;
      }
    }
  }

  /** `xs` lists, in ascending order, exactly the ids of `ids` that are not in `rest`,
      and all of them sort before every id of `rest`. */
  ghost predicate SortedPrefix(ids: set<int>, rest: set<int>, xs: seq<int>) {
    && rest <= ids
    && |xs| == |ids - rest|
    && (forall k, j :: k in ids - rest && j in rest ==> k < j)
    && (forall j :: j in rest ==> Rank(ids, j) >= |xs|)
    && (forall i, j :: 0 <= i < j < |xs| ==> xs[i] < xs[j])
    && (forall i :: 0 <= i < |xs| ==> xs[i] in ids - rest && Rank(ids, xs[i]) == i)
    && (forall k :: k in ids - rest ==> k in xs)
  }

  /** Moving the least remaining id to the end of the list keeps `SortedPrefix`. */
  lemma SortedPrefixStep(ids: set<int>, rest: set<int>, xs: seq<int>, m: int)
    requires SortedPrefix(ids, rest, xs)
    requires m in rest && forall k :: k in rest ==> m <= k
    ensures SortedPrefix(ids, rest - {m}, xs + [m])
  {
    RankOfLeast(ids, rest, m);
  }

  /** The ids in ascending order: the i-th is the one of rank i. */
  method SortedIds(ids: set<int>) returns (xs: seq<int>)
    ensures |xs| == |ids|
    ensures forall i, j :: 0 <= i < j < |xs| ==> xs[i] < xs[j]
    ensures forall i :: 0 <= i < |xs| ==> xs[i] in ids && Rank(ids, xs[i]) == i
    ensures forall k :: k in ids ==> k in xs
  {
    var rest := ids;
    xs := [];
    while rest != {}
      invariant SortedPrefix(ids, rest, xs)
      decreases rest
    {
      var m := MinOf(rest);
      SortedPrefixStep(ids, rest, xs, m);
      xs := xs + [m];
      rest := rest - {m};
    }
    assert ids - rest == ids;
  }

  /** The rows of the ids at positions `offset` to `offset + limit` of `xs`, cut at its end. */
  function Page(accounts: map<int, Account>, xs: seq<int>, offset: nat, limit: nat): (rows: seq<Account>)
    requires forall i :: 0 <= i < |xs| ==> xs[i] in accounts
    ensures |rows| <= limit
    ensures forall i :: 0 <= i < |rows| ==> offset + i < |xs| && rows[i] == accounts[xs[offset + i]]
    ensures forall i :: offset <= i < offset + limit && i < |xs| ==> accounts[xs[i]] in rows
  {
    var lo := if offset <= |xs| then offset else |xs|;
    var hi := if offset + limit <= |xs| then offset + limit else |xs|;
    var rows := seq(hi - lo, i requires 0 <= i < hi - lo => accounts[xs[lo + i]]);
    assert forall i :: offset <= i < offset + limit && i < |xs| ==> rows[i - lo] == accounts[xs[i]];
    rows
  }

  /** A page of the ascending id list is a page of the accounts in `ORDER BY id`. */
  lemma PageOfSortedIds(accounts: map<int, Account>, xs: seq<int>, offset: nat, limit: nat)
    requires forall k :: k in accounts ==> accounts[k].id == k
    requires forall i, j :: 0 <= i < j < |xs| ==> xs[i] < xs[j]
    requires forall i :: 0 <= i < |xs| ==> xs[i] in accounts && Rank(accounts.Keys, xs[i]) == i
    requires forall k :: k in accounts ==> k in xs
    ensures var rows := Page(accounts, xs, offset, limit);
      && StrictlyAscending(rows)
      && (forall i :: 0 <= i < |rows| ==>
            && rows[i].id in accounts && accounts[rows[i].id] == rows[i]
            && offset <= Rank(accounts.Keys, rows[i].id) < offset + limit)
      && (forall k :: k in accounts && offset <= Rank(accounts.Keys, k) < offset + limit ==> accounts[k] in rows)
  {
    var rows := Page(accounts, xs, offset, limit);
    assert forall i :: 0 <= i < |rows| ==> rows[i].id == xs[offset + i];
    forall k | k in accounts && offset <= Rank(accounts.Keys, k) < offset + limit
      ensures accounts[k] in rows
    {
      var i :| 0 <= i < |xs| && xs[i] == k;
    }
  }

  /** The accounts in ascending id order, skipping the first `offset` and returning at
      most `limit`; PostgreSQL rejects a negative LIMIT or OFFSET, checking OFFSET first. */
  method ListAccounts(s: State, limit: int32, offset: int32, fault: Fault) returns (r: Result<seq<Account>>)
    requires Valid(s)
    ensures r.Err? <==> fault.Some? || limit < 0 || offset < 0
    ensures fault.Some? ==> r == Err(fault.value)
    ensures fault.None? && offset < 0 ==> r == Err(ErrNegativeOffset)
    ensures fault.None? && offset >= 0 && limit < 0 ==> r == Err(ErrNegativeLimit)
    ensures r.Ok? ==> |r.value| <= limit as int && StrictlyAscending(r.value)
    ensures r.Ok? ==> forall i :: 0 <= i < |r.value| ==>
      && r.value[i].id in s.accounts && s.accounts[r.value[i].id] == r.value[i]
      && offset as int <= Rank(s.accounts.Keys, r.value[i].id) < offset as int + limit as int
    ensures r.Ok? ==> forall k ::
      k in s.accounts && offset as int <= Rank(s.accounts.Keys, k) < offset as int + limit as int
      ==> s.accounts[k] in r.value
  {
    if fault.Some? {
      return Err(fault.value);
    }
    if offset < 0 {
      return Err(ErrNegativeOffset);
    }
    if limit < 0 {
      return Err(ErrNegativeLimit);
    }
    var xs := SortedIds(s.accounts.Keys);
    PageOfSortedIds(s.accounts, xs, offset as int, limit as int);
    return Ok(Page(s.accounts, xs, offset as int, limit as int));
  }

  /** UpdateAccountBalance adds to the stored balance exactly as AddAccountBalance does. */
  lemma UpdateAccountBalanceIsAdd(s: State, id: int, delta: int, fault: Fault)
    ensures UpdateAccountBalance(s, id, delta, fault) == AddAccountBalance(s, id, delta, fault)
  {
  }

  /** UpdateAccount overwrites: a second identical call returns the same row and leaves the same accounts. */
  lemma UpdateAccountIdempotent(s: State, id: int, balance: int)
    requires UpdateAccount(s, id, balance, None).Ok?
    ensures
      var (a1, s1) := UpdateAccount(s, id, balance, None).value;
      var r2 := UpdateAccount(s1, id, balance, None);
      r2.Ok? && r2.value.0 == a1 && r2.value.1.accounts == s1.accounts && SameLedger(s1, r2.value.1)
  {
  }

  /** The locking read returns what the plain read returns; only the lock log differs. */
  lemma GetAccountForUpdateAgrees(s: State, id: int, fault: Fault)
    ensures GetAccount(s, id, fault).Ok? <==> GetAccountForUpdate(s, id, fault).Ok?
    ensures GetAccount(s, id, fault).Err? ==> GetAccount(s, id, fault) == GetAccountForUpdate(s, id, fault).PropagateFailure()
    ensures GetAccount(s, id, fault).Ok? ==>
      var (a, t) := GetAccountForUpdate(s, id, fault).value;
      a == GetAccount(s, id, fault).value && t.accounts == s.accounts && SameLedger(s, t)
  {
  }

  /** In a valid state the i-th stored entry is what GetEntry returns for its id. */
  lemma {:induction false} GetEntryReturnsStored(s: State, i: int)
    requires Valid(s) && 0 <= i < |s.entries|
    ensures GetEntry(s, s.entries[i].id, None) == Ok(s.entries[i])
  {
    var r := GetEntry(s, s.entries[i].id, None);
    assert r.Ok?;
    var j :| 0 <= j < |s.entries| && s.entries[j] == r.value;
    assert forall a, b :: 0 <= a < |s.entries| && 0 <= b < |s.entries| && a != b ==> s.entries[a].id != s.entries[b].id;
  }

  /** In a valid state the i-th stored transfer is what GetTransfer returns for its id. */
  lemma {:induction false} GetTransferReturnsStored(s: State, i: int)
    requires Valid(s) && 0 <= i < |s.transfers|
    ensures GetTransfer(s, s.transfers[i].id, None) == Ok(s.transfers[i])
  {
    var r := GetTransfer(s, s.transfers[i].id, None);
    assert r.Ok?;
    var j :| 0 <= j < |s.transfers| && s.transfers[j] == r.value;
    assert forall a, b :: 0 <= a < |s.transfers| && 0 <= b < |s.transfers| && a != b ==> s.transfers[a].id != s.transfers[b].id;
  }

  /** CreateEntry stores its arguments verbatim, and GetEntry returns that row for its new id. */
  lemma CreateEntryThenGet(s: State, accountId: int, amount: int)
    requires Valid(s)
    ensures CreateEntry(s, accountId, amount, None).Ok?
    ensures
      var (e, t) := CreateEntry(s, accountId, amount, None).value;
      e.accountId == accountId && e.amount == amount && GetEntry(t, e.id, None) == Ok(e)
  {
    var (e, t) := CreateEntry(s, accountId, amount, None).value;
    GetEntryReturnsStored(t, |t.entries| - 1);
  }

  /** CreateTransfer stores its arguments verbatim, and GetTransfer returns that row for its new id. */
  lemma CreateTransferThenGet(s: State, fromAccountId: int, toAccountId: int, amount: int)
    requires Valid(s)
    ensures CreateTransfer(s, fromAccountId, toAccountId, amount, None).Ok?
    ensures
      var (x, t) := CreateTransfer(s, fromAccountId, toAccountId, amount, None).value;
      && x.fromAccountId == fromAccountId && x.toAccountId == toAccountId && x.amount == amount
      && GetTransfer(t, x.id, None) == Ok(x)
  {
    var (x, t) := CreateTransfer(s, fromAccountId, toAccountId, amount, None).value;
    GetTransferReturnsStored(t, |t.transfers| - 1);
  }

  /** CreateAccount's new row is what GetAccount returns for its id. */
  lemma CreateAccountThenGet(s: State, owner: string, balance: int)
    requires Valid(s)
    ensures CreateAccount(s, owner, balance, None).Ok?
    ensures
      var (a, t) := CreateAccount(s, owner, balance, None).value;
      a.owner == owner && a.balance == balance && GetAccount(t, a.id, None) == Ok(a)
  {
  }

  /** After DeleteAccount the row is gone for GetAccount, and every other account reads as before. */
  lemma DeleteThenGet(s: State, id: int)
    ensures DeleteAccount(s, id, None).Ok?
    ensures
      var t := DeleteAccount(s, id, None).value;
      && GetAccount(t, id, None) == Err(ErrNoRows)
      && forall k :: k != id ==> GetAccount(t, k, None) == GetAccount(s, k, None)
  {
  }
}
