/** The transaction wrapper and the money-transfer transaction of store.go,
    over the query model. */
module Store {
  import opened Wrappers
  import opened Queries
  import opened Balances

  // ---------------------------------------------------------------------------
  // execTx

  /** Failures of the transaction's own statements: BEGIN, COMMIT and ROLLBACK. */
  datatype TxFaults = TxFaults(begin: Fault, commit: Fault, rollback: Fault)

  const NoTxFaults: TxFaults := TxFaults(None, None, None)

  /** The error execTx builds when the rollback after a failed unit of work fails too. */
  function RollbackError(txErr: Error, rbErr: Error): Error {
    "tx err: " + txErr + ", rb err: " + rbErr
  }

  /** The unit of work runs on the state BEGIN opened; its changes become the database
      only when it succeeds and COMMIT succeeds, and every failure leaves the state as it was. */
  function ExecTx<T>(s: State, work: State -> Result<(T, State)>, f: TxFaults): (r: (Result<T>, State))
    ensures r.0.Err? ==> r.1 == s
    ensures r.0.Ok? <==> f.begin.None? && work(s).Ok? && f.commit.None?
    ensures r.0.Ok? ==> r.0.value == work(s).value.0 && r.1 == work(s).value.1
    ensures f.begin.Some? ==> r.0 == Err(f.begin.value)
    ensures f.begin.None? && work(s).Err? ==>
      r.0 == Err(if f.rollback.Some? then RollbackError(work(s).error, f.rollback.value) else work(s).error)
    ensures f.begin.None? && work(s).Ok? && f.commit.Some? ==> r.0 == Err(f.commit.value)
  {
    if f.begin.Some? then (Err(f.begin.value), s)
    else match work(s)
      case Err(e) =>
        if f.rollback.Some? then (Err(RollbackError(e, f.rollback.value)), s) else (Err(e), s)
      case Ok((v, committed)) =>
        if f.commit.Some? then (Err(f.commit.value), s) else (Ok(v), committed)
  }

  /** When BEGIN fails the unit of work never runs: the outcome does not depend on it. */
  lemma ExecTxBeginFailure<T>(s: State, w1: State -> Result<(T, State)>, w2: State -> Result<(T, State)>, f: TxFaults)
    requires f.begin.Some?
    ensures ExecTx(s, w1, f) == ExecTx(s, w2, f) == (Err(f.begin.value), s)
  {
  }

  /** A failed unit of work is rolled back: with a clean rollback its own error is returned
      unchanged, and a failed rollback yields an error carrying both messages. */
  lemma ExecTxRollback<T>(s: State, work: State -> Result<(T, State)>, f: TxFaults)
    requires f.begin.None? && work(s).Err?
    ensures ExecTx(s, work, f).1 == s
    ensures f.rollback.None? ==> ExecTx(s, work, f).0 == Err(work(s).error)
    ensures f.rollback.Some? ==>
      var e := ExecTx(s, work, f).0;
      e.Err? && Contains(e.error, work(s).error) && Contains(e.error, f.rollback.value)
  {
    if f.rollback.Some? {
      RollbackErrorCarriesBoth(work(s).error, f.rollback.value);
    }
  }

  /** The combined rollback error contains the original error and the rollback error. */
  lemma RollbackErrorCarriesBoth(txErr: Error, rbErr: Error)
    ensures Contains(RollbackError(txErr, rbErr), txErr)
    ensures Contains(RollbackError(txErr, rbErr), rbErr)
  {
    var m := RollbackError(txErr, rbErr);
    assert m[8..8 + |txErr|] == txErr;
    var j := 8 + |txErr| + 10;
    assert m[j..j + |rbErr|] == rbErr;
  }

  // ---------------------------------------------------------------------------
  // TransferTx

  datatype TransferTxParams = TransferTxParams(fromAccountId: int, toAccountId: int, amount: int)

  datatype TransferTxResult = TransferTxResult(
    transfer: Transfer,
    fromAccount: Account,
    toAccount: Account,
    fromEntry: Entry,
    toEntry: Entry)

  /** Failures of the five statements of the transfer, in program order; the two balance
      updates are named by the order AddMoney runs them in, not by account role. */
  datatype TransferFaults = TransferFaults(
    createTransfer: Fault,
    fromEntry: Fault,
    toEntry: Fault,
    firstAdd: Fault,
    secondAdd: Fault)

  const NoTransferFaults: TransferFaults := TransferFaults(None, None, None, None, None)

  function Min(a: int, b: int): int {
    if a < b then a else b
  }

  function Max(a: int, b: int): int {
    if a < b then b else a
  }

  /** The change a transfer is meant to make to the balance of account `k`. */
  function NetChange(arg: TransferTxParams, k: int): int {
    (if k == arg.fromAccountId then -arg.amount else 0) + (if k == arg.toAccountId then arg.amount else 0)
  }

  /** Applies two balance deltas in the given order, stopping at the first failure. */
  function AddMoney(s: State, id1: int, amount1: int, id2: int, amount2: int, f1: Fault, f2: Fault)
    : (r: Result<((Account, Account), State)>)
    ensures f1.Some? ==> r == Err(f1.value)
    ensures f1.None? && id1 !in s.accounts ==> r == Err(ErrNoRows)
    ensures f1.None? && id1 in s.accounts ==>
      && (f2.Some? ==> r == Err(f2.value))
      && (f2.None? && id2 !in s.accounts ==> r == Err(ErrNoRows))
    ensures r.Ok? <==> f1.None? && f2.None? && id1 in s.accounts && id2 in s.accounts
    ensures r.Ok? ==>
      var ((a1, a2), t) := r.value;
      && SameAccountRows(s, t) && SameLedger(s, t)
      && a1 == s.accounts[id1].(balance := s.accounts[id1].balance + amount1)
      && a2 == t.accounts[id2]
      && (forall k :: k in s.accounts ==>
            t.accounts[k].balance
            == s.accounts[k].balance + (if k == id1 then amount1 else 0) + (if k == id2 then amount2 else 0))
      && t.lockLog == s.lockLog + [id1, id2]
  {
    var first :- AddAccountBalance(s, id1, amount1, f1);
    var second :- AddAccountBalance(first.1, id2, amount2, f2);
    Ok(((first.0, second.0), second.1))
  }

  /** Steps 1 and 2 of the transfer: the transfer record, then the debit and the credit entry. */
  function RecordTransfer(s: State, arg: TransferTxParams, f: TransferFaults): (r: Result<((Transfer, Entry, Entry), State)>)
    ensures r.Ok? <==> f.createTransfer.None? && f.fromEntry.None? && f.toEntry.None?
    ensures r.Err? ==> r.error == (if f.createTransfer.Some? then f.createTransfer.value
                                   else if f.fromEntry.Some? then f.fromEntry.value
                                   else f.toEntry.value)
    ensures r.Ok? ==>
      var ((x, fe, te), t) := r.value;
      && x.fromAccountId == arg.fromAccountId && x.toAccountId == arg.toAccountId && x.amount == arg.amount
      && fe.accountId == arg.fromAccountId && fe.amount == -arg.amount
      && te.accountId == arg.toAccountId && te.amount == arg.amount
      && t.transfers == s.transfers + [x]
      && t.entries == s.entries + [fe, te]
      && t.accounts == s.accounts && t.lockLog == s.lockLog
      && s.nextId <= x.id < fe.id < te.id < t.nextId
      && (Valid(s) ==> Valid(t))
  {
    var transfer :- CreateTransfer(s, arg.fromAccountId, arg.toAccountId, arg.amount, f.createTransfer);
    var fromEntry :- CreateEntry(transfer.1, arg.fromAccountId, -arg.amount, f.fromEntry);
    var toEntry :- CreateEntry(fromEntry.1, arg.toAccountId, arg.amount, f.toEntry);
    Ok(((transfer.0, fromEntry.0, toEntry.0), toEntry.1))
  }

  /** The first step of the transfer's unit of work that fails, in program order, if any:
      the reference against which TransferTx's errors are checked. */
  function FirstFailure(s: State, arg: TransferTxParams, f: TransferFaults): Option<Error> {
    var lo := Min(arg.fromAccountId, arg.toAccountId);
    var hi := Max(arg.fromAccountId, arg.toAccountId);
    if f.createTransfer.Some? then f.createTransfer
    else if f.fromEntry.Some? then f.fromEntry
    else if f.toEntry.Some? then f.toEntry
    else if f.firstAdd.Some? then f.firstAdd
    else if lo !in s.accounts then Some(ErrNoRows)
    else if f.secondAdd.Some? then f.secondAdd
    else if hi !in s.accounts then Some(ErrNoRows)
    else None
  }

  /** What a successful transfer from `s` produces: the records it adds, the balances it
      moves, the rows it reports and the order in which it locks the two account rows. */
  ghost predicate Transferred(s: State, arg: TransferTxParams, res: TransferTxResult, t: State) {
    var lo := Min(arg.fromAccountId, arg.toAccountId);
    var hi := Max(arg.fromAccountId, arg.toAccountId);
    && lo in s.accounts && hi in s.accounts
    && res.transfer.fromAccountId == arg.fromAccountId
    && res.transfer.toAccountId == arg.toAccountId
    && res.transfer.amount == arg.amount
    && res.fromEntry.accountId == arg.fromAccountId && res.fromEntry.amount == -arg.amount
    && res.toEntry.accountId == arg.toAccountId && res.toEntry.amount == arg.amount
    && t.transfers == s.transfers + [res.transfer]
    && t.entries == s.entries + [res.fromEntry, res.toEntry]
    && SameAccountRows(s, t)
    && (forall k :: k in s.accounts ==> t.accounts[k].balance == s.accounts[k].balance + NetChange(arg, k))
    && t.lockLog == s.lockLog + [lo, hi]
    && res.fromAccount == s.accounts[lo].(balance := s.accounts[lo].balance + (if arg.fromAccountId < arg.toAccountId then -arg.amount else arg.amount))
    && res.toAccount == t.accounts[hi]
  }

  /** The two balance updates of a transfer, lower account id first; the rows come back in
      update order, lower id first. */
  function MoveMoney(s: State, arg: TransferTxParams, f: TransferFaults): (r: Result<((Account, Account), State)>)
    ensures
      var lo, hi := Min(arg.fromAccountId, arg.toAccountId), Max(arg.fromAccountId, arg.toAccountId);
      && (r.Ok? <==> f.firstAdd.None? && lo in s.accounts && f.secondAdd.None? && hi in s.accounts)
      && (r.Err? ==> r.error == (if f.firstAdd.Some? then f.firstAdd.value
                                 else if lo !in s.accounts then ErrNoRows
                                 else if f.secondAdd.Some? then f.secondAdd.value
                                 else ErrNoRows))
      && (r.Ok? ==>
            var ((a1, a2), t) := r.value;
            && SameAccountRows(s, t) && SameLedger(s, t)
            && (forall k :: k in s.accounts ==> t.accounts[k].balance == s.accounts[k].balance + NetChange(arg, k))
            && t.lockLog == s.lockLog + [lo, hi]
            && a1 == s.accounts[lo].(balance := s.accounts[lo].balance + (if arg.fromAccountId < arg.toAccountId then -arg.amount else arg.amount))
            && a2 == t.accounts[hi])
  {
    if arg.fromAccountId < arg.toAccountId then
      AddMoney(s, arg.fromAccountId, -arg.amount, arg.toAccountId, arg.amount, f.firstAdd, f.secondAdd)
    else
      AddMoney(s, arg.toAccountId, arg.amount, arg.fromAccountId, -arg.amount, f.firstAdd, f.secondAdd)
  }

  /** The unit of work TransferTx hands to execTx, as written: the balance updates run
      lower id first, and the first row AddMoney returns becomes `fromAccount` in both branches. */
  function TransferWork(s: State, arg: TransferTxParams, f: TransferFaults): (r: Result<(TransferTxResult, State)>)
    ensures r.Ok? <==> FirstFailure(s, arg, f).None?
    ensures r.Err? ==> r.error == FirstFailure(s, arg, f).value
    ensures r.Ok? ==> Transferred(s, arg, r.value.0, r.value.1)
    ensures r.Ok? && Valid(s) ==> Valid(r.value.1)
  {
    var recorded :- RecordTransfer(s, arg, f);
    var ((transfer, fromEntry, toEntry), q) := recorded;
    var moved :- MoveMoney(q, arg, f);
    var ((account1, account2), t) := moved;
    Ok((TransferTxResult(transfer, account1, account2, fromEntry, toEntry), t))
  }

  /** TransferTx: the transfer's unit of work run by execTx. */
  function TransferTx(s: State, arg: TransferTxParams, f: TransferFaults, tf: TxFaults): (r: (Result<TransferTxResult>, State))
    ensures r.0.Err? ==> r.1 == s
    ensures r.0.Ok? <==> tf.begin.None? && FirstFailure(s, arg, f).None? && tf.commit.None?
    ensures r.0.Ok? ==> Transferred(s, arg, r.0.value, r.1)
    ensures r.0.Ok? && Valid(s) ==> Valid(r.1)
  {
    ExecTx(s, (q: State) => TransferWork(q, arg, f), tf)
  }

  /** The error TransferTx returns: BEGIN's, else the first failing statement's (combined
      with ROLLBACK's when that fails too), else COMMIT's. */
  lemma TransferTxError(s: State, arg: TransferTxParams, f: TransferFaults, tf: TxFaults)
    requires TransferTx(s, arg, f, tf).0.Err?
    ensures TransferTx(s, arg, f, tf).1 == s
    ensures TransferTx(s, arg, f, tf).0.error ==
      if tf.begin.Some? then tf.begin.value
      else if FirstFailure(s, arg, f).Some? then
        (if tf.rollback.Some? then RollbackError(FirstFailure(s, arg, f).value, tf.rollback.value)
         else FirstFailure(s, arg, f).value)
      else tf.commit.value
  {
  }

  /** A failed transfer is decided by its first failing statement alone: the faults of the
      statements after it, which never run, do not change the outcome. */
  lemma TransferTxFailureDependsOnFirst(s: State, arg: TransferTxParams, f: TransferFaults, g: TransferFaults, tf: TxFaults)
    requires FirstFailure(s, arg, f).Some? && FirstFailure(s, arg, g) == FirstFailure(s, arg, f)
    ensures TransferTx(s, arg, f, tf) == TransferTx(s, arg, g, tf)
    ensures TransferTx(s, arg, f, tf).0.Err? && TransferTx(s, arg, f, tf).1 == s
  {
    TransferTxError(s, arg, f, tf);
    TransferTxError(s, arg, g, tf);
  }

  /** When the first balance update fails, the second is skipped: its fault is irrelevant
      and the transaction returns the first update's error with the state untouched. */
  lemma SecondUpdateSkipped(s: State, arg: TransferTxParams, f: TransferFaults, other: Fault, tf: TxFaults)
    requires f.createTransfer.None? && f.fromEntry.None? && f.toEntry.None?
    requires f.firstAdd.Some? || Min(arg.fromAccountId, arg.toAccountId) !in s.accounts
    ensures TransferTx(s, arg, f, tf) == TransferTx(s, arg, f.(secondAdd := other), tf)
    ensures tf.begin.None? && tf.rollback.None? ==>
      TransferTx(s, arg, f, tf) == (Err(if f.firstAdd.Some? then f.firstAdd.value else ErrNoRows), s)
  {
    TransferTxFailureDependsOnFirst(s, arg, f, f.(secondAdd := other), tf);
    TransferTxError(s, arg, f, tf);
  }

  /** A committed transfer stores the request verbatim in its transfer row and in two
      entries that cancel out, and the stored rows read back by id. */
  lemma TransferTxRecordsRequest(s: State, arg: TransferTxParams, f: TransferFaults, tf: TxFaults)
    requires Valid(s)
    ensures TransferTx(s, arg, f, tf).0.Ok? ==>
      var (res, t) := (TransferTx(s, arg, f, tf).0.value, TransferTx(s, arg, f, tf).1);
      && res.transfer.fromAccountId == arg.fromAccountId
      && res.transfer.toAccountId == arg.toAccountId
      && res.transfer.amount == arg.amount
      && res.fromEntry.accountId == arg.fromAccountId && res.fromEntry.amount == -arg.amount
      && res.toEntry.accountId == arg.toAccountId && res.toEntry.amount == arg.amount
      && res.fromEntry.amount + res.toEntry.amount == 0
      && EntryTotal(t.entries[|s.entries|..]) == 0
      && GetTransfer(t, res.transfer.id, None) == Ok(res.transfer)
      && GetEntry(t, res.fromEntry.id, None) == Ok(res.fromEntry)
      && GetEntry(t, res.toEntry.id, None) == Ok(res.toEntry)
  {
    if TransferTx(s, arg, f, tf).0.Ok? {
      var (res, t) := (TransferTx(s, arg, f, tf).0.value, TransferTx(s, arg, f, tf).1);
      assert t.entries[|s.entries|..] == [res.fromEntry, res.toEntry];
      EntrySumsOfPair(res.fromEntry, res.toEntry);
      AppendedRowsReadBack(t, res.transfer, res.fromEntry, res.toEntry);
    }
  }

  /** The last transfer and the last two entries of a valid state read back by id. */
  lemma AppendedRowsReadBack(t: State, x: Transfer, e1: Entry, e2: Entry)
    requires Valid(t) && |t.transfers| >= 1 && |t.entries| >= 2
    requires t.transfers[|t.transfers| - 1] == x
    requires t.entries[|t.entries| - 2] == e1 && t.entries[|t.entries| - 1] == e2
    ensures GetTransfer(t, x.id, None) == Ok(x)
    ensures GetEntry(t, e1.id, None) == Ok(e1) && GetEntry(t, e2.id, None) == Ok(e2)
  {
    GetTransferReturnsStored(t, |t.transfers| - 1);
    GetEntryReturnsStored(t, |t.entries| - 2);
    GetEntryReturnsStored(t, |t.entries| - 1);
  }

  /** The money movement of a transfer, read off what it produced. */
  lemma TransferredMovesMoney(s: State, arg: TransferTxParams, res: TransferTxResult, t: State)
    requires Transferred(s, arg, res, t)
    ensures
      && arg.fromAccountId in t.accounts && arg.toAccountId in t.accounts
      && (arg.fromAccountId != arg.toAccountId ==>
            && t.accounts[arg.fromAccountId].balance == s.accounts[arg.fromAccountId].balance - arg.amount
            && t.accounts[arg.toAccountId].balance == s.accounts[arg.toAccountId].balance + arg.amount)
      && (forall k :: k in s.accounts && k != arg.fromAccountId && k != arg.toAccountId ==> t.accounts[k] == s.accounts[k])
      && TotalBalance(t.accounts) == TotalBalance(s.accounts)
      && (forall k :: k in s.accounts ==>
            t.accounts[k].balance - s.accounts[k].balance == EntrySum(t.entries[|s.entries|..], k))
  {
    var from, to := arg.fromAccountId, arg.toAccountId;
    assert t.entries[|s.entries|..] == [res.fromEntry, res.toEntry];
    EntrySumsOfPair(res.fromEntry, res.toEntry);
    forall k | k in s.accounts && k != from && k != to
      ensures t.accounts[k] == s.accounts[k]
    {
      assert t.accounts[k] == Account(s.accounts[k].id, s.accounts[k].owner, s.accounts[k].balance);
    }
    if from == to {
      SumOverFrame(s.accounts, t.accounts, s.accounts.Keys);
    } else {
      var mid := s.accounts[from := s.accounts[from].(balance := s.accounts[from].balance - arg.amount)];
      TotalAfterChange(s.accounts, mid, from, -arg.amount);
      assert t.accounts[to].balance == mid[to].balance + arg.amount;
      assert forall k :: k in mid && k != to ==> t.accounts[k].balance == mid[k].balance;
      TotalAfterChange(mid, t.accounts, to, arg.amount);
    }
  }

  /** A committed transfer between two different accounts takes `amount` from the source and
      gives it to the destination; every other account is untouched, the total of all
      balances is conserved, and each account's change equals its new entries. */
  lemma TransferTxMovesMoney(s: State, arg: TransferTxParams, f: TransferFaults, tf: TxFaults)
    requires TransferTx(s, arg, f, tf).0.Ok?
    ensures
      var t := TransferTx(s, arg, f, tf).1;
      && arg.fromAccountId in t.accounts && arg.toAccountId in t.accounts
      && (arg.fromAccountId != arg.toAccountId ==>
            && t.accounts[arg.fromAccountId].balance == s.accounts[arg.fromAccountId].balance - arg.amount
            && t.accounts[arg.toAccountId].balance == s.accounts[arg.toAccountId].balance + arg.amount)
      && (forall k :: k in s.accounts && k != arg.fromAccountId && k != arg.toAccountId ==> t.accounts[k] == s.accounts[k])
      && TotalBalance(t.accounts) == TotalBalance(s.accounts)
      && (forall k :: k in s.accounts ==>
            t.accounts[k].balance - s.accounts[k].balance == EntrySum(t.entries[|s.entries|..], k))
  {
    TransferredMovesMoney(s, arg, TransferTx(s, arg, f, tf).0.value, TransferTx(s, arg, f, tf).1);
  }


  /** A self-transfer writes its two entries but leaves every balance as it was; the row it
      reports as `fromAccount` is the intermediate one, credited but not yet debited. */
  lemma TransferTxSelfTransfer(s: State, arg: TransferTxParams, f: TransferFaults, tf: TxFaults)
    requires arg.fromAccountId == arg.toAccountId && TransferTx(s, arg, f, tf).0.Ok?
    ensures
      var (res, t) := (TransferTx(s, arg, f, tf).0.value, TransferTx(s, arg, f, tf).1);
      var id := arg.fromAccountId;
      && (forall k :: k in s.accounts ==> t.accounts[k] == s.accounts[k])
      && |t.entries| == |s.entries| + 2
      && res.fromAccount.balance == s.accounts[id].balance + arg.amount
      && res.toAccount == s.accounts[id]
  {
    var t := TransferTx(s, arg, f, tf).1;
    forall k | k in s.accounts
      ensures t.accounts[k] == s.accounts[k]
    {
      assert t.accounts[k] == Account(s.accounts[k].id, s.accounts[k].owner, s.accounts[k].balance);
    }
  }

  /** A transfer between two existing accounts, with nothing failing, commits: it moves
      `amount` from source to destination, leaves every other account as it was, and when
      the source has the lower id reports each side's balance after the transfer. */
  lemma CleanTransfer(s: State, arg: TransferTxParams)
    requires Valid(s) && arg.fromAccountId in s.accounts && arg.toAccountId in s.accounts
    ensures
      var (r, t) := TransferTx(s, arg, NoTransferFaults, NoTxFaults);
      && r.Ok? && Valid(t) && SameAccountRows(s, t)
      && (forall k :: k in s.accounts ==> t.accounts[k].balance == s.accounts[k].balance + NetChange(arg, k))
      && (forall k :: k in s.accounts && k != arg.fromAccountId && k != arg.toAccountId ==> t.accounts[k] == s.accounts[k])
      && (arg.fromAccountId < arg.toAccountId ==>
            && r.value.fromAccount.balance == t.accounts[arg.fromAccountId].balance
            && r.value.toAccount.balance == t.accounts[arg.toAccountId].balance)
  {
    var (r, t) := TransferTx(s, arg, NoTransferFaults, NoTxFaults);
    forall k | k in s.accounts && k != arg.fromAccountId && k != arg.toAccountId
      ensures t.accounts[k] == s.accounts[k]
    {
      assert t.accounts[k] == Account(s.accounts[k].id, s.accounts[k].owner, s.accounts[k].balance);
    }
  }

  /** Deadlock avoidance: a committed transfer locks the lower account id, then the higher. */
  lemma TransferTxLockOrder(s: State, arg: TransferTxParams, f: TransferFaults, tf: TxFaults)
    requires TransferTx(s, arg, f, tf).0.Ok?
    ensures
      var log := TransferTx(s, arg, f, tf).1.lockLog;
      && |log| == |s.lockLog| + 2 && log[..|s.lockLog|] == s.lockLog
      && log[|s.lockLog|..] == [Min(arg.fromAccountId, arg.toAccountId), Max(arg.fromAccountId, arg.toAccountId)]
      && log[|s.lockLog|] <= log[|s.lockLog| + 1]
      && {log[|s.lockLog|], log[|s.lockLog| + 1]} == {arg.fromAccountId, arg.toAccountId}
  {
  }

  /** As written, `fromAccount` is always the lower-id row and `toAccount` the higher-id row,
      so they carry the request's roles exactly when the source id is not the higher one. */
  lemma TransferTxResultRoles(s: State, arg: TransferTxParams, f: TransferFaults, tf: TxFaults)
    requires Valid(s)
    ensures TransferTx(s, arg, f, tf).0.Ok? ==>
      var res := TransferTx(s, arg, f, tf).0.value;
      && res.fromAccount.id == Min(arg.fromAccountId, arg.toAccountId)
      && res.toAccount.id == Max(arg.fromAccountId, arg.toAccountId)
      && (res.fromAccount.id == arg.fromAccountId <==> arg.fromAccountId <= arg.toAccountId)
      && (res.toAccount.id == arg.toAccountId <==> arg.fromAccountId <= arg.toAccountId)
  {
  }

  /** The role mismatch: when the source id is the higher one, `fromAccount` reports the
      destination after its credit and `toAccount` the source after its debit. */
  lemma TransferTxRoleMismatch(s: State, arg: TransferTxParams, f: TransferFaults, tf: TxFaults)
    requires Valid(s) && arg.fromAccountId > arg.toAccountId
    ensures TransferTx(s, arg, f, tf).0.Ok? ==>
      var res := TransferTx(s, arg, f, tf).0.value;
      && res.fromAccount.id == arg.toAccountId != arg.fromAccountId
      && res.fromAccount.balance == s.accounts[arg.toAccountId].balance + arg.amount
      && res.toAccount.id == arg.fromAccountId
      && res.toAccount.balance == s.accounts[arg.fromAccountId].balance - arg.amount
      && res.fromAccount == s.accounts[arg.toAccountId].(balance := s.accounts[arg.toAccountId].balance + arg.amount)
      && res.toAccount == s.accounts[arg.fromAccountId].(balance := s.accounts[arg.fromAccountId].balance - arg.amount)
  {
  }

  /** Two accounts, 1 with balance 100 and 2 with balance 50, used by the worked examples. */
  const TwoAccounts: State :=
    State(map[1 := Account(1, "A", 100), 2 := Account(2, "B", 50)], [], [], 3, [])

  /** A concrete instance of the mismatch: moving 30 from account 2 to account 1 reports
      account 1, credited to 130, as `fromAccount`. */
  lemma RoleMismatchExample()
    ensures
      var r := TransferTx(TwoAccounts, TransferTxParams(2, 1, 30), NoTransferFaults, NoTxFaults);
      && r.0.Ok?
      && r.0.value.fromAccount == Account(1, "A", 130)
      && r.0.value.toAccount == Account(2, "B", 20)
  {
  }

  // ---------------------------------------------------------------------------
  // TransferTx with the result roles restored

  /** The unit of work with the else branch assigning AddMoney's first row to `toAccount`
      and its second to `fromAccount`; everything else as in TransferWork. */
  function TransferWorkCorrected(s: State, arg: TransferTxParams, f: TransferFaults): (r: Result<(TransferTxResult, State)>)
    ensures r.Ok? <==> FirstFailure(s, arg, f).None?
    ensures r.Err? ==> r.error == FirstFailure(s, arg, f).value
    ensures r.Ok? ==>
      var (res, t) := r.value;
      && arg.fromAccountId in s.accounts && arg.toAccountId in s.accounts
      && t.accounts.Keys == s.accounts.Keys
      && res.fromAccount.id == s.accounts[arg.fromAccountId].id
      && res.toAccount.id == s.accounts[arg.toAccountId].id
      && (arg.fromAccountId != arg.toAccountId ==>
            && res.fromAccount == t.accounts[arg.fromAccountId]
            && res.toAccount == t.accounts[arg.toAccountId])
  {
    var recorded :- RecordTransfer(s, arg, f);
    var ((transfer, fromEntry, toEntry), q) := recorded;
    if arg.fromAccountId < arg.toAccountId then
      var moved :- AddMoney(q, arg.fromAccountId, -arg.amount, arg.toAccountId, arg.amount, f.firstAdd, f.secondAdd);
      var ((fromAccount, toAccount), t) := moved;
      Ok((TransferTxResult(transfer, fromAccount, toAccount, fromEntry, toEntry), t))
    else
      var moved :- AddMoney(q, arg.toAccountId, arg.amount, arg.fromAccountId, -arg.amount, f.firstAdd, f.secondAdd);
      var ((toAccount, fromAccount), t) := moved;
      Ok((TransferTxResult(transfer, fromAccount, toAccount, fromEntry, toEntry), t))
  }

  /** TransferTx with the result roles restored: the same transaction around TransferWorkCorrected. */
  function TransferTxCorrected(s: State, arg: TransferTxParams, f: TransferFaults, tf: TxFaults): (r: (Result<TransferTxResult>, State))
    ensures r.0.Err? ==> r.1 == s
    ensures r.0.Ok? <==> tf.begin.None? && FirstFailure(s, arg, f).None? && tf.commit.None?
  {
    ExecTx(s, (q: State) => TransferWorkCorrected(q, arg, f), tf)
  }

  /** With the roles restored, `fromAccount` and `toAccount` are the request's source and
      destination after the transfer, whichever id is lower. */
  lemma TransferTxCorrectedRoles(s: State, arg: TransferTxParams, f: TransferFaults, tf: TxFaults)
    requires Valid(s) && TransferTxCorrected(s, arg, f, tf).0.Ok? && arg.fromAccountId != arg.toAccountId
    ensures
      var (res, t) := (TransferTxCorrected(s, arg, f, tf).0.value, TransferTxCorrected(s, arg, f, tf).1);
      && res.fromAccount.id == arg.fromAccountId
      && res.toAccount.id == arg.toAccountId
      && res.fromAccount.balance == s.accounts[arg.fromAccountId].balance - arg.amount
      && res.toAccount.balance == s.accounts[arg.toAccountId].balance + arg.amount
      && res.fromAccount == t.accounts[arg.fromAccountId] && res.toAccount == t.accounts[arg.toAccountId]
      && res.fromAccount.owner == s.accounts[arg.fromAccountId].owner
      && res.toAccount.owner == s.accounts[arg.toAccountId].owner
  {
    CorrectedWorkAgrees(s, arg, f);
    var w := TransferWork(s, arg, f);
    assert Transferred(s, arg, w.value.0, w.value.1);
  }

  /** Restoring the roles changes only the result: both versions succeed and fail alike and
      leave the same database, and their results differ at most by swapped account rows. */
  lemma CorrectionOnlySwapsRoles(s: State, arg: TransferTxParams, f: TransferFaults, tf: TxFaults)
    ensures TransferTxCorrected(s, arg, f, tf).1 == TransferTx(s, arg, f, tf).1
    ensures TransferTxCorrected(s, arg, f, tf).0.Ok? <==> TransferTx(s, arg, f, tf).0.Ok?
    ensures TransferTxCorrected(s, arg, f, tf).0.Err? ==> TransferTxCorrected(s, arg, f, tf).0 == TransferTx(s, arg, f, tf).0
    ensures TransferTx(s, arg, f, tf).0.Ok? ==>
      var (c, w) := (TransferTxCorrected(s, arg, f, tf).0.value, TransferTx(s, arg, f, tf).0.value);
      if arg.fromAccountId < arg.toAccountId then c == w
      else c == w.(fromAccount := w.toAccount, toAccount := w.fromAccount)
  {
    CorrectedWorkAgrees(s, arg, f);
  }

  /** The two units of work run the same statements; only the result fields differ. */
  lemma CorrectedWorkAgrees(s: State, arg: TransferTxParams, f: TransferFaults)
    ensures TransferWorkCorrected(s, arg, f).Ok? <==> TransferWork(s, arg, f).Ok?
    ensures TransferWorkCorrected(s, arg, f).Err? ==> TransferWorkCorrected(s, arg, f) == TransferWork(s, arg, f)
    ensures TransferWork(s, arg, f).Ok? ==>
      var (c, w) := (TransferWorkCorrected(s, arg, f).value, TransferWork(s, arg, f).value);
      && c.1 == w.1
      && if arg.fromAccountId < arg.toAccountId then c.0 == w.0
         else c.0 == w.0.(fromAccount := w.0.toAccount, toAccount := w.0.fromAccount)
  {
  }

  /** The two-account example: moving 30 from account 1 (100) to account 2 (50) reports
      70 and 80, entries of -30 and 30, and a transfer of 30. */
  lemma TransferExample()
    ensures
      var r := TransferTx(TwoAccounts, TransferTxParams(1, 2, 30), NoTransferFaults, NoTxFaults);
      && r.0.Ok?
      && r.0.value.fromAccount.balance == 70 && r.0.value.toAccount.balance == 80
      && r.0.value.fromEntry.amount == -30 && r.0.value.toEntry.amount == 30
      && r.0.value.transfer.amount == 30
  {
  }
}
