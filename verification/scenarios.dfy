/** Sequences of transfers as the transfer tests run them, taken one transaction after
    another: repeated transfers in one direction, and transfers alternating direction. */
module Scenarios {
  import opened Wrappers
  import opened Queries
  import opened Balances
  import opened Store

  /** One transaction: a request applied to a database state. */
  type Step = (State, TransferTxParams) -> (Result<TransferTxResult>, State)

  /** TransferTx with no injected failure. */
  const CleanTransferStep: Step := (q: State, arg: TransferTxParams) => TransferTx(q, arg, NoTransferFaults, NoTxFaults)

  /** TransferTx with the result roles restored, with no injected failure. */
  const CorrectedTransferStep: Step := (q: State, arg: TransferTxParams) => TransferTxCorrected(q, arg, NoTransferFaults, NoTxFaults)

  /** Runs the requests one after another through `step`, each in its own transaction. */
  function Run(step: Step, s: State, args: seq<TransferTxParams>): (r: (seq<Result<TransferTxResult>>, State))
    ensures |r.0| == |args|
    decreases |args|
  {
    if args == [] then ([], s)
    else
      var (first, s1) := step(s, args[0]);
      var (rest, s2) := Run(step, s1, args[1..]);
      ([first] + rest, s2)
  }

  /** Runs the transfers one after another, each in its own transaction with no injected
      failure; a failed transfer leaves the database as it was and the run goes on. */
  function RunTransfers(s: State, args: seq<TransferTxParams>): (r: (seq<Result<TransferTxResult>>, State))
    ensures |r.0| == |args|
  {
    Run(CleanTransferStep, s, args)
  }

  /** `n` copies of the same request. */
  function Repeat(arg: TransferTxParams, n: nat): (r: seq<TransferTxParams>)
    ensures |r| == n && forall i :: 0 <= i < n ==> r[i] == arg
  {
    seq(n, _ => arg)
  }

  /** `n` requests of `k`, the even-numbered ones from `x` to `y`, the odd-numbered ones back. */
  function Alternating(x: int, y: int, k: int, n: nat): (r: seq<TransferTxParams>)
    ensures |r| == n
    ensures forall i :: 0 <= i < n ==>
      r[i] == if i % 2 == 0 then TransferTxParams(x, y, k) else TransferTxParams(y, x, k)
  {
    seq(n, i => if i % 2 == 0 then TransferTxParams(x, y, k) else TransferTxParams(y, x, k))
  }

  /** One request of a run, with the failures injected into its statements and into its
      transaction. */
  datatype Request = Request(arg: TransferTxParams, faults: TransferFaults, txFaults: TxFaults)

  /** Runs the requests one after another, each in its own transaction with its own injected
      failures; a failed request leaves the database as it was and the run goes on. */
  function RunRequests(s: State, reqs: seq<Request>): (r: (seq<Result<TransferTxResult>>, State))
    ensures |r.0| == |reqs|
    decreases |reqs|
  {
    if reqs == [] then ([], s)
    else
      var (first, s1) := TransferTx(s, reqs[0].arg, reqs[0].faults, reqs[0].txFaults);
      var (rest, s2) := RunRequests(s1, reqs[1..]);
      ([first] + rest, s2)
  }

  /** The requests of a run in which nothing is made to fail. */
  function FaultFree(args: seq<TransferTxParams>): (r: seq<Request>)
    ensures |r| == |args|
    ensures forall i :: 0 <= i < |args| ==> r[i] == Request(args[i], NoTransferFaults, NoTxFaults)
  {
    seq(|args|, i requires 0 <= i < |args| => Request(args[i], NoTransferFaults, NoTxFaults))
  }

  /** RunTransfers is the run of the same requests with no injected failure. */
  lemma {:induction false} RunTransfersIsFaultFree(s: State, args: seq<TransferTxParams>)
    ensures RunTransfers(s, args) == RunRequests(s, FaultFree(args))
    decreases |args|
  {
    if args != [] {
      var s1 := TransferTx(s, args[0], NoTransferFaults, NoTxFaults).1;
      RunTransfersIsFaultFree(s1, args[1..]);
      assert FaultFree(args)[1..] == FaultFree(args[1..]);
    }
  }

  /** Whatever the requests, and whichever statements or transactions fail, a run keeps the
      store valid, keeps the same accounts and conserves the total of all balances. */
  lemma {:induction false} RunRequestsConserves(s: State, reqs: seq<Request>)
    requires Valid(s)
    ensures var t := RunRequests(s, reqs).1;
      Valid(t) && t.accounts.Keys == s.accounts.Keys && TotalBalance(t.accounts) == TotalBalance(s.accounts)
    decreases |reqs|
  {
    if reqs != [] {
      var (arg, f, tf) := (reqs[0].arg, reqs[0].faults, reqs[0].txFaults);
      var s1 := TransferTx(s, arg, f, tf).1;
      if TransferTx(s, arg, f, tf).0.Ok? {
        TransferTxMovesMoney(s, arg, f, tf);
      }
      RunRequestsConserves(s1, reqs[1..]);
    }
  }

  /** A run in which every request fails leaves the database exactly as it was. */
  lemma {:induction false} RunOfFailuresChangesNothing(s: State, reqs: seq<Request>)
    requires forall i :: 0 <= i < |reqs| ==> RunRequests(s, reqs).0[i].Err?
    ensures RunRequests(s, reqs).1 == s
    decreases |reqs|
  {
    if reqs != [] {
      var (first, s1) := TransferTx(s, reqs[0].arg, reqs[0].faults, reqs[0].txFaults);
      var rest := RunRequests(s1, reqs[1..]).0;
      assert first.Err? by {
        assert RunRequests(s, reqs).0[0] == first;
      }
      forall i | 0 <= i < |reqs[1..]|
        ensures rest[i].Err?
      {
        assert RunRequests(s, reqs).0[i + 1] == rest[i];
      }
      RunOfFailuresChangesNothing(s1, reqs[1..]);
    }
  }

  /** The fault-free case: any sequence of transfers, some of which fail on a missing account,
      keeps the store valid, the same accounts and the same total balance. */
  lemma RunTransfersConserves(s: State, args: seq<TransferTxParams>)
    requires Valid(s)
    ensures var t := RunTransfers(s, args).1;
      Valid(t) && t.accounts.Keys == s.accounts.Keys && TotalBalance(t.accounts) == TotalBalance(s.accounts)
  {
    RunTransfersIsFaultFree(s, args);
    RunRequestsConserves(s, FaultFree(args));
  }

  /** What a clean transfer between two existing accounts does, as the runs below use it. */
  ghost predicate CleanAt(s: State, arg: TransferTxParams, r: Result<TransferTxResult>, t: State) {
    && r.Ok? && Valid(t) && SameAccountRows(s, t)
    && arg.fromAccountId in t.accounts && arg.toAccountId in t.accounts
    && (forall k :: k in s.accounts ==> t.accounts[k].balance == s.accounts[k].balance + NetChange(arg, k))
    && (forall k :: k in s.accounts && k != arg.fromAccountId && k != arg.toAccountId ==> t.accounts[k] == s.accounts[k])
    && (arg.fromAccountId < arg.toAccountId ==>
          && r.value.fromAccount.balance == t.accounts[arg.fromAccountId].balance
          && r.value.toAccount.balance == t.accounts[arg.toAccountId].balance)
  }

  /** `step` commits every request between two existing accounts of a valid store as a
      clean transfer. */
  ghost predicate CommitsCleanly(step: Step) {
    forall s: State, arg: TransferTxParams :: Valid(s) && arg.fromAccountId in s.accounts && arg.toAccountId in s.accounts ==>
      CleanAt(s, arg, step(s, arg).0, step(s, arg).1)
  }

  /** TransferTx with no injected failure commits every such request cleanly. */
  lemma TransferCommitsCleanly()
    ensures CommitsCleanly(CleanTransferStep)
  {
    forall s: State, arg: TransferTxParams | Valid(s) && arg.fromAccountId in s.accounts && arg.toAccountId in s.accounts
      ensures CleanAt(s, arg, CleanTransferStep(s, arg).0, CleanTransferStep(s, arg).1)
    {
      CleanTransfer(s, arg);
    }
  }

  /** The corrected transfer commits cleanly too, so every run lemma below holds for it. */
  lemma CorrectedCommitsCleanly()
    ensures CommitsCleanly(CorrectedTransferStep)
  {
    forall s: State, arg: TransferTxParams | Valid(s) && arg.fromAccountId in s.accounts && arg.toAccountId in s.accounts
      ensures CleanAt(s, arg, CorrectedTransferStep(s, arg).0, CorrectedTransferStep(s, arg).1)
    {
      CleanTransfer(s, arg);
      CorrectionOnlySwapsRoles(s, arg, NoTransferFaults, NoTxFaults);
    }
  }

  /** Every transfer of a run committed. */
  predicate AllCommitted(rs: seq<Result<TransferTxResult>>) {
    forall i :: 0 <= i < |rs| ==> rs[i].Ok?
  }

  /** The n reports of transfers of `k` from an account that started at `x0` to one that
      started at `y0`, the i-th (from 0) showing both after exactly `i+1` transfers. */
  predicate ReportsAfterEach(rs: seq<Result<TransferTxResult>>, x0: int, y0: int, k: int, n: nat) {
    && |rs| == n && AllCommitted(rs)
    && forall i :: 0 <= i < n ==>
         && rs[i].value.fromAccount.balance == x0 - (i + 1) * k
         && rs[i].value.toAccount.balance == y0 + (i + 1) * k
  }

  /** What the transfer test checks of each of `n` reports: the debit reported equals the
      credit reported, is a positive multiple of `k` no larger than `n*k`, the debits are
      pairwise distinct, and the multiple `m*k` is the one the m-th report shows. */
  predicate DeltasAsObserved(rs: seq<Result<TransferTxResult>>, x0: int, y0: int, k: int, n: nat) {
    && |rs| == n && AllCommitted(rs) && k > 0
    && (forall i :: 0 <= i < n ==>
          var diff1 := x0 - rs[i].value.fromAccount.balance;
          var diff2 := rs[i].value.toAccount.balance - y0;
          && diff1 == diff2 && diff1 > 0 && diff1 % k == 0 && 1 <= diff1 / k <= n)
    && (forall i, j :: 0 <= i < j < n ==> rs[i].value.fromAccount.balance != rs[j].value.fromAccount.balance)
    && (forall m :: 1 <= m <= n ==> x0 - rs[m - 1].value.fromAccount.balance == m * k)
  }

  /** Unfolds one step of a run. */
  lemma RunStep(step: Step, s: State, args: seq<TransferTxParams>)
    requires args != []
    ensures
      var (first, s1) := step(s, args[0]);
      Run(step, s, args) == ([first] + Run(step, s1, args[1..]).0, Run(step, s1, args[1..]).1)
  {
  }

  /** Prepending a committed transfer to committed transfers. */
  lemma AllCommittedCons(first: Result<TransferTxResult>, rest: seq<Result<TransferTxResult>>)
    requires first.Ok? && AllCommitted(rest)
    ensures AllCommitted([first] + rest)
  {
    var rs := [first] + rest;
    forall i | 0 <= i < |rs|
      ensures rs[i].Ok?
    {
      if i > 0 {
        assert rs[i] == rest[i - 1];
      }
    }
  }

  /** One transfer of `k` followed by `n-1` more: `x` is down, and `y` up, by `n*k`. */
  lemma StepMultiple(x0: int, x1: int, x2: int, y0: int, y1: int, y2: int, k: int, n: nat)
    requires n > 0
    requires x1 == x0 - k && x2 == x1 - (n - 1) * k
    requires y1 == y0 + k && y2 == y1 + (n - 1) * k
    ensures x2 == x0 - n * k && y2 == y0 + n * k
  {
    assert n * k == (n - 1) * k + k;
  }

  /** `n` requests of `k` from `x` to `y` through a step that commits cleanly all commit;
      `x` ends `n*k` lower, `y` `n*k` higher, every other account as it was. */
  lemma {:induction false} RunRepeated(step: Step, s: State, x: int, y: int, k: int, n: nat)
    requires CommitsCleanly(step)
    requires Valid(s) && x in s.accounts && y in s.accounts && x != y
    ensures
      var (rs, t) := Run(step, s, Repeat(TransferTxParams(x, y, k), n));
      && Valid(t) && t.accounts.Keys == s.accounts.Keys && AllCommitted(rs)
      && t.accounts[x].balance == s.accounts[x].balance - n * k
      && t.accounts[y].balance == s.accounts[y].balance + n * k
      && (forall j :: j in s.accounts && j != x && j != y ==> t.accounts[j] == s.accounts[j])
    decreases n
  {
    if n > 0 {
      var arg := TransferTxParams(x, y, k);
      var args := Repeat(arg, n);
      RunStep(step, s, args);
      var (first, s1) := step(s, arg);
      assert CleanAt(s, arg, first, s1);
      assert args[1..] == Repeat(arg, n - 1);
      RunRepeated(step, s1, x, y, k, n - 1);
      var (rest, t) := Run(step, s1, args[1..]);
      AllCommittedCons(first, rest);
      StepMultiple(s.accounts[x].balance, s1.accounts[x].balance, t.accounts[x].balance,
                   s.accounts[y].balance, s1.accounts[y].balance, t.accounts[y].balance, k, n);
    }
  }

  /** When `x < y`, the i-th of `n` such requests (counting from 0) reports `x` and `y` as
      they stand after exactly `i+1` transfers. */
  lemma {:induction false} RunRepeatedReports(step: Step, s: State, x: int, y: int, k: int, n: nat)
    requires CommitsCleanly(step)
    requires Valid(s) && x in s.accounts && y in s.accounts && x < y
    ensures ReportsAfterEach(Run(step, s, Repeat(TransferTxParams(x, y, k), n)).0, s.accounts[x].balance, s.accounts[y].balance, k, n)
    decreases n
  {
    if n > 0 {
      var arg := TransferTxParams(x, y, k);
      var args := Repeat(arg, n);
      RunStep(step, s, args);
      var (first, s1) := step(s, arg);
      assert CleanAt(s, arg, first, s1);
      assert args[1..] == Repeat(arg, n - 1);
      RunRepeatedReports(step, s1, x, y, k, n - 1);
      ShiftedReports(first, Run(step, s1, args[1..]).0, s.accounts[x].balance, s.accounts[y].balance, k, n);
    }
  }

  /** Reports taken after a first transfer, shifted by that transfer's own report. */
  lemma ShiftedReports(first: Result<TransferTxResult>, rest: seq<Result<TransferTxResult>>, x0: int, y0: int, k: int, n: nat)
    requires n > 0 && first.Ok?
    requires first.value.fromAccount.balance == x0 - k && first.value.toAccount.balance == y0 + k
    requires ReportsAfterEach(rest, x0 - k, y0 + k, k, n - 1)
    ensures ReportsAfterEach([first] + rest, x0, y0, k, n)
  {
    var rs := [first] + rest;
    AllCommittedCons(first, rest);
    forall i | 0 <= i < n
      ensures rs[i].value.fromAccount.balance == x0 - (i + 1) * k
      ensures rs[i].value.toAccount.balance == y0 + (i + 1) * k
    {
      if i > 0 {
        assert rs[i] == rest[i - 1];
        assert (i + 1) * k == i * k + k;
      }
    }
  }

  /** `k` from `x` to `y` and then `k` back both commit and restore every account. */
  lemma RoundTrip(step: Step, s: State, x: int, y: int, k: int)
    requires CommitsCleanly(step)
    requires Valid(s) && x in s.accounts && y in s.accounts
    ensures
      var (r1, s1) := step(s, TransferTxParams(x, y, k));
      var (r2, s2) := step(s1, TransferTxParams(y, x, k));
      r1.Ok? && r2.Ok? && Valid(s2) && s2.accounts == s.accounts
  {
    var there, back := TransferTxParams(x, y, k), TransferTxParams(y, x, k);
    var (r1, s1) := step(s, there);
    assert CleanAt(s, there, r1, s1);
    var (r2, s2) := step(s1, back);
    assert CleanAt(s1, back, r2, s2);
    forall j | j in s.accounts
      ensures s2.accounts[j] == s.accounts[j]
    {
      assert NetChange(there, j) + NetChange(back, j) == 0;
      var a, c := s.accounts[j], s2.accounts[j];
      assert c.id == a.id && c.owner == a.owner && c.balance == a.balance;
    }
  }

  /** An even number of requests of `k` alternating direction between `x` and `y`, through
      a step that commits cleanly, all commit and leave every account exactly as it was. */
  lemma {:induction false} RunAlternating(step: Step, s: State, x: int, y: int, k: int, m: nat)
    requires CommitsCleanly(step)
    requires Valid(s) && x in s.accounts && y in s.accounts
    ensures
      var (rs, t) := Run(step, s, Alternating(x, y, k, 2 * m));
      Valid(t) && AllCommitted(rs) && t.accounts == s.accounts
    decreases m
  {
    if m > 0 {
      var args := Alternating(x, y, k, 2 * m);
      var there, back := TransferTxParams(x, y, k), TransferTxParams(y, x, k);
      assert args[0] == there && args[1..][0] == back;
      assert args[1..][1..] == Alternating(x, y, k, 2 * (m - 1));
      RunStep(step, s, args);
      var (r1, s1) := step(s, there);
      RunStep(step, s1, args[1..]);
      var (r2, s2) := step(s1, back);
      RoundTrip(step, s, x, y, k);
      RunAlternating(step, s2, x, y, k, m - 1);
      var rest := Run(step, s2, Alternating(x, y, k, 2 * (m - 1))).0;
      AllCommittedCons(r2, rest);
      AllCommittedCons(r1, [r2] + rest);
      assert [r1] + ([r2] + rest) == [r1, r2] + rest;
    }
  }

  /** `n` transfers of `k` from `x` to `y` all commit; `x` ends `n*k` lower, `y` `n*k` higher,
      every other account as it was. */
  lemma RepeatedTransfers(s: State, x: int, y: int, k: int, n: nat)
    requires Valid(s) && x in s.accounts && y in s.accounts && x != y
    ensures
      var (rs, t) := RunTransfers(s, Repeat(TransferTxParams(x, y, k), n));
      && Valid(t) && t.accounts.Keys == s.accounts.Keys && AllCommitted(rs)
      && t.accounts[x].balance == s.accounts[x].balance - n * k
      && t.accounts[y].balance == s.accounts[y].balance + n * k
      && (forall j :: j in s.accounts && j != x && j != y ==> t.accounts[j] == s.accounts[j])
  {
    TransferCommitsCleanly();
    RunRepeated(CleanTransferStep, s, x, y, k, n);
  }

  /** When `x < y`, the i-th of `n` transfers of `k` from `x` to `y` (counting from 0)
      reports `x` and `y` as they stand after exactly `i+1` transfers. */
  lemma RepeatedReports(s: State, x: int, y: int, k: int, n: nat)
    requires Valid(s) && x in s.accounts && y in s.accounts && x < y
    ensures ReportsAfterEach(RunTransfers(s, Repeat(TransferTxParams(x, y, k), n)).0, s.accounts[x].balance, s.accounts[y].balance, k, n)
  {
    TransferCommitsCleanly();
    RunRepeatedReports(CleanTransferStep, s, x, y, k, n);
  }

  /** What the transfer test checks of each result, for `n` transfers of `k > 0` from `x`
      to a higher id `y`. */
  lemma ObservedDeltas(s: State, x: int, y: int, k: int, n: nat)
    requires Valid(s) && x in s.accounts && y in s.accounts && x < y && k > 0
    ensures DeltasAsObserved(RunTransfers(s, Repeat(TransferTxParams(x, y, k), n)).0, s.accounts[x].balance, s.accounts[y].balance, k, n)
  {
    RepeatedReports(s, x, y, k, n);
    DeltasOfReports(RunTransfers(s, Repeat(TransferTxParams(x, y, k), n)).0, s.accounts[x].balance, s.accounts[y].balance, k, n);
  }

  /** `a * k` divides by `k > 0` exactly, to `a`. */
  lemma MultipleOf(a: int, k: int)
    requires k > 0
    ensures (a * k) / k == a && (a * k) % k == 0
  {
    var q, r := (a * k) / k, (a * k) % k;
    var d := a - q;
    assert d * k == r by {
      assert a * k == q * k + r;
      assert d * k == a * k - q * k;
    }
  }

  /** Reports showing `i+1` moves of `k > 0` in the i-th pass the checks the test makes. */
  lemma DeltasOfReports(rs: seq<Result<TransferTxResult>>, x0: int, y0: int, k: int, n: nat)
    requires k > 0 && ReportsAfterEach(rs, x0, y0, k, n)
    ensures DeltasAsObserved(rs, x0, y0, k, n)
  {
    forall i | 0 <= i < n
      ensures (x0 - rs[i].value.fromAccount.balance) / k == i + 1
      ensures (x0 - rs[i].value.fromAccount.balance) % k == 0
    {
      MultipleOf(i + 1, k);
    }
    forall i, j | 0 <= i < j < n
      ensures rs[i].value.fromAccount.balance != rs[j].value.fromAccount.balance
    {
      assert (j + 1) * k == (i + 1) * k + (j - i) * k;
    }
  }

  /** An even number of transfers of `k` alternating direction between `x` and `y` all
      commit and leave every account exactly as it was. */
  lemma AlternatingTransfers(s: State, x: int, y: int, k: int, m: nat)
    requires Valid(s) && x in s.accounts && y in s.accounts
    ensures
      var (rs, t) := RunTransfers(s, Alternating(x, y, k, 2 * m));
      Valid(t) && AllCommitted(rs) && t.accounts == s.accounts
  {
    TransferCommitsCleanly();
    RunAlternating(CleanTransferStep, s, x, y, k, m);
  }
}
