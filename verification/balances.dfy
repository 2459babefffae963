/** Sums over the store used to state conservation of money: the total of all
    account balances, and the per-account total of posted entries. */
module Balances {
  import opened Queries

  /** Sum of the balances of the accounts whose ids are in `ks`. */
  ghost function SumOver(accounts: map<int, Account>, ks: set<int>): int
    requires ks <= accounts.Keys
    decreases ks
  {
    if ks == {} then 0
    else
      NonEmptyHasMember(ks);
      var k :| k in ks;
      accounts[k].balance + SumOver(accounts, ks - {k})
  }

  /** Sum of all account balances: the money in the system. */
  ghost function TotalBalance(accounts: map<int, Account>): int {
    SumOver(accounts, accounts.Keys)
  }

  /** Any member of `ks` can be taken out first. */
  lemma {:induction false} SumOverRemove(accounts: map<int, Account>, ks: set<int>, k: int)
    requires ks <= accounts.Keys && k in ks
    ensures SumOver(accounts, ks) == accounts[k].balance + SumOver(accounts, ks - {k})
    decreases ks
  {
    var j :| j in ks && SumOver(accounts, ks) == accounts[j].balance + SumOver(accounts, ks - {j});
    if j != k {
      SumOverRemove(accounts, ks - {j}, k);
      SumOverRemove(accounts, ks - {k}, j);
      assert ks - {j} - {k} == ks - {k} - {j};
    }
  }

  /** The sum over `ks` depends only on the balances of the accounts in `ks`. */
  lemma {:induction false} SumOverFrame(a: map<int, Account>, b: map<int, Account>, ks: set<int>)
    requires ks <= a.Keys && ks <= b.Keys
    requires forall k :: k in ks ==> a[k].balance == b[k].balance
    ensures SumOver(a, ks) == SumOver(b, ks)
    decreases ks
  {
    if ks != {} {
      NonEmptyHasMember(ks);
      var k :| k in ks;
      SumOverRemove(a, ks, k);
      SumOverRemove(b, ks, k);
      SumOverFrame(a, b, ks - {k});
    }
  }

  /** Changing one account's balance by `delta`, and no other balance, changes the total by `delta`. */
  lemma TotalAfterChange(a: map<int, Account>, b: map<int, Account>, id: int, delta: int)
    requires a.Keys == b.Keys && id in a
    requires b[id].balance == a[id].balance + delta
    requires forall k :: k in a && k != id ==> b[k].balance == a[k].balance
    ensures TotalBalance(b) == TotalBalance(a) + delta
  {
    SumOverRemove(a, a.Keys, id);
    SumOverRemove(b, b.Keys, id);
    SumOverFrame(a, b, a.Keys - {id});
  }

  /** Net amount of the entries in `es` posted against account `id`. */
  function EntrySum(es: seq<Entry>, id: int): int {
    if es == [] then 0
    else (if es[0].accountId == id then es[0].amount else 0) + EntrySum(es[1..], id)
  }

  /** Net amount of all entries in `es`. */
  function EntryTotal(es: seq<Entry>): int {
    if es == [] then 0 else es[0].amount + EntryTotal(es[1..])
  }

  /** The sums over a two-entry ledger. */
  lemma EntrySumsOfPair(e1: Entry, e2: Entry)
    ensures EntryTotal([e1, e2]) == e1.amount + e2.amount
    ensures forall k ::
      EntrySum([e1, e2], k) == (if e1.accountId == k then e1.amount else 0) + (if e2.accountId == k then e2.amount else 0)
  {
    var pair, single := [e1, e2], [e2];
    assert pair[0] == e1 && pair[1..] == single;
    assert single[0] == e2 && single[1..] == [];
    assert EntryTotal(single) == e2.amount + EntryTotal([]);
    assert EntryTotal(pair) == e1.amount + EntryTotal(single);
    forall k
      ensures EntrySum(pair, k) == (if e1.accountId == k then e1.amount else 0) + (if e2.accountId == k then e2.amount else 0)
    {
      assert EntrySum(single, k) == (if e2.accountId == k then e2.amount else 0) + EntrySum([], k);
      assert EntrySum(pair, k) == (if e1.accountId == k then e1.amount else 0) + EntrySum(single, k);
    }
  }
}
