/**
 The invariants a ledger built by the service keeps: every entry starts from
 the balance the previous one ended with (the first from zero), and no entry
 leaves the balance negative. Deposits and withdrawals preserve both.
 */
module LedgerInvariants {
  import opened EntryStore
  import opened WalletService

  /** Each entry's balanceBefore is the balance after its predecessor; the
      first entry starts from an empty wallet. */
  predicate Chained(log: Ledger) {
    && (|log| > 0 ==> log[0].balanceBefore == 0)
    && forall i :: 0 < i < |log| ==> log[i].balanceBefore == log[i - 1].BalanceAfter()
  }

  /** No entry leaves the wallet with a negative balance. */
  predicate NeverNegative(log: Ledger) {
    forall i :: 0 <= i < |log| ==> log[i].BalanceAfter() >= 0
  }

  /** A ledger the service can have produced from an empty repository. */
  predicate Valid(log: Ledger) {
    Chained(log) && NeverNegative(log)
  }

  /** Independent reference for the balance: the sum of all signed amounts. */
  function SumOfAmounts(log: Ledger): int {
    if |log| == 0 then 0 else SumOfAmounts(log[..|log| - 1]) + log[|log| - 1].amount
  }

  /** Every prefix of a chained ledger is chained. */
  lemma ChainedPrefix(log: Ledger, n: nat)
    requires Chained(log)
    requires n <= |log|
    ensures Chained(log[..n])
  {
  }

  /** For a chained ledger, reading the last entry gives the same balance as
      replaying every entry from zero. */
  lemma {:induction false} BalanceIsSumOfAmounts(log: Ledger)
    requires Chained(log)
    ensures GetBalance(log).amount == SumOfAmounts(log)
  {
    if |log| > 0 {
      var prefix := log[..|log| - 1];
      ChainedPrefix(log, |log| - 1);
      BalanceIsSumOfAmounts(prefix);
      if |prefix| > 0 {
        assert log[|log| - 1].balanceBefore == prefix[|prefix| - 1].BalanceAfter();
      }
    }
  }

  /** A valid ledger never reports a negative balance. */
  lemma ValidBalanceNonNegative(log: Ledger)
    requires Valid(log)
    ensures GetBalance(log).amount >= 0
  {
  }

  /** Appending an entry that starts from the current balance and ends
      non-negative keeps a ledger valid. */
  lemma AppendFromCurrentBalance(log: Ledger, e: Entry)
    requires Valid(log)
    requires e.balanceBefore == GetBalance(log).amount
    requires e.BalanceAfter() >= 0
    ensures Valid(log + [e])
  {
  }

  /** A deposit keeps the ledger valid. */
  lemma DepositPreservesValid(log: Ledger, deposit: Deposit)
    requires Valid(log)
    requires deposit.amount > 0
    ensures Valid(DepositFunds(log, deposit).log)
  {
    ValidBalanceNonNegative(log);
    AppendFromCurrentBalance(log, Entry(GetBalance(log).amount, deposit.amount));
  }

  /** A withdrawal, successful or not, keeps the ledger valid; in particular
      it never drives the balance below zero. */
  lemma WithdrawalPreservesValid(log: Ledger, withdrawal: Withdrawal)
    requires Valid(log)
    requires withdrawal.amount > 0
    ensures Valid(WithdrawFunds(log, withdrawal).log)
    ensures GetBalance(WithdrawFunds(log, withdrawal).log).amount >= 0
  {
    var s := WithdrawFunds(log, withdrawal);
    if s.result.Ok? {
      AppendFromCurrentBalance(log, Entry(GetBalance(log).amount, -withdrawal.amount));
    }
    ValidBalanceNonNegative(s.log);
  }
}
