/**
 The concrete situations the service's unit tests pin down, restated on the
 model. A repository whose last entry is `e` is represented by the ledger
 `[e]`: the service only ever looks at the last entry. Amounts are written
 in whole currency units; every operation is linear in them, so the scale
 does not matter.
 */
module Scenarios {
  import opened Wrappers
  import opened EntryStore
  import opened WalletService
  import opened RequestQueue

  /** No entries: the balance is zero. */
  lemma EmptyLedgerHasZeroBalance()
    ensures GetBalance([]) == Balance(0)
  {
  }

  /** Last entry {100, +50}: the balance is 150. */
  lemma BalanceFromLastEntry()
    ensures GetBalance([Entry(100, 50)]).amount == 150
  {
  }

  /** Balance 100 (last entry {50, +50}), deposit 25: the answer is 125 and
      exactly one entry {100, +25} is inserted. */
  lemma DepositOntoHundred()
    ensures DepositFunds([Entry(50, 50)], Deposit(25)).result.amount == 125
    ensures DepositFunds([Entry(50, 50)], Deposit(25)).log == [Entry(50, 50), Entry(100, 25)]
  {
  }

  /** Balance 50 (last entry {0, +50}), withdraw 80: InsufficientBalance and
      nothing is inserted. */
  lemma OverdraftRejected()
    ensures WithdrawFunds([Entry(0, 50)], Withdrawal(80)).result == Err(InsufficientBalance)
    ensures WithdrawFunds([Entry(0, 50)], Withdrawal(80)).log == [Entry(0, 50)]
  {
  }

  /** Balance 200 (last entry {0, +200}), withdraw 80: the answer is 120 and
      exactly one entry {200, -80} is inserted. */
  lemma WithdrawalFromTwoHundred()
    ensures WithdrawFunds([Entry(0, 200)], Withdrawal(80)).result == Ok(Balance(120))
    ensures WithdrawFunds([Entry(0, 200)], Withdrawal(80)).log == [Entry(0, 200), Entry(200, -80)]
  {
  }

  /** Two withdrawals of 60 against a balance of 100, serialised: the first
      succeeds leaving 40, the second sees 40 and fails; the ledger never
      goes negative. */
  lemma TwoSerialisedWithdrawals()
    ensures Run([Entry(0, 100)], [WithdrawalRequest(Withdrawal(60)), WithdrawalRequest(Withdrawal(60))]).result
            == [Ok(Balance(40)), Err(InsufficientBalance)]
    ensures Run([Entry(0, 100)], [WithdrawalRequest(Withdrawal(60)), WithdrawalRequest(Withdrawal(60))]).log
            == [Entry(0, 100), Entry(100, -60)]
  {
  }
}
