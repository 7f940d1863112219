/**
 The online wallet service: derives the current balance from the last ledger
 entry and applies deposits and withdrawals by appending one entry each.
 Every operation takes the repository's contents and returns them, possibly
 extended, together with its answer.
 */
module WalletService {
  import opened Wrappers
  import opened EntryStore

  /** The balance reported to callers. */
  datatype Balance = Balance(amount: int)

  /** A request to add money; the amount carries no sign. */
  datatype Deposit = Deposit(amount: int)

  /** A request to take money out; the amount carries no sign. */
  datatype Withdrawal = Withdrawal(amount: int)

  /** The business-rule failure of a withdrawal. */
  datatype WalletError = InsufficientBalance

  /** The repository after an operation, and the operation's answer. */
  datatype Step<+T> = Step(log: Ledger, result: T)

  /** The current balance: zero for an empty ledger, otherwise the balance
      after the last entry. Reading never changes the ledger. */
  function GetBalance(log: Ledger): (b: Balance)
    ensures |log| == 0 ==> b.amount == 0
    ensures |log| > 0 ==> b.amount == log[|log| - 1].balanceBefore + log[|log| - 1].amount
  {
    match GetLastEntry(log)
    case None => Balance(0)
    case Some(last) => Balance(last.BalanceAfter())
  }

  /** Records a deposit against the balance just read and reports the new
      balance, which is exactly what the next read returns. */
  function DepositFunds(log: Ledger, deposit: Deposit): (s: Step<Balance>)
    requires deposit.amount > 0
    ensures s.log == log + [Entry(GetBalance(log).amount, deposit.amount)]
    ensures s.result.amount == GetBalance(log).amount + deposit.amount
    ensures GetBalance(s.log) == s.result
  {
    var current := GetBalance(log);
    var entry := Entry(current.amount, deposit.amount);
    Step(InsertEntry(log, entry), Balance(entry.BalanceAfter()))
  }

  /** Records a withdrawal as a negative entry when the balance just read
      covers it; otherwise fails with InsufficientBalance and inserts nothing.
      Withdrawing the whole balance is allowed. */
  function WithdrawFunds(log: Ledger, withdrawal: Withdrawal): (s: Step<Result<Balance, WalletError>>)
    requires withdrawal.amount > 0
    ensures s.result.Err? <==> withdrawal.amount > GetBalance(log).amount
    ensures s.result.Err? ==> s.result.error == InsufficientBalance && s.log == log
    ensures s.result.Ok? ==>
              && s.log == log + [Entry(GetBalance(log).amount, -withdrawal.amount)]
              && s.result.value.amount == GetBalance(log).amount - withdrawal.amount
              && GetBalance(s.log) == s.result.value
  {
    var current := GetBalance(log);
    if withdrawal.amount > current.amount then
      Step(log, Err(InsufficientBalance))
    else
      var entry := Entry(current.amount, -withdrawal.amount);
      Step(InsertEntry(log, entry), Ok(Balance(entry.BalanceAfter())))
  }
}
