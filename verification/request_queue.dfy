/**
 The service as seen by a stream of callers: requests for one wallet are
 handled one at a time, each as a single atomic read-check-append step, in
 the order they were serialised.
 */
module RequestQueue {
  import opened Wrappers
  import opened EntryStore
  import opened WalletService
  import opened LedgerInvariants

  /** One call into the service. */
  datatype Request =
    | BalanceRequest
    | DepositRequest(deposit: Deposit)
    | WithdrawalRequest(withdrawal: Withdrawal)

  /** Mutations carry a strictly positive amount. */
  predicate WellFormed(req: Request) {
    match req
    case BalanceRequest => true
    case DepositRequest(d) => d.amount > 0
    case WithdrawalRequest(w) => w.amount > 0
  }

  predicate AllWellFormed(reqs: seq<Request>) {
    forall i :: 0 <= i < |reqs| ==> WellFormed(reqs[i])
  }

  /** Dispatches one request to the matching service operation. */
  function Handle(log: Ledger, req: Request): (s: Step<Result<Balance, WalletError>>)
    requires WellFormed(req)
    ensures req.BalanceRequest? ==> s.log == log && s.result == Ok(GetBalance(log))
    ensures s.result.Err? <==> req.WithdrawalRequest? && req.withdrawal.amount > GetBalance(log).amount
    ensures s.result.Err? ==> s.log == log
    ensures s.result.Ok? ==> GetBalance(s.log) == s.result.value
    ensures req.DepositRequest? || (req.WithdrawalRequest? && s.result.Ok?) ==> |s.log| == |log| + 1
    ensures |log| <= |s.log| && s.log[..|log|] == log
    ensures req.DepositRequest? ==>
              && s.log == log + [Entry(GetBalance(log).amount, req.deposit.amount)]
              && s.result == Ok(Balance(GetBalance(log).amount + req.deposit.amount))
    ensures req.WithdrawalRequest? && s.result.Ok? ==>
              && s.log == log + [Entry(GetBalance(log).amount, -req.withdrawal.amount)]
              && s.result == Ok(Balance(GetBalance(log).amount - req.withdrawal.amount))
  {
    match req
    case BalanceRequest => Step(log, Ok(GetBalance(log)))
    case DepositRequest(d) =>
      var step := DepositFunds(log, d);
      Step(step.log, Ok(step.result))
    case WithdrawalRequest(w) => WithdrawFunds(log, w)
  }

  /** Handles the requests in order, threading the ledger through. */
  function Run(log: Ledger, reqs: seq<Request>): (s: Step<seq<Result<Balance, WalletError>>>)
    requires AllWellFormed(reqs)
    ensures |s.result| == |reqs|
    ensures |log| <= |s.log| && s.log[..|log|] == log
    decreases |reqs|
  {
    if |reqs| == 0 then
      Step(log, [])
    else
      var before := Run(log, reqs[..|reqs| - 1]);
      var step := Handle(before.log, reqs[|reqs| - 1]);
      Step(step.log, before.result + [step.result])
  }

  /** The queue worker: handles the requests one after another and returns
      the final ledger and every caller's answer. */
  method Serve(log: Ledger, reqs: seq<Request>) returns (final: Ledger, responses: seq<Result<Balance, WalletError>>)
    requires AllWellFormed(reqs)
    ensures Step(final, responses) == Run(log, reqs)
    ensures Valid(log) ==> Valid(final)
  {
    final, responses := log, [];
    var i := 0;
    while i < |reqs|
      invariant 0 <= i <= |reqs|
      invariant Step(final, responses) == Run(log, reqs[..i])
      invariant Valid(log) ==> Valid(final)
    {
      assert reqs[..i + 1][..i] == reqs[..i];
      HandlePreservesValid(final, reqs[i]);
      var step := Handle(final, reqs[i]);
      final, responses := step.log, responses + [step.result];
      i := i + 1;
    }
    assert reqs[..|reqs|] == reqs;
  }

  /** Handling any well-formed request keeps a ledger valid. */
  lemma HandlePreservesValid(log: Ledger, req: Request)
    requires WellFormed(req)
    ensures Valid(log) ==> Valid(Handle(log, req).log)
  {
    if Valid(log) {
      match req
      case BalanceRequest =>
      case DepositRequest(d) => DepositPreservesValid(log, d);
      case WithdrawalRequest(w) => WithdrawalPreservesValid(log, w);
    }
  }

  /** Reads are idempotent: any run of balance requests leaves the ledger as
      it was and every one of them reports the same balance. */
  lemma {:induction false} ReadsAreIdempotent(log: Ledger, reqs: seq<Request>)
    requires forall i :: 0 <= i < |reqs| ==> reqs[i] == BalanceRequest
    ensures Run(log, reqs).log == log
    ensures forall i :: 0 <= i < |reqs| ==> Run(log, reqs).result[i] == Ok(GetBalance(log))
    decreases |reqs|
  {
    if |reqs| > 0 {
      ReadsAreIdempotent(log, reqs[..|reqs| - 1]);
    }
  }

  /** Only deposits and withdrawals are ever recorded, so no entry has a zero amount. */
  predicate NoZeroAmounts(log: Ledger) {
    forall i :: 0 <= i < |log| ==> log[i].amount != 0
  }

  /** Handling a request never records an entry with a zero amount. */
  lemma HandleKeepsNoZeroAmounts(log: Ledger, req: Request)
    requires WellFormed(req)
    requires NoZeroAmounts(log)
    ensures NoZeroAmounts(Handle(log, req).log)
  {
  }

  /** Soundness: whatever sequence of requests the service handles, starting
      from an empty repository, the resulting ledger is valid and records no
      zero amount. */
  lemma {:induction false} RunFromEmptyIsValid(reqs: seq<Request>)
    requires AllWellFormed(reqs)
    ensures Valid(Run([], reqs).log)
    ensures NoZeroAmounts(Run([], reqs).log)
    decreases |reqs|
  {
    if |reqs| > 0 {
      var init := reqs[..|reqs| - 1];
      RunFromEmptyIsValid(init);
      HandlePreservesValid(Run([], init).log, reqs[|reqs| - 1]);
      HandleKeepsNoZeroAmounts(Run([], init).log, reqs[|reqs| - 1]);
    }
  }

  /** The request that recreates an entry: a deposit for a positive amount, a
      withdrawal for a negative one. */
  function RequestFor(e: Entry): (req: Request)
    requires e.amount != 0
    ensures WellFormed(req)
  {
    if e.amount > 0 then DepositRequest(Deposit(e.amount)) else WithdrawalRequest(Withdrawal(-e.amount))
  }

  function RequestsFor(log: Ledger): (reqs: seq<Request>)
    requires NoZeroAmounts(log)
    ensures |reqs| == |log| && AllWellFormed(reqs)
  {
    seq(|log|, i requires 0 <= i < |log| => RequestFor(log[i]))
  }

  /** Replaying a prefix of a ledger asks for the prefix of its requests. */
  lemma RequestsForPrefix(log: Ledger, n: nat)
    requires NoZeroAmounts(log)
    requires n <= |log|
    ensures RequestsFor(log)[..n] == RequestsFor(log[..n])
  {
  }

  /** Replaying one entry that starts from the current balance and ends
      non-negative appends exactly that entry and succeeds. */
  lemma ReplayEntry(log: Ledger, e: Entry)
    requires e.amount != 0
    requires e.balanceBefore == GetBalance(log).amount
    requires e.BalanceAfter() >= 0
    ensures Handle(log, RequestFor(e)) == Step(log + [e], Ok(Balance(e.BalanceAfter())))
  {
  }

  /** In a valid ledger, each entry starts from the balance its prefix reports. */
  lemma EntryStartsFromPrefixBalance(log: Ledger, n: nat)
    requires Valid(log)
    requires n < |log|
    ensures log[n].balanceBefore == GetBalance(log[..n]).amount
    ensures log[n].BalanceAfter() >= 0
  {
  }

  /** Completeness: every valid ledger without zero amounts is exactly what
      the service builds from an empty repository when replaying its entries
      as requests, and every one of those requests succeeds. */
  lemma {:induction false} ValidLedgerIsReachable(log: Ledger)
    requires Valid(log)
    requires NoZeroAmounts(log)
    ensures Run([], RequestsFor(log)).log == log
    ensures forall i :: 0 <= i < |log| ==> Run([], RequestsFor(log)).result[i].Ok?
    decreases |log|
  {
    if |log| > 0 {
      var n := |log| - 1;
      var prefix := log[..n];
      RequestsForPrefix(log, n);
      ChainedPrefix(log, n);
      ValidLedgerIsReachable(prefix);
      var reqs := RequestsFor(log);
      var before := Run([], reqs[..n]);
      EntryStartsFromPrefixBalance(log, n);
      ReplayEntry(prefix, log[n]);
      var step := Handle(before.log, reqs[n]);
      assert step.log == log by {
        assert before.log == prefix && reqs[n] == RequestFor(log[n]);
        assert prefix + [log[n]] == log;
      }
      assert Run([], reqs) == Step(step.log, before.result + [step.result]);
    }
  }

  /** A ledger is reachable from an empty repository through well-formed
      requests exactly when it is valid and records no zero amount. */
  lemma ReachableIffValid(log: Ledger)
    ensures (exists reqs :: AllWellFormed(reqs) && Run([], reqs).log == log) <==> (Valid(log) && NoZeroAmounts(log))
  {
    if Valid(log) && NoZeroAmounts(log) {
      ValidLedgerIsReachable(log);
      assert AllWellFormed(RequestsFor(log)) && Run([], RequestsFor(log)).log == log;
    }
    if exists reqs :: AllWellFormed(reqs) && Run([], reqs).log == log {
      var reqs :| AllWellFormed(reqs) && Run([], reqs).log == log;
      RunFromEmptyIsValid(reqs);
    }
  }
}
