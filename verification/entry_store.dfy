/**
 The wallet's entry repository: an append-only sequence of ledger entries
 offering exactly the two primitives the service uses, "get the last entry"
 and "insert an entry".
 */
module EntryStore {
  import opened Wrappers

  /** One balance movement: the balance just before it and the signed amount
      it applies (positive for a deposit, negative for a withdrawal). Money is
      counted in whole units of the smallest amount in use. */
  datatype Entry = Entry(balanceBefore: int, amount: int)
  {
    /** The balance right after this entry; never stored, always recomputed. */
    function BalanceAfter(): int {
      balanceBefore + amount
    }
  }

  /** The repository of one wallet: its entries in insertion order. */
  type Ledger = seq<Entry>

  /** The most recently inserted entry, or None for an empty repository. */
  function GetLastEntry(log: Ledger): (r: Option<Entry>)
    ensures r.None? <==> |log| == 0
    ensures r.Some? ==> r.value == log[|log| - 1]
  {
    if |log| == 0 then None else Some(log[|log| - 1])
  }

  /** Appends one entry; existing entries are never updated or deleted. */
  function InsertEntry(log: Ledger, e: Entry): (log': Ledger)
    ensures |log'| == |log| + 1
    ensures log'[..|log|] == log
    ensures log'[|log|] == e
  {
    log + [e]
  }

  /** What is inserted is what the next read of the last entry sees. */
  lemma LastEntryAfterInsert(log: Ledger, e: Entry)
    ensures GetLastEntry(InsertEntry(log, e)) == Some(e)
  {
  }
}
