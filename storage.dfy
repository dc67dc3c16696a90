/**
 * The collaborators the import task writes to: the student database helper,
 * seen as a transactional sink (open, begin, insert, mark successful, end,
 * close), and the persisted first-run preference.
 *
 * The helper's transaction follows the begin / set-successful / end protocol
 * of an embedded SQL store: ending a transaction that was marked successful
 * makes its inserts durable, ending one that was not discards them.
 */
module Storage {
  import opened Loader

  /**
   * The calls the helper has received, in order. An insert that raised is
   * recorded as `InsertRaised`, one that staged its row as `Insert`.
   */
  datatype Op = Open | Close | Begin | Insert(record: Record) | InsertRaised(record: Record) | MarkSuccessful | End

  /** The database helper: durable rows, the rows staged by the open transaction, and its flags. */
  class Helper {
    var committed: seq<Record>
    var pending: seq<Record>
    var isOpen: bool
    var inTx: bool
    var marked: bool
    ghost var history: seq<Op>

    /** Outside a transaction nothing is staged and nothing is marked; a transaction needs an open database. */
    ghost predicate Valid()
      reads this
    {
      && (!inTx ==> pending == [] && !marked)
      && (inTx ==> isOpen)
    }

    constructor (stored: seq<Record>)
      ensures Valid()
      ensures committed == stored && pending == []
      ensures !isOpen && !inTx && !marked && history == []
    {
      committed := stored;
      pending := [];
      isOpen, inTx, marked := false, false, false;
      history := [];
    }

    method Open()
      requires Valid()
      modifies this
      ensures Valid() && isOpen
      ensures committed == old(committed) && pending == old(pending)
      ensures inTx == old(inTx) && marked == old(marked)
      ensures history == old(history) + [Op.Open]
    {
      isOpen := true;
      history := history + [Op.Open];
    }

    method Close()
      requires Valid() && !inTx
      modifies this
      ensures Valid() && !isOpen
      ensures committed == old(committed) && pending == old(pending)
      ensures inTx == old(inTx) && marked == old(marked)
      ensures history == old(history) + [Op.Close]
    {
      isOpen := false;
      history := history + [Op.Close];
    }

    method BeginTransaction()
      requires Valid() && isOpen && !inTx
      modifies this
      ensures Valid() && isOpen && inTx && !marked && pending == []
      ensures committed == old(committed)
      ensures history == old(history) + [Begin]
    {
      inTx := true;
      history := history + [Begin];
    }

    /**
     * Stages one row. `fails` stands for the store raising an exception on
     * this insert, in which case nothing is staged, the raising call is
     * recorded and false is returned.
     */
    method InsertTransaction(r: Record, fails: bool) returns (ok: bool)
      requires Valid() && inTx
      modifies this
      ensures Valid() && isOpen && inTx && marked == old(marked)
      ensures ok == !fails
      ensures pending == old(pending) + (if ok then [r] else [])
      ensures committed == old(committed)
      ensures history == old(history) + [if ok then Insert(r) else InsertRaised(r)]
    {
      ok := !fails;
      if ok {
        pending := pending + [r];
        history := history + [Insert(r)];
      } else {
        history := history + [InsertRaised(r)];
      }
    }

    method SetTransactionSuccess()
      requires Valid() && inTx
      modifies this
      ensures Valid() && isOpen && inTx && marked
      ensures pending == old(pending) && committed == old(committed)
      ensures history == old(history) + [MarkSuccessful]
    {
      marked := true;
      history := history + [MarkSuccessful];
    }

    /** Ends the transaction: its staged rows become durable if it was marked successful and are discarded otherwise. */
    method EndTransaction()
      requires Valid() && inTx
      modifies this
      ensures Valid() && isOpen && !inTx
      ensures committed == old(committed) + (if old(marked) then old(pending) else [])
      ensures history == old(history) + [End]
    {
      if marked {
        committed := committed + pending;
      }
      pending := [];
      inTx, marked := false, false;
      history := history + [End];
    }
  }

  /** The persisted first-run flag and the values written to it. */
  class Preference {
    var firstRun: bool
    ghost var writes: seq<bool>

    constructor (firstRun: bool)
      ensures this.firstRun == firstRun && writes == []
    {
      this.firstRun := firstRun;
      writes := [];
    }

    method GetFirstRun() returns (b: bool)
      ensures b == firstRun
    {
      b := firstRun;
    }

    method SetFirstRun(b: bool)
      modifies this
      ensures firstRun == b
      ensures writes == old(writes) + [b]
    {
      firstRun := b;
      writes := writes + [b];
    }
  }
}
