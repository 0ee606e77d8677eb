/**
 Batching of receipts before their Merkle root is anchored
 (backend/anchoring/store.py, `append_open_batch_receipt`). Closing a batch is a
 bare status change.
 */
module ReceiptBatches {
  import opened Wrappers
  import opened PyText

  datatype Batch = Batch(isOpen: bool, openedAt: int, count: nat)

  datatype Receipt = Receipt(batchId: string, receiptId: string, leaf: nat)

  /** The two tables, each by primary key. */
  datatype Tables = Tables(batches: map<string, Batch>, receipts: map<string, Receipt>)

  const EMPTY := Tables(map[], map[])

  // ----- what the tables always satisfy ------------------------------------------------

  predicate OneOpen(t: Tables) {
    forall a, b | a in t.batches && b in t.batches && t.batches[a].isOpen && t.batches[b].isOpen :: a == b
  }

  /** A receipt is in one batch, at one place. */
  predicate ReceiptsOnce(t: Tables) {
    forall j, k | j in t.receipts && k in t.receipts && t.receipts[j].receiptId == t.receipts[k].receiptId :: j == k
  }

  predicate HasLeaf(t: Tables, batch: string, leaf: nat) {
    exists k | k in t.receipts :: t.receipts[k].batchId == batch && t.receipts[k].leaf == leaf
  }

  /** The leaf indices of a batch are exactly 0, 1, ..., count - 1, each used once. */
  predicate LeavesExact(t: Tables) {
    && (forall k | k in t.receipts ::
          t.receipts[k].batchId in t.batches && t.receipts[k].leaf < t.batches[t.receipts[k].batchId].count)
    && (forall b, i: nat | b in t.batches && 0 <= i < t.batches[b].count :: HasLeaf(t, b, i))
    && forall j, k | j in t.receipts && k in t.receipts
         && t.receipts[j].batchId == t.receipts[k].batchId && t.receipts[j].leaf == t.receipts[k].leaf :: j == k
  }

  predicate Inv(t: Tables) {
    OneOpen(t) && ReceiptsOnce(t) && LeavesExact(t)
  }

  // ----- committed changes -----------------------------------------------------------------

  datatype Event =
    | Append(receiptId: string, batchId: string, rowId: string, now: int)
    | Close(batchId: string)

  predicate HasReceipt(t: Tables, receiptId: string) {
    exists k | k in t.receipts :: t.receipts[k].receiptId == receiptId
  }

  predicate HasOpen(t: Tables) {
    exists b | b in t.batches :: t.batches[b].isOpen
  }

  /** The append goes to the open batch, or opens a new one when there is none. */
  predicate Enabled(t: Tables, e: Event) {
    match e
    case Append(rid, b, row, _) =>
      && rid != "" && row !in t.receipts && !HasReceipt(t, rid)
      && (if b in t.batches then t.batches[b].isOpen else !HasOpen(t))
    case Close(b) => b in t.batches
  }

  function CountOf(t: Tables, batch: string): nat {
    if batch in t.batches then t.batches[batch].count else 0
  }

  function Apply(t: Tables, e: Event): Tables {
    match e
    case Append(rid, b, row, now) =>
      var batch := if b in t.batches then t.batches[b] else Batch(true, now, 0);
      Tables(t.batches[b := batch.(count := batch.count + 1)], t.receipts[row := Receipt(b, rid, batch.count)])
    case Close(b) =>
      if b in t.batches then t.(batches := t.batches[b := t.batches[b].(isOpen := false)]) else t
  }

  lemma StepLeaves(t: Tables, e: Event)
    requires Inv(t) && Enabled(t, e)
    ensures LeavesExact(Apply(t, e))
  {
    var t' := Apply(t, e);
    assert forall k | k in t.receipts :: k in t'.receipts && t'.receipts[k] == t.receipts[k];
    forall b, i: nat | b in t'.batches && 0 <= i < t'.batches[b].count ensures HasLeaf(t', b, i) {
      if e.Append? && b == e.batchId && i == CountOf(t, b) {
        assert t'.receipts[e.rowId].leaf == i;
      } else {
        assert HasLeaf(t, b, i);
      }
    }
  }

  /** Receipts keep their place for good. */
  predicate Extends(t: Tables, t': Tables) {
    && (forall b | b in t.batches :: b in t'.batches && t.batches[b].count <= t'.batches[b].count)
    && forall k | k in t.receipts :: k in t'.receipts && t'.receipts[k] == t.receipts[k]
  }

  lemma StepKeepsInv(t: Tables, e: Event)
    requires Inv(t) && Enabled(t, e)
    ensures Inv(Apply(t, e)) && Extends(t, Apply(t, e))
  {
    StepLeaves(t, e);
  }

  ghost function Exec(t: Tables, es: seq<Event>): Option<Tables>
    decreases |es|
  {
    if es == [] then Some(t)
    else if Enabled(t, es[0]) then Exec(Apply(t, es[0]), es[1..])
    else None
  }

  /**
   After every run of appends and closes: at most one batch is open, every receipt
   is in one batch once, each batch's leaf indices are exactly 0 .. count - 1, and
   no receipt has ever moved.
   */
  lemma {:induction false} RunKeepsInv(t: Tables, es: seq<Event>)
    requires Inv(t) && Exec(t, es).Some?
    ensures Inv(Exec(t, es).value) && Extends(t, Exec(t, es).value)
    decreases |es|
  {
    if es != [] {
      StepKeepsInv(t, es[0]);
      RunKeepsInv(Apply(t, es[0]), es[1..]);
    }
  }

  function RowsBelow(t: Tables, b: string, n: nat): set<string> {
    set k | k in t.receipts && t.receipts[k].batchId == b && t.receipts[k].leaf < n
  }

  lemma {:induction false} SizeBelow(t: Tables, b: string, n: nat)
    requires LeavesExact(t) && b in t.batches && n <= t.batches[b].count
    ensures |RowsBelow(t, b, n)| == n
  {
    if n == 0 {
      assert RowsBelow(t, b, 0) == {};
    } else {
      assert HasLeaf(t, b, n - 1);
      var last :| last in t.receipts && t.receipts[last].batchId == b && t.receipts[last].leaf == n - 1;
      assert RowsBelow(t, b, n) == RowsBelow(t, b, n - 1) + {last};
      SizeBelow(t, b, n - 1);
    }
  }

  function ReceiptsOf(t: Tables, b: string): set<string> {
    set k | k in t.receipts && t.receipts[k].batchId == b
  }

  /** So a batch holds exactly as many receipts as its counter says. */
  lemma CountIsSize(t: Tables, b: string)
    requires Inv(t) && b in t.batches
    ensures |ReceiptsOf(t, b)| == t.batches[b].count
  {
    SizeBelow(t, b, t.batches[b].count);
    assert ReceiptsOf(t, b) == RowsBelow(t, b, t.batches[b].count);
  }

  /** All of this holds of every table that a run from empty tables reaches. */
  lemma FromEmpty(es: seq<Event>)
    requires Exec(EMPTY, es).Some?
    ensures var t := Exec(EMPTY, es).value;
      && Inv(t)
      && forall b | b in t.batches :: |ReceiptsOf(t, b)| == t.batches[b].count
  {
    RunKeepsInv(EMPTY, es);
    var t := Exec(EMPTY, es).value;
    forall b | b in t.batches ensures |ReceiptsOf(t, b)| == t.batches[b].count {
      CountIsSize(t, b);
    }
  }

  /** The first append opens a batch, the second one goes into it and leaves its opening time alone. */
  lemma TwoAppends()
    ensures var e, f := Append("r", "b", "k", 7), Append("s", "b", "l", 9);
      && Enabled(EMPTY, e) && Enabled(Apply(EMPTY, e), f)
      && Apply(EMPTY, e) == Tables(map["b" := Batch(true, 7, 1)], map["k" := Receipt("b", "r", 0)])
      && Apply(Apply(EMPTY, e), f)
           == Tables(map["b" := Batch(true, 7, 2)], map["k" := Receipt("b", "r", 0), "l" := Receipt("b", "s", 1)])
      && Apply(Apply(EMPTY, e), Close("b")) == Tables(map["b" := Batch(false, 7, 1)], map["k" := Receipt("b", "r", 0)])
  {
    var t := Apply(EMPTY, Append("r", "b", "k", 7));
    assert t.batches == map["b" := Batch(true, 7, 1)];
  }

  // ----- the transaction -------------------------------------------------------------------

  datatype AppendError = ReceiptIdRequired | IntegrityError

  class ReceiptBatchStore {
    var batches: map<string, Batch>
    var receipts: map<string, Receipt>

    function Contents(): Tables
      reads this
    {
      Tables(batches, receipts)
    }

    predicate Valid()
      reads this
    {
      Inv(Contents())
    }

    constructor ()
      ensures Valid() && Contents() == EMPTY
    {
      batches := map[];
      receipts := map[];
    }

    /** `WHERE status = 'open' ORDER BY opened_at ASC LIMIT 1` */
    method OldestOpen() returns (b: Option<string>)
      ensures b.None? <==> !HasOpen(Contents())
      ensures b.Some? ==> b.value in batches && batches[b.value].isOpen
      ensures b.Some? ==>
        forall k | k in batches && batches[k].isOpen :: batches[b.value].openedAt <= batches[k].openedAt
    {
      b := None;
      var rest := batches.Keys;
      while rest != {}
        invariant rest <= batches.Keys
        invariant b.None? ==> forall k | k in batches && k !in rest :: !batches[k].isOpen
        invariant b.Some? ==> b.value in batches && batches[b.value].isOpen
        invariant b.Some? ==>
          forall k | k in batches && k !in rest && batches[k].isOpen :: batches[b.value].openedAt <= batches[k].openedAt
        decreases rest
      {
        var k :| k in rest;
        rest := rest - {k};
        if batches[k].isOpen && (b.None? || batches[k].openedAt < batches[b.value].openedAt) {
          b := Some(k);
        }
      }
    }

    /** `COALESCE(MAX(leaf_index), -1) + 1` */
    method NextLeaf(batch: string) returns (next: nat)
      ensures forall k | k in receipts && receipts[k].batchId == batch :: receipts[k].leaf < next
      ensures next == 0 || exists k | k in receipts :: receipts[k].batchId == batch && receipts[k].leaf == next - 1
    {
      next := 0;
      var rest := receipts.Keys;
      while rest != {}
        invariant rest <= receipts.Keys
        invariant forall k | k in receipts && k !in rest && receipts[k].batchId == batch :: receipts[k].leaf < next
        invariant next == 0 || exists k | k in receipts :: receipts[k].batchId == batch && receipts[k].leaf == next - 1
        decreases rest
      {
        var k :| k in rest;
        rest := rest - {k};
        if receipts[k].batchId == batch && receipts[k].leaf >= next {
          next := receipts[k].leaf + 1;
        }
      }
    }

    /**
     `append_open_batch_receipt`, with the generated ids as arguments. A duplicate
     receipt or a clashing id violates a constraint, and the rollback restores both
     tables, including a batch opened on the way.
     */
    method AppendReceipt(receiptId: string, newBatchId: string, rowId: string, now: int)
      returns (r: Result<Event, AppendError>)
      requires Valid()
      modifies this
      ensures Valid()
      ensures r.Success? ==>
        && Enabled(old(Contents()), r.value) && Contents() == Apply(old(Contents()), r.value)
        && r.value.Append? && r.value.receiptId == Strip(receiptId) && r.value.rowId == rowId && r.value.now == now
        && (HasOpen(old(Contents())) || r.value.batchId == newBatchId)
      ensures r.Failure? ==> Contents() == old(Contents())
      ensures r == Failure(ReceiptIdRequired) <==> Strip(receiptId) == ""
      ensures r == Failure(IntegrityError) <==>
        && Strip(receiptId) != ""
        && (|| HasReceipt(old(Contents()), Strip(receiptId)) || rowId in old(receipts)
            || (!HasOpen(old(Contents())) && newBatchId in old(batches)))
    {
      var rid := Strip(receiptId);
      if rid == "" { return Failure(ReceiptIdRequired); }
      var savedBatches, savedReceipts := batches, receipts;
      ghost var before := Contents();
      var open := OldestOpen();
      var bid := newBatchId;
      if open.Some? {
        bid := open.value;
      } else {
        if bid in batches { return Failure(IntegrityError); }
        batches := batches[bid := Batch(true, now, 0)];
      }
      var ok := InsertReceipt(before, Append(rid, bid, rowId, now));
      if !ok {
        batches, receipts := savedBatches, savedReceipts;
        return Failure(IntegrityError);
      }
      r := Success(Append(rid, bid, rowId, now));
      StepKeepsInv(before, r.value);
    }

    /** The two statements after the batch is known: the row and the counter. */
    method InsertReceipt(ghost before: Tables, e: Event) returns (ok: bool)
      requires Inv(before) && e.Append? && e.receiptId != ""
      requires if e.batchId in before.batches then before.batches[e.batchId].isOpen else !HasOpen(before)
      requires receipts == before.receipts
      requires batches == if e.batchId in before.batches then before.batches
                          else before.batches[e.batchId := Batch(true, e.now, 0)]
      modifies this
      ensures ok <==> Enabled(before, e)
      ensures ok ==> Contents() == Apply(before, e)
    {
      var leaf := NextLeaf(e.batchId);
      NextLeafIsCount(before, e.batchId, leaf);
      if e.rowId in receipts || exists k | k in receipts :: receipts[k].receiptId == e.receiptId {
        return false;
      }
      receipts := receipts[e.rowId := Receipt(e.batchId, e.receiptId, leaf)];
      batches := batches[e.batchId := batches[e.batchId].(count := batches[e.batchId].count + 1)];
      ok := true;
    }

    /** The batch leaves the open status. */
    method CloseBatch(batch: string)
      requires Valid()
      modifies this`batches
      ensures Valid()
      ensures Contents() == Apply(old(Contents()), Close(batch))
    {
      if batch in batches {
        StepKeepsInv(Contents(), Close(batch));
        batches := batches[batch := batches[batch].(isOpen := false)];
      }
    }
  }

  /** The next free leaf index is the batch's counter. */
  lemma NextLeafIsCount(t: Tables, b: string, next: nat)
    requires Inv(t)
    requires forall k | k in t.receipts && t.receipts[k].batchId == b :: t.receipts[k].leaf < next
    requires next == 0 || exists k | k in t.receipts :: t.receipts[k].batchId == b && t.receipts[k].leaf == next - 1
    ensures next == CountOf(t, b)
  {
    var n := CountOf(t, b);
    if n > 0 {
      assert HasLeaf(t, b, n - 1);
    }
  }
}
