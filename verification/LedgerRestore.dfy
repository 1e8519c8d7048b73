/** prisma/restore-wallet-transactions.ts: the payments that never reached the system
    wallet are booked after the fact, each with its transaction and its share of the
    balance in one step. The run may be dry, may stop between two payments, and may be
    started again. */
module LedgerRestore {

  datatype TxType = CONTACT_UNLOCK_PAYMENT | CREDIT_PENALTY | CREDIT_REGISTRATION | CREDIT_JOB_POSTING | OTHER_TRANSACTION

  const PAYMENT_TYPE_TO_TX_TYPE: map<string, TxType> := map[
    "CONTACT_UNLOCK" := CONTACT_UNLOCK_PAYMENT,
    "PENALTY" := CREDIT_PENALTY,
    "REGISTRATION" := CREDIT_REGISTRATION,
    "JOB_POSTING" := CREDIT_JOB_POSTING]

  datatype Payment = Payment(id: string, paymentType: string, amount: int)
  {
    predicate Known() { paymentType in PAYMENT_TYPE_TO_TX_TYPE }

    function TxType(): TxType
      requires Known()
    {
      PAYMENT_TYPE_TO_TX_TYPE[paymentType]
    }
  }

  /** The four types the script books, each as its own kind of transaction. */
  lemma TypesAre(p: Payment)
    ensures p.Known() <==> p.paymentType in {"CONTACT_UNLOCK", "PENALTY", "REGISTRATION", "JOB_POSTING"}
    ensures p.paymentType == "CONTACT_UNLOCK" ==> p.TxType() == CONTACT_UNLOCK_PAYMENT
    ensures p.paymentType == "PENALTY" ==> p.TxType() == CREDIT_PENALTY
    ensures p.paymentType == "REGISTRATION" ==> p.TxType() == CREDIT_REGISTRATION
    ensures p.paymentType == "JOB_POSTING" ==> p.TxType() == CREDIT_JOB_POSTING
  {
  }

  /** A transaction of the system wallet. */
  datatype Tx = Tx(txType: TxType, amount: int, referenceType: string, referenceId: string)

  const BACKFILL: string := "payment_backfill"

  datatype Books = Books(balance: int, txs: seq<Tx>)

  /** The idempotency check: any transaction with the payment's type and id. */
  predicate HasTx(txs: seq<Tx>, txType: TxType, id: string) {
    exists i :: 0 <= i < |txs| && txs[i].txType == txType && txs[i].referenceId == id
  }

  /** The payment is of a known type and has no transaction yet. */
  predicate Due(b: Books, p: Payment) {
    p.Known() && !HasTx(b.txs, p.TxType(), p.id)
  }

  /** The two writes, in one database transaction. */
  function Booked(b: Books, p: Payment): Books
    requires p.Known()
  {
    Books(b.balance + p.amount, b.txs + [Tx(p.TxType(), p.amount, BACKFILL, p.id)])
  }

  function RestoredOne(b: Books, p: Payment, dryRun: bool): Books {
    if Due(b, p) && !dryRun then Booked(b, p) else b
  }

  function Restored(b: Books, payments: seq<Payment>, dryRun: bool): Books {
    if payments == [] then b
    else RestoredOne(Restored(b, payments[..|payments| - 1], dryRun), payments[|payments| - 1], dryRun)
  }

  /** How many the run counts as restored. */
  function RestoredCount(b: Books, payments: seq<Payment>, dryRun: bool): nat {
    if payments == [] then 0
    else
      var before := payments[..|payments| - 1];
      RestoredCount(b, before, dryRun) + if Due(Restored(b, before, dryRun), payments[|payments| - 1]) then 1 else 0
  }

  class Ledger {
    var balance: int
    var txs: seq<Tx>

    ghost function State(): Books
      reads this
    {
      Books(balance, txs)
    }

    constructor (balance: int, txs: seq<Tx>)
      ensures State() == Books(balance, txs)
    {
      this.balance, this.txs := balance, txs;
    }

    method FindFirst(txType: TxType, id: string) returns (found: bool)
      ensures found <==> HasTx(txs, txType, id)
    {
      found := false;
      for i := 0 to |txs|
        invariant !found
        invariant forall j :: 0 <= j < i ==> !(txs[j].txType == txType && txs[j].referenceId == id)
      {
        if txs[i].txType == txType && txs[i].referenceId == id {
          return true;
        }
      }
    }

    /** The restore loop over the completed payments, killed after `stop` of them. */
    method Restore(payments: seq<Payment>, dryRun: bool, stop: nat) returns (restored: nat, skipped: nat)
      modifies this
      ensures var seen := if stop < |payments| then payments[..stop] else payments;
              && State() == Restored(old(State()), seen, dryRun)
              && restored == RestoredCount(old(State()), seen, dryRun)
              && restored + skipped == |seen|
    {
      restored, skipped := 0, 0;
      var n := if stop < |payments| then stop else |payments|;
      for i := 0 to n
        invariant State() == Restored(old(State()), payments[..i], dryRun)
        invariant restored == RestoredCount(old(State()), payments[..i], dryRun)
        invariant restored + skipped == i
      {
        var payment := payments[i];
        assert payments[..i + 1][..i] == payments[..i];
        if payment.paymentType !in PAYMENT_TYPE_TO_TX_TYPE {
          skipped := skipped + 1;
          continue;
        }
        var txType := PAYMENT_TYPE_TO_TX_TYPE[payment.paymentType];
        var existing := FindFirst(txType, payment.id);
        if existing {
          skipped := skipped + 1;
          continue;
        }
        if !dryRun {
          txs := txs + [Tx(txType, payment.amount, BACKFILL, payment.id)];
          balance := balance + payment.amount;
        }
        restored := restored + 1;
      }
      assert payments[..|payments|] == payments;
    }
  }

  // ------------------------------------------------- any number of runs

  datatype Run = Run(payments: seq<Payment>, dryRun: bool, stop: nat)
  {
    function Seen(): seq<Payment> {
      if stop < |payments| then payments[..stop] else payments
    }
  }

  function After(b: Books, runs: seq<Run>): Books {
    if runs == [] then b
    else Restored(After(b, runs[..|runs| - 1]), runs[|runs| - 1].Seen(), runs[|runs| - 1].dryRun)
  }

  function BackfillTotal(txs: seq<Tx>): int {
    if txs == [] then 0
    else BackfillTotal(txs[..|txs| - 1]) + if txs[|txs| - 1].referenceType == BACKFILL then txs[|txs| - 1].amount else 0
  }

  /** How often a payment was booked after the fact under a type. */
  function Backfills(txs: seq<Tx>, txType: TxType, id: string): nat {
    if txs == [] then 0
    else
      var tx := txs[|txs| - 1];
      Backfills(txs[..|txs| - 1], txType, id) +
      if tx.referenceType == BACKFILL && tx.txType == txType && tx.referenceId == id then 1 else 0
  }

  lemma BookedParts(b: Books, p: Payment, txType: TxType, id: string)
    requires p.Known()
    ensures var after := Booked(b, p);
            && BackfillTotal(after.txs) == BackfillTotal(b.txs) + p.amount
            && Backfills(after.txs, txType, id) == Backfills(b.txs, txType, id) + (if p.TxType() == txType && p.id == id then 1 else 0)
            && (HasTx(after.txs, txType, id) <==> HasTx(b.txs, txType, id) || (p.TxType() == txType && p.id == id))
  {
    var after := Booked(b, p).txs;
    assert after[..|after| - 1] == b.txs;
    if i :| 0 <= i < |b.txs| && b.txs[i].txType == txType && b.txs[i].referenceId == id {
      assert after[i] == b.txs[i];
    }
    assert after[|b.txs|].txType == p.TxType() && after[|b.txs|].referenceId == p.id;
  }

  lemma MoreTxs(txs: seq<Tx>, txType: TxType, id: string)
    requires txs != [] && HasTx(txs[..|txs| - 1], txType, id)
    ensures HasTx(txs, txType, id)
  {
    var before := txs[..|txs| - 1];
    var i :| 0 <= i < |before| && before[i].txType == txType && before[i].referenceId == id;
    assert txs[i] == before[i];
  }

  lemma {:induction false} NoTxNoBackfill(txs: seq<Tx>, txType: TxType, id: string)
    requires !HasTx(txs, txType, id)
    ensures Backfills(txs, txType, id) == 0
  {
    if txs != [] {
      var before := txs[..|txs| - 1];
      if HasTx(before, txType, id) {
        MoreTxs(txs, txType, id);
      }
      NoTxNoBackfill(before, txType, id);
    }
  }

  predicate Consistent(b: Books, now: Books, txType: TxType, id: string) {
    now.balance - BackfillTotal(now.txs) == b.balance - BackfillTotal(b.txs) &&
    (Backfills(now.txs, txType, id) <= 1 || Backfills(now.txs, txType, id) == Backfills(b.txs, txType, id)) &&
    b.txs <= now.txs
  }

  lemma {:induction false} RunKeeps(b: Books, start: Books, payments: seq<Payment>, dryRun: bool, txType: TxType, id: string)
    requires Consistent(b, start, txType, id)
    ensures Consistent(b, Restored(start, payments, dryRun), txType, id)
  {
    if payments != [] {
      var before, p := payments[..|payments| - 1], payments[|payments| - 1];
      RunKeeps(b, start, before, dryRun, txType, id);
      var now := Restored(start, before, dryRun);
      if Due(now, p) && !dryRun {
        BookedParts(now, p, txType, id);
        NoTxNoBackfill(now.txs, p.TxType(), p.id);
      }
    }
  }

  /** Over any number of runs, dry or live, stopped anywhere, over whatever payments are
      completed by then: the balance has moved by exactly what was booked after the
      fact, no payment was booked so twice, and no transaction was touched. */
  lemma MoneyIsConserved(b: Books, runs: seq<Run>, txType: TxType, id: string)
    ensures var now := After(b, runs);
            && now.balance - BackfillTotal(now.txs) == b.balance - BackfillTotal(b.txs)
            && (Backfills(b.txs, txType, id) <= 1 ==> Backfills(now.txs, txType, id) <= 1)
            && b.txs <= now.txs
  {
    RunsKeep(b, runs, txType, id);
  }

  lemma {:induction false} RunsKeep(b: Books, runs: seq<Run>, txType: TxType, id: string)
    ensures Consistent(b, After(b, runs), txType, id)
  {
    if runs != [] {
      var last := runs[|runs| - 1];
      RunsKeep(b, runs[..|runs| - 1], txType, id);
      RunKeeps(b, After(b, runs[..|runs| - 1]), last.Seen(), last.dryRun, txType, id);
    }
  }

  // ------------------------------------------------- a complete run

  lemma {:induction false} TxsStay(b: Books, payments: seq<Payment>, dryRun: bool, txType: TxType, id: string)
    requires HasTx(b.txs, txType, id)
    ensures HasTx(Restored(b, payments, dryRun).txs, txType, id)
  {
    if payments != [] {
      var before, p := payments[..|payments| - 1], payments[|payments| - 1];
      TxsStay(b, before, dryRun, txType, id);
      if Due(Restored(b, before, dryRun), p) && !dryRun {
        BookedParts(Restored(b, before, dryRun), p, txType, id);
      }
    }
  }

  /** After a live run that comes to its end every payment of a known type has its
      transaction. */
  lemma {:induction false} EveryPaymentBooked(b: Books, payments: seq<Payment>, i: nat)
    requires i < |payments| && payments[i].Known()
    ensures HasTx(Restored(b, payments, false).txs, payments[i].TxType(), payments[i].id)
  {
    var before, last := payments[..|payments| - 1], payments[|payments| - 1];
    var now := Restored(b, before, false);
    if Due(now, last) {
      BookedParts(now, last, payments[i].TxType(), payments[i].id);
    }
    if i < |before| {
      EveryPaymentBooked(b, before, i);
    }
  }

  lemma {:induction false} NothingDue(b: Books, payments: seq<Payment>, dryRun: bool)
    requires forall i :: 0 <= i < |payments| ==> !Due(b, payments[i])
    ensures Restored(b, payments, dryRun) == b && RestoredCount(b, payments, dryRun) == 0
  {
    if payments != [] {
      NothingDue(b, payments[..|payments| - 1], dryRun);
    }
  }

  /** The run after it finds nothing to restore. */
  lemma NextRunRestoresNone(b: Books, payments: seq<Payment>, dryRun: bool)
    ensures var now := Restored(b, payments, false);
            Restored(now, payments, dryRun) == now && RestoredCount(now, payments, dryRun) == 0
  {
    var now := Restored(b, payments, false);
    forall i | 0 <= i < |payments|
      ensures !Due(now, payments[i])
    {
      if payments[i].Known() {
        EveryPaymentBooked(b, payments, i);
      }
    }
    NothingDue(now, payments, dryRun);
  }

  /** The transaction of one of the payments, with its type, amount and id, when none had
      been booked for it. */
  ghost predicate TxOfOne(b: Books, payments: seq<Payment>, tx: Tx) {
    exists p :: p in payments && p.Known() && !HasTx(b.txs, p.TxType(), p.id) &&
                tx == Tx(p.TxType(), p.amount, "payment_backfill", p.id)
  }

  lemma OfMore(b: Books, before: seq<Payment>, last: Payment, tx: Tx)
    requires TxOfOne(b, before, tx)
    ensures TxOfOne(b, before + [last], tx)
  {
    var p :| p in before && p.Known() && !HasTx(b.txs, p.TxType(), p.id) &&
             tx == Tx(p.TxType(), p.amount, "payment_backfill", p.id);
    assert p in before + [last];
  }

  /** A live run adds one transaction for each payment it counts. */
  lemma {:induction false} WhatIsBooked(b: Books, payments: seq<Payment>)
    ensures var txs := Restored(b, payments, false).txs;
            && |txs| == |b.txs| + RestoredCount(b, payments, false)
            && b.txs <= txs
            && forall i :: |b.txs| <= i < |txs| ==> TxOfOne(b, payments, txs[i])
  {
    if payments != [] {
      var before, last := payments[..|payments| - 1], payments[|payments| - 1];
      WhatIsBooked(b, before);
      var now, txs := Restored(b, before, false), Restored(b, payments, false).txs;
      assert payments == before + [last];
      if Due(now, last) && HasTx(b.txs, last.TxType(), last.id) {
        TxsStay(b, before, false, last.TxType(), last.id);
      }
      forall i | |b.txs| <= i < |txs|
        ensures TxOfOne(b, payments, txs[i])
      {
        if i < |now.txs| {
          OfMore(b, before, last, txs[i]);
        } else {
          assert last in payments;
        }
      }
    }
  }

  // ------------------------------------------------- interrupted runs cost nothing

  predicate DistinctIds(payments: seq<Payment>) {
    forall i, j :: 0 <= i < j < |payments| ==> payments[i].id != payments[j].id
  }

  lemma {:induction false} DueUnchanged(b: Books, payments: seq<Payment>, dryRun: bool, p: Payment)
    requires forall q :: q in payments ==> q.id != p.id
    ensures Due(Restored(b, payments, dryRun), p) <==> Due(b, p)
  {
    if payments != [] {
      var before, last := payments[..|payments| - 1], payments[|payments| - 1];
      DueUnchanged(b, before, dryRun, p);
      assert last in payments;
      if Due(Restored(b, before, dryRun), last) && !dryRun && p.Known() {
        BookedParts(Restored(b, before, dryRun), last, p.TxType(), p.id);
      }
    }
  }

  /** A dry run counts what the live run would restore, and changes nothing. */
  lemma {:induction false} DryRunPredicts(b: Books, payments: seq<Payment>)
    requires DistinctIds(payments)
    ensures Restored(b, payments, true) == b
    ensures RestoredCount(b, payments, true) == RestoredCount(b, payments, false)
  {
    if payments != [] {
      var before, last := payments[..|payments| - 1], payments[|payments| - 1];
      DryRunPredicts(b, before);
      DueUnchanged(b, before, false, last);
    }
  }

  /** What the payments that are due add up to. */
  function Owed(b: Books, payments: seq<Payment>): int {
    if payments == [] then 0
    else
      var p := payments[|payments| - 1];
      Owed(b, payments[..|payments| - 1]) + if Due(b, p) then p.amount else 0
  }

  /** Booking a payment takes its amount off what is owed, if it is on the list. */
  lemma {:induction false} BookingPaysOff(b: Books, payments: seq<Payment>, p: Payment)
    requires DistinctIds(payments) && Due(b, p)
    requires forall i :: 0 <= i < |payments| && payments[i].id == p.id ==> payments[i] == p
    ensures Owed(Booked(b, p), payments) == Owed(b, payments) - if p in payments then p.amount else 0
  {
    if payments != [] {
      var before, last := payments[..|payments| - 1], payments[|payments| - 1];
      BookingPaysOff(b, before, p);
      assert p in payments <==> p in before || p == last;
      assert p in before ==> p != last;
      if last.Known() {
        BookedParts(b, p, last.TxType(), last.id);
      }
    }
  }

  lemma {:induction false} RunConserves(b: Books, all: seq<Payment>, payments: seq<Payment>, dryRun: bool)
    requires DistinctIds(all) && forall p :: p in payments ==> p in all
    ensures Restored(b, payments, dryRun).balance + Owed(Restored(b, payments, dryRun), all) == b.balance + Owed(b, all)
  {
    if payments != [] {
      var before, p := payments[..|payments| - 1], payments[|payments| - 1];
      RunConserves(b, all, before, dryRun);
      var now := Restored(b, before, dryRun);
      assert p in all;
      if Due(now, p) && !dryRun {
        BookingPaysOff(now, all, p);
      }
    }
  }

  lemma {:induction false} RunsConserve(b: Books, all: seq<Payment>, runs: seq<Run>)
    requires DistinctIds(all) && forall i, p :: 0 <= i < |runs| && p in runs[i].payments ==> p in all
    ensures After(b, runs).balance + Owed(After(b, runs), all) == b.balance + Owed(b, all)
  {
    if runs != [] {
      var last := runs[|runs| - 1];
      RunsConserve(b, all, runs[..|runs| - 1]);
      RunConserves(After(b, runs[..|runs| - 1]), all, last.Seen(), last.dryRun);
    }
  }

  lemma {:induction false} NothingOwed(b: Books, payments: seq<Payment>)
    requires forall i :: 0 <= i < |payments| ==> !Due(b, payments[i])
    ensures Owed(b, payments) == 0
  {
    if payments != [] {
      NothingOwed(b, payments[..|payments| - 1]);
    }
  }

  /** However many runs were stopped or dry before it, a complete live run leaves the
      balance at what it was before them all plus what was owed then, each payment once. */
  lemma ExactlyOnce(b: Books, all: seq<Payment>, runs: seq<Run>)
    requires DistinctIds(all) && forall i, p :: 0 <= i < |runs| && p in runs[i].payments ==> p in all
    ensures Restored(After(b, runs), all, false).balance == b.balance + Owed(b, all)
    ensures Restored(After(b, runs), all, false).balance == Restored(b, all, false).balance
  {
    RunsConserve(b, all, runs);
    CompleteRunPays(After(b, runs), all);
    CompleteRunPays(b, all);
  }

  lemma CompleteRunPays(b: Books, all: seq<Payment>)
    requires DistinctIds(all)
    ensures Restored(b, all, false).balance == b.balance + Owed(b, all)
  {
    RunConserves(b, all, all, false);
    var now := Restored(b, all, false);
    forall i | 0 <= i < |all|
      ensures !Due(now, all[i])
    {
      if all[i].Known() {
        EveryPaymentBooked(b, all, i);
      }
    }
    NothingOwed(now, all);
  }
}
