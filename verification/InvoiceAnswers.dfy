/**
 What registering a payment and crediting do to the rows, said column by column, and which status
 changes there are. The relations here share no definition with the operations themselves.
 */
module InvoiceAnswers {
  import opened Wrappers
  import opened Invoices

  // ---------- sums and revision numbers ----------

  function SumOf(lines: seq<Line>): int {
    if lines == [] then 0 else lines[0].subtotal + lines[0].tax + SumOf(lines[1..])
  }

  lemma {:induction false} SumOfMore(lines: seq<Line>, line: Line)
    ensures SumOf(lines + [line]) == SumOf(lines) + line.subtotal + line.tax
  {
    if lines != [] {
      SumOfMore(lines[1..], line);
      assert (lines + [line])[1..] == lines[1..] + [line];
    }
  }

  /** The stored total adds subtotal and tax of every line, in whatever order they are summed. */
  lemma {:induction false} TotalIsExact(lines: seq<Line>)
    ensures DocumentTotal(lines) == SumOf(lines)
  {
    if lines != [] {
      var init, last := lines[..|lines| - 1], lines[|lines| - 1];
      TotalIsExact(init);
      SumOfMore(init, last);
      assert init + [last] == lines;
    }
  }

  /** The last part goes up by one and the parts before it stay; an empty revision becomes 1. */
  ghost predicate IsNext(revision: seq<nat>, next: seq<nat>) {
    if |revision| == 0 then next == [1]
    else
      && |next| == |revision| && next[|next| - 1] == revision[|next| - 1] + 1
      && forall k :: 0 <= k < |next| - 1 ==> next[k] == revision[k]
  }

  lemma NextRevisionIsExact(revision: seq<nat>)
    ensures IsNext(revision, NextRevision(revision))
  {
  }

  // ---------- revisions and payments ----------

  /** The lines of the source, and behind them a tax-free payment line of minus the amount. */
  ghost predicate IsCredited(lines: seq<Line>, amount: int, lines': seq<Line>) {
    && |lines'| == |lines| + 1 && lines'[..|lines|] == lines
    && var credit := lines'[|lines|];
    && credit.isPayment && credit.subtotal == -amount && credit.tax == 0 && credit.total == -amount
    && forall k :: 0 <= k < |lines| ==> lines[k].sortOrder < credit.sortOrder
  }

  /** `id` is a draft that revises `source` and asks for `amount` less than its lines add up to. */
  ghost predicate IsRevision(b: Books, b': Books, source: Id, amount: int, id: Id) {
    && source in b.invoices && source in b.lines
    && id in b'.invoices && id in b'.lines
    && b'.invoices[id].status == Draft && b'.invoices[id].source == Some(source)
    && IsNext(b.invoices[source].revision, b'.invoices[id].revision)
    && IsCredited(b.lines[source], amount, b'.lines[id])
    && b'.invoices[id].total == SumOf(b.lines[source]) - amount
  }

  lemma RevisionIsExact(b: Books, source: Id, amount: int, id: Id)
    requires source in b.invoices && source in b.lines
    ensures IsRevision(b, WithRevision(b, source, amount, id), source, amount, id)
  {
    CreditSortsLast(b.lines[source], amount);
    CreditLowersTotal(b.lines[source], amount);
    TotalIsExact(b.lines[source]);
    NextRevisionIsExact(b.invoices[source].revision);
  }

  ghost predicate IsPayable(b: Books, i: Id, amount: int) {
    && i in b.invoices && i in b.lines
    && b.invoices[i].status in {Sent, Finalized, Overdue}
    && amount <= b.invoices[i].total && 0 < b.invoices[i].total
  }

  /** A new payment row of exactly this amount for this invoice; all other payments stay. */
  ghost predicate IsRecorded(b: Books, b': Books, i: Id, amount: int, paymentId: Id, revised: Option<Id>) {
    && (forall p :: p in b'.payments <==> p in b.payments || p == paymentId)
    && (forall p :: p in b.payments && p != paymentId ==> b'.payments[p] == b.payments[p])
    && b'.payments[paymentId].invoice == i && b'.payments[paymentId].amount == amount
    && b'.payments[paymentId].revised == revised
  }

  /** The invoice changes its status and no other column. */
  ghost predicate IsMoved(b: Books, b': Books, i: Id, status: Status) {
    && i in b.invoices
    && i in b'.invoices && b'.invoices[i].status == status && b'.invoices[i].total == b.invoices[i].total
    && b'.invoices[i].revision == b.invoices[i].revision && b'.invoices[i].source == b.invoices[i].source
  }

  /** Invoices and lines are the same but for these identifiers. */
  ghost predicate SameApartFrom(b: Books, b': Books, ids: set<Id>) {
    && (forall k :: k !in ids ==> (k in b'.invoices <==> k in b.invoices) && (k in b'.lines <==> k in b.lines))
    && (forall k :: k in b.invoices && k !in ids ==> b'.invoices[k] == b.invoices[k])
    && (forall k :: k in b.lines && k !in ids ==> b'.lines[k] == b.lines[k])
  }

  /** A payment of the whole total settles the invoice; a smaller one hands the rest to a revision. */
  ghost predicate IsPaid(b: Books, b': Books, i: Id, amount: int, paymentId: Id, revisedId: Id) {
    && i in b.invoices && i in b.lines
    && if amount == b.invoices[i].total then
         && IsRecorded(b, b', i, amount, paymentId, None) && IsMoved(b, b', i, Paid)
         && SameApartFrom(b, b', {i}) && b'.lines == b.lines
       else
         && IsRecorded(b, b', i, amount, paymentId, Some(revisedId)) && IsMoved(b, b', i, PartiallyPaid)
         && SameApartFrom(b, b', {i, revisedId}) && i in b'.lines && b'.lines[i] == b.lines[i]
         && IsRevision(b, b', i, amount, revisedId)
  }

  lemma PartialPaymentIsExact(b: Books, i: Id, amount: int, paymentId: Id, revisedId: Id)
    requires revisedId !in b.invoices && CanPay(b, i, amount) && amount != b.invoices[i].total
    ensures IsPaid(b, WithPayment(b, i, amount, paymentId, revisedId), i, amount, paymentId, revisedId)
  {
    var paid := b.(payments := b.payments[paymentId := Payment(i, amount, Some(revisedId))]);
    var b' := WithStatus(paid, i, PartiallyPaid);
    RevisionIsExact(b', i, amount, revisedId);
    var after := WithRevision(b', i, amount, revisedId);
    assert IsRevision(b, after, i, amount, revisedId);
    assert IsRecorded(b, after, i, amount, paymentId, Some(revisedId));
  }

  /** Accepted are the payments the guards allow, and an accepted one is recorded as it was asked for. */
  lemma PaymentIsExact(b: Books, i: Id, amount: int, paymentId: Id, revisedId: Id)
    requires revisedId !in b.invoices
    ensures CanPay(b, i, amount) <==> IsPayable(b, i, amount)
    ensures var b' := WithPayment(b, i, amount, paymentId, revisedId);
      if IsPayable(b, i, amount) then IsPaid(b, b', i, amount, paymentId, revisedId) else b' == b
  {
    if CanPay(b, i, amount) && amount != b.invoices[i].total {
      PartialPaymentIsExact(b, i, amount, paymentId, revisedId);
    }
  }

  /** On every run a partial payment leaves a revision that asks for the total of the invoice less the payment. */
  lemma PartialPaymentOnEveryRun(h: History, i: Id, amount: int, paymentId: Id, revisedId: Id)
    requires IsHistory(Then(h, Pay(i, amount, paymentId, revisedId)))
    requires IsPayable(After(h), i, amount) && amount != After(h).invoices[i].total
    ensures var b, b' := After(h), After(Then(h, Pay(i, amount, paymentId, revisedId)));
      revisedId in b'.invoices && b'.invoices[revisedId].total == b.invoices[i].total - amount
  {
    var b := After(h);
    EveryRunKeepsBooks(h);
    PaymentIsExact(b, i, amount, paymentId, revisedId);
    TotalIsExact(b.lines[i]);
    assert TotalsOk(b);
  }

  /** Crediting needs an acknowledged dispute and no more than the total, and leaves the credited invoice as it is. */
  lemma CreditIsExact(b: Books, i: Id, amount: int, id: Id)
    requires id !in b.invoices
    ensures var b' := Apply(b, Credit(i, amount, id));
      if i in b.invoices && i in b.lines && b.invoices[i].status == Acknowledged && amount <= b.invoices[i].total then
        b'.payments == b.payments && SameApartFrom(b, b', {id}) && IsRevision(b, b', i, amount, id)
      else b' == b
  {
    if i in b.invoices && i in b.lines {
      RevisionIsExact(b, i, amount, id);
    }
  }

  // ---------- status changes ----------

  const STATUS_CHANGES := {
    (Draft, Sent), (Draft, Accredited), (Draft, Demoted), (Draft, Disputed), (Sent, Overdue), (Sent, Disputed),
    (Finalized, Disputed), (Overdue, Disputed), (Disputed, Draft), (Disputed, Acknowledged),
    (Acknowledged, Accredited), (Accredited, Archived), (Paid, Archived), (PartiallyPaid, Archived)}

  function SomeChangeTo(to: Status): Op {
    match to
    case Sent => Send(0, false)
    case Demoted => Demote(0)
    case Disputed => Dispute(0)
    case Overdue => MarkOverdue(0, true)
    case Draft => Deny(0)
    case Acknowledged => Acknowledge(0)
    case Archived => Archive(0)
    case _ => Accredit(0)
  }

  /** Besides payments and credits these are the ways an invoice moves; it goes overdue only with something to pay. */
  lemma StatusChangesAreExact(v: Invoice, to: Status)
    ensures (exists op :: NextStatus(v, op) == Some(to)) <==>
            (v.status, to) in STATUS_CHANGES && (to == Overdue ==> v.total > 0)
  {
    if (v.status, to) in STATUS_CHANGES && (to == Overdue ==> v.total > 0) {
      var op := if v.status == Draft && to == Accredited then Send(0, true) else SomeChangeTo(to);
      assert NextStatus(v, op) == Some(to);
    }
  }
}
