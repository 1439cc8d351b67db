/**
 Invoices, their stored lines and the payments registered on them. A partial payment closes the
 invoice it is made on and opens a draft revision that carries one more line, the credit.
 */
module Invoices {
  import opened Wrappers

  type Id = nat

  datatype Status =
    | Draft | Sent | Finalized | Overdue | Disputed | Acknowledged | Accredited
    | Paid | PartiallyPaid | Archived | Demoted

  /** The money columns of a line item, in minor units. */
  datatype Line = Line(sortOrder: int, isPayment: bool, subtotal: int, tax: int, total: int)

  /** `revision` is the dotted revision, split at the dots. */
  datatype Invoice = Invoice(status: Status, total: int, revision: seq<nat>, source: Option<Id>)

  datatype Payment = Payment(invoice: Id, amount: int, revised: Option<Id>)

  datatype Books = Books(invoices: map<Id, Invoice>, lines: map<Id, seq<Line>>, payments: map<Id, Payment>)

  predicate CanRegisterPayment(status: Status) {
    status == Sent || status == Finalized || status == Overdue
  }

  predicate CanDispute(status: Status) {
    status == Draft || status == Sent || status == Finalized || status == Overdue
  }

  predicate CanArchive(status: Status) {
    status == Paid || status == PartiallyPaid || status == Accredited
  }

  // ---------- lines ----------

  function SubtotalOf(lines: seq<Line>): int {
    if lines == [] then 0 else SubtotalOf(lines[..|lines| - 1]) + lines[|lines| - 1].subtotal
  }

  function TaxOf(lines: seq<Line>): int {
    if lines == [] then 0 else TaxOf(lines[..|lines| - 1]) + lines[|lines| - 1].tax
  }

  /** The document total the code stores: the summed subtotals plus the summed tax. */
  function DocumentTotal(lines: seq<Line>): int {
    SubtotalOf(lines) + TaxOf(lines)
  }

  function LineTotalsOf(lines: seq<Line>): int {
    if lines == [] then 0 else LineTotalsOf(lines[..|lines| - 1]) + lines[|lines| - 1].total
  }

  predicate IsComputed(lines: seq<Line>) {
    forall k :: 0 <= k < |lines| ==> lines[k].total == lines[k].subtotal + lines[k].tax
  }

  /** Summing by column or by line gives the same document total. */
  lemma {:induction false} TotalIsSumOfLines(lines: seq<Line>)
    requires IsComputed(lines)
    ensures DocumentTotal(lines) == LineTotalsOf(lines)
  {
    if lines != [] {
      TotalIsSumOfLines(lines[..|lines| - 1]);
    }
  }

  function MaxSort(lines: seq<Line>): int {
    if lines == [] then -1 else Max(MaxSort(lines[..|lines| - 1]), lines[|lines| - 1].sortOrder)
  }

  lemma {:induction false} MaxSortBounds(lines: seq<Line>)
    ensures forall k :: 0 <= k < |lines| ==> lines[k].sortOrder <= MaxSort(lines)
  {
    if lines != [] {
      MaxSortBounds(lines[..|lines| - 1]);
      forall k | 0 <= k < |lines| ensures lines[k].sortOrder <= MaxSort(lines) {
        if k < |lines| - 1 {
          assert lines[k] == lines[..|lines| - 1][k];
        }
      }
    }
  }

  function CreditLine(lines: seq<Line>, amount: int): Line {
    Line(MaxSort(lines) + 1, true, -amount, 0, -amount)
  }

  /** The credit line sorts behind every line it is added to. */
  lemma CreditSortsLast(lines: seq<Line>, amount: int)
    ensures forall k :: 0 <= k < |lines| ==> lines[k].sortOrder < CreditLine(lines, amount).sortOrder
  {
    MaxSortBounds(lines);
  }

  lemma CreditLowersTotal(lines: seq<Line>, amount: int)
    ensures DocumentTotal(lines + [CreditLine(lines, amount)]) == DocumentTotal(lines) - amount
  {
  }

  /** The dotted revision that follows: its last part goes up by one. */
  function NextRevision(revision: seq<nat>): seq<nat> {
    if revision == [] then [1] else revision[..|revision| - 1] + [revision[|revision| - 1] + 1]
  }

  // ---------- steps ----------

  /** A draft revision of `source` with one more line. */
  function WithRevision(b: Books, source: Id, amount: int, id: Id): Books
    requires source in b.invoices && source in b.lines
  {
    var lines := b.lines[source] + [CreditLine(b.lines[source], amount)];
    var next := Invoice(Draft, DocumentTotal(lines), NextRevision(b.invoices[source].revision), Some(source));
    b.(invoices := b.invoices[id := next], lines := b.lines[id := lines])
  }

  function WithStatus(b: Books, i: Id, status: Status): Books
    requires i in b.invoices
  {
    b.(invoices := b.invoices[i := b.invoices[i].(status := status)])
  }

  /** The guards under which a payment is refused; zero and negative amounts are refused by the request schema. */
  predicate CanPay(b: Books, i: Id, amount: int) {
    && i in b.invoices && i in b.lines
    && CanRegisterPayment(b.invoices[i].status)
    && amount <= b.invoices[i].total
    && b.invoices[i].total > 0
  }

  function WithPayment(b: Books, i: Id, amount: int, paymentId: Id, revisedId: Id): Books {
    if !CanPay(b, i, amount) then b
    else if amount == b.invoices[i].total then
      WithStatus(b.(payments := b.payments[paymentId := Payment(i, amount, None)]), i, Paid)
    else
      var paid := b.(payments := b.payments[paymentId := Payment(i, amount, Some(revisedId))]);
      var b' := WithStatus(paid, i, PartiallyPaid);
      WithRevision(b', i, amount, revisedId)
  }

  datatype Op =
    | Issue(id: Id, newLines: seq<Line>)
    | Send(i: Id, accredited: bool)
    | MarkOverdue(i: Id, pastDue: bool)
    | Dispute(i: Id)
    | Deny(i: Id)
    | Acknowledge(i: Id)
    | Accredit(i: Id)
    | Archive(i: Id)
    | Demote(i: Id)
    | Credit(i: Id, amount: int, id: Id)
    | Pay(i: Id, amount: int, paymentId: Id, revisedId: Id)

  /** The status an operation other than issuing, crediting and paying moves to, if its guard holds. */
  function NextStatus(v: Invoice, op: Op): Option<Status> {
    match op
    case Send(_, accredited) => if v.status == Draft then Some(if accredited then Accredited else Sent) else None
    case MarkOverdue(_, pastDue) => if v.status == Sent && pastDue && v.total > 0 then Some(Overdue) else None
    case Dispute(_) => if CanDispute(v.status) then Some(Disputed) else None
    case Deny(_) => if v.status == Disputed then Some(Draft) else None
    case Acknowledge(_) => if v.status == Disputed then Some(Acknowledged) else None
    case Accredit(_) => if v.status == Acknowledged then Some(Accredited) else None
    case Archive(_) => if CanArchive(v.status) then Some(Archived) else None
    case Demote(_) => if v.status == Draft then Some(Demoted) else None
    case _ => None
  }

  function Apply(b: Books, op: Op): Books {
    match op
    case Issue(id, newLines) =>
      b.(invoices := b.invoices[id := Invoice(Draft, DocumentTotal(newLines), [0], None)],
         lines := b.lines[id := newLines])
    case Credit(i, amount, id) =>
      if i in b.invoices && i in b.lines && b.invoices[i].status == Acknowledged && amount <= b.invoices[i].total then
        WithRevision(b, i, amount, id)
      else b
    case Pay(i, amount, paymentId, revisedId) => WithPayment(b, i, amount, paymentId, revisedId)
    case _ =>
      if op.i in b.invoices && NextStatus(b.invoices[op.i], op).Some? then
        WithStatus(b, op.i, NextStatus(b.invoices[op.i], op).value)
      else b
  }

  /** Identifiers are fresh, new lines are computed ones and amounts are positive, as the request schema demands. */
  predicate Allowed(b: Books, op: Op) {
    match op
    case Issue(id, newLines) => id !in b.invoices && IsComputed(newLines)
    case Credit(_, amount, id) => id !in b.invoices && amount > 0
    case Pay(_, amount, paymentId, revisedId) => paymentId !in b.payments && revisedId !in b.invoices && amount > 0
    case _ => true
  }

  datatype History = Fresh | Then(past: History, op: Op)

  const NO_BOOKS := Books(map[], map[], map[])

  function After(h: History): Books {
    if h.Fresh? then NO_BOOKS else Apply(After(h.past), h.op)
  }

  predicate IsHistory(h: History) {
    h.Then? ==> IsHistory(h.past) && Allowed(After(h.past), h.op)
  }

  // ---------- what every step keeps ----------

  /** Every total is what the stored lines add up to. */
  ghost predicate TotalsOk(b: Books) {
    && b.lines.Keys == b.invoices.Keys
    && (forall i :: i in b.invoices ==> IsComputed(b.lines[i]) && b.invoices[i].total == DocumentTotal(b.lines[i]))
  }

  /** The revision that a partial payment opens: the next number, the same lines and the credit. */
  ghost predicate RevisionOk(b: Books, source: Id, amount: int, id: Id) {
    && source in b.invoices && source in b.lines && id in b.invoices && id in b.lines
    && b.invoices[id].revision == NextRevision(b.invoices[source].revision)
    && b.invoices[id].source == Some(source)
    && b.lines[id] == b.lines[source] + [CreditLine(b.lines[source], amount)]
  }

  /** A payment settles its invoice for good: the rest, if any, is the total of the revision it opened. */
  ghost predicate PaymentOk(b: Books, p: Payment) {
    && p.invoice in b.invoices && p.amount > 0
    && var v := b.invoices[p.invoice];
    if p.revised.None? then (v.status == Paid || v.status == Archived) && p.amount == v.total
    else
      && (v.status == PartiallyPaid || v.status == Archived) && p.amount < v.total
      && RevisionOk(b, p.invoice, p.amount, p.revised.value)
  }

  ghost predicate PaymentsOk(b: Books) {
    forall p :: p in b.payments ==> PaymentOk(b, b.payments[p])
  }

  ghost predicate OnePaymentEach(b: Books) {
    forall p, q :: p in b.payments && q in b.payments && b.payments[p].invoice == b.payments[q].invoice ==> p == q
  }

  /** An invoice that is paid or partially paid has a payment row saying so. */
  ghost predicate HasPayment(b: Books, i: Id) {
    exists p :: p in b.payments && b.payments[p].invoice == i
  }

  ghost predicate SettledHavePayments(b: Books) {
    forall i ::
      i in b.invoices && (b.invoices[i].status == Paid || b.invoices[i].status == PartiallyPaid) ==> HasPayment(b, i)
  }

  ghost predicate BooksOk(b: Books) {
    TotalsOk(b) && PaymentsOk(b) && OnePaymentEach(b) && SettledHavePayments(b)
  }

  /** Two states of one invoice: everything but the status stays. */
  predicate SameDocument(v: Invoice, w: Invoice) {
    w == v.(status := w.status)
  }

  lemma PaymentSurvives(b: Books, b': Books, p: Payment)
    requires PaymentOk(b, p)
    requires forall i :: i in b.invoices ==> i in b'.invoices && SameDocument(b.invoices[i], b'.invoices[i])
    requires b'.invoices[p.invoice].status == b.invoices[p.invoice].status || b'.invoices[p.invoice].status == Archived
    requires forall i :: i in b.lines ==> i in b'.lines && b'.lines[i] == b.lines[i]
    ensures PaymentOk(b', p)
  {
  }

  predicate IsSettled(status: Status) {
    status == Paid || status == PartiallyPaid || status == Archived
  }

  /** No status change leads out of the settled states, and only a payment leads to paid. */
  lemma SettledStaysSettled(v: Invoice, op: Op)
    requires NextStatus(v, op).Some?
    ensures IsSettled(v.status) ==> NextStatus(v, op).value == Archived
    ensures NextStatus(v, op).value != Paid && NextStatus(v, op).value != PartiallyPaid
  {
  }

  lemma WithStatusKeepsBooks(b: Books, i: Id, status: Status)
    requires BooksOk(b) && i in b.invoices && status != Paid && status != PartiallyPaid
    requires IsSettled(b.invoices[i].status) ==> status == Archived
    ensures BooksOk(WithStatus(b, i, status))
  {
    var b' := WithStatus(b, i, status);
    forall p | p in b'.payments ensures PaymentOk(b', b'.payments[p]) {
      assert PaymentOk(b, b.payments[p]);
      PaymentSurvives(b, b', b.payments[p]);
    }
    forall k | k in b'.invoices && (b'.invoices[k].status == Paid || b'.invoices[k].status == PartiallyPaid)
      ensures HasPayment(b', k)
    {
      assert HasPayment(b, k);
    }
  }

  lemma StatusKeepsBooks(b: Books, op: Op)
    requires BooksOk(b) && !op.Issue? && !op.Credit? && !op.Pay?
    ensures BooksOk(Apply(b, op))
  {
    if op.i in b.invoices && NextStatus(b.invoices[op.i], op).Some? {
      SettledStaysSettled(b.invoices[op.i], op);
      WithStatusKeepsBooks(b, op.i, NextStatus(b.invoices[op.i], op).value);
    }
  }

  /** Adding a draft invoice under a fresh identifier. */
  lemma NewDraftKeepsBooks(b: Books, b': Books, id: Id)
    requires BooksOk(b) && id !in b.invoices
    requires b' == b.(invoices := b'.invoices, lines := b'.lines)
    requires id in b'.invoices && b'.invoices == b.invoices[id := b'.invoices[id]] && b'.invoices[id].status == Draft
    requires id in b'.lines && b'.lines == b.lines[id := b'.lines[id]]
    requires IsComputed(b'.lines[id]) && b'.invoices[id].total == DocumentTotal(b'.lines[id])
    ensures BooksOk(b')
  {
    forall p | p in b'.payments ensures PaymentOk(b', b'.payments[p]) {
      assert PaymentOk(b, b.payments[p]);
      PaymentSurvives(b, b', b.payments[p]);
    }
    forall i | i in b'.invoices && (b'.invoices[i].status == Paid || b'.invoices[i].status == PartiallyPaid)
      ensures HasPayment(b', i)
    {
      assert HasPayment(b, i);
    }
  }

  lemma NoPaymentYet(b: Books, i: Id)
    requires PaymentsOk(b) && i in b.invoices && CanRegisterPayment(b.invoices[i].status)
    ensures forall p :: p in b.payments ==> b.payments[p].invoice != i
  {
  }

  function Settled(b: Books, i: Id, paymentId: Id, payment: Payment, status: Status): Books
    requires i in b.invoices
  {
    WithStatus(b.(payments := b.payments[paymentId := payment]), i, status)
  }

  lemma SettlingLeavesAPayment(b: Books, i: Id, paymentId: Id, payment: Payment, status: Status)
    requires SettledHavePayments(b) && i in b.invoices && paymentId !in b.payments && payment.invoice == i
    ensures SettledHavePayments(Settled(b, i, paymentId, payment, status))
  {
    var b' := Settled(b, i, paymentId, payment, status);
    forall k | k in b'.invoices && (b'.invoices[k].status == Paid || b'.invoices[k].status == PartiallyPaid)
      ensures HasPayment(b', k)
    {
      if k == i {
        assert b'.payments[paymentId].invoice == i;
      } else {
        var p :| p in b.payments && b.payments[p].invoice == k;
        assert b'.payments[p].invoice == k;
      }
    }
  }

  /** Settling an invoice: one new payment row on an invoice that had none, and its new status. */
  lemma SettlingKeepsOthers(b: Books, i: Id, paymentId: Id, payment: Payment, status: Status)
    requires BooksOk(b) && i in b.invoices && CanRegisterPayment(b.invoices[i].status)
    requires paymentId !in b.payments && payment.invoice == i && (status == Paid || status == PartiallyPaid)
    ensures var b' := Settled(b, i, paymentId, payment, status);
      && TotalsOk(b') && OnePaymentEach(b') && SettledHavePayments(b')
      && (forall p :: p in b.payments ==> PaymentOk(b', b.payments[p]))
  {
    var b' := Settled(b, i, paymentId, payment, status);
    NoPaymentYet(b, i);
    SettlingLeavesAPayment(b, i, paymentId, payment, status);
    forall p | p in b.payments ensures PaymentOk(b', b.payments[p]) {
      assert PaymentOk(b, b.payments[p]);
      PaymentSurvives(b, b', b.payments[p]);
    }
  }

  lemma FullPaymentKeepsBooks(b: Books, i: Id, paymentId: Id, revisedId: Id)
    requires BooksOk(b) && i in b.invoices && CanPay(b, i, b.invoices[i].total) && paymentId !in b.payments
    ensures BooksOk(WithPayment(b, i, b.invoices[i].total, paymentId, revisedId))
  {
    SettlingKeepsOthers(b, i, paymentId, Payment(i, b.invoices[i].total, None), Paid);
  }

  lemma RevisionTotals(b: Books, i: Id, amount: int, id: Id)
    requires TotalsOk(b) && i in b.invoices && id !in b.invoices
    ensures TotalsOk(WithRevision(b, i, amount, id))
    ensures WithRevision(b, i, amount, id).invoices[id].total == b.invoices[i].total - amount
  {
  }

  /** Opening the revision keeps what holds of the other rows. */
  lemma RevisionKeepsOthers(b: Books, i: Id, amount: int, id: Id)
    requires TotalsOk(b) && OnePaymentEach(b) && SettledHavePayments(b) && i in b.invoices && id !in b.invoices
    ensures var b' := WithRevision(b, i, amount, id);
      && OnePaymentEach(b') && SettledHavePayments(b')
      && (forall p | p in b.payments && PaymentOk(b, b.payments[p]) :: PaymentOk(b', b.payments[p]))
  {
    var b' := WithRevision(b, i, amount, id);
    forall p | p in b.payments && PaymentOk(b, b.payments[p]) ensures PaymentOk(b', b.payments[p]) {
      PaymentSurvives(b, b', b.payments[p]);
    }
    forall k | k in b'.invoices && (b'.invoices[k].status == Paid || b'.invoices[k].status == PartiallyPaid)
      ensures HasPayment(b', k)
    {
      assert HasPayment(b, k);
    }
  }

  lemma PartialPaymentKeepsBooks(b: Books, i: Id, amount: int, paymentId: Id, revisedId: Id)
    requires BooksOk(b) && CanPay(b, i, amount) && 0 < amount < b.invoices[i].total
    requires paymentId !in b.payments && revisedId !in b.invoices
    ensures BooksOk(WithPayment(b, i, amount, paymentId, revisedId))
  {
    var payment := Payment(i, amount, Some(revisedId));
    var m := Settled(b, i, paymentId, payment, PartiallyPaid);
    var b' := WithRevision(m, i, amount, revisedId);
    SettlingKeepsOthers(b, i, paymentId, payment, PartiallyPaid);
    RevisionTotals(m, i, amount, revisedId);
    RevisionKeepsOthers(m, i, amount, revisedId);
    assert PaymentOk(b', payment);
  }

  lemma StepKeepsBooks(b: Books, op: Op)
    requires BooksOk(b) && Allowed(b, op)
    ensures BooksOk(Apply(b, op))
  {
    match op
    case Issue(id, newLines) => NewDraftKeepsBooks(b, Apply(b, op), id);
    case Credit(i, amount, id) =>
      if Apply(b, op) != b {
        RevisionTotals(b, i, amount, id);
        NewDraftKeepsBooks(b, Apply(b, op), id);
      }
    case Pay(i, amount, paymentId, revisedId) =>
      if CanPay(b, i, amount) {
        if amount == b.invoices[i].total {
          FullPaymentKeepsBooks(b, i, paymentId, revisedId);
        } else {
          PartialPaymentKeepsBooks(b, i, amount, paymentId, revisedId);
        }
      }
    case _ => StatusKeepsBooks(b, op);
  }

  lemma {:induction false} EveryRunKeepsBooks(h: History)
    requires IsHistory(h)
    ensures BooksOk(After(h))
  {
    if h.Then? {
      EveryRunKeepsBooks(h.past);
      StepKeepsBooks(After(h.past), h.op);
    }
  }

  // ---------- revision chains ----------

  /** `path` are the payments that lead, revision by revision, from `root` to `tail`. */
  predicate IsChain(b: Books, root: Id, path: seq<Id>, tail: Id)
    decreases |path|
  {
    if path == [] then root == tail && root in b.invoices
    else
      && path[0] in b.payments
      && b.payments[path[0]].invoice == root
      && b.payments[path[0]].revised.Some?
      && root in b.invoices
      && IsChain(b, b.payments[path[0]].revised.value, path[1..], tail)
  }

  function AmountOf(b: Books, path: seq<Id>): int
    requires forall k :: 0 <= k < |path| ==> path[k] in b.payments
  {
    if path == [] then 0 else b.payments[path[0]].amount + AmountOf(b, path[1..])
  }

  lemma {:induction false} ChainRows(b: Books, root: Id, path: seq<Id>, tail: Id)
    requires IsChain(b, root, path, tail)
    ensures root in b.invoices && tail in b.invoices
    ensures forall k :: 0 <= k < |path| ==> path[k] in b.payments
    decreases |path|
  {
    if path != [] {
      ChainRows(b, b.payments[path[0]].revised.value, path[1..], tail);
      assert forall k :: 1 <= k < |path| ==> path[k] == path[1..][k - 1];
    }
  }

  /**
   Conservation: the total of an invoice is the sum of the payments registered along its
   revision chain plus the total of the last revision, which stays positive once there is a
   payment; and each payment takes at least one unit off it, so there are fewer partial
   payments than units.
   */
  lemma {:induction false} MoneyIsConserved(b: Books, root: Id, path: seq<Id>, tail: Id)
    requires BooksOk(b) && IsChain(b, root, path, tail)
    ensures root in b.invoices && tail in b.invoices && (forall k :: 0 <= k < |path| ==> path[k] in b.payments)
    ensures b.invoices[root].total == AmountOf(b, path) + b.invoices[tail].total
    ensures path != [] ==> b.invoices[tail].total > 0
    ensures |path| + b.invoices[tail].total <= b.invoices[root].total
    decreases |path|
  {
    ChainRows(b, root, path, tail);
    if path != [] {
      var p := b.payments[path[0]];
      assert PaymentOk(b, p);
      ChainRows(b, p.revised.value, path[1..], tail);
      MoneyIsConserved(b, p.revised.value, path[1..], tail);
      CreditLowersTotal(b.lines[root], p.amount);
    }
  }

  /** When the last revision is paid, a last payment makes the payments add up to the original total exactly. */
  lemma PaidChainsArePaidExactly(b: Books, root: Id, path: seq<Id>, tail: Id) returns (last: Id)
    requires BooksOk(b) && IsChain(b, root, path, tail) && tail in b.invoices && b.invoices[tail].status == Paid
    ensures root in b.invoices && (forall k :: 0 <= k < |path| ==> path[k] in b.payments)
    ensures last in b.payments && b.payments[last].invoice == tail && b.payments[last].revised.None?
    ensures AmountOf(b, path) + b.payments[last].amount == b.invoices[root].total
  {
    MoneyIsConserved(b, root, path, tail);
    assert HasPayment(b, tail);
    last :| last in b.payments && b.payments[last].invoice == tail;
    assert PaymentOk(b, b.payments[last]);
  }

  lemma PrefixFromTails<T>(a: seq<T>, b: seq<T>)
    requires a != [] && b != [] && a[0] == b[0] && a[1..] <= b[1..]
    ensures a <= b
  {
    assert a == [a[0]] + a[1..] && b == [b[0]] + b[1..];
  }

  lemma OnePaymentLeaves(b: Books, root: Id, path: seq<Id>, tail: Id, path': seq<Id>, tail': Id)
    requires BooksOk(b) && IsChain(b, root, path, tail) && IsChain(b, root, path', tail')
    requires path != [] && path' != []
    ensures path[0] == path'[0] && path[0] in b.payments && b.payments[path[0]].revised.Some?
  {
  }

  /** Chains never fork: of two chains from the same invoice one continues the other. */
  lemma {:induction false} ChainsDoNotFork(b: Books, root: Id, path: seq<Id>, tail: Id, path': seq<Id>, tail': Id)
    requires BooksOk(b) && IsChain(b, root, path, tail) && IsChain(b, root, path', tail')
    ensures path <= path' || path' <= path
    decreases |path|
  {
    if path != [] && path' != [] {
      OnePaymentLeaves(b, root, path, tail, path', tail');
      ChainsDoNotFork(b, b.payments[path[0]].revised.value, path[1..], tail, path'[1..], tail');
      if path[1..] <= path'[1..] {
        PrefixFromTails(path, path');
      } else {
        PrefixFromTails(path', path);
      }
    }
  }

  function CreditsOf(b: Books, lines: seq<Line>, path: seq<Id>): seq<Line>
    requires forall k :: 0 <= k < |path| ==> path[k] in b.payments
    decreases |path|
  {
    if path == [] then []
    else
      var credit := CreditLine(lines, b.payments[path[0]].amount);
      [credit] + CreditsOf(b, lines + [credit], path[1..])
  }

  lemma CreditsStepByStep(b: Books, lines: seq<Line>, path: seq<Id>)
    requires path != [] && forall k :: 0 <= k < |path| ==> path[k] in b.payments
    ensures var credit := CreditLine(lines, b.payments[path[0]].amount);
      lines + CreditsOf(b, lines, path) == (lines + [credit]) + CreditsOf(b, lines + [credit], path[1..])
  {
  }

  /** The last revision lists the original lines unchanged, then one credit line per payment, in order. */
  lemma {:induction false} RevisionsKeepTheOriginalLines(b: Books, root: Id, path: seq<Id>, tail: Id)
    requires BooksOk(b) && IsChain(b, root, path, tail)
    ensures root in b.lines && tail in b.lines && (forall k :: 0 <= k < |path| ==> path[k] in b.payments)
    ensures b.lines[tail] == b.lines[root] + CreditsOf(b, b.lines[root], path)
    decreases |path|
  {
    ChainRows(b, root, path, tail);
    if path != [] {
      var p := b.payments[path[0]];
      assert RevisionOk(b, root, p.amount, p.revised.value) by {
        assert PaymentOk(b, p);
      }
      RevisionsKeepTheOriginalLines(b, p.revised.value, path[1..], tail);
      CreditsStepByStep(b, b.lines[root], path);
    }
  }

  /** The revisions of a chain are numbered upwards without gaps, so no two of them show the same number. */
  lemma {:induction false} RevisionsCountUp(b: Books, root: Id, path: seq<Id>, tail: Id)
    requires BooksOk(b) && IsChain(b, root, path, tail)
    ensures root in b.invoices && tail in b.invoices
    ensures b.invoices[root].revision != [] ==> b.invoices[tail].revision == Advanced(b.invoices[root].revision, |path|)
    decreases |path|
  {
    ChainRows(b, root, path, tail);
    if path != [] {
      var p := b.payments[path[0]];
      assert PaymentOk(b, p);
      var next := p.revised.value;
      ChainRows(b, next, path[1..], tail);
      RevisionsCountUp(b, next, path[1..], tail);
      if b.invoices[root].revision != [] {
        AdvancedTwice(b.invoices[root].revision, 1, |path| - 1);
      }
    }
  }

  lemma AdvancedTwice(revision: seq<nat>, m: nat, n: nat)
    requires revision != []
    ensures Advanced(Advanced(revision, m), n) == Advanced(revision, m + n)
  {
  }

  /** A dotted revision with its last part raised by `n`. */
  function Advanced(revision: seq<nat>, n: nat): seq<nat>
    requires revision != []
  {
    revision[..|revision| - 1] + [revision[|revision| - 1] + n]
  }

  /** On every run: what has been paid along a chain plus what is open is what was invoiced. */
  lemma MoneyIsConservedOnEveryRun(h: History, root: Id, path: seq<Id>, tail: Id)
    requires IsHistory(h) && IsChain(After(h), root, path, tail)
    ensures root in After(h).invoices && tail in After(h).invoices
    ensures forall k :: 0 <= k < |path| ==> path[k] in After(h).payments
    ensures After(h).invoices[root].total == AmountOf(After(h), path) + After(h).invoices[tail].total
    ensures path != [] ==> After(h).invoices[tail].total > 0
  {
    EveryRunKeepsBooks(h);
    MoneyIsConserved(After(h), root, path, tail);
  }

  /** On every run an invoice carries at most one payment: a second one is refused whatever happens in between. */
  lemma AtMostOnePaymentPerInvoice(h: History, p: Id, q: Id)
    requires IsHistory(h) && p in After(h).payments && q in After(h).payments
    requires After(h).payments[p].invoice == After(h).payments[q].invoice
    ensures p == q
  {
    EveryRunKeepsBooks(h);
  }

  /** A registered payment can be neither repeated nor exceeded: afterwards the same invoice refuses every amount. */
  lemma PaidInvoicesRefusePayments(h: History, p: Id, amount: int)
    requires IsHistory(h) && p in After(h).payments
    ensures !CanPay(After(h), After(h).payments[p].invoice, amount)
  {
    EveryRunKeepsBooks(h);
    assert PaymentOk(After(h), After(h).payments[p]);
  }
}
