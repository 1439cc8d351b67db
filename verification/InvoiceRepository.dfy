/**
 Registering payments as the code does it: totals and sort orders by loops over the stored
 lines, lines inserted one by one, rows updated in place.
 */
module InvoiceRepositories {
  import opened Wrappers
  import opened Invoices
  import opened InvoiceAnswers

  datatype Outcome =
    | FullyPaid(paymentId: Id)
    | PartlyPaid(paymentId: Id, revisedInvoiceId: Id, revision: seq<nat>)

  method SumStoredLines(lines: seq<Line>) returns (subtotal: int, tax: int)
    ensures subtotal == SubtotalOf(lines) && tax == TaxOf(lines)
    ensures subtotal + tax == SumOf(lines)
  {
    subtotal, tax := 0, 0;
    var k := 0;
    while k < |lines|
      invariant 0 <= k <= |lines|
      invariant subtotal == SubtotalOf(lines[..k]) && tax == TaxOf(lines[..k])
    {
      subtotal := subtotal + lines[k].subtotal;
      tax := tax + lines[k].tax;
      assert lines[..k + 1][..k] == lines[..k];
      k := k + 1;
    }
    assert lines[..k] == lines;
    TotalIsExact(lines);
  }

  method MaxSortOrder(lines: seq<Line>) returns (maxSort: int)
    ensures maxSort >= -1
    ensures forall k :: 0 <= k < |lines| ==> lines[k].sortOrder <= maxSort
    ensures maxSort == -1 || exists k :: 0 <= k < |lines| && lines[k].sortOrder == maxSort
    ensures maxSort == MaxSort(lines)
  {
    maxSort := -1;
    var k := 0;
    while k < |lines|
      invariant 0 <= k <= |lines|
      invariant maxSort == MaxSort(lines[..k]) >= -1
      invariant forall j :: 0 <= j < k ==> lines[j].sortOrder <= maxSort
      invariant maxSort == -1 || exists j :: 0 <= j < k && lines[j].sortOrder == maxSort
    {
      if lines[k].sortOrder > maxSort {
        maxSort := lines[k].sortOrder;
      }
      assert lines[..k + 1][..k] == lines[..k];
      k := k + 1;
    }
    assert lines[..k] == lines;
  }

  class InvoiceRepository {
    var invoices: map<Id, Invoice>
    var lines: map<Id, seq<Line>>
    var payments: map<Id, Payment>

    ghost function Model(): Books
      reads this
    {
      Books(invoices, lines, payments)
    }

    constructor ()
      ensures Model() == NO_BOOKS
    {
      invoices, lines, payments := map[], map[], map[];
    }

    method InsertLine(invoice: Id, line: Line)
      requires invoice in lines
      modifies `lines
      ensures lines == old(lines)[invoice := old(lines)[invoice] + [line]]
    {
      lines := lines[invoice := lines[invoice] + [line]];
    }

    /** Inserts lines one row at a time. */
    method InsertLines(invoice: Id, more: seq<Line>)
      requires invoice in lines
      modifies `lines
      ensures lines == old(lines)[invoice := old(lines)[invoice] + more]
    {
      var k := 0;
      assert lines[invoice] + more[..0] == lines[invoice];
      while k < |more|
        invariant 0 <= k <= |more|
        invariant lines == old(lines)[invoice := old(lines)[invoice] + more[..k]]
      {
        assert old(lines)[invoice] + more[..k] + [more[k]] == old(lines)[invoice] + more[..k + 1];
        InsertLine(invoice, more[k]);
        k := k + 1;
      }
      assert more[..k] == more;
    }

    method CreateRevision(source: Id, id: Id, extraLines: seq<Line>) returns (revision: seq<nat>)
      requires source in invoices && source in lines && id !in invoices && source != id
      modifies `invoices, `lines
      ensures revision == NextRevision(old(invoices)[source].revision)
      ensures IsNext(old(invoices)[source].revision, revision)
      ensures var all := old(lines)[source] + extraLines;
        && lines == old(lines)[id := all]
        && invoices == old(invoices)[id := Invoice(Draft, SumOf(all), revision, Some(source))]
    {
      var sourceLines := lines[source];
      revision := NextRevision(invoices[source].revision);
      NextRevisionIsExact(invoices[source].revision);
      var subtotal, tax := SumStoredLines(sourceLines + extraLines);
      invoices := invoices[id := Invoice(Draft, subtotal + tax, revision, Some(source))];
      lines := lines[id := []];
      InsertLines(id, sourceLines);
      InsertLines(id, extraLines);
      assert [] + sourceLines == sourceLines;
    }

    method CreateRevisionAfterPartialPayment(source: Id, amount: int, id: Id) returns (revision: seq<nat>)
      requires source in invoices && source in lines && id !in invoices
      modifies `invoices, `lines
      ensures revision == NextRevision(old(invoices)[source].revision)
      ensures Model() == WithRevision(old(Model()), source, amount, id)
    {
      var maxSort := MaxSortOrder(lines[source]);
      revision := CreateRevision(source, id, [Line(maxSort + 1, true, -amount, 0, -amount)]);
      TotalIsExact(lines[id]);
    }

    method RegisterPayment(i: Id, amount: int, paymentId: Id, revisedId: Id) returns (outcome: Option<Outcome>)
      requires lines.Keys == invoices.Keys && paymentId !in payments && revisedId !in invoices
      modifies this
      ensures Model() == WithPayment(old(Model()), i, amount, paymentId, revisedId)
      ensures outcome.Some? <==> IsPayable(old(Model()), i, amount)
      ensures if outcome.Some? then IsPaid(old(Model()), Model(), i, amount, paymentId, revisedId)
              else Model() == old(Model())
      ensures outcome.Some? && amount < old(invoices)[i].total && old(invoices)[i].total == SumOf(old(lines)[i]) ==>
        revisedId in invoices && invoices[revisedId].total == old(invoices)[i].total - amount
      ensures outcome.Some? && amount == old(invoices)[i].total ==> outcome.value == FullyPaid(paymentId)
      ensures outcome.Some? && amount < old(invoices)[i].total ==>
        && outcome.value.PartlyPaid? && outcome.value.paymentId == paymentId
        && outcome.value.revisedInvoiceId == revisedId && IsNext(old(invoices)[i].revision, outcome.value.revision)
    {
      ghost var before := Model();
      if i !in invoices || !CanRegisterPayment(invoices[i].status) {
        return None;
      }
      var invoice := invoices[i];
      if amount > invoice.total || invoice.total <= 0 {
        return None;
      }
      if amount == invoice.total {
        payments := payments[paymentId := Payment(i, amount, None)];
        invoices := invoices[i := invoice.(status := Paid)];
        assert Model() == WithPayment(before, i, amount, paymentId, revisedId);
        PaymentIsExact(before, i, amount, paymentId, revisedId);
        return Some(FullyPaid(paymentId));
      }
      payments := payments[paymentId := Payment(i, amount, None)];
      invoices := invoices[i := invoice.(status := PartiallyPaid)];
      var revision := CreateRevisionAfterPartialPayment(i, amount, revisedId);
      payments := payments[paymentId := payments[paymentId].(revised := Some(revisedId))];
      assert payments == before.payments[paymentId := Payment(i, amount, Some(revisedId))];
      NextRevisionIsExact(invoice.revision);
      assert Model() == WithPayment(before, i, amount, paymentId, revisedId);
      PaymentIsExact(before, i, amount, paymentId, revisedId);
      return Some(PartlyPaid(paymentId, revisedId, revision));
    }
  }
}
