/** Reporting engine: `gerar_relatorio_caixa`, a read-only summary of one
    drawer session — its totals and a per-employee breakdown. */
module Reporting {
  import opened Records

  /** One row of the per-employee query: `f.nome, COUNT(v.id), SUM(v.total_bruto)`,
      together with the `f.id` it is grouped by. */
  datatype EmployeeLine = EmployeeLine(employeeId: int, name: string, saleCount: nat, gross: real)

  datatype Report = Report(
    sessionId: int,
    openedBy: int,
    openedAt: Timestamp,
    closedAt: Option<Timestamp>,
    gross: real,
    net: real,
    tax: real,
    perEmployee: seq<EmployeeLine>)

  /** Number of sales recorded against session `sid`. */
  function CountIn(sales: seq<Sale>, sid: int): nat
  {
    if |sales| == 0 then 0
    else CountIn(sales[..|sales| - 1], sid) + (if sales[|sales| - 1].sessionId == sid then 1 else 0)
  }

  /** Component-wise sums of gross, net and tax over the sales of session `sid`. */
  function SumIn(sales: seq<Sale>, sid: int): Totals
  {
    if |sales| == 0 then Totals(0.0, 0.0, 0.0)
    else
      var t := SumIn(sales[..|sales| - 1], sid);
      var v := sales[|sales| - 1];
      if v.sessionId == sid then Totals(t.gross + v.gross, t.net + v.net, t.tax + v.tax) else t
  }

  /** Number of sales of session `sid` made by employee `eid`. */
  function CountBy(sales: seq<Sale>, sid: int, eid: int): (c: nat)
    ensures c <= CountIn(sales, sid)
  {
    if |sales| == 0 then 0
    else
      var v := sales[|sales| - 1];
      CountBy(sales[..|sales| - 1], sid, eid) + (if v.sessionId == sid && v.employeeId == eid then 1 else 0)
  }

  /** Gross sum of the sales of session `sid` made by employee `eid`. */
  function GrossBy(sales: seq<Sale>, sid: int, eid: int): real
  {
    if |sales| == 0 then 0.0
    else
      var v := sales[|sales| - 1];
      GrossBy(sales[..|sales| - 1], sid, eid) + (if v.sessionId == sid && v.employeeId == eid then v.gross else 0.0)
  }

  /** Number of sales of session `sid` whose employee id names one of the
      first `n` employees: the sales that survive the inner JOIN. */
  function CountJoined(sales: seq<Sale>, sid: int, n: int): nat
  {
    if |sales| == 0 then 0
    else
      var v := sales[|sales| - 1];
      CountJoined(sales[..|sales| - 1], sid, n) + (if v.sessionId == sid && 1 <= v.employeeId <= n then 1 else 0)
  }

  /** The grouped rows for employees 1..n, in ascending employee id; an
      employee with no sale in the session forms no group. */
  function Lines(employees: seq<Employee>, sales: seq<Sale>, sid: int, n: nat): (r: seq<EmployeeLine>)
    requires n <= |employees|
    ensures forall k :: 0 <= k < |r| ==>
      && 1 <= r[k].employeeId <= n
      && r[k].name == employees[r[k].employeeId - 1].name
      && r[k].saleCount == CountBy(sales, sid, r[k].employeeId) > 0
      && r[k].gross == GrossBy(sales, sid, r[k].employeeId)
    ensures forall k, l :: 0 <= k < l < |r| ==> r[k].employeeId < r[l].employeeId
  {
    if n == 0 then []
    else
      var c := CountBy(sales, sid, n);
      Lines(employees, sales, sid, n - 1)
        + (if c > 0 then [EmployeeLine(n, employees[n - 1].name, c, GrossBy(sales, sid, n))] else [])
  }

  /** Sum of the sale counts of a list of rows. */
  function LineCount(lines: seq<EmployeeLine>): int
  {
    if |lines| == 0 then 0 else LineCount(lines[..|lines| - 1]) + lines[|lines| - 1].saleCount
  }

  /** `gerar_relatorio_caixa`: not found for an id naming no session; otherwise
      the session's own columns, the sums over its sales (0.0 when it has none)
      and the per-employee rows. */
  function SessionReport(s: Store, sid: int): (r: Option<Report>)
    ensures r.Some? <==> HasId(s.sessions, sid)
    ensures r.Some? ==>
      var c := s.sessions[sid - 1];
      var t := SumIn(s.sales, sid);
      && r.value.sessionId == sid
      && r.value.openedBy == c.openedBy
      && r.value.openedAt == c.openedAt
      && r.value.closedAt == c.closedAt
      && r.value.gross == t.gross && r.value.net == t.net && r.value.tax == t.tax
    ensures r.Some? && CountIn(s.sales, sid) == 0 ==>
      r.value.gross == 0.0 && r.value.net == 0.0 && r.value.tax == 0.0 && r.value.perEmployee == []
    ensures r.Some? ==> forall k :: 0 <= k < |r.value.perEmployee| ==>
      var line := r.value.perEmployee[k];
      && HasId(s.employees, line.employeeId)
      && line.name == s.employees[line.employeeId - 1].name
      && line.saleCount == CountBy(s.sales, sid, line.employeeId) > 0
      && line.gross == GrossBy(s.sales, sid, line.employeeId)
  {
    if !HasId(s.sessions, sid) then None
    else
      var c := s.sessions[sid - 1];
      NoSalesNoTotals(s.sales, sid);
      NoSalesNoLines(s.employees, s.sales, sid, |s.employees|);
      var t := if CountIn(s.sales, sid) == 0 then Totals(0.0, 0.0, 0.0) else SumIn(s.sales, sid);
      Some(Report(sid, c.openedBy, c.openedAt, c.closedAt, t.gross, t.net, t.tax,
                  Lines(s.employees, s.sales, sid, |s.employees|)))
  }

  /** The explicit 0.0 default agrees with the empty sum. */
  lemma {:induction false} NoSalesNoTotals(sales: seq<Sale>, sid: int)
    ensures CountIn(sales, sid) == 0 ==> SumIn(sales, sid) == Totals(0.0, 0.0, 0.0)
  {
    if |sales| > 0 {
      NoSalesNoTotals(sales[..|sales| - 1], sid);
    }
  }

  lemma NoSalesNoLines(employees: seq<Employee>, sales: seq<Sale>, sid: int, n: nat)
    requires n <= |employees|
    ensures CountIn(sales, sid) == 0 ==> Lines(employees, sales, sid, n) == []
  {
  }

  /** Completeness of the breakdown: every registered employee with a sale in
      the session has a row. */
  lemma {:induction false} LinesComplete(employees: seq<Employee>, sales: seq<Sale>, sid: int, n: nat, e: int)
    requires n <= |employees|
    requires 1 <= e <= n && CountBy(sales, sid, e) > 0
    ensures exists k :: 0 <= k < |Lines(employees, sales, sid, n)| && Lines(employees, sales, sid, n)[k].employeeId == e
  {
    var prev := Lines(employees, sales, sid, n - 1);
    if e == n {
      var r := Lines(employees, sales, sid, n);
      assert r[|prev|].employeeId == e;
    } else {
      LinesComplete(employees, sales, sid, n - 1, e);
      var k :| 0 <= k < |prev| && prev[k].employeeId == e;
      assert Lines(employees, sales, sid, n)[k] == prev[k];
    }
  }

  lemma LineCountSnoc(front: seq<EmployeeLine>, x: EmployeeLine)
    ensures LineCount(front + [x]) == LineCount(front) + x.saleCount
  {
    assert (front + [x])[..|front|] == front;
  }

  /** One more employee adds a row exactly when that employee has sales in the session. */
  lemma LinesStep(employees: seq<Employee>, sales: seq<Sale>, sid: int, n: nat)
    requires 1 <= n <= |employees|
    ensures var c := CountBy(sales, sid, n);
      LineCount(Lines(employees, sales, sid, n)) == LineCount(Lines(employees, sales, sid, n - 1)) + c
  {
    var c := CountBy(sales, sid, n);
    var prev := Lines(employees, sales, sid, n - 1);
    if c > 0 {
      var x := EmployeeLine(n, employees[n - 1].name, c, GrossBy(sales, sid, n));
      assert Lines(employees, sales, sid, n) == prev + [x];
      LineCountSnoc(prev, x);
    } else {
      assert Lines(employees, sales, sid, n) == prev + [];
      assert prev + [] == prev;
    }
  }

  lemma {:induction false} CountJoinedStep(sales: seq<Sale>, sid: int, n: int)
    requires n >= 1
    ensures CountJoined(sales, sid, n) == CountJoined(sales, sid, n - 1) + CountBy(sales, sid, n)
  {
    if |sales| > 0 {
      CountJoinedStep(sales[..|sales| - 1], sid, n);
    }
  }

  /** The inner JOIN: the rows account for exactly the session's sales whose
      employee is registered; sales by unknown employee ids are dropped. */
  lemma {:induction false} LinesCountJoined(employees: seq<Employee>, sales: seq<Sale>, sid: int, n: nat)
    requires n <= |employees|
    ensures LineCount(Lines(employees, sales, sid, n)) == CountJoined(sales, sid, n)
  {
    if n == 0 {
      CountJoinedZero(sales, sid);
    } else {
      LinesCountJoined(employees, sales, sid, n - 1);
      LinesCountJoinedStep(employees, sales, sid, n);
    }
  }

  lemma LinesCountJoinedStep(employees: seq<Employee>, sales: seq<Sale>, sid: int, n: nat)
    requires 1 <= n <= |employees|
    requires LineCount(Lines(employees, sales, sid, n - 1)) == CountJoined(sales, sid, n - 1)
    ensures LineCount(Lines(employees, sales, sid, n)) == CountJoined(sales, sid, n)
  {
    LinesStep(employees, sales, sid, n);
    CountJoinedStep(sales, sid, n);
  }

  lemma {:induction false} CountJoinedZero(sales: seq<Sale>, sid: int)
    ensures CountJoined(sales, sid, 0) == 0
  {
    if |sales| > 0 {
      CountJoinedZero(sales[..|sales| - 1], sid);
    }
  }

  /** When every sale of the session names a registered employee, the rows
      account for every sale of the session. */
  lemma {:induction false} CountJoinedAll(sales: seq<Sale>, sid: int, n: int)
    requires forall k :: 0 <= k < |sales| && sales[k].sessionId == sid ==> 1 <= sales[k].employeeId <= n
    ensures CountJoined(sales, sid, n) == CountIn(sales, sid)
  {
    if |sales| > 0 {
      var prefix := sales[..|sales| - 1];
      assert forall k :: 0 <= k < |prefix| ==> prefix[k] == sales[k];
      CountJoinedAll(prefix, sid, n);
    }
  }

  /** If every sale satisfies the gross = net + tax split, so do the sums. */
  lemma {:induction false} SumInConsistent(sales: seq<Sale>, sid: int)
    requires forall k :: 0 <= k < |sales| ==> TotalsConsistent(sales[k].gross, sales[k].net, sales[k].tax)
    ensures var t := SumIn(sales, sid); TotalsConsistent(t.gross, t.net, t.tax)
  {
    if |sales| > 0 {
      var prefix := sales[..|sales| - 1];
      assert forall k :: 0 <= k < |prefix| ==> prefix[k] == sales[k];
      SumInConsistent(prefix, sid);
    }
  }

  /** The report's per-employee rows and its totals agree with each other:
      the rows count every sale of the session whose employee exists. */
  lemma ReportBreakdown(s: Store, sid: int)
    requires HasId(s.sessions, sid)
    ensures SessionReport(s, sid).Some?
    ensures LineCount(SessionReport(s, sid).value.perEmployee) == CountJoined(s.sales, sid, |s.employees|)
    ensures forall e :: 1 <= e <= |s.employees| && CountBy(s.sales, sid, e) > 0 ==>
      exists k :: 0 <= k < |SessionReport(s, sid).value.perEmployee| && SessionReport(s, sid).value.perEmployee[k].employeeId == e
  {
    var lines := Lines(s.employees, s.sales, sid, |s.employees|);
    assert SessionReport(s, sid).value.perEmployee == lines;
    LinesCountJoined(s.employees, s.sales, sid, |s.employees|);
    forall e | 1 <= e <= |s.employees| && CountBy(s.sales, sid, e) > 0
      ensures exists k :: 0 <= k < |SessionReport(s, sid).value.perEmployee| && SessionReport(s, sid).value.perEmployee[k].employeeId == e
    {
      LinesComplete(s.employees, s.sales, sid, |s.employees|, e);
    }
  }
}
