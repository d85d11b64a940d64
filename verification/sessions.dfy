/** Session manager: opening (`abrir_caixa`) and closing (`fechar_caixa`)
    the cash drawer, and the invariant that at most one session is open. */
module Sessions {
  import opened Records
  import Reporting

  predicate IsOpen(c: Session)
  {
    c.closedAt.None?
  }

  /** The central invariant: at most one row of `caixa` has a null `fechado_em`. */
  predicate AtMostOneOpen(t: seq<Session>)
  {
    forall i, j :: 0 <= i < |t| && 0 <= j < |t| && IsOpen(t[i]) && IsOpen(t[j]) ==> i == j
  }

  /** `SELECT id FROM caixa WHERE fechado_em IS NULL` with `fetchone()`: the
      first open row at or after index `from`, in rowid order. */
  function FirstOpen(t: seq<Session>, from: nat): (r: Option<int>)
    requires from <= |t|
    ensures r.Some? ==> from < r.value <= |t| && IsOpen(t[r.value - 1])
    ensures r.Some? ==> forall i :: from <= i < r.value - 1 ==> !IsOpen(t[i])
    ensures r.None? ==> forall i :: from <= i < |t| ==> !IsOpen(t[i])
    decreases |t| - from
  {
    if from == |t| then None
    else if IsOpen(t[from]) then Some(from + 1)
    else FirstOpen(t, from + 1)
  }

  /** `abrir_caixa`: when a session is already open nothing is inserted and its
      id is returned; otherwise one open session owned by `employeeId` is
      appended and its fresh id returned. Either way the returned id names an
      open session, and the one-open-session invariant is kept. */
  function OpenSession(s: Store, employeeId: int, now: Timestamp): (r: Step<int>)
    ensures HasId(r.store.sessions, r.out) && IsOpen(r.store.sessions[r.out - 1])
    ensures (exists i :: 0 <= i < |s.sessions| && IsOpen(s.sessions[i])) ==>
      && r.store == s
      && forall i :: 0 <= i < r.out - 1 ==> !IsOpen(s.sessions[i])
    ensures (forall i :: 0 <= i < |s.sessions| ==> !IsOpen(s.sessions[i])) ==>
      && r.store == s.(sessions := s.sessions + [Session(employeeId, now, None)])
      && r.out == |s.sessions| + 1
    ensures AtMostOneOpen(s.sessions) ==> AtMostOneOpen(r.store.sessions)
    ensures AtMostOneOpen(s.sessions) ==>
      forall i :: 0 <= i < |r.store.sessions| && IsOpen(r.store.sessions[i]) ==> i + 1 == r.out
  {
    match FirstOpen(s.sessions, 0)
    case Some(id) => Step(s, id)
    case None => Step(s.(sessions := s.sessions + [Session(employeeId, now, None)]), |s.sessions| + 1)
  }

  datatype CloseOutcome =
    | NothingToClose                              // `caixa_id` was None
    | Closed(report: Option<Reporting.Report>)    // the report printed after the UPDATE

  /** `fechar_caixa`: with no id nothing changes. Otherwise `fechado_em` of the
      row with that id is overwritten, whether or not it was open (an id naming
      no row updates nothing), every other row and table is untouched, and the
      session report is produced from the updated store. */
  function CloseSession(s: Store, sessionId: Option<int>, now: Timestamp): (r: Step<CloseOutcome>)
    ensures sessionId.None? ==> r == Step(s, NothingToClose)
    ensures sessionId.Some? ==>
      && r.out.Closed?
      && r.store == s.(sessions := r.store.sessions)
      && |r.store.sessions| == |s.sessions|
      && r.out.report == Reporting.SessionReport(r.store, sessionId.value)
    ensures sessionId.Some? ==> forall i :: 0 <= i < |s.sessions| && i + 1 != sessionId.value ==>
      r.store.sessions[i] == s.sessions[i]
    ensures sessionId.Some? && HasId(s.sessions, sessionId.value) ==>
      r.store.sessions[sessionId.value - 1] == s.sessions[sessionId.value - 1].(closedAt := Some(now))
    ensures AtMostOneOpen(s.sessions) ==> AtMostOneOpen(r.store.sessions)
  {
    match sessionId
    case None => Step(s, NothingToClose)
    case Some(id) =>
      var t := if HasId(s.sessions, id) then s.sessions[id - 1 := s.sessions[id - 1].(closedAt := Some(now))] else s.sessions;
      var s' := s.(sessions := t);
      Step(s', Closed(Reporting.SessionReport(s', id)))
  }

  /** Open -> Closed: closing the open session leaves no session open. */
  lemma CloseReturnsToClosedState(s: Store, id: int, now: Timestamp)
    requires AtMostOneOpen(s.sessions)
    requires HasId(s.sessions, id) && IsOpen(s.sessions[id - 1])
    ensures forall i :: 0 <= i < |CloseSession(s, Some(id), now).store.sessions| ==>
      !IsOpen(CloseSession(s, Some(id), now).store.sessions[i])
  {
  }

  /** Closed -> Open: from a store with no open session, opening yields exactly one. */
  lemma OpenFromClosedState(s: Store, employeeId: int, now: Timestamp)
    requires forall i :: 0 <= i < |s.sessions| ==> !IsOpen(s.sessions[i])
    ensures var r := OpenSession(s, employeeId, now);
      forall i :: 0 <= i < |r.store.sessions| ==> (IsOpen(r.store.sessions[i]) <==> i == |s.sessions|)
  {
  }
}
