/** The ledger's tables as one value, and what each route does to them: the routes that book a
  * stay, bank points, lend, repay, transfer and undo, each answering either with the new tables
  * it commits or with the error it returns before committing anything. */
module Ledger {
  import opened Common
  import opened Calendar
  import opened Text
  import opened Allocations
  import opened Booking
  import opened Activity
  import opened Balances
  import opened Consolidation

  /** Primary key of the `point_loan` table. */
  type LoanId = int

  /** A point_loan row. `status` is "active" until the loan is repaid, then "repaid". */
  datatype Loan = Loan(lender: MemberId, borrower: MemberId, points: int, useYear: int, status: string)

  const Planned: string := "planned"
  const Booked: string := "booked"
  const Active: string := "active"
  const Repaid: string := "repaid"

  /** The `action_type` texts the routes write. */
  const StayBookedType: string := "stay_booked"
  const StayUpdatedType: string := "stay_status_updated"
  const StayCreatedType: string := "stay_created"
  const BankedType: string := "points_banked"
  const LoanedType: string := "points_loaned"
  const RepaidType: string := "loan_repaid"
  const TransferredType: string := "points_transferred"

  /** The tables the core reads and writes. `names` is the member table (id to name); the next
    * ids are what the database hands out for the next stay and the next loan. */
  datatype Tables = Tables(
    names: map<MemberId, string>,
    allocations: Store,
    stays: map<StayId, Stay>,
    nextStayId: StayId,
    loans: map<LoanId, Loan>,
    nextLoanId: LoanId,
    balances: seq<BalanceRow>,
    log: seq<LogEntry>)

  /** What every route keeps: ids already handed out lie below the next id, and every
    * point_balance row stores the lower member id first. */
  predicate Coherent(t: Tables)
  {
    && (forall id :: id in t.stays ==> id < t.nextStayId)
    && (forall id :: id in t.loans ==> id < t.nextLoanId)
    && Canonical(t.balances)
  }

  /** The tables after a request: the committed ones, or the old ones after an error. */
  function Commit(t: Tables, o: Result<Tables>): Tables
  {
    if o.Ok? then o.value else t
  }

  /** The route's answer: success, or the error. */
  function Reply(o: Result<Tables>): Result<()>
  {
    if o.Ok? then Ok(()) else Err(o.error)
  }

  /** `stay.members[0].member_id if stay.members else None`, and the same for the second. */
  function FirstMember(shares: seq<Share>): Option<MemberId>
  {
    if |shares| > 0 then Some(shares[0].member) else None
  }

  function SecondMember(shares: seq<Share>): Option<MemberId>
  {
    if |shares| > 1 then Some(shares[1].member) else None
  }

  // ---- add_stay ----

  /** `add_stay`: the stay gets the next id and the rows its shares yield, provided the
    * declared points add up to the cost and no share lacks a key. Nothing is logged. */
  function NewStay(t: Tables, resort: string, checkIn: Date, checkOut: Date, cost: int,
                   status: string, inputs: seq<ShareInput>): (r: Result<Tables>)
    ensures r.Ok? <==> NewStayShares(cost, inputs).Ok?
    ensures r.Err? ==> r.error == NewStayShares(cost, inputs).error
    ensures r.Ok? ==> r.value.stays.Keys == t.stays.Keys + {t.nextStayId}
    ensures r.Ok? ==> r.value.stays[t.nextStayId].shares == NewStayShares(cost, inputs).value
    ensures r.Ok? && Coherent(t) ==> forall id :: id in t.stays ==> r.value.stays[id] == t.stays[id]
    ensures r.Ok? ==> r.value.allocations == t.allocations && r.value.log == t.log
                      && r.value.balances == t.balances && r.value.loans == t.loans
    ensures r.Ok? && Coherent(t) ==> Coherent(r.value)
  {
    match NewStayShares(cost, inputs)
    case Err(e) => Err(e)
    case Ok(shares) =>
      Ok(t.(stays := t.stays[t.nextStayId := Stay(resort, checkIn, checkOut, cost, status, shares)],
            nextStayId := t.nextStayId + 1))
  }

  /** A new stay's rows add up to its cost when every guest share declares what its members
    * pay. */
  lemma NewStayAddsUp(t: Tables, resort: string, checkIn: Date, checkOut: Date, cost: int,
                      status: string, inputs: seq<ShareInput>)
    requires NewStay(t, resort, checkIn, checkOut, cost, status, inputs).Ok?
    requires forall i :: 0 <= i < |inputs| ==> Booking.Consistent(inputs[i])
    ensures ShareTotal(NewStay(t, resort, checkIn, checkOut, cost, status, inputs).value.stays[t.nextStayId].shares) == cost
  {
    NewStaySharesAddUp(cost, inputs);
  }

  // ---- update_stay_status ----

  /** What a status change charges: booking deducts every share from the regular rows of the
    * check-in's use year, planning charges nothing. */
  function StatusCharge(s: Store, st: Stay, status: string): Result<Store>
  {
    if status == Booked then DeductShares(s, UseYear(st.checkIn), st.shares) else Ok(s)
  }

  /** `update_stay_status`: the stay must exist and the status be "planned" or "booked"; booking
    * must find every share covered; then the status is stored and one entry logged. A stay
    * that is already booked is charged again. */
  function StatusUpdate(t: Tables, id: StayId, status: string, now: string): (r: Result<Tables>)
    ensures id !in t.stays ==> r == Err(NotFound)
    ensures id in t.stays && status != Planned && status != Booked ==> r == Err(InvalidStatus)
    ensures r.Ok? ==> id in t.stays && (status == Planned || status == Booked)
    ensures r.Ok? ==> r.value.stays == t.stays[id := t.stays[id].(status := status)]
    ensures r.Ok? && status == Planned ==> r.value.allocations == t.allocations
    ensures r.Ok? && status == Booked ==>
              r.value.allocations.Keys == t.allocations.Keys
              && forall b :: b in t.allocations ==>
                   r.value.allocations[b] == t.allocations[b] - Charged(t.stays[id].shares, UseYear(t.stays[id].checkIn), b)
    ensures id in t.stays && status == Booked && DeductShares(t.allocations, UseYear(t.stays[id].checkIn), t.stays[id].shares).Err? ==>
              r == Err(DeductShares(t.allocations, UseYear(t.stays[id].checkIn), t.stays[id].shares).error)
    ensures r.Ok? <==> && id in t.stays && (status == Planned || status == Booked)
                       && (status == Booked ==> DeductShares(t.allocations, UseYear(t.stays[id].checkIn), t.stays[id].shares).Ok?)
                       && ShareDescriptions(t.names, t.stays[id].shares).Some?
    ensures r.Ok? && status == Booked ==>
              r.value.allocations == DeductShares(t.allocations, UseYear(t.stays[id].checkIn), t.stays[id].shares).value
    ensures r.Ok? ==> |r.value.log| == |t.log| + 1 && r.value.log[..|t.log|] == t.log
                      && r.value.log[|t.log|].stay == Some(id)
                      && r.value.log[|t.log|].actionType == (if status == Booked then StayBookedType else StayUpdatedType)
    ensures r.Ok? ==> r.value.names == t.names && r.value.loans == t.loans && r.value.balances == t.balances
    ensures r.Ok? && Coherent(t) ==> Coherent(r.value)
  {
    if id !in t.stays then Err(NotFound)
    else if status != Planned && status != Booked then Err(InvalidStatus)
    else
      var st := t.stays[id];
      match StatusCharge(t.allocations, st, status)
      case Err(e) => Err(e)
      case Ok(s) =>
        match ShareDescriptions(t.names, st.shares)
        case None => Err(NotFound)
        case Some(texts) =>
          var entry := LogEntry(if status == Booked then StayBookedType else StayUpdatedType,
                                StayDescription(st.resort, status, texts, UseYear(st.checkIn)),
                                FirstMember(st.shares), SecondMember(st.shares), Some(id), now);
          assert (t.log + [entry])[..|t.log|] == t.log;
          Ok(t.(allocations := s, stays := t.stays[id := st.(status := status)], log := t.log + [entry]))
  }

  // ---- bank_points ----

  /** `bank_points`: the member must exist and have a regular row for the year holding at least
    * the amount, which moves to the banked row; one entry is logged. */
  function Banking(t: Tables, m: MemberId, y: int, p: int, now: string): (r: Result<Tables>)
    ensures m !in t.names ==> r == Err(NotFound)
    ensures r.Ok? <==> m in t.names && RegularOf(m, y) in t.allocations && p <= t.allocations[RegularOf(m, y)]
    ensures r.Err? && m in t.names ==> r.error == InvalidAmount
    ensures r.Ok? ==> r.value.allocations == BankMove(t.allocations, m, y, p).value
    ensures r.Ok? ==> r.value.allocations.Keys == t.allocations.Keys + {BankedOf(m, y)}
    ensures r.Ok? ==> r.value.allocations[RegularOf(m, y)] == t.allocations[RegularOf(m, y)] - p
                      && r.value.allocations[BankedOf(m, y)] == Available(t.allocations, BankedOf(m, y)) + p
    ensures r.Ok? ==> r.value.allocations[RegularOf(m, y)] + r.value.allocations[BankedOf(m, y)]
                      == Available(t.allocations, RegularOf(m, y)) + Available(t.allocations, BankedOf(m, y))
    ensures r.Ok? ==> forall b :: b in t.allocations && b != RegularOf(m, y) && b != BankedOf(m, y) ==>
                        r.value.allocations[b] == t.allocations[b]
    ensures r.Ok? ==> r.value.log == t.log + [LogEntry(BankedType, BankedDescription(t.names[m], p, y), Some(m), None, None, now)]
    ensures r.Ok? ==> r.value.stays == t.stays && r.value.loans == t.loans && r.value.balances == t.balances
    ensures r.Ok? && Coherent(t) ==> Coherent(r.value)
  {
    if m !in t.names then Err(NotFound)
    else match BankMove(t.allocations, m, y, p)
      case None => Err(InvalidAmount)
      case Some(s) =>
        BankMoveEffect(t.allocations, m, y, p);
        Ok(t.(allocations := s,
              log := t.log + [LogEntry(BankedType, BankedDescription(t.names[m], p, y), Some(m), None, None, now)]))
  }

  // ---- create_loan and repay_loan ----

  /** `create_loan`: both members must exist and the lender's regular row hold the amount; the
    * points move to the borrower, an active loan is recorded and one entry is logged. */
  function Lending(t: Tables, lender: MemberId, borrower: MemberId, p: int, y: int, now: string): (r: Result<Tables>)
    ensures lender !in t.names || borrower !in t.names ==> r == Err(NotFound)
    ensures r.Ok? <==> lender in t.names && borrower in t.names && MoveRegular(t.allocations, lender, borrower, y, p).Some?
    ensures r.Err? && lender in t.names && borrower in t.names ==> r.error == InsufficientPoints
    ensures r.Ok? ==> r.value.allocations == MoveRegular(t.allocations, lender, borrower, y, p).value
    ensures r.Ok? ==> r.value.loans == t.loans[t.nextLoanId := Loan(lender, borrower, p, y, Active)]
                      && r.value.nextLoanId == t.nextLoanId + 1
    ensures r.Ok? ==> |r.value.log| == |t.log| + 1 && r.value.log[..|t.log|] == t.log
                      && r.value.log[|t.log|].actionType == LoanedType
    ensures r.Ok? ==> r.value.stays == t.stays && r.value.balances == t.balances
    ensures r.Ok? && Coherent(t) ==> Coherent(r.value)
  {
    if lender !in t.names || borrower !in t.names then Err(NotFound)
    else match MoveRegular(t.allocations, lender, borrower, y, p)
      case None => Err(InsufficientPoints)
      case Some(s) =>
        var entry := LogEntry(LoanedType, LoanDescription(t.names[lender], p, t.names[borrower], y),
                              Some(lender), Some(borrower), None, now);
        assert (t.log + [entry])[..|t.log|] == t.log;
        Ok(t.(allocations := s,
              loans := t.loans[t.nextLoanId := Loan(lender, borrower, p, y, Active)],
              nextLoanId := t.nextLoanId + 1,
              log := t.log + [entry]))
  }

  /** `repay_loan`: the loan must exist and be active, and the borrower's regular row for the
    * loan's year hold the amount, which moves back to the lender; the loan becomes repaid and
    * one entry is logged. */
  function Repayment(t: Tables, id: LoanId, now: string): (r: Result<Tables>)
    ensures id !in t.loans ==> r == Err(NotFound)
    ensures id in t.loans && t.loans[id].status != Active ==> r == Err(AlreadyRepaid)
    ensures r.Ok? <==> && id in t.loans && t.loans[id].status == Active
                       && MoveRegular(t.allocations, t.loans[id].borrower, t.loans[id].lender,
                                      t.loans[id].useYear, t.loans[id].points).Some?
                       && t.loans[id].borrower in t.names && t.loans[id].lender in t.names
    ensures (&& id in t.loans && t.loans[id].status == Active
             && MoveRegular(t.allocations, t.loans[id].borrower, t.loans[id].lender,
                            t.loans[id].useYear, t.loans[id].points).None?)
            ==> r == Err(InsufficientPoints)
    ensures r.Ok? ==> var l := t.loans[id];
              && r.value.allocations == MoveRegular(t.allocations, l.borrower, l.lender, l.useYear, l.points).value
              && r.value.loans == t.loans[id := l.(status := Repaid)]
    ensures r.Ok? ==> |r.value.log| == |t.log| + 1 && r.value.log[..|t.log|] == t.log
                      && r.value.log[|t.log|].actionType == RepaidType
    ensures r.Ok? ==> r.value.stays == t.stays && r.value.balances == t.balances
    ensures r.Ok? && Coherent(t) ==> Coherent(r.value)
  {
    if id !in t.loans then Err(NotFound)
    else
      var l := t.loans[id];
      if l.status != Active then Err(AlreadyRepaid)
      else match MoveRegular(t.allocations, l.borrower, l.lender, l.useYear, l.points)
        case None => Err(InsufficientPoints)
        case Some(s) =>
          if l.borrower !in t.names || l.lender !in t.names then Err(NotFound)
          else
            var entry := LogEntry(RepaidType, RepayDescription(t.names[l.borrower], l.points, t.names[l.lender]),
                                  Some(l.lender), Some(l.borrower), None, now);
            assert (t.log + [entry])[..|t.log|] == t.log;
            Ok(t.(allocations := s, loans := t.loans[id := l.(status := Repaid)], log := t.log + [entry]))
  }

  // ---- transfer_points ----

  /** `transfer_points`: both members must exist and the giver's regular row hold the amount;
    * the points move, the signed row is recorded and one entry is logged. */
  function Transfer(t: Tables, from: MemberId, to: MemberId, p: int, y: int, now: string): (r: Result<Tables>)
    ensures from !in t.names || to !in t.names ==> r == Err(NotFound)
    ensures r.Ok? <==> from in t.names && to in t.names && MoveRegular(t.allocations, from, to, y, p).Some?
    ensures r.Err? && from in t.names && to in t.names ==> r.error == InsufficientPoints
    ensures r.Ok? ==> r.value.allocations == MoveRegular(t.allocations, from, to, y, p).value
    ensures r.Ok? ==> r.value.balances == t.balances + [TransferRow(from, to, y, p)]
    ensures r.Ok? ==> |r.value.log| == |t.log| + 1 && r.value.log[..|t.log|] == t.log
                      && r.value.log[|t.log|].actionType == TransferredType
    ensures r.Ok? ==> r.value.stays == t.stays && r.value.loans == t.loans
    ensures r.Ok? && Coherent(t) ==> Coherent(r.value)
  {
    if from !in t.names || to !in t.names then Err(NotFound)
    else match MoveRegular(t.allocations, from, to, y, p)
      case None => Err(InsufficientPoints)
      case Some(s) =>
        var entry := LogEntry(TransferredType, TransferDescription(t.names[from], p, t.names[to], y),
                              Some(from), Some(to), None, now);
        assert (t.log + [entry])[..|t.log|] == t.log;
        Ok(t.(allocations := s, balances := t.balances + [TransferRow(from, to, y, p)], log := t.log + [entry]))
  }

  // ---- undo_last_action ----

  /** The table changes of undoing entry `e`, `today` giving the use year a banking is undone
    * against. Only bankings, bookings and stay creations can be undone. */
  function UndoChanges(t: Tables, e: LogEntry, today: Date): (r: Result<Tables>)
    ensures r.Ok? ==> e.actionType == BankedType || e.actionType == StayBookedType || e.actionType == StayCreatedType
    ensures r.Ok? ==> r.value.log == t.log && r.value.names == t.names
                      && r.value.loans == t.loans && r.value.balances == t.balances
    ensures e.actionType != BankedType && e.actionType != StayBookedType && e.actionType != StayCreatedType ==>
              r == Err(CannotUndo(e.actionType))
    ensures r.Ok? && Coherent(t) ==> Coherent(r.value)
    // points_banked: the parsed amount goes back from the banked row of today's use year
    ensures e.actionType == BankedType ==>
              (r.Ok? <==> && e.member1.Some? && e.member1.value in t.names
                          && BankedOf(e.member1.value, UseYear(today)) in t.allocations
                          && ParseBankedAmount(e.description).Some?
                          && t.allocations[BankedOf(e.member1.value, UseYear(today))] >= ParseBankedAmount(e.description).value)
    ensures e.actionType == BankedType && r.Ok? ==>
              r.value == t.(allocations := UnbankMove(t.allocations, e.member1.value, UseYear(today),
                                                      ParseBankedAmount(e.description).value).value)
    // stay_booked: refused unless the stay is booked; then every share is refunded and the stay planned
    ensures e.actionType == StayBookedType ==>
              (r.Ok? <==> e.stay.Some? && e.stay.value in t.stays && t.stays[e.stay.value].status == Booked)
    ensures (&& e.actionType == StayBookedType && e.stay.Some? && e.stay.value in t.stays
             && t.stays[e.stay.value].status != Booked)
            ==> r == Err(NotBooked)
    ensures e.actionType == StayBookedType && r.Ok? ==>
              var st := t.stays[e.stay.value];
              && r.value.allocations == RefundShares(t.allocations, UseYear(st.checkIn), st.shares)
              && r.value.stays == t.stays[e.stay.value := st.(status := Planned)]
    // stay_created: the stay is deleted, its shares refunded on existing rows when it was booked
    ensures e.actionType == StayCreatedType ==> (r.Ok? <==> e.stay.Some? && e.stay.value in t.stays)
    ensures e.actionType == StayCreatedType && r.Ok? ==>
              var st := t.stays[e.stay.value];
              && r.value.stays == t.stays - {e.stay.value}
              && r.value.allocations == if st.status == Booked
                                        then RefundExistingShares(t.allocations, UseYear(st.checkIn), st.shares)
                                        else t.allocations
  {
    if e.actionType == BankedType then
      if e.member1.None? || e.member1.value !in t.names then Err(NotFound)
      else
        var m, y := e.member1.value, UseYear(today);
        if BankedOf(m, y) !in t.allocations then Err(BankedRowMissing)
        else match ParseBankedAmount(e.description)
          case None => Err(BadDescription)
          case Some(p) =>
            match UnbankMove(t.allocations, m, y, p)
            case None => Err(NotEnoughBanked)
            case Some(s) => Ok(t.(allocations := s))
    else if e.actionType == StayBookedType then
      if e.stay.None? || e.stay.value !in t.stays then Err(NotFound)
      else
        var st := t.stays[e.stay.value];
        if st.status != Booked then Err(NotBooked)
        else Ok(t.(allocations := RefundShares(t.allocations, UseYear(st.checkIn), st.shares),
                   stays := t.stays[e.stay.value := st.(status := Planned)]))
    else if e.actionType == StayCreatedType then
      if e.stay.None? || e.stay.value !in t.stays then Err(NotFound)
      else
        var st := t.stays[e.stay.value];
        Ok(t.(allocations := if st.status == Booked
                             then RefundExistingShares(t.allocations, UseYear(st.checkIn), st.shares)
                             else t.allocations,
              stays := t.stays - {e.stay.value}))
    else Err(CannotUndo(e.actionType))
  }

  /** `undo_last_action`: the entry `SelectUndo` picks is undone and exactly one undo entry,
    * naming it, is appended. */
  function Undo(t: Tables, today: Date, now: string): (r: Result<Tables>)
    ensures SelectUndo(t.log).Err? ==> r == Err(SelectUndo(t.log).error)
    ensures r.Ok? <==> SelectUndo(t.log).Ok? && UndoChanges(t, t.log[SelectUndo(t.log).value], today).Ok?
    ensures SelectUndo(t.log).Ok? && UndoChanges(t, t.log[SelectUndo(t.log).value], today).Err? ==>
              r == Err(UndoChanges(t, t.log[SelectUndo(t.log).value], today).error)
    ensures r.Ok? ==> r.value == UndoChanges(t, t.log[SelectUndo(t.log).value], today).value
                                   .(log := t.log + [UndoEntry(t.log[SelectUndo(t.log).value], now)])
    ensures r.Ok? ==> r.value.log == t.log + [UndoEntry(t.log[SelectUndo(t.log).value], now)]
    ensures r.Ok? ==> r.value.names == t.names && r.value.loans == t.loans && r.value.balances == t.balances
    ensures r.Ok? && Coherent(t) ==> Coherent(r.value)
  {
    match SelectUndo(t.log)
    case Err(e) => Err(e)
    case Ok(i) =>
      match UndoChanges(t, t.log[i], today)
      case Err(e) => Err(e)
      case Ok(u) => Ok(u.(log := t.log + [UndoEntry(t.log[i], now)]))
  }

  // ---- Round trips through the tables ----

  /** An entry that is not an undo does not change which descriptions have been undone, and
    * becomes the entry the next undo acts on. */
  lemma AppendedEntryIsLast(log: seq<LogEntry>, e: LogEntry)
    requires e.actionType != UndoType && !UndoneBefore(log, e.description)
    ensures SelectUndo(log + [e]) == Ok(|log|)
  {
    var log' := log + [e];
    forall i | 0 <= i < |log'| && log'[i].actionType == UndoType
      ensures !StartsWith(log'[i].description, UndoPrefix + e.description)
    {
      assert i < |log| && log'[i] == log[i];
    }
  }

  /** Booking a stay and then undoing the last action unbooks it and gives every member back
    * exactly what the booking charged: the allocation table is as before the booking. */
  lemma BookThenUndo(t: Tables, id: StayId, now: string, today: Date, later: string)
    requires StatusUpdate(t, id, Booked, now).Ok?
    requires !UndoneBefore(t.log, StatusUpdate(t, id, Booked, now).value.log[|t.log|].description)
    ensures Undo(StatusUpdate(t, id, Booked, now).value, today, later).Ok?
    ensures Undo(StatusUpdate(t, id, Booked, now).value, today, later).value.allocations == t.allocations
    ensures Undo(StatusUpdate(t, id, Booked, now).value, today, later).value.stays
            == t.stays[id := t.stays[id].(status := Planned)]
  {
    var t1 := StatusUpdate(t, id, Booked, now).value;
    var st := t.stays[id];
    var e := t1.log[|t.log|];
    assert t1.log == t.log + [e];
    AppendedEntryIsLast(t.log, e);
    assert e.actionType == StayBookedType;
    var y := UseYear(st.checkIn);
    assert t1.allocations == DeductShares(t.allocations, y, st.shares).value;
    BookThenRefund(t.allocations, y, st.shares);
    assert t1.stays[id] == st.(status := Booked);
    assert t1.stays[id := t1.stays[id].(status := Planned)] == t.stays[id := st.(status := Planned)];
  }

  /** Banking and then undoing the last action within the same use year moves the points back:
    * every row is as before, apart from a banked row holding 0 when the banking created it.
    * The amount is read back out of the entry's description, which needs a member name that
    * does not itself produce an earlier " banked ". */
  lemma BankThenUndo(t: Tables, m: MemberId, y: int, p: int, now: string, today: Date, later: string)
    requires Banking(t, m, y, p, now).Ok?
    requires UseYear(today) == y
    requires Find(t.names[m] + " banked", " banked ").None?
    requires !UndoneBefore(t.log, BankedDescription(t.names[m], p, y))
    requires Available(t.allocations, BankedOf(m, y)) >= 0
    ensures Undo(Banking(t, m, y, p, now).value, today, later).Ok?
    ensures Undo(Banking(t, m, y, p, now).value, today, later).value.allocations
            == WithRow(t.allocations, BankedOf(m, y))
  {
    var t1 := Banking(t, m, y, p, now).value;
    var e := LogEntry(BankedType, BankedDescription(t.names[m], p, y), Some(m), None, None, now);
    AppendedEntryIsLast(t.log, e);
    BankedDescriptionRoundTrip(t.names[m], p, y);
    BankThenUnbank(t.allocations, m, y, p);
  }

  /** Lending and then repaying the new loan puts every row back, apart from a 0 row for the
    * borrower when the loan created it; a second repayment is refused. */
  lemma LendThenRepay(t: Tables, lender: MemberId, borrower: MemberId, p: int, y: int,
                      now: string, later: string, latest: string)
    requires Lending(t, lender, borrower, p, y, now).Ok?
    requires Available(t.allocations, RegularOf(borrower, y)) >= 0
    ensures Repayment(Lending(t, lender, borrower, p, y, now).value, t.nextLoanId, later).Ok?
    ensures Repayment(Lending(t, lender, borrower, p, y, now).value, t.nextLoanId, later).value.allocations
            == WithRow(t.allocations, RegularOf(borrower, y))
    ensures Repayment(Repayment(Lending(t, lender, borrower, p, y, now).value, t.nextLoanId, later).value,
                      t.nextLoanId, latest) == Err(AlreadyRepaid)
  {
    MoveRegularBack(t.allocations, lender, borrower, y, p);
  }

  /** After an undo, the next undo is refused: the entry it would pick has been undone. */
  lemma UndoTwice(t: Tables, today: Date, now: string, laterDay: Date, later: string)
    requires Undo(t, today, now).Ok?
    ensures Undo(Undo(t, today, now).value, laterDay, later) == Err(AlreadyUndone)
  {
    SecondUndoRefused(t.log, now);
  }

  lemma {:induction false} YearPosSingle(r: BalanceRow, y: int, x: MemberId)
    ensures YearPos([r], y, x) == if r.useYear == y then RowPos(r, x) else 0
  {
    assert [r][..0] == [];
  }

  /** A transfer shifts the consolidated positions of the year by the amount: the giver is
    * listed as owing `p` more (net), the recipient as owing `p` less; no other member and no
    * other year changes. */
  lemma TransferShiftsPositions(t: Tables, from: MemberId, to: MemberId, p: int, y: int, now: string,
                                year: int, x: MemberId)
    requires Coherent(t) && Transfer(t, from, to, p, y, now).Ok?
    ensures BalancePos(Consolidate(Transfer(t, from, to, p, y, now).value.balances), year, x)
            == BalancePos(Consolidate(t.balances), year, x)
               + (if year == y then (if from == x then p else 0) - (if to == x then p else 0) else 0)
  {
    var t1 := Transfer(t, from, to, p, y, now).value;
    var row := TransferRow(from, to, y, p);
    ConsolidatePosition(t.balances, year, x);
    ConsolidatePosition(t1.balances, year, x);
    YearPosAppend(t.balances, [row], year, x);
    YearPosSingle(row, year, x);
    TransferRowPosition(from, to, y, p, x);
  }

  // ---- Signs ----

  /** None of the routes checks that an amount is positive. With non-negative amounts and rows,
    * a booking, a banking, a loan, a repayment and a transfer keep every row non-negative. */
  lemma StatusUpdateNonNegative(t: Tables, id: StayId, status: string, now: string)
    requires NonNegative(t.allocations) && StatusUpdate(t, id, status, now).Ok?
    ensures NonNegative(StatusUpdate(t, id, status, now).value.allocations)
  {
    if status == Booked {
      DeductSharesNonNegative(t.allocations, UseYear(t.stays[id].checkIn), t.stays[id].shares);
    }
  }

  lemma BankingNonNegative(t: Tables, m: MemberId, y: int, p: int, now: string)
    requires NonNegative(t.allocations) && p >= 0 && Banking(t, m, y, p, now).Ok?
    ensures NonNegative(Banking(t, m, y, p, now).value.allocations)
  {
    BankMoveNonNegative(t.allocations, m, y, p);
  }

  lemma LendingNonNegative(t: Tables, lender: MemberId, borrower: MemberId, p: int, y: int, now: string)
    requires NonNegative(t.allocations) && p >= 0 && Lending(t, lender, borrower, p, y, now).Ok?
    ensures NonNegative(Lending(t, lender, borrower, p, y, now).value.allocations)
  {
    MoveRegularNonNegative(t.allocations, lender, borrower, y, p);
  }

  lemma RepaymentNonNegative(t: Tables, id: LoanId, now: string)
    requires NonNegative(t.allocations) && Repayment(t, id, now).Ok? && t.loans[id].points >= 0
    ensures NonNegative(Repayment(t, id, now).value.allocations)
  {
    var l := t.loans[id];
    MoveRegularNonNegative(t.allocations, l.borrower, l.lender, l.useYear, l.points);
  }

  lemma TransferNonNegative(t: Tables, from: MemberId, to: MemberId, p: int, y: int, now: string)
    requires NonNegative(t.allocations) && p >= 0 && Transfer(t, from, to, p, y, now).Ok?
    ensures NonNegative(Transfer(t, from, to, p, y, now).value.allocations)
  {
    MoveRegularNonNegative(t.allocations, from, to, y, p);
  }

  /** A negative amount passes the check whatever the giver holds, and takes points from the
    * recipient instead: transferring -5 between two members holding 0 leaves the recipient at
    * -5. */
  lemma NegativeTransferDrainsRecipient(now: string)
    ensures var t := Tables(map[1 := "A", 2 := "B"], map[RegularOf(1, 2024) := 0, RegularOf(2, 2024) := 0],
                            map[], 1, map[], 1, [], []);
            && Transfer(t, 1, 2, -5, 2024, now).Ok?
            && Transfer(t, 1, 2, -5, 2024, now).value.allocations[RegularOf(1, 2024)] == 5
            && Transfer(t, 1, 2, -5, 2024, now).value.allocations[RegularOf(2, 2024)] == -5
  {
    var t := Tables(map[1 := "A", 2 := "B"], map[RegularOf(1, 2024) := 0, RegularOf(2, 2024) := 0],
                    map[], 1, map[], 1, [], []);
    MoveRegularEffect(t.allocations, 1, 2, 2024, -5);
  }
}
