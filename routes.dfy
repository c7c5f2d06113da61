/** The routes as methods of one object holding the tables. Each route works on local copies,
  * returns its error before touching a field (the session is then rolled back), and on success
  * commits the tables `Ledger` specifies for it. */
module Routes {
  import opened Common
  import opened Calendar
  import opened Allocations
  import opened Booking
  import opened Activity
  import opened Balances
  import opened Consolidation
  import opened Ledger
  import opened BalancesPage

  /** The regular-row move of a loan, a repayment or a transfer: the source row is looked up
    * and checked, debited, then the destination row is looked up, created with 0 when missing,
    * and credited. */
  method MovePoints(s: Store, from: MemberId, to: MemberId, y: int, p: int) returns (r: Option<Store>)
    ensures r == MoveRegular(s, from, to, y, p)
  {
    var src := RegularOf(from, y);
    if src !in s || s[src] < p {
      return None;
    }
    var moved := s[src := s[src] - p];
    var dst := RegularOf(to, y);
    var current := if dst in moved then moved[dst] else 0;
    moved := moved[dst := current + p];
    return Some(moved);
  }

  /** The row updates of the `bank_points` POST: the regular row is looked up and checked, the
    * banked row is looked up and created with 0 when missing, then the points move. */
  method BankRows(s: Store, m: MemberId, y: int, p: int) returns (r: Option<Store>)
    ensures r == BankMove(s, m, y, p)
  {
    var regular, banked := RegularOf(m, y), BankedOf(m, y);
    if regular !in s || p > s[regular] {
      return None;
    }
    var moved := s[regular := s[regular] - p];
    var current := if banked in moved then moved[banked] else 0;
    moved := moved[banked := current + p];
    return Some(moved);
  }

  /** The row updates of undoing a banking: the banked row must hold the amount, which goes back
    * to the regular row (created with 0 when missing). */
  method UnbankRows(s: Store, m: MemberId, y: int, p: int) returns (r: Option<Store>)
    requires BankedOf(m, y) in s
    ensures r == UnbankMove(s, m, y, p)
  {
    var regular, banked := RegularOf(m, y), BankedOf(m, y);
    if s[banked] < p {
      return None;
    }
    var current := if regular in s then s[regular] else 0;
    var left := s[banked] - p;
    return Some(s[regular := current + p][banked := left]);
  }

  /** The share loop of `add_stay`: a member share gives one row, a guest share the rows of its
    * "member_points"; `None` is the first share missing a field. */
  method CollectShares(inputs: seq<ShareInput>) returns (r: Option<seq<Share>>)
    ensures r == RowsOfAll(inputs)
  {
    var rows: seq<Share> := [];
    assert inputs[0..] == inputs;
    if RowsOfAll(inputs).Some? {
      assert rows + RowsOfAll(inputs).value == RowsOfAll(inputs).value;
    }
    for i := 0 to |inputs|
      invariant RowsOfAll(inputs[i..]).Some? ==> RowsOfAll(inputs) == Some(rows + RowsOfAll(inputs[i..]).value)
      invariant RowsOfAll(inputs[i..]).None? ==> RowsOfAll(inputs).None?
    {
      RowsOfAllStep(inputs, i);
      var si := inputs[i];
      var added: seq<Share>;
      if si.isGuest {
        if si.memberPoints.None? {
          return None;
        }
        added := si.memberPoints.value;
      } else {
        if si.memberId.None? || si.points.None? {
          return None;
        }
        added := [Share(si.memberId.value, si.points.value)];
      }
      assert RowsOf(si) == Some(added);
      if RowsOfAll(inputs[i + 1..]).Some? {
        assert rows + added + RowsOfAll(inputs[i + 1..]).value == rows + (added + RowsOfAll(inputs[i + 1..]).value);
      }
      rows := rows + added;
    }
    assert inputs[|inputs|..] == [];
    assert rows + [] == rows;
    return Some(rows);
  }

  lemma RowsOfAllStep(inputs: seq<ShareInput>, i: nat)
    requires i < |inputs|
    ensures RowsOfAll(inputs[i..])
            == if RowsOf(inputs[i]).Some? && RowsOfAll(inputs[i + 1..]).Some?
               then Some(RowsOf(inputs[i]).value + RowsOfAll(inputs[i + 1..]).value)
               else None
  {
    assert inputs[i..][1..] == inputs[i + 1..];
  }

  lemma RefundStep(s: Store, y: int, shares: seq<Share>, i: nat)
    requires i < |shares|
    ensures RefundShares(s, y, shares[i..])
            == RefundShares(Credit(s, RegularOf(shares[i].member, y), shares[i].points), y, shares[i + 1..])
  {
    assert shares[i..][1..] == shares[i + 1..];
  }

  lemma RefundExistingStep(s: Store, s': Store, y: int, shares: seq<Share>, i: nat)
    requires i < |shares|
    requires var row := RegularOf(shares[i].member, y);
      s' == if row in s then s[row := s[row] + shares[i].points] else s
    ensures RefundExistingShares(s', y, shares[i + 1..]) == RefundExistingShares(s, y, shares[i..])
  {
    assert shares[i..][1..] == shares[i + 1..];
  }

  /** The refund loop of undoing a booking: each share goes back to its member's regular row,
    * which is created with 0 points when missing. */
  method Refund(s: Store, y: int, shares: seq<Share>) returns (r: Store)
    ensures r == RefundShares(s, y, shares)
  {
    r := s;
    ghost var target := RefundShares(s, y, shares);
    assert shares[0..] == shares;
    for i := 0 to |shares|
      invariant RefundShares(r, y, shares[i..]) == target
    {
      RefundStep(r, y, shares, i);
      r := Credit(r, RegularOf(shares[i].member, y), shares[i].points);
    }
    assert shares[|shares|..] == [];
  }

  /** The refund loop of undoing a stay creation: only rows that exist get their share back. */
  method RefundExisting(s: Store, y: int, shares: seq<Share>) returns (r: Store)
    ensures r == RefundExistingShares(s, y, shares)
  {
    r := s;
    assert shares[0..] == shares;
    for i := 0 to |shares|
      invariant RefundExistingShares(r, y, shares[i..]) == RefundExistingShares(s, y, shares)
    {
      ghost var before := r;
      var row := RegularOf(shares[i].member, y);
      if row in r {
        r := r[row := r[row] + shares[i].points];
      }
      RefundExistingStep(before, r, y, shares, i);
    }
  }

  class PointsLedger {
    var names: map<MemberId, string>
    var allocations: Store
    var stays: map<StayId, Stay>
    var nextStayId: StayId
    var loans: map<LoanId, Loan>
    var nextLoanId: LoanId
    var balances: seq<BalanceRow>
    var log: seq<LogEntry>

    /** The fields as one `Tables` value. */
    function State(): Tables
      reads this
    {
      Tables(names, allocations, stays, nextStayId, loans, nextLoanId, balances, log)
    }

    ghost predicate Valid()
      reads this
    {
      Coherent(State())
    }

    /** The members and their allocation rows; no stays, loans, balances or log entries yet. */
    constructor (members: map<MemberId, string>, points: Store)
      ensures Valid()
      ensures State() == Tables(members, points, map[], 1, map[], 1, [], [])
    {
      names, allocations := members, points;
      stays, nextStayId := map[], 1;
      loans, nextLoanId := map[], 1;
      balances, log := [], [];
    }

    /** `add_stay`. */
    method AddStay(resort: string, checkIn: Date, checkOut: Date, cost: int, status: string,
                   inputs: seq<ShareInput>) returns (r: Result<()>)
      requires Valid()
      modifies this
      ensures Valid()
      ensures r == Reply(NewStay(old(State()), resort, checkIn, checkOut, cost, status, inputs))
      ensures State() == Commit(old(State()), NewStay(old(State()), resort, checkIn, checkOut, cost, status, inputs))
    {
      if DeclaredTotal(inputs) != cost {
        return Err(ShareMismatch);
      }
      var collected := CollectShares(inputs);
      if collected.None? {
        return Err(MissingField);
      }
      var rows := collected.value;
      stays := stays[nextStayId := Stay(resort, checkIn, checkOut, cost, status, rows)];
      nextStayId := nextStayId + 1;
      return Ok(());
    }

    /** `update_stay_status`. */
    method UpdateStayStatus(id: StayId, status: string, now: string) returns (r: Result<()>)
      requires Valid()
      modifies this
      ensures Valid()
      ensures r == Reply(StatusUpdate(old(State()), id, status, now))
      ensures State() == Commit(old(State()), StatusUpdate(old(State()), id, status, now))
    {
      if id !in stays {
        return Err(NotFound);
      }
      if status != Planned && status != Booked {
        return Err(InvalidStatus);
      }
      var st := stays[id];
      var s := allocations;
      if status == Booked {
        var y := UseYear(st.checkIn);
        assert st.shares[0..] == st.shares;
        for i := 0 to |st.shares|
          invariant DeductShares(s, y, st.shares[i..]) == DeductShares(allocations, y, st.shares)
        {
          assert st.shares[i..][1..] == st.shares[i + 1..];
          var share := st.shares[i];
          var row := RegularOf(share.member, y);
          if row !in s || s[row] < share.points {
            return Err(Shortfall(share.member, y, share.points, if row in s then s[row] else 0));
          }
          s := s[row := s[row] - share.points];
        }
      }
      var texts := ShareDescriptions(names, st.shares);
      if texts.None? {
        return Err(NotFound);
      }
      var entry := LogEntry(if status == Booked then StayBookedType else StayUpdatedType,
                            StayDescription(st.resort, status, texts.value, UseYear(st.checkIn)),
                            FirstMember(st.shares), SecondMember(st.shares), Some(id), now);
      allocations := s;
      stays := stays[id := st.(status := status)];
      log := log + [entry];
      return Ok(());
    }

    /** `bank_points` (POST). */
    method BankPoints(m: MemberId, y: int, p: int, now: string) returns (r: Result<()>)
      requires Valid()
      modifies this
      ensures Valid()
      ensures r == Reply(Banking(old(State()), m, y, p, now))
      ensures State() == Commit(old(State()), Banking(old(State()), m, y, p, now))
    {
      if m !in names {
        return Err(NotFound);
      }
      var moved := BankRows(allocations, m, y, p);
      if moved.None? {
        return Err(InvalidAmount);
      }
      allocations := moved.value;
      log := log + [LogEntry(BankedType, BankedDescription(names[m], p, y), Some(m), None, None, now)];
      return Ok(());
    }

    /** `create_loan`. */
    method CreateLoan(lender: MemberId, borrower: MemberId, p: int, y: int, now: string) returns (r: Result<()>)
      requires Valid()
      modifies this
      ensures Valid()
      ensures r == Reply(Lending(old(State()), lender, borrower, p, y, now))
      ensures State() == Commit(old(State()), Lending(old(State()), lender, borrower, p, y, now))
    {
      if lender !in names || borrower !in names {
        return Err(NotFound);
      }
      var moved := MovePoints(allocations, lender, borrower, y, p);
      if moved.None? {
        return Err(InsufficientPoints);
      }
      allocations := moved.value;
      loans := loans[nextLoanId := Loan(lender, borrower, p, y, Active)];
      nextLoanId := nextLoanId + 1;
      log := log + [LogEntry(LoanedType, LoanDescription(names[lender], p, names[borrower], y),
                             Some(lender), Some(borrower), None, now)];
      return Ok(());
    }

    /** `repay_loan`. */
    method RepayLoan(id: LoanId, now: string) returns (r: Result<()>)
      requires Valid()
      modifies this
      ensures Valid()
      ensures r == Reply(Repayment(old(State()), id, now))
      ensures State() == Commit(old(State()), Repayment(old(State()), id, now))
    {
      if id !in loans {
        return Err(NotFound);
      }
      var l := loans[id];
      if l.status != Active {
        return Err(AlreadyRepaid);
      }
      var moved := MovePoints(allocations, l.borrower, l.lender, l.useYear, l.points);
      if moved.None? {
        return Err(InsufficientPoints);
      }
      if l.borrower !in names || l.lender !in names {
        return Err(NotFound);
      }
      allocations := moved.value;
      loans := loans[id := l.(status := Repaid)];
      log := log + [LogEntry(RepaidType, RepayDescription(names[l.borrower], l.points, names[l.lender]),
                             Some(l.lender), Some(l.borrower), None, now)];
      return Ok(());
    }

    /** `transfer_points`. */
    method TransferPoints(from: MemberId, to: MemberId, p: int, y: int, now: string) returns (r: Result<()>)
      requires Valid()
      modifies this
      ensures Valid()
      ensures r == Reply(Transfer(old(State()), from, to, p, y, now))
      ensures State() == Commit(old(State()), Transfer(old(State()), from, to, p, y, now))
    {
      if from !in names || to !in names {
        return Err(NotFound);
      }
      var moved := MovePoints(allocations, from, to, y, p);
      if moved.None? {
        return Err(InsufficientPoints);
      }
      allocations := moved.value;
      balances := balances + [TransferRow(from, to, y, p)];
      log := log + [LogEntry(TransferredType, TransferDescription(names[from], p, names[to], y),
                             Some(from), Some(to), None, now)];
      return Ok(());
    }

    /** The branches of `undo_last_action`: undo entry `e`, or refuse to. */
    method UndoChangesOf(e: LogEntry, today: Date) returns (r: Result<()>)
      requires Valid()
      modifies this
      ensures Valid()
      ensures r == Reply(UndoChanges(old(State()), e, today))
      ensures State() == Commit(old(State()), UndoChanges(old(State()), e, today))
    {
      if e.actionType == BankedType {
        r := UndoBanking(e, today);
      } else if e.actionType == StayBookedType {
        r := UndoBooking(e, today);
      } else if e.actionType == StayCreatedType {
        r := UndoStayCreation(e, today);
      } else {
        return Err(CannotUndo(e.actionType));
      }
    }

    /** The `points_banked` branch: the amount parsed from the description goes back from the
      * banked row to the regular row of the member's current use year. */
    method UndoBanking(e: LogEntry, today: Date) returns (r: Result<()>)
      requires Valid() && e.actionType == BankedType
      modifies this
      ensures Valid()
      ensures r == Reply(UndoChanges(old(State()), e, today))
      ensures State() == Commit(old(State()), UndoChanges(old(State()), e, today))
    {
      if e.member1.None? || e.member1.value !in names {
        return Err(NotFound);
      }
      var m, y := e.member1.value, UseYear(today);
      if BankedOf(m, y) !in allocations {
        return Err(BankedRowMissing);
      }
      var amount := ParseBankedAmount(e.description);
      if amount.None? {
        return Err(BadDescription);
      }
      var moved := UnbankRows(allocations, m, y, amount.value);
      if moved.None? {
        return Err(NotEnoughBanked);
      }
      allocations := moved.value;
      return Ok(());
    }

    /** The `stay_booked` branch: a booked stay goes back to planned and its shares are
      * refunded. */
    method UndoBooking(e: LogEntry, today: Date) returns (r: Result<()>)
      requires Valid() && e.actionType == StayBookedType
      modifies this
      ensures Valid()
      ensures r == Reply(UndoChanges(old(State()), e, today))
      ensures State() == Commit(old(State()), UndoChanges(old(State()), e, today))
    {
      if e.stay.None? || e.stay.value !in stays {
        return Err(NotFound);
      }
      var st := stays[e.stay.value];
      if st.status != Booked {
        return Err(NotBooked);
      }
      stays := stays[e.stay.value := st.(status := Planned)];
      allocations := Refund(allocations, UseYear(st.checkIn), st.shares);
      return Ok(());
    }

    /** The `stay_created` branch: the stay is deleted, its shares refunded first when it was
      * booked. */
    method UndoStayCreation(e: LogEntry, today: Date) returns (r: Result<()>)
      requires Valid() && e.actionType == StayCreatedType
      modifies this
      ensures Valid()
      ensures r == Reply(UndoChanges(old(State()), e, today))
      ensures State() == Commit(old(State()), UndoChanges(old(State()), e, today))
    {
      if e.stay.None? || e.stay.value !in stays {
        return Err(NotFound);
      }
      var st := stays[e.stay.value];
      if st.status == Booked {
        allocations := RefundExisting(allocations, UseYear(st.checkIn), st.shares);
      }
      stays := stays - {e.stay.value};
      return Ok(());
    }

    /** `undo_last_action`, with `today` the date the banking branch takes its use year from. */
    method UndoLastAction(today: Date, now: string) returns (r: Result<()>)
      requires Valid()
      modifies this
      ensures Valid()
      ensures r == Reply(Undo(old(State()), today, now))
      ensures State() == Commit(old(State()), Undo(old(State()), today, now))
    {
      var selected := SelectUndo(log);
      if selected.Err? {
        return Err(selected.error);
      }
      var e := log[selected.value];
      r := UndoChangesOf(e, today);
      if r.Ok? {
        log := log + [UndoEntry(e, now)];
      }
    }

    /** `view_point_balances`: the consolidated balances of the point_balance table. */
    method ViewPointBalances() returns (bs: seq<DebtBalance>)
      ensures bs == Consolidate(balances)
    {
      bs := ConsolidateBalances(balances);
    }
  }
}
