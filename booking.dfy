/** Stays and their shares: the share-sum check of a new stay, the deduction that booking a
  * stay makes, and the refunds that undoing it makes. */
module Booking {
  import opened Common
  import opened Allocations
  import opened Calendar

  /** A stay_member row: one member's share of a stay's cost. */
  datatype Share = Share(member: MemberId, points: int)

  /** A stay row with its stay_member rows in relationship order. `status` is the stored text,
    * "planned" or "booked" for every stay the routes create. */
  datatype Stay = Stay(resort: string, checkIn: Date, checkOut: Date, pointsCost: int,
                       status: string, shares: seq<Share>)

  /** The total of `m`'s shares. */
  function ShareOf(shares: seq<Share>, m: MemberId): int
  {
    if shares == [] then 0
    else (if shares[0].member == m then shares[0].points else 0) + ShareOf(shares[1..], m)
  }

  /** The total of all shares. */
  function ShareTotal(shares: seq<Share>): int
  {
    if shares == [] then 0 else shares[0].points + ShareTotal(shares[1..])
  }

  /** What booking with these shares charges to a row: the member's shares when it is the
    * member's regular row for the stay's use year, nothing otherwise. */
  function Charged(shares: seq<Share>, y: int, b: Bucket): int
  {
    if b.kind == Regular && b.useYear == y then ShareOf(shares, b.member) else 0
  }

  /** The regular rows of the stay's members for use year `y`. */
  function ShareRows(shares: seq<Share>, y: int): set<Bucket>
  {
    set i | 0 <= i < |shares| :: RegularOf(shares[i].member, y)
  }

  /** The shares before index `i` pass the check against the running balance: each one finds its
    * member's regular row for `y` holding at least its points once the earlier shares are paid. */
  predicate CoveredBefore(s: Store, y: int, shares: seq<Share>, i: int)
    requires 0 <= i <= |shares|
  {
    forall j :: 0 <= j < i ==>
      RegularOf(shares[j].member, y) in s
      && s[RegularOf(shares[j].member, y)] - ShareOf(shares[..j], shares[j].member) >= shares[j].points
  }

  /** The loop of `update_stay_status` for the status "booked": in order, each share's member
    * must have a regular row for `y` holding at least the share, given what the earlier shares
    * took, and then pays it. The first share that finds no row or too few points ends it with
    * the error response, and what was already taken is not committed. */
  function DeductShares(s: Store, y: int, shares: seq<Share>): (r: Result<Store>)
    ensures r.Ok? ==> r.value.Keys == s.Keys
    ensures r.Ok? ==> forall b :: b in s ==> r.value[b] == s[b] - Charged(shares, y, b)
    ensures r.Err? ==> r.error.Shortfall? && r.error.useYear == y
    decreases |shares|
  {
    if shares == [] then Ok(s)
    else
      var row := RegularOf(shares[0].member, y);
      if row !in s || s[row] < shares[0].points then
        Err(Shortfall(shares[0].member, y, shares[0].points, if row in s then s[row] else 0))
      else DeductShares(s[row := s[row] - shares[0].points], y, shares[1..])
  }

  /** Booking succeeds exactly when every share passes the running check; when it fails, the
    * error names the first share that does not, with what its member had left at that point. */
  lemma {:induction false} DeductSharesOutcome(s: Store, y: int, shares: seq<Share>)
    ensures DeductShares(s, y, shares).Ok? <==> CoveredBefore(s, y, shares, |shares|)
    ensures DeductShares(s, y, shares).Err? ==>
      exists i :: 0 <= i < |shares| && CoveredBefore(s, y, shares, i)
        && DeductShares(s, y, shares).error
           == Shortfall(shares[i].member, y, shares[i].points,
                        Available(s, RegularOf(shares[i].member, y)) - ShareOf(shares[..i], shares[i].member))
    decreases |shares|
  {
    if shares != [] {
      var sh := shares[0];
      var row := RegularOf(sh.member, y);
      if row in s && s[row] >= sh.points {
        var s' := s[row := s[row] - sh.points];
        var rest := shares[1..];
        DeductSharesOutcome(s', y, rest);
        ShiftAll(s, s', y, shares);
        assert DeductShares(s, y, shares) == DeductShares(s', y, rest);
        if DeductShares(s, y, shares).Err? {
          var i :| 0 <= i < |rest| && CoveredBefore(s', y, rest, i)
            && DeductShares(s', y, rest).error
               == Shortfall(rest[i].member, y, rest[i].points,
                            Available(s', RegularOf(rest[i].member, y)) - ShareOf(rest[..i], rest[i].member));
          ShiftOne(s, s', y, shares, i);
        }
      } else {
        FirstUncovered(s, y, shares);
      }
    }
  }

  /** Once the first share is paid, all shares pass exactly when the remaining ones do. */
  lemma ShiftAll(s: Store, s': Store, y: int, shares: seq<Share>)
    requires |shares| > 0
    requires RegularOf(shares[0].member, y) in s && s[RegularOf(shares[0].member, y)] >= shares[0].points
    requires s' == s[RegularOf(shares[0].member, y) := s[RegularOf(shares[0].member, y)] - shares[0].points]
    ensures CoveredBefore(s, y, shares, |shares|) <==> CoveredBefore(s', y, shares[1..], |shares| - 1)
  {
    PrefixShares(shares);
    CoveredShift(s, s', y, shares, RegularOf(shares[0].member, y));
  }

  /** Once the first share is paid, the `i`-th remaining share is share `i + 1`, with what its
    * member has left computed either way. */
  lemma ShiftOne(s: Store, s': Store, y: int, shares: seq<Share>, i: int)
    requires |shares| > 0
    requires RegularOf(shares[0].member, y) in s && s[RegularOf(shares[0].member, y)] >= shares[0].points
    requires s' == s[RegularOf(shares[0].member, y) := s[RegularOf(shares[0].member, y)] - shares[0].points]
    requires 0 <= i < |shares| - 1 && CoveredBefore(s', y, shares[1..], i)
    ensures CoveredBefore(s, y, shares, i + 1) && shares[i + 1] == shares[1..][i]
    ensures Available(s', RegularOf(shares[1..][i].member, y)) - ShareOf(shares[1..][..i], shares[1..][i].member)
            == Available(s, RegularOf(shares[i + 1].member, y)) - ShareOf(shares[..i + 1], shares[i + 1].member)
  {
    PrefixShares(shares);
    CoveredShift(s, s', y, shares, RegularOf(shares[0].member, y));
  }

  /** A share after the first sees the first one already paid. */
  lemma PrefixShares(shares: seq<Share>)
    requires shares != []
    ensures forall j, m :: 1 <= j <= |shares| ==>
              ShareOf(shares[..j], m)
              == (if shares[0].member == m then shares[0].points else 0) + ShareOf(shares[1..][..j - 1], m)
  {
    forall j, m | 1 <= j <= |shares|
      ensures ShareOf(shares[..j], m)
              == (if shares[0].member == m then shares[0].points else 0) + ShareOf(shares[1..][..j - 1], m)
    {
      assert shares[..j][1..] == shares[1..][..j - 1];
    }
  }

  /** The first share fails the check when its row is missing or short. */
  lemma FirstUncovered(s: Store, y: int, shares: seq<Share>)
    requires shares != []
    requires RegularOf(shares[0].member, y) !in s || s[RegularOf(shares[0].member, y)] < shares[0].points
    ensures !CoveredBefore(s, y, shares, |shares|)
    ensures CoveredBefore(s, y, shares, 0)
    ensures Available(s, RegularOf(shares[0].member, y)) - ShareOf(shares[..0], shares[0].member)
            == if RegularOf(shares[0].member, y) in s then s[RegularOf(shares[0].member, y)] else 0
  {
    assert shares[..0] == [];
  }

  /** Prefix coverage after paying the first share, restated for the remaining shares. */
  lemma CoveredShift(s: Store, s': Store, y: int, shares: seq<Share>, row: Bucket)
    requires |shares| > 0 && row == RegularOf(shares[0].member, y)
    requires row in s && s[row] >= shares[0].points && s' == s[row := s[row] - shares[0].points]
    requires forall j, m :: 1 <= j <= |shares| ==>
               ShareOf(shares[..j], m)
               == (if shares[0].member == m then shares[0].points else 0) + ShareOf(shares[1..][..j - 1], m)
    ensures forall i :: 1 <= i <= |shares| ==>
              (CoveredBefore(s, y, shares, i) <==> CoveredBefore(s', y, shares[1..], i - 1))
    ensures forall i :: 0 <= i < |shares| - 1 ==>
              Available(s', RegularOf(shares[1..][i].member, y)) - ShareOf(shares[1..][..i], shares[1..][i].member)
              == Available(s, RegularOf(shares[1..][i].member, y)) - ShareOf(shares[..i + 1], shares[1..][i].member)
  {
    var rest := shares[1..];
    forall i | 1 <= i <= |shares|
      ensures CoveredBefore(s, y, shares, i) <==> CoveredBefore(s', y, rest, i - 1)
    {
      if CoveredBefore(s, y, shares, i) {
        forall j | 0 <= j < i - 1
          ensures RegularOf(rest[j].member, y) in s'
            && s'[RegularOf(rest[j].member, y)] - ShareOf(rest[..j], rest[j].member) >= rest[j].points
        {
          assert shares[j + 1] == rest[j];
        }
      }
      if CoveredBefore(s', y, rest, i - 1) {
        forall j | 0 <= j < i
          ensures RegularOf(shares[j].member, y) in s
            && s[RegularOf(shares[j].member, y)] - ShareOf(shares[..j], shares[j].member) >= shares[j].points
        {
          if j == 0 {
            assert shares[..0] == [];
          } else {
            assert shares[j] == rest[j - 1];
          }
        }
      }
    }
  }

  /** The refund loop of undoing a booking: each share's member gets the share back on the
    * regular row for `y`, which is created with 0 points when missing. */
  function RefundShares(s: Store, y: int, shares: seq<Share>): (r: Store)
    ensures r.Keys == s.Keys + ShareRows(shares, y)
    ensures forall b :: b in r ==> r[b] == Available(s, b) + Charged(shares, y, b)
    decreases |shares|
  {
    if shares == [] then s
    else
      var row := RegularOf(shares[0].member, y);
      var r := RefundShares(Credit(s, row, shares[0].points), y, shares[1..]);
      ShareRowsCons(shares, y);
      r
  }

  lemma ShareRowsCons(shares: seq<Share>, y: int)
    requires shares != []
    ensures ShareRows(shares, y) == {RegularOf(shares[0].member, y)} + ShareRows(shares[1..], y)
  {
    forall b | b in ShareRows(shares, y) ensures b in {RegularOf(shares[0].member, y)} + ShareRows(shares[1..], y) {
      var i :| 0 <= i < |shares| && b == RegularOf(shares[i].member, y);
      if i > 0 { assert shares[1..][i - 1] == shares[i]; }
    }
    forall b | b in ShareRows(shares[1..], y) ensures b in ShareRows(shares, y) {
      var i :| 0 <= i < |shares[1..]| && b == RegularOf(shares[1..][i].member, y);
      assert shares[i + 1] == shares[1..][i];
    }
  }

  /** The refund of the "stay_created" undo branch: only rows that exist get their share back;
    * a missing row is skipped and not created. */
  function RefundExistingShares(s: Store, y: int, shares: seq<Share>): (r: Store)
    ensures r.Keys == s.Keys
    ensures forall b :: b in s ==> r[b] == s[b] + Charged(shares, y, b)
    decreases |shares|
  {
    if shares == [] then s
    else
      var row := RegularOf(shares[0].member, y);
      var next := if row in s then s[row := s[row] + shares[0].points] else s;
      RefundExistingShares(next, y, shares[1..])
  }

  /** Booking a stay and then undoing the booking leaves every row as it was: a successful
    * booking found every member's row, so the refund creates none and gives back exactly what
    * was taken. */
  lemma BookThenRefund(s: Store, y: int, shares: seq<Share>)
    requires DeductShares(s, y, shares).Ok?
    ensures RefundShares(DeductShares(s, y, shares).value, y, shares) == s
  {
    var t := DeductShares(s, y, shares).value;
    DeductSharesOutcome(s, y, shares);
    assert ShareRows(shares, y) <= s.Keys;
    var r := RefundShares(t, y, shares);
    assert r.Keys == s.Keys;
    forall b | b in s ensures r[b] == s[b] {
    }
  }

  /** A booking charges nothing to a row other than the members' regular rows for `y`. */
  lemma DeductSharesElsewhere(s: Store, y: int, shares: seq<Share>, b: Bucket)
    requires DeductShares(s, y, shares).Ok? && b in s
    requires b.kind == Banked || b.useYear != y
    ensures DeductShares(s, y, shares).value[b] == s[b]
  {
  }

  /** With non-negative shares and rows, a successful booking leaves every row non-negative: the
    * running check never lets a row drop below 0. */
  lemma {:induction false} DeductSharesNonNegative(s: Store, y: int, shares: seq<Share>)
    requires NonNegative(s)
    requires DeductShares(s, y, shares).Ok?
    ensures NonNegative(DeductShares(s, y, shares).value)
    decreases |shares|
  {
    if shares != [] {
      var row := RegularOf(shares[0].member, y);
      DeductSharesNonNegative(s[row := s[row] - shares[0].points], y, shares[1..]);
    }
  }

  /** `validate_member_points` (for a regular row) agrees with the booking check for one
    * positive share in use year 2024; for a share of 0 or less it accepts a member that has no
    * row, which booking rejects. */
  lemma ValidateAgreesWithBooking(s: Store, m: MemberId, p: int)
    ensures p > 0 ==> (ValidateMemberPoints(s, m, p, false) <==> DeductShares(s, 2024, [Share(m, p)]).Ok?)
    ensures p <= 0 && RegularOf(m, 2024) !in s ==>
              ValidateMemberPoints(s, m, p, false) && DeductShares(s, 2024, [Share(m, p)]).Err?
  {
  }

  /** One entry of the "shares" list of a new-stay request. A guest share names the members that
    * pay for the guest; the other kind names one member. */
  datatype ShareInput = ShareInput(
    isGuest: bool,
    memberId: Option<MemberId>,        // "member_id"
    points: Option<int>,               // "points"
    totalPoints: Option<int>,          // "total_points"
    memberPoints: Option<seq<Share>>)  // "member_points", in key order

  /** `share.get('points', share.get('total_points', 0))`. */
  function DeclaredPoints(si: ShareInput): int
  {
    if si.points.Some? then si.points.value
    else if si.totalPoints.Some? then si.totalPoints.value
    else 0
  }

  function DeclaredTotal(inputs: seq<ShareInput>): int
  {
    if inputs == [] then 0 else DeclaredPoints(inputs[0]) + DeclaredTotal(inputs[1..])
  }

  /** The stay_member rows one request share creates; `None` is the `KeyError` of a missing key. */
  function RowsOf(si: ShareInput): Option<seq<Share>>
  {
    if si.isGuest then si.memberPoints
    else if si.memberId.Some? && si.points.Some? then Some([Share(si.memberId.value, si.points.value)])
    else None
  }

  function RowsOfAll(inputs: seq<ShareInput>): (r: Option<seq<Share>>)
    ensures r.Some? <==> forall i :: 0 <= i < |inputs| ==> RowsOf(inputs[i]).Some?
  {
    if inputs == [] then Some([])
    else
      var head := RowsOf(inputs[0]);
      var tail := RowsOfAll(inputs[1..]);
      if head.Some? && tail.Some? then Some(head.value + tail.value)
      else
        assert head.None? || exists i :: 1 <= i < |inputs| && RowsOf(inputs[i]).None? by {
          if head.Some? {
            var i :| 0 <= i < |inputs[1..]| && RowsOf(inputs[1..][i]).None?;
            assert inputs[i + 1] == inputs[1..][i];
          }
        }
        None
  }

  /** `add_stay`: the shares' declared points must add up to the cost, else the "Point shares
    * must sum up to total points cost" response; then every share yields its stay_member rows,
    * in request order. */
  function NewStayShares(cost: int, inputs: seq<ShareInput>): (r: Result<seq<Share>>)
    ensures r.Ok? ==> DeclaredTotal(inputs) == cost
    ensures DeclaredTotal(inputs) != cost ==> r == Err(ShareMismatch)
    ensures r.Err? && DeclaredTotal(inputs) == cost ==>
              r == Err(MissingField) && exists i :: 0 <= i < |inputs| && RowsOf(inputs[i]).None?
  {
    if DeclaredTotal(inputs) != cost then Err(ShareMismatch)
    else match RowsOfAll(inputs)
      case None => Err(MissingField)
      case Some(rows) => Ok(rows)
  }

  /** The rows of a share input carry the points it declares: a member share its "points", a
    * guest share a "points" (or "total_points") equal to what its members pay. */
  predicate Consistent(si: ShareInput)
  {
    RowsOf(si).Some? && ShareTotal(RowsOf(si).value) == DeclaredPoints(si)
  }

  lemma {:induction false} ShareTotalAppend(a: seq<Share>, b: seq<Share>)
    ensures ShareTotal(a + b) == ShareTotal(a) + ShareTotal(b)
    decreases |a|
  {
    if a == [] {
      assert a + b == b;
    } else {
      assert (a + b)[1..] == a[1..] + b;
      ShareTotalAppend(a[1..], b);
    }
  }

  /** A new stay's stay_member rows add up to its cost when every guest share declares what its
    * members pay; the check itself only looks at the declared points, so a guest share whose
    * members pay a different total makes a stay whose rows do not add up to its cost. */
  lemma {:induction false} NewStaySharesAddUp(cost: int, inputs: seq<ShareInput>)
    requires NewStayShares(cost, inputs).Ok?
    requires forall i :: 0 <= i < |inputs| ==> Consistent(inputs[i])
    ensures ShareTotal(NewStayShares(cost, inputs).value) == cost
  {
    RowsTotal(inputs);
  }

  lemma {:induction false} RowsTotal(inputs: seq<ShareInput>)
    requires forall i :: 0 <= i < |inputs| ==> Consistent(inputs[i])
    ensures RowsOfAll(inputs).Some? && ShareTotal(RowsOfAll(inputs).value) == DeclaredTotal(inputs)
    decreases |inputs|
  {
    if inputs != [] {
      assert Consistent(inputs[0]);
      RowsTotal(inputs[1..]);
      ShareTotalAppend(RowsOf(inputs[0]).value, RowsOfAll(inputs[1..]).value);
    }
  }
}
