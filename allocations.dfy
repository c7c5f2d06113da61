/** The point_allocation table: one row per (member, use year, banked flag), and the moves of
  * points between rows that banking, loans, repayments and transfers make. */
module Allocations {
  import opened Common

  /** The `is_banked` flag of a row. */
  datatype Kind = Regular | Banked

  datatype Bucket = Bucket(member: MemberId, useYear: int, kind: Kind)

  /** The rows of the table. A bucket outside the domain has no row, which the routes treat
    * differently from a row holding 0. */
  type Store = map<Bucket, int>

  function RegularOf(m: MemberId, y: int): Bucket { Bucket(m, y, Regular) }
  function BankedOf(m: MemberId, y: int): Bucket { Bucket(m, y, Banked) }

  /** `row.points if row else 0`. */
  function Available(s: Store, b: Bucket): int {
    if b in s then s[b] else 0
  }

  /** Every row holds a non-negative number of points. */
  predicate NonNegative(s: Store) {
    forall b :: b in s ==> s[b] >= 0
  }

  /** Look the row up, create it with 0 points if it is missing, then add `p` to it. */
  function Credit(s: Store, b: Bucket, p: int): (r: Store)
    ensures r.Keys == s.Keys + {b}
    ensures r[b] == Available(s, b) + p
    ensures forall c :: c in s && c != b ==> r[c] == s[c]
  {
    s[b := Available(s, b) + p]
  }

  /** The row with 0 points added when it is missing: what a credit followed by an equal debit
    * leaves behind. */
  function WithRow(s: Store, b: Bucket): (r: Store)
    ensures r.Keys == s.Keys + {b}
    ensures forall c :: c in r ==> r[c] == Available(s, c)
  {
    s[b := Available(s, b)]
  }

  /** `validate_member_points`: whether the member's row for the hard-coded use year 2024 holds
    * at least `needed` points, a missing row counting as 0. No route calls it. */
  function ValidateMemberPoints(s: Store, member: MemberId, needed: int, banked: bool): (ok: bool)
    ensures ok <==> Available(s, Bucket(member, 2024, if banked then Banked else Regular)) >= needed
  {
    var row := Bucket(member, 2024, if banked then Banked else Regular);
    var available := if row in s then s[row] else 0;
    available >= needed
  }

  /** The allocation update of `create_loan`, `repay_loan` and `transfer_points`: the source
    * member's regular row for `y` must exist and hold at least `p`; it loses `p`, and the
    * destination's regular row (created with 0 if missing) gains `p`. `None` is the error
    * response, after which nothing is committed. */
  function MoveRegular(s: Store, from: MemberId, to: MemberId, y: int, p: int): (r: Option<Store>)
    ensures r.Some? <==> RegularOf(from, y) in s && s[RegularOf(from, y)] >= p
  {
    var src := RegularOf(from, y);
    if src !in s || s[src] < p then None
    else
      var afterDebit := s[src := s[src] - p];
      Some(Credit(afterDebit, RegularOf(to, y), p))
  }

  /** A successful move takes `p` from the source, gives `p` to the destination and touches no
    * other row, so the two members' combined regular points for the year are conserved. */
  lemma MoveRegularEffect(s: Store, from: MemberId, to: MemberId, y: int, p: int)
    requires MoveRegular(s, from, to, y, p).Some?
    ensures var r := MoveRegular(s, from, to, y, p).value;
      && r.Keys == s.Keys + {RegularOf(to, y)}
      && (from != to ==> r[RegularOf(from, y)] == s[RegularOf(from, y)] - p)
      && (from != to ==> r[RegularOf(to, y)] == Available(s, RegularOf(to, y)) + p)
      && (from == to ==> r == s)
      && Available(r, RegularOf(from, y)) + Available(r, RegularOf(to, y))
         == Available(s, RegularOf(from, y)) + Available(s, RegularOf(to, y))
      && forall b :: b in s && b != RegularOf(from, y) && b != RegularOf(to, y) ==> r[b] == s[b]
  {
    var r := MoveRegular(s, from, to, y, p).value;
    if from == to {
      assert r == s;
    }
  }

  /** Moving a non-negative amount keeps every row non-negative. */
  lemma MoveRegularNonNegative(s: Store, from: MemberId, to: MemberId, y: int, p: int)
    requires NonNegative(s) && p >= 0
    requires MoveRegular(s, from, to, y, p).Some?
    ensures NonNegative(MoveRegular(s, from, to, y, p).value)
  {
  }

  /** Moving the same amount back (a repayment of a loan) restores every row; the only trace
    * left is a 0 row for the destination when it had none. */
  lemma MoveRegularBack(s: Store, from: MemberId, to: MemberId, y: int, p: int)
    requires MoveRegular(s, from, to, y, p).Some?
    requires Available(s, RegularOf(to, y)) >= 0
    ensures MoveRegular(MoveRegular(s, from, to, y, p).value, to, from, y, p)
            == Some(WithRow(s, RegularOf(to, y)))
  {
    var r := MoveRegular(s, from, to, y, p).value;
    var back := MoveRegular(r, to, from, y, p);
    assert back.Some?;
    if from != to {
      assert back.value == WithRow(s, RegularOf(to, y));
    } else {
      assert back.value == s == WithRow(s, RegularOf(to, y));
    }
  }

  /** The allocation update of `bank_points`: with a regular row for `y` holding at least `p`,
    * `p` points go from it to the banked row (created with 0 if missing). `None` is the
    * "Invalid points amount" response, after which nothing, not even the banked row, is kept. */
  function BankMove(s: Store, m: MemberId, y: int, p: int): (r: Option<Store>)
    ensures r.Some? <==> RegularOf(m, y) in s && p <= s[RegularOf(m, y)]
  {
    var reg := RegularOf(m, y);
    if reg in s && p <= s[reg] then
      Some(Credit(s[reg := s[reg] - p], BankedOf(m, y), p))
    else None
  }

  /** Banking conserves the member's regular plus banked points for the year and touches no
    * other row. */
  lemma BankMoveEffect(s: Store, m: MemberId, y: int, p: int)
    requires BankMove(s, m, y, p).Some?
    ensures var r := BankMove(s, m, y, p).value;
      && r.Keys == s.Keys + {BankedOf(m, y)}
      && r[RegularOf(m, y)] == s[RegularOf(m, y)] - p
      && r[BankedOf(m, y)] == Available(s, BankedOf(m, y)) + p
      && r[RegularOf(m, y)] + r[BankedOf(m, y)]
         == Available(s, RegularOf(m, y)) + Available(s, BankedOf(m, y))
      && forall b :: b in s && b != RegularOf(m, y) && b != BankedOf(m, y) ==> r[b] == s[b]
  {
  }

  /** Banking a non-negative amount keeps every row non-negative. */
  lemma BankMoveNonNegative(s: Store, m: MemberId, y: int, p: int)
    requires NonNegative(s) && p >= 0
    requires BankMove(s, m, y, p).Some?
    ensures NonNegative(BankMove(s, m, y, p).value)
  {
  }

  /** The allocation update of undoing a banking: with the banked row for `y` present and
    * holding at least `p`, `p` points go back to the regular row (created with 0 if missing).
    * `None` is the "Not enough banked points" response. */
  function UnbankMove(s: Store, m: MemberId, y: int, p: int): (r: Option<Store>)
    requires BankedOf(m, y) in s
    ensures r.Some? <==> s[BankedOf(m, y)] >= p
  {
    var banked := BankedOf(m, y);
    if s[banked] < p then None
    else Some(Credit(s, RegularOf(m, y), p)[banked := s[banked] - p])
  }

  /** Undoing a banking of `p` from the same use year restores every row; a banked row that
    * was created by the banking stays, holding 0. */
  lemma BankThenUnbank(s: Store, m: MemberId, y: int, p: int)
    requires BankMove(s, m, y, p).Some?
    requires Available(s, BankedOf(m, y)) >= 0
    ensures BankedOf(m, y) in BankMove(s, m, y, p).value
    ensures UnbankMove(BankMove(s, m, y, p).value, m, y, p) == Some(WithRow(s, BankedOf(m, y)))
  {
    var r := BankMove(s, m, y, p).value;
    var back := UnbankMove(r, m, y, p);
    assert back.Some?;
    assert back.value == WithRow(s, BankedOf(m, y));
  }

  /** Undoing against another use year leaves the banked year's rows as the banking left them. */
  lemma UnbankOtherYear(s: Store, m: MemberId, y: int, other: int, p: int)
    requires other != y && BankedOf(m, other) in s
    requires UnbankMove(s, m, other, p).Some?
    ensures var r := UnbankMove(s, m, other, p).value;
      Available(r, RegularOf(m, y)) == Available(s, RegularOf(m, y))
      && Available(r, BankedOf(m, y)) == Available(s, BankedOf(m, y))
  {
  }
}
