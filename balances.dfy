/** The point_balance table: the signed row a transfer records, and the per-pair, per-year totals
  * the balances page reads back (the `group_by`/`having` query). */
module Balances {
  import opened Common

  /** A point_balance row, and also one line of the grouped query (then `points` is the pair's
    * total for the year). The reader takes a positive `points` to mean that `member2` owes
    * `member1`, and a negative one that `member1` owes `member2`. */
  datatype BalanceRow = BalanceRow(member1: MemberId, member2: MemberId, useYear: int, points: int)

  /** The row `transfer_points` records for `points` going from `from` to `to`: the lower id
    * first, holding `-points` when that is the giver and `points` otherwise. */
  function TransferRow(from: MemberId, to: MemberId, useYear: int, points: int): (r: BalanceRow)
    ensures r.member1 <= r.member2 && r.useYear == useYear
    ensures (r.member1 == from && r.member2 == to) || (r.member1 == to && r.member2 == from)
  {
    if from < to then BalanceRow(from, to, useYear, -points)
    else BalanceRow(to, from, useYear, points)
  }

  /** What a row adds to member `x`'s position, the points `x` owes minus the points `x` is owed
    * as the reader interprets the row. */
  function RowPos(r: BalanceRow, x: MemberId): int
  {
    (if r.member2 == x then r.points else 0) - (if r.member1 == x then r.points else 0)
  }

  /** A transfer row puts `points` on the giver's side and takes them off the recipient's: the
    * reader therefore counts the giver as owing the recipient. A transfer to oneself counts for
    * nothing. */
  lemma TransferRowPosition(from: MemberId, to: MemberId, useYear: int, points: int, x: MemberId)
    ensures RowPos(TransferRow(from, to, useYear, points), x)
            == (if from == x then points else 0) - (if to == x then points else 0)
  {
  }

  /** The sum of `RowPos` over the rows of use year `y`. */
  function YearPos(rows: seq<BalanceRow>, y: int, x: MemberId): int
  {
    if rows == [] then 0
    else YearPos(rows[..|rows| - 1], y, x)
         + (if rows[|rows| - 1].useYear == y then RowPos(rows[|rows| - 1], x) else 0)
  }

  lemma {:induction false} YearPosAppend(a: seq<BalanceRow>, b: seq<BalanceRow>, y: int, x: MemberId)
    ensures YearPos(a + b, y, x) == YearPos(a, y, x) + YearPos(b, y, x)
    decreases |b|
  {
    if b == [] {
      assert a + b == a;
    } else {
      assert (a + b)[..|a + b| - 1] == a + b[..|b| - 1];
      YearPosAppend(a, b[..|b| - 1], y, x);
    }
  }

  /** Every row stores the lower member id first, as `transfer_points` writes them. */
  predicate Canonical(rows: seq<BalanceRow>)
  {
    forall i :: 0 <= i < |rows| ==> rows[i].member1 <= rows[i].member2
  }

  predicate SameKey(a: BalanceRow, b: BalanceRow)
  {
    a.member1 == b.member1 && a.member2 == b.member2 && a.useYear == b.useYear
  }

  /** No two lines of a grouping share a (member1, member2, use_year) key. */
  predicate KeysDistinct(ts: seq<BalanceRow>)
  {
    forall i, j :: 0 <= i < j < |ts| ==> !SameKey(ts[i], ts[j])
  }

  /** One row added into a grouping: to the line with its key, or as a new last line. */
  function GroupAdd(ts: seq<BalanceRow>, r: BalanceRow): seq<BalanceRow>
  {
    if ts == [] then [r]
    else if SameKey(ts[0], r) then [ts[0].(points := ts[0].points + r.points)] + ts[1..]
    else [ts[0]] + GroupAdd(ts[1..], r)
  }

  /** Adding a row keeps the keys distinct, brings in no key but the row's, and adds the row's
    * contribution to every position. */
  lemma GroupAddProps(ts: seq<BalanceRow>, r: BalanceRow)
    ensures forall i :: 0 <= i < |GroupAdd(ts, r)| ==>
              (exists j :: 0 <= j < |ts| && SameKey(GroupAdd(ts, r)[i], ts[j])) || GroupAdd(ts, r)[i] == r
    ensures KeysDistinct(ts) ==> KeysDistinct(GroupAdd(ts, r))
    ensures forall y, x :: YearPos(GroupAdd(ts, r), y, x) == YearPos(ts, y, x) + (if r.useYear == y then RowPos(r, x) else 0)
  {
    GroupAddOrigin(ts, r);
    if KeysDistinct(ts) {
      GroupAddDistinct(ts, r);
    }
    forall y, x ensures YearPos(GroupAdd(ts, r), y, x) == YearPos(ts, y, x) + (if r.useYear == y then RowPos(r, x) else 0) {
      GroupAddPos(ts, r, y, x);
    }
  }

  lemma {:induction false} GroupAddOrigin(ts: seq<BalanceRow>, r: BalanceRow)
    ensures forall i :: 0 <= i < |GroupAdd(ts, r)| ==>
              (exists j :: 0 <= j < |ts| && SameKey(GroupAdd(ts, r)[i], ts[j])) || GroupAdd(ts, r)[i] == r
    decreases |ts|
  {
    var u := GroupAdd(ts, r);
    if ts == [] {
      assert u == [r];
    } else if SameKey(ts[0], r) {
      forall i | 0 <= i < |u| ensures exists j :: 0 <= j < |ts| && SameKey(u[i], ts[j]) {
        assert SameKey(u[i], ts[i]);
      }
    } else {
      var rest := GroupAdd(ts[1..], r);
      GroupAddOrigin(ts[1..], r);
      assert u == [ts[0]] + rest;
      forall i | 0 <= i < |u|
        ensures (exists j :: 0 <= j < |ts| && SameKey(u[i], ts[j])) || u[i] == r
      {
        if i == 0 {
          assert SameKey(u[0], ts[0]);
        } else if u[i] != r {
          assert u[i] == rest[i - 1];
          var j :| 0 <= j < |ts[1..]| && SameKey(rest[i - 1], ts[1..][j]);
          assert SameKey(u[i], ts[j + 1]);
        }
      }
    }
  }

  lemma {:induction false} GroupAddDistinct(ts: seq<BalanceRow>, r: BalanceRow)
    requires KeysDistinct(ts)
    ensures KeysDistinct(GroupAdd(ts, r))
    decreases |ts|
  {
    var u := GroupAdd(ts, r);
    if ts == [] {
      assert u == [r];
    } else if SameKey(ts[0], r) {
      forall i, j | 0 <= i < j < |u| ensures !SameKey(u[i], u[j]) {
        assert SameKey(u[i], ts[i]) && u[j] == ts[j];
      }
    } else {
      var rest := GroupAdd(ts[1..], r);
      assert KeysDistinct(ts[1..]) by {
        forall i, j | 0 <= i < j < |ts[1..]| ensures !SameKey(ts[1..][i], ts[1..][j]) {
          assert ts[1..][i] == ts[i + 1] && ts[1..][j] == ts[j + 1];
        }
      }
      GroupAddDistinct(ts[1..], r);
      GroupAddOrigin(ts[1..], r);
      assert u == [ts[0]] + rest;
      forall i, j | 0 <= i < j < |u| ensures !SameKey(u[i], u[j]) {
        if i == 0 {
          assert u[j] == rest[j - 1];
          if u[j] != r {
            var k :| 0 <= k < |ts[1..]| && SameKey(rest[j - 1], ts[1..][k]);
            assert ts[1..][k] == ts[k + 1];
          }
        } else {
          assert u[i] == rest[i - 1] && u[j] == rest[j - 1];
        }
      }
    }
  }

  lemma {:induction false} GroupAddPos(ts: seq<BalanceRow>, r: BalanceRow, y: int, x: MemberId)
    ensures YearPos(GroupAdd(ts, r), y, x) == YearPos(ts, y, x) + (if r.useYear == y then RowPos(r, x) else 0)
    decreases |ts|
  {
    var u := GroupAdd(ts, r);
    if ts == [] {
      assert u == [r];
      assert YearPos([r], y, x) == YearPos([], y, x) + (if r.useYear == y then RowPos(r, x) else 0);
    } else if SameKey(ts[0], r) {
      YearPosAppend([u[0]], ts[1..], y, x);
      YearPosAppend([ts[0]], ts[1..], y, x);
      assert [u[0]] + ts[1..] == u && [ts[0]] + ts[1..] == ts;
      assert YearPos([u[0]], y, x) == (if u[0].useYear == y then RowPos(u[0], x) else 0);
      assert YearPos([ts[0]], y, x) == (if ts[0].useYear == y then RowPos(ts[0], x) else 0);
    } else {
      var rest := GroupAdd(ts[1..], r);
      GroupAddPos(ts[1..], r, y, x);
      assert u == [ts[0]] + rest;
      YearPosAppend([ts[0]], rest, y, x);
      YearPosAppend([ts[0]], ts[1..], y, x);
      assert [ts[0]] + ts[1..] == ts;
    }
  }

  /** The rows summed per key, keys in order of first appearance. */
  function Group(rows: seq<BalanceRow>): seq<BalanceRow>
  {
    if rows == [] then [] else GroupAdd(Group(rows[..|rows| - 1]), rows[|rows| - 1])
  }

  lemma {:induction false} GroupProps(rows: seq<BalanceRow>)
    ensures KeysDistinct(Group(rows))
    ensures forall y, x :: YearPos(Group(rows), y, x) == YearPos(rows, y, x)
    ensures forall i :: 0 <= i < |Group(rows)| ==> exists j :: 0 <= j < |rows| && SameKey(Group(rows)[i], rows[j])
  {
    if rows != [] {
      var init := rows[..|rows| - 1];
      var prev := Group(init);
      GroupProps(init);
      GroupAddProps(prev, rows[|rows| - 1]);
      var ts := Group(rows);
      forall i | 0 <= i < |ts| ensures exists j :: 0 <= j < |rows| && SameKey(ts[i], rows[j]) {
        if ts[i] == rows[|rows| - 1] {
          assert SameKey(ts[i], rows[|rows| - 1]);
        } else {
          var k :| 0 <= k < |prev| && SameKey(ts[i], prev[k]);
          var j :| 0 <= j < |init| && SameKey(prev[k], init[j]);
          assert SameKey(ts[i], rows[j]);
        }
      }
    }
  }

  /** The lines whose total is not 0 (`having sum(points) != 0`). */
  function NonZero(ts: seq<BalanceRow>): (u: seq<BalanceRow>)
    ensures forall i :: 0 <= i < |u| ==> u[i].points != 0
  {
    if ts == [] then []
    else if ts[|ts| - 1].points != 0 then NonZero(ts[..|ts| - 1]) + [ts[|ts| - 1]]
    else NonZero(ts[..|ts| - 1])
  }

  lemma {:induction false} NonZeroProps(ts: seq<BalanceRow>)
    ensures forall i :: 0 <= i < |NonZero(ts)| ==> exists j :: 0 <= j < |ts| && NonZero(ts)[i] == ts[j]
    ensures KeysDistinct(ts) ==> KeysDistinct(NonZero(ts))
    ensures forall y, x :: YearPos(NonZero(ts), y, x) == YearPos(ts, y, x)
  {
    if ts != [] {
      var init := ts[..|ts| - 1];
      var prev := NonZero(init);
      NonZeroProps(init);
      var last := ts[|ts| - 1];
      var u := NonZero(ts);
      forall i | 0 <= i < |u| ensures exists j :: 0 <= j < |ts| && u[i] == ts[j] {
        if i < |prev| {
          assert exists j :: 0 <= j < |init| && prev[i] == init[j];
          var j :| 0 <= j < |init| && prev[i] == init[j];
          assert u[i] == ts[j];
        } else {
          assert u[i] == ts[|ts| - 1];
        }
      }
      if KeysDistinct(ts) {
        forall i, j | 0 <= i < j < |init| ensures !SameKey(init[i], init[j]) {
          assert init[i] == ts[i] && init[j] == ts[j];
        }
        if last.points == 0 {
          assert u == prev;
        }
      }
      if KeysDistinct(ts) && last.points != 0 {
        forall i, j | 0 <= i < j < |u| ensures !SameKey(u[i], u[j]) {
          var k :| 0 <= k < |init| && prev[i] == init[k];
          if j == |prev| {
            assert u[j] == ts[|ts| - 1] && u[i] == ts[k];
          } else {
            assert u[i] == prev[i] && u[j] == prev[j];
          }
        }
      }
      if last.points != 0 {
        assert u[..|u| - 1] == prev;
      }
    } else {
      assert NonZero(ts) == [];
    }
  }

  /** What the grouped query returns: every (member1, member2, use_year) total that is not 0. */
  function GroupTotals(rows: seq<BalanceRow>): (ts: seq<BalanceRow>)
    ensures forall i :: 0 <= i < |ts| ==> ts[i].points != 0
  {
    NonZero(Group(rows))
  }

  /** The grouped query returns each key once, only keys that occur in the rows, and totals
    * that leave every member's position in every year as the rows give it; canonical rows give
    * canonical lines. */
  lemma GroupTotalsProps(rows: seq<BalanceRow>)
    ensures KeysDistinct(GroupTotals(rows))
    ensures forall i :: 0 <= i < |GroupTotals(rows)| ==>
              exists j :: 0 <= j < |rows| && SameKey(GroupTotals(rows)[i], rows[j])
    ensures forall y, x :: YearPos(GroupTotals(rows), y, x) == YearPos(rows, y, x)
    ensures Canonical(rows) ==> Canonical(GroupTotals(rows))
  {
    var g := Group(rows);
    GroupProps(rows);
    NonZeroProps(g);
    var ts := GroupTotals(rows);
    forall i | 0 <= i < |ts| ensures exists j :: 0 <= j < |rows| && SameKey(ts[i], rows[j]) {
      var k :| 0 <= k < |g| && ts[i] == g[k];
      var j :| 0 <= j < |rows| && SameKey(g[k], rows[j]);
      assert SameKey(ts[i], rows[j]);
    }
    if Canonical(rows) {
      forall i | 0 <= i < |ts| ensures ts[i].member1 <= ts[i].member2 {
        var j :| 0 <= j < |rows| && SameKey(ts[i], rows[j]);
      }
    }
  }

  // ---- Totals per key ----

  /** `sum(points)` over the rows with `k`'s (member1, member2, use_year) key. */
  function KeySum(rows: seq<BalanceRow>, k: BalanceRow): int
  {
    if rows == [] then 0
    else KeySum(rows[..|rows| - 1], k) + (if SameKey(rows[|rows| - 1], k) then rows[|rows| - 1].points else 0)
  }

  lemma {:induction false} KeySumAppend(a: seq<BalanceRow>, b: seq<BalanceRow>, k: BalanceRow)
    ensures KeySum(a + b, k) == KeySum(a, k) + KeySum(b, k)
    decreases |b|
  {
    if b == [] {
      assert a + b == a;
    } else {
      assert (a + b)[..|a + b| - 1] == a + b[..|b| - 1];
      KeySumAppend(a, b[..|b| - 1], k);
    }
  }

  lemma {:induction false} GroupAddSum(ts: seq<BalanceRow>, r: BalanceRow, k: BalanceRow)
    ensures KeySum(GroupAdd(ts, r), k) == KeySum(ts, k) + (if SameKey(r, k) then r.points else 0)
    decreases |ts|
  {
    var u := GroupAdd(ts, r);
    if ts == [] {
      assert u == [r];
      assert KeySum([r], k) == KeySum([], k) + (if SameKey(r, k) then r.points else 0);
    } else if SameKey(ts[0], r) {
      KeySumAppend([u[0]], ts[1..], k);
      KeySumAppend([ts[0]], ts[1..], k);
      assert [u[0]] + ts[1..] == u && [ts[0]] + ts[1..] == ts;
      assert KeySum([u[0]], k) == (if SameKey(u[0], k) then u[0].points else 0);
      assert KeySum([ts[0]], k) == (if SameKey(ts[0], k) then ts[0].points else 0);
    } else {
      var rest := GroupAdd(ts[1..], r);
      GroupAddSum(ts[1..], r, k);
      assert u == [ts[0]] + rest;
      KeySumAppend([ts[0]], rest, k);
      KeySumAppend([ts[0]], ts[1..], k);
      assert [ts[0]] + ts[1..] == ts;
    }
  }

  lemma {:induction false} GroupSum(rows: seq<BalanceRow>, k: BalanceRow)
    ensures KeySum(Group(rows), k) == KeySum(rows, k)
  {
    if rows != [] {
      GroupSum(rows[..|rows| - 1], k);
      GroupAddSum(Group(rows[..|rows| - 1]), rows[|rows| - 1], k);
    }
  }

  lemma {:induction false} NonZeroSum(ts: seq<BalanceRow>, k: BalanceRow)
    ensures KeySum(NonZero(ts), k) == KeySum(ts, k)
  {
    if ts != [] {
      var prev := NonZero(ts[..|ts| - 1]);
      NonZeroSum(ts[..|ts| - 1], k);
      if ts[|ts| - 1].points != 0 {
        assert (prev + [ts[|ts| - 1]])[..|prev|] == prev;
      }
    }
  }

  lemma {:induction false} KeySumAbsent(ts: seq<BalanceRow>, k: BalanceRow)
    requires forall i :: 0 <= i < |ts| ==> !SameKey(ts[i], k)
    ensures KeySum(ts, k) == 0
  {
    if ts != [] {
      KeySumAbsent(ts[..|ts| - 1], k);
    }
  }

  lemma {:induction false} KeySumListed(ts: seq<BalanceRow>, k: BalanceRow)
    requires KeySum(ts, k) != 0
    ensures exists i :: 0 <= i < |ts| && SameKey(ts[i], k)
  {
    var init := ts[..|ts| - 1];
    if !SameKey(ts[|ts| - 1], k) {
      KeySumListed(init, k);
      var i :| 0 <= i < |init| && SameKey(init[i], k);
      assert ts[i] == init[i];
    }
  }

  /** In a grouping with distinct keys, a line's key sums to the line's own points. */
  lemma {:induction false} KeySumDistinct(ts: seq<BalanceRow>, i: nat)
    requires KeysDistinct(ts) && i < |ts|
    ensures KeySum(ts, ts[i]) == ts[i].points
  {
    var init := ts[..|ts| - 1];
    if i == |ts| - 1 {
      forall m | 0 <= m < |init| ensures !SameKey(init[m], ts[i]) {
        assert init[m] == ts[m];
      }
      KeySumAbsent(init, ts[i]);
    } else {
      assert !SameKey(ts[i], ts[|ts| - 1]);
      forall a, b | 0 <= a < b < |init| ensures !SameKey(init[a], init[b]) {
        assert init[a] == ts[a] && init[b] == ts[b];
      }
      KeySumDistinct(init, i);
      assert init[i] == ts[i];
    }
  }

  lemma GroupTotalsSumAt(rows: seq<BalanceRow>, k: BalanceRow)
    ensures KeySum(GroupTotals(rows), k) == KeySum(rows, k)
  {
    GroupSum(rows, k);
    NonZeroSum(Group(rows), k);
  }

  /** Each listed line carries the sum of the points of its key's rows, and every key of the
    * rows whose sum is not 0 is listed. */
  lemma GroupTotalsSums(rows: seq<BalanceRow>)
    ensures forall i :: 0 <= i < |GroupTotals(rows)| ==> GroupTotals(rows)[i].points == KeySum(rows, GroupTotals(rows)[i])
    ensures forall j :: 0 <= j < |rows| && KeySum(rows, rows[j]) != 0 ==>
              exists i :: 0 <= i < |GroupTotals(rows)| && SameKey(GroupTotals(rows)[i], rows[j])
  {
    var ts := GroupTotals(rows);
    GroupTotalsProps(rows);
    forall i | 0 <= i < |ts| ensures ts[i].points == KeySum(rows, ts[i]) {
      GroupTotalsSumAt(rows, ts[i]);
      KeySumDistinct(ts, i);
    }
    forall j | 0 <= j < |rows| && KeySum(rows, rows[j]) != 0
      ensures exists i :: 0 <= i < |ts| && SameKey(ts[i], rows[j])
    {
      GroupTotalsSumAt(rows, rows[j]);
      KeySumListed(ts, rows[j]);
    }
  }
}
