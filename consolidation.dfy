/** The balances page: the grouped per-pair totals turned into one debt graph per use year, each
  * graph settled by collapsing chains, and the remaining debts listed by year and amount. */
module Consolidation {
  import opened Common
  import opened Balances
  import opened DebtGraph

  // ---- Building a year's graph ----

  /** `if m not in graph: graph[m] = {}`. */
  function AddNode(g: Graph, n: MemberId): (h: Graph)
    ensures n in h.adj
  {
    if n in g.adj then g else Graph(g.order + [n], g.adj[n := []])
  }

  /** Who owes whom on one line of the grouped totals: a positive total makes `member2` owe
    * `member1` the total, any other one makes `member1` owe `member2` its negation. */
  function Debtor(t: BalanceRow): MemberId { if t.points > 0 then t.member2 else t.member1 }
  function Creditor(t: BalanceRow): MemberId { if t.points > 0 then t.member1 else t.member2 }
  function Owed(t: BalanceRow): int { if t.points > 0 then t.points else -t.points }

  /** One line of the grouped totals entered into its year's graph: both members become keys,
    * then the debtor's entry for the creditor is set. */
  function AddTotal(g: Graph, t: BalanceRow): Graph
  {
    var g1 := AddNode(AddNode(g, t.member1), t.member2);
    WithDebts(g1, Debtor(t), SetDebt(Debts(g1, Debtor(t)), Creditor(t), Owed(t)))
  }

  /** `balance_graph[y]` after the loop over the grouped totals `ts`. */
  function BuildGraph(ts: seq<BalanceRow>, y: int): Graph
  {
    if ts == [] then Empty
    else if ts[|ts| - 1].useYear == y then AddTotal(BuildGraph(ts[..|ts| - 1], y), ts[|ts| - 1])
    else BuildGraph(ts[..|ts| - 1], y)
  }

  /** The keys of `balance_graph`: the use years in order of first appearance. */
  function YearsOf(ts: seq<BalanceRow>): (ys: seq<int>)
    ensures NoDuplicates(ys)
    ensures forall y :: y in ys <==> exists i :: 0 <= i < |ts| && ts[i].useYear == y
  {
    if ts == [] then []
    else
      var prev := YearsOf(ts[..|ts| - 1]);
      var y := ts[|ts| - 1].useYear;
      if y in prev then prev
      else
        assert (prev + [y])[..|prev + [y]| - 1] == prev;
        prev + [y]
  }

  /** Line `t` is about the pair `a`, `b`, in either order. */
  predicate Joins(t: BalanceRow, a: MemberId, b: MemberId)
  {
    (t.member1 == a && t.member2 == b) || (t.member1 == b && t.member2 == a)
  }

  /** No two lines of use year `y` are about the same pair of members. */
  ghost predicate PairsDistinct(ts: seq<BalanceRow>, y: int)
  {
    forall i, j :: 0 <= i < j < |ts| && ts[i].useYear == y && ts[j].useYear == y ==>
      !Joins(ts[j], ts[i].member1, ts[i].member2)
  }

  predicate AllNonZero(ts: seq<BalanceRow>)
  {
    forall i :: 0 <= i < |ts| ==> ts[i].points != 0
  }

  /** Grouped totals of canonical rows name each pair once per year. */
  lemma CanonicalPairsDistinct(ts: seq<BalanceRow>, y: int)
    requires KeysDistinct(ts) && Canonical(ts)
    ensures PairsDistinct(ts, y)
  {
    forall i, j | 0 <= i < j < |ts| && ts[i].useYear == y && ts[j].useYear == y
      ensures !Joins(ts[j], ts[i].member1, ts[i].member2)
    {
      assert !SameKey(ts[i], ts[j]);
    }
  }

  /** The key order lists each key of the outer dict once. */
  ghost predicate KeysListed(g: Graph)
  {
    NoDuplicates(g.order) && forall n :: n in g.adj <==> n in g.order
  }

  /** A new key goes to the end of the key order, with an empty inner dict. */
  lemma AddNodeListed(g: Graph, n: MemberId)
    requires KeysListed(g)
    ensures KeysListed(AddNode(g, n))
    ensures forall k :: Debts(AddNode(g, n), k) == Debts(g, k)
  {
    if n !in g.adj {
      var h := AddNode(g, n);
      assert h.order[..|h.order| - 1] == g.order;
      assert h.order[|h.order| - 1] == n;
      forall k ensures Debts(h, k) == Debts(g, k) {
        if k != n {
          assert Entries(h.adj, k) == Entries(g.adj, k);
        }
      }
    }
  }

  lemma AddNodeProps(g: Graph, n: MemberId)
    requires WellFormed(g)
    ensures WellFormed(AddNode(g, n))
    ensures forall k :: Debts(AddNode(g, n), k) == Debts(g, k)
  {
    AddNodeListed(g, n);
    if n !in g.adj {
      var h := AddNode(g, n);
      forall k | k in h.adj ensures DistinctCreditors(h.adj[k]) && AllPositive(h.adj[k]) {
        assert h.adj[k] == Debts(h, k) == Debts(g, k);
      }
      forall k, c | k in h.adj && HasCreditor(h.adj[k], c) ensures c in h.adj {
        assert h.adj[k] == Debts(h, k) == Debts(g, k);
      }
    }
  }

  /** A new key with an empty inner dict changes no member's position. */
  lemma AddNodePositionAt(g: Graph, n: MemberId, x: MemberId)
    requires KeysListed(g)
    ensures Position(AddNode(g, n), x) == Position(g, x)
  {
    if n !in g.adj {
      var h := AddNode(g, n);
      assert h.order == g.order + [n];
      AppendOver(g.order, n, h.adj, x);
      UnchangedOver(g.order, g.adj, n, [], x);
    }
  }

  /** `graph[d][c] = a` for a positive `a` keeps a graph well-formed. */
  lemma SetWellFormed(g: Graph, d: MemberId, c: MemberId, a: int)
    requires WellFormed(g) && d in g.adj && c in g.adj && a > 0
    ensures WellFormed(WithDebts(g, d, SetDebt(g.adj[d], c, a)))
  {
    var h := WithDebts(g, d, SetDebt(g.adj[d], c, a));
    assert h.adj.Keys == g.adj.Keys;
  }

  /** A debt `d -> c` of amount `a` entered where `d` does not yet owe `c` moves `a` onto
    * `d`'s position and off `c`'s. */
  lemma SetPositionAt(g: Graph, d: MemberId, c: MemberId, a: int, x: MemberId)
    requires KeysListed(g) && d in g.adj && !HasCreditor(g.adj[d], c)
    ensures Position(WithDebts(g, d, SetDebt(g.adj[d], c, a)), x)
            == Position(g, x) + (if d == x then a else 0) - (if c == x then a else 0)
  {
    UpdateOver(g.order, g.adj, d, SetDebt(g.adj[d], c, a), x);
  }

  /** Entering a non-zero line whose pair has no debt yet adds the line to every position. */
  lemma AddTotalPosition(g: Graph, t: BalanceRow)
    requires KeysListed(g)
    requires !HasCreditor(Debts(g, t.member1), t.member2) && !HasCreditor(Debts(g, t.member2), t.member1)
    ensures KeysListed(AddTotal(g, t))
    ensures forall x :: Position(AddTotal(g, t), x) == Position(g, x) + RowPos(t, x)
  {
    AddTotalShape(g, t);
    forall x ensures Position(AddTotal(g, t), x) == Position(g, x) + RowPos(t, x) {
      AddTotalPositionAt(g, t, x);
    }
  }

  /** Entering a line is `graph[debtor][creditor] = amount` once both members are keys. */
  lemma AddTotalShape(g: Graph, t: BalanceRow)
    requires KeysListed(g)
    requires !HasCreditor(Debts(g, t.member1), t.member2) && !HasCreditor(Debts(g, t.member2), t.member1)
    ensures var g1 := AddNode(AddNode(g, t.member1), t.member2);
      && KeysListed(g1) && Debtor(t) in g1.adj && !HasCreditor(g1.adj[Debtor(t)], Creditor(t))
      && AddTotal(g, t) == WithDebts(g1, Debtor(t), SetDebt(g1.adj[Debtor(t)], Creditor(t), Owed(t)))
    ensures KeysListed(AddTotal(g, t))
  {
    var g0 := AddNode(g, t.member1);
    AddNodeListed(g, t.member1);
    var g1 := AddNode(g0, t.member2);
    AddNodeListed(g0, t.member2);
    var d := Debtor(t);
    assert d in g1.adj && Creditor(t) in g1.adj;
    assert Debts(g1, d) == g1.adj[d] == Debts(g, d);
    var h := WithDebts(g1, d, SetDebt(g1.adj[d], Creditor(t), Owed(t)));
    assert h.adj.Keys == g1.adj.Keys;
  }

  lemma AddTotalPositionAt(g: Graph, t: BalanceRow, x: MemberId)
    requires KeysListed(g)
    requires !HasCreditor(Debts(g, t.member1), t.member2) && !HasCreditor(Debts(g, t.member2), t.member1)
    ensures Position(AddTotal(g, t), x) == Position(g, x) + RowPos(t, x)
  {
    var g0 := AddNode(g, t.member1);
    AddNodeListed(g, t.member1);
    AddTotalShape(g, t);
    AddNodePositionAt(g, t.member1, x);
    AddNodePositionAt(g0, t.member2, x);
    SetPositionAt(AddNode(g0, t.member2), Debtor(t), Creditor(t), Owed(t), x);
    RowPosOwed(t, x);
  }

  /** A line moves its amount onto the debtor's position and off the creditor's. */
  lemma RowPosOwed(t: BalanceRow, x: MemberId)
    ensures RowPos(t, x) == (if Debtor(t) == x then Owed(t) else 0) - (if Creditor(t) == x then Owed(t) else 0)
  {
  }

  /** Entering a non-zero line keeps a graph well-formed. */
  lemma AddTotalWellFormed(g: Graph, t: BalanceRow)
    requires WellFormed(g) && t.points != 0
    ensures WellFormed(AddTotal(g, t))
  {
    var g0 := AddNode(g, t.member1);
    AddNodeProps(g, t.member1);
    var g1 := AddNode(g0, t.member2);
    AddNodeProps(g0, t.member2);
    assert Debtor(t) in g1.adj && Creditor(t) in g1.adj;
    assert Debts(g1, Debtor(t)) == g1.adj[Debtor(t)];
    SetWellFormed(g1, Debtor(t), Creditor(t), Owed(t));
  }

  /** Entering a line creates debts only between the line's two members. */
  lemma AddTotalLinks(g: Graph, t: BalanceRow)
    ensures forall a, b :: HasCreditor(Debts(AddTotal(g, t), a), b) ==> HasCreditor(Debts(g, a), b) || Joins(t, a, b)
  {
    var g1 := AddNode(AddNode(g, t.member1), t.member2);
    assert forall k :: Debts(g1, k) == Debts(g, k);
    var d, c, m := Debtor(t), Creditor(t), Owed(t);
    forall a, b | HasCreditor(Debts(AddTotal(g, t), a), b) ensures HasCreditor(Debts(g, a), b) || Joins(t, a, b) {
      if a == d {
        assert HasCreditor(Debts(g1, d), b) || b == c;
      } else {
        assert Debts(AddTotal(g, t), a) == Debts(g1, a);
      }
    }
  }

  /** The graph of a year is well-formed whatever the lines, as long as none is 0. */
  lemma {:induction false} BuildWellFormed(ts: seq<BalanceRow>, y: int)
    requires AllNonZero(ts)
    ensures WellFormed(BuildGraph(ts, y))
  {
    if ts != [] {
      var init := ts[..|ts| - 1];
      BuildWellFormed(init, y);
      var t := ts[|ts| - 1];
      if t.useYear == y {
        AddTotalWellFormed(BuildGraph(init, y), t);
      }
    }
  }

  /** When no pair appears twice in a year, the year's graph gives every member the position the
    * year's lines give them, and a debt only between two members some line joins. */
  lemma {:induction false} BuildProps(ts: seq<BalanceRow>, y: int)
    requires AllNonZero(ts) && PairsDistinct(ts, y)
    ensures WellFormed(BuildGraph(ts, y))
    ensures forall x :: Position(BuildGraph(ts, y), x) == YearPos(ts, y, x)
    ensures forall a, b :: HasCreditor(Debts(BuildGraph(ts, y), a), b) ==>
              exists i :: 0 <= i < |ts| && ts[i].useYear == y && Joins(ts[i], a, b)
  {
    if ts == [] {
      assert BuildGraph(ts, y) == Empty;
    } else {
      var init := ts[..|ts| - 1];
      var t := ts[|ts| - 1];
      var g := BuildGraph(init, y);
      assert PairsDistinct(init, y) by {
        forall i, j | 0 <= i < j < |init| && init[i].useYear == y && init[j].useYear == y
          ensures !Joins(init[j], init[i].member1, init[i].member2)
        {
          assert init[i] == ts[i] && init[j] == ts[j];
        }
      }
      BuildProps(init, y);
      if t.useYear == y {
        forall i | 0 <= i < |init| && init[i].useYear == y
          ensures !Joins(init[i], t.member1, t.member2) && !Joins(init[i], t.member2, t.member1)
        {
          assert ts[i] == init[i];
        }
        AddTotalWellFormed(g, t);
        AddTotalPosition(g, t);
        AddTotalLinks(g, t);
        forall a, b | HasCreditor(Debts(BuildGraph(ts, y), a), b)
          ensures exists i :: 0 <= i < |ts| && ts[i].useYear == y && Joins(ts[i], a, b)
        {
          if Joins(t, a, b) {
            assert ts[|ts| - 1] == t;
          } else {
            var i :| 0 <= i < |init| && init[i].useYear == y && Joins(init[i], a, b);
            assert ts[i] == init[i];
          }
        }
      } else {
        forall a, b | HasCreditor(Debts(g, a), b)
          ensures exists i :: 0 <= i < |ts| && ts[i].useYear == y && Joins(ts[i], a, b)
        {
          var i :| 0 <= i < |init| && init[i].useYear == y && Joins(init[i], a, b);
          assert ts[i] == init[i];
        }
      }
    }
  }

  // ---- Listing the debts ----

  /** One entry of `consolidated_balances`: `debtor` owes `creditor` `amount` points of
    * `useYear`. */
  datatype DebtBalance = DebtBalance(debtor: MemberId, creditor: MemberId, useYear: int, amount: int)

  /** The entries of `n`'s inner dict with a positive amount, in order. */
  function EmitFrom(n: MemberId, es: seq<Edge>, y: int): (bs: seq<DebtBalance>)
    ensures forall i :: 0 <= i < |bs| ==>
              bs[i].debtor == n && bs[i].useYear == y && bs[i].amount > 0 && HasCreditor(es, bs[i].creditor)
  {
    if es == [] then []
    else (if es[0].amount > 0 then [DebtBalance(n, es[0].creditor, y, es[0].amount)] else [])
         + EmitFrom(n, es[1..], y)
  }

  /** The debts of the members `ns`, debtor by debtor. */
  function EmitAll(g: Graph, ns: seq<MemberId>, y: int): (bs: seq<DebtBalance>)
    ensures forall i :: 0 <= i < |bs| ==>
              bs[i].debtor in ns && bs[i].useYear == y && bs[i].amount > 0
              && HasCreditor(Debts(g, bs[i].debtor), bs[i].creditor)
  {
    if ns == [] then []
    else
      var n := ns[|ns| - 1];
      var prev := EmitAll(g, ns[..|ns| - 1], y);
      var last := EmitFrom(n, Debts(g, n), y);
      assert forall i :: |prev| <= i < |prev + last| ==> (prev + last)[i] == last[i - |prev|];
      prev + last
  }

  /** Member `x`'s net position in the listed debts of use year `y`: owed by `x` minus owed to
    * `x`. */
  function BalancePos(bs: seq<DebtBalance>, y: int, x: MemberId): int
  {
    if bs == [] then 0
    else (if bs[0].useYear == y
          then (if bs[0].debtor == x then bs[0].amount else 0) - (if bs[0].creditor == x then bs[0].amount else 0)
          else 0)
         + BalancePos(bs[1..], y, x)
  }

  lemma {:induction false} BalancePosAppend(a: seq<DebtBalance>, b: seq<DebtBalance>, y: int, x: MemberId)
    ensures BalancePos(a + b, y, x) == BalancePos(a, y, x) + BalancePos(b, y, x)
    decreases |a|
  {
    if a == [] {
      assert a + b == b;
    } else {
      assert (a + b)[1..] == a[1..] + b;
      BalancePosAppend(a[1..], b, y, x);
    }
  }

  /** Listings of one use year say nothing about another. */
  lemma {:induction false} BalancePosOtherYear(bs: seq<DebtBalance>, y: int, x: MemberId)
    requires forall i :: 0 <= i < |bs| ==> bs[i].useYear != y
    ensures BalancePos(bs, y, x) == 0
    decreases |bs|
  {
    if bs != [] {
      BalancePosOtherYear(bs[1..], y, x);
    }
  }

  lemma {:induction false} EmitFromPos(n: MemberId, es: seq<Edge>, y: int, x: MemberId)
    requires AllPositive(es)
    ensures BalancePos(EmitFrom(n, es, y), y, x) == ListPos(n, es, x)
    decreases |es|
  {
    if es != [] {
      EmitFromPos(n, es[1..], y, x);
      var head := [DebtBalance(n, es[0].creditor, y, es[0].amount)];
      BalancePosAppend(head, EmitFrom(n, es[1..], y), y, x);
    }
  }

  /** Listing the debts of a well-formed graph keeps every position. */
  lemma {:induction false} EmitAllPos(g: Graph, ns: seq<MemberId>, y: int, x: MemberId)
    requires WellFormed(g)
    ensures BalancePos(EmitAll(g, ns, y), y, x) == PositionOver(ns, g.adj, x)
    decreases |ns|
  {
    if ns != [] {
      var n := ns[|ns| - 1];
      EmitAllPos(g, ns[..|ns| - 1], y, x);
      EmitFromPos(n, Debts(g, n), y, x);
      BalancePosAppend(EmitAll(g, ns[..|ns| - 1], y), EmitFrom(n, Debts(g, n), y), y, x);
    }
  }

  // ---- Sorting ----

  /** `a` sorts strictly before `b` under the key `(use_year, -total_balance)`. */
  predicate KeyBefore(a: DebtBalance, b: DebtBalance)
  {
    a.useYear < b.useYear || (a.useYear == b.useYear && a.amount > b.amount)
  }

  predicate Sorted(bs: seq<DebtBalance>)
  {
    forall i, j :: 0 <= i < j < |bs| ==> !KeyBefore(bs[j], bs[i])
  }

  /** `b` placed after every entry whose key is not greater than its own. */
  function Insert(s: seq<DebtBalance>, b: DebtBalance): (r: seq<DebtBalance>)
    ensures multiset(r) == multiset(s) + multiset{b}
  {
    if s == [] then [b]
    else if KeyBefore(b, s[0]) then [b] + s
    else
      assert s == [s[0]] + s[1..];
      [s[0]] + Insert(s[1..], b)
  }

  lemma {:induction false} InsertSorted(s: seq<DebtBalance>, b: DebtBalance)
    requires Sorted(s)
    ensures Sorted(Insert(s, b))
    decreases |s|
  {
    if s != [] && !KeyBefore(b, s[0]) {
      var rest := Insert(s[1..], b);
      InsertSorted(s[1..], b);
      var r := [s[0]] + rest;
      forall i | 0 <= i < |rest| ensures !KeyBefore(rest[i], s[0]) {
        InsertMember(s[1..], b, rest[i]);
        if rest[i] != b {
          SortedHeadFirst(s, rest[i]);
        }
      }
      forall i, j | 0 <= i < j < |r| ensures !KeyBefore(r[j], r[i]) {
        if i > 0 {
          assert r[i] == rest[i - 1] && r[j] == rest[j - 1];
        } else {
          assert r[j] == rest[j - 1];
        }
      }
    }
  }

  lemma InsertMember(s: seq<DebtBalance>, b: DebtBalance, e: DebtBalance)
    requires e in Insert(s, b)
    ensures e == b || e in s
  {
    assert e in multiset(Insert(s, b));
  }

  lemma SortedHeadFirst(s: seq<DebtBalance>, e: DebtBalance)
    requires Sorted(s) && s != [] && e in s[1..]
    ensures !KeyBefore(e, s[0])
  {
    var k :| 0 <= k < |s[1..]| && s[1..][k] == e;
    assert s[k + 1] == e;
  }

  /** `list.sort` with the key `(use_year, -total_balance)`, which is stable. */
  function SortBalances(bs: seq<DebtBalance>): (r: seq<DebtBalance>)
    ensures Sorted(r) && multiset(r) == multiset(bs)
  {
    if bs == [] then []
    else
      assert bs == bs[..|bs| - 1] + [bs[|bs| - 1]];
      InsertSorted(SortBalances(bs[..|bs| - 1]), bs[|bs| - 1]);
      Insert(SortBalances(bs[..|bs| - 1]), bs[|bs| - 1])
  }

  lemma {:induction false} InsertPos(s: seq<DebtBalance>, b: DebtBalance, y: int, x: MemberId)
    ensures BalancePos(Insert(s, b), y, x) == BalancePos(s, y, x) + BalancePos([b], y, x)
    decreases |s|
  {
    if s != [] && !KeyBefore(b, s[0]) {
      InsertPos(s[1..], b, y, x);
      assert ([s[0]] + Insert(s[1..], b))[1..] == Insert(s[1..], b);
    }
  }

  /** Sorting moves entries, so it leaves every position as it was. */
  lemma {:induction false} SortPos(bs: seq<DebtBalance>, y: int, x: MemberId)
    ensures BalancePos(SortBalances(bs), y, x) == BalancePos(bs, y, x)
    decreases |bs|
  {
    if bs != [] {
      SortPos(bs[..|bs| - 1], y, x);
      SortStep(bs);
      InsertKeepsPos(SortBalances(bs[..|bs| - 1]), bs, y, x);
    }
  }

  lemma InsertKeepsPos(s: seq<DebtBalance>, bs: seq<DebtBalance>, y: int, x: MemberId)
    requires bs != [] && BalancePos(s, y, x) == BalancePos(bs[..|bs| - 1], y, x)
    ensures BalancePos(Insert(s, bs[|bs| - 1]), y, x) == BalancePos(bs, y, x)
  {
    InsertPos(s, bs[|bs| - 1], y, x);
    BalancePosAppend(bs[..|bs| - 1], [bs[|bs| - 1]], y, x);
    assert bs[..|bs| - 1] + [bs[|bs| - 1]] == bs;
  }

  lemma SortStep(bs: seq<DebtBalance>)
    requires bs != []
    ensures SortBalances(bs) == Insert(SortBalances(bs[..|bs| - 1]), bs[|bs| - 1])
  {
  }

  // ---- The page ----

  /** The settled debts of use year `y`, listed debtor by debtor; self-debts are dropped before
    * settling and never written while settling. */
  function YearBalances(ts: seq<BalanceRow>, y: int): (bs: seq<DebtBalance>)
    requires AllNonZero(ts)
    ensures forall i :: 0 <= i < |bs| ==> bs[i].useYear == y && bs[i].amount > 0
  {
    BuildWellFormed(ts, y);
    DropSelfDebtsProps(BuildGraph(ts, y));
    var h := Settle(DropSelfDebts(BuildGraph(ts, y)));
    EmitAll(h, h.order, y)
  }

  /** The years' listings one after the other, in the order of `ys`. */
  function EmitYears(ts: seq<BalanceRow>, ys: seq<int>): (bs: seq<DebtBalance>)
    requires AllNonZero(ts)
    ensures forall i :: 0 <= i < |bs| ==> bs[i].useYear in ys && bs[i] in YearBalances(ts, bs[i].useYear)
  {
    if ys == [] then []
    else
      var prev := EmitYears(ts, ys[..|ys| - 1]);
      var last := YearBalances(ts, ys[|ys| - 1]);
      assert forall i :: |prev| <= i < |prev + last| ==> (prev + last)[i] == last[i - |prev|];
      prev + last
  }

  /** The consolidated balances of the page, for the point_balance rows `rows`. */
  function Consolidate(rows: seq<BalanceRow>): (bs: seq<DebtBalance>)
    ensures Sorted(bs)
  {
    var ts := GroupTotals(rows);
    SortBalances(EmitYears(ts, YearsOf(ts)))
  }

  /** A year's settled graph owes nothing to anyone who owes: no listed creditor is a listed
    * debtor, and so no one owes themselves. */
  lemma YearBalancesSettled(ts: seq<BalanceRow>, y: int)
    requires AllNonZero(ts)
    ensures forall i, j :: 0 <= i < |YearBalances(ts, y)| && 0 <= j < |YearBalances(ts, y)| ==>
              YearBalances(ts, y)[i].debtor != YearBalances(ts, y)[j].creditor
  {
    var g := BuildGraph(ts, y);
    BuildWellFormed(ts, y);
    DropSelfDebtsProps(g);
    var h := Settle(DropSelfDebts(g));
    SettleProps(DropSelfDebts(g));
    var bs := YearBalances(ts, y);
    forall i, j | 0 <= i < |bs| && 0 <= j < |bs| ensures bs[i].debtor != bs[j].creditor {
      assert HasCreditor(Debts(h, bs[j].debtor), bs[j].creditor);
      assert HasCreditor(Debts(h, bs[i].debtor), bs[i].creditor);
      assert bs[j].debtor in h.adj;
      assert Debts(h, bs[j].creditor) == [];
    }
  }

  /** Year `y`'s listing gives every member the position the year's graph gives them. */
  lemma YearBalancesPos(ts: seq<BalanceRow>, y: int, x: MemberId)
    requires AllNonZero(ts)
    ensures BalancePos(YearBalances(ts, y), y, x) == Position(BuildGraph(ts, y), x)
  {
    var g := BuildGraph(ts, y);
    BuildWellFormed(ts, y);
    DropSelfDebtsProps(g);
    var h := Settle(DropSelfDebts(g));
    SettleProps(DropSelfDebts(g));
    EmitAllPos(h, h.order, y, x);
  }

  lemma {:induction false} EmitYearsPos(ts: seq<BalanceRow>, ys: seq<int>, y: int, x: MemberId)
    requires AllNonZero(ts) && NoDuplicates(ys)
    ensures BalancePos(EmitYears(ts, ys), y, x) == if y in ys then Position(BuildGraph(ts, y), x) else 0
    decreases |ys|
  {
    if ys != [] {
      var init := ys[..|ys| - 1];
      var z := ys[|ys| - 1];
      EmitYearsPos(ts, init, y, x);
      BalancePosAppend(EmitYears(ts, init), YearBalances(ts, z), y, x);
      if z == y {
        YearBalancesPos(ts, y, x);
      } else {
        BalancePosOtherYear(YearBalances(ts, z), y, x);
      }
      assert y in ys <==> y in init || y == z;
    }
  }

  lemma {:induction false} YearPosAbsent(ts: seq<BalanceRow>, y: int, x: MemberId)
    requires forall i :: 0 <= i < |ts| ==> ts[i].useYear != y
    ensures YearPos(ts, y, x) == 0
    decreases |ts|
  {
    if ts != [] {
      YearPosAbsent(ts[..|ts| - 1], y, x);
    }
  }

  /** The consolidated balances of canonical rows (the only rows a transfer writes) give every
    * member, in every use year, the position the rows give them: consolidation changes who owes
    * whom, never how much anyone owes or is owed in total. */
  lemma ConsolidatePosition(rows: seq<BalanceRow>, y: int, x: MemberId)
    requires Canonical(rows)
    ensures BalancePos(Consolidate(rows), y, x) == YearPos(rows, y, x)
  {
    var ts := GroupTotals(rows);
    GroupTotalsProps(rows);
    var ys := YearsOf(ts);
    SortPos(EmitYears(ts, ys), y, x);
    EmitYearsPos(ts, ys, y, x);
    if y in ys {
      CanonicalPairsDistinct(ts, y);
      BuildProps(ts, y);
    } else {
      YearPosAbsent(ts, y, x);
    }
  }

  /** Every listed balance comes from the settled graph of its own use year. */
  lemma ConsolidateFrom(rows: seq<BalanceRow>)
    ensures forall i :: 0 <= i < |Consolidate(rows)| ==>
              Consolidate(rows)[i] in YearBalances(GroupTotals(rows), Consolidate(rows)[i].useYear)
  {
    var ts := GroupTotals(rows);
    var before := EmitYears(ts, YearsOf(ts));
    var bs := Consolidate(rows);
    assert multiset(bs) == multiset(before);
    forall i | 0 <= i < |bs| ensures bs[i] in YearBalances(ts, bs[i].useYear) {
      assert bs[i] in multiset(before);
    }
  }

  /** Only positive balances are listed. */
  lemma ConsolidatePositive(rows: seq<BalanceRow>)
    ensures forall i :: 0 <= i < |Consolidate(rows)| ==> Consolidate(rows)[i].amount > 0
  {
    ConsolidateFrom(rows);
    var ts := GroupTotals(rows);
    var bs := Consolidate(rows);
    forall i | 0 <= i < |bs| ensures bs[i].amount > 0 {
      ListedPositive(ts, bs[i].useYear, bs[i]);
    }
  }

  lemma ListedPositive(ts: seq<BalanceRow>, y: int, a: DebtBalance)
    requires AllNonZero(ts) && a in YearBalances(ts, y)
    ensures a.amount > 0
  {
    var yb := YearBalances(ts, y);
    var k :| 0 <= k < |yb| && yb[k] == a;
  }

  /** Two debts of one year's listing: the creditor of one is not the debtor of the other. */
  lemma SettledPair(ts: seq<BalanceRow>, y: int, a: DebtBalance, b: DebtBalance)
    requires AllNonZero(ts) && a in YearBalances(ts, y) && b in YearBalances(ts, y)
    ensures a.debtor != b.creditor
  {
    var yb := YearBalances(ts, y);
    var k :| 0 <= k < |yb| && yb[k] == a;
    var l :| 0 <= l < |yb| && yb[l] == b;
    YearBalancesSettled(ts, y);
  }

  /** Within a use year no member of the listing both owes and is owed, and no one owes
    * themselves. */
  lemma ConsolidateSettled(rows: seq<BalanceRow>)
    ensures forall i, j :: 0 <= i < |Consolidate(rows)| && 0 <= j < |Consolidate(rows)| ==>
              (Consolidate(rows)[i].useYear == Consolidate(rows)[j].useYear ==>
               Consolidate(rows)[i].debtor != Consolidate(rows)[j].creditor)
  {
    ConsolidateFrom(rows);
    var ts := GroupTotals(rows);
    var bs := Consolidate(rows);
    forall i, j | 0 <= i < |bs| && 0 <= j < |bs| && bs[i].useYear == bs[j].useYear
      ensures bs[i].debtor != bs[j].creditor
    {
      SettledPair(ts, bs[i].useYear, bs[i], bs[j]);
    }
  }

  // ---- As written ----

  function YearBalancesAsWritten(ts: seq<BalanceRow>, y: int): (r: Result<seq<DebtBalance>>)
    requires AllNonZero(ts)
    ensures r.Ok? ==> forall i :: 0 <= i < |r.value| ==> r.value[i].useYear == y && r.value[i].amount > 0
  {
    BuildWellFormed(ts, y);
    match SettleAsWritten(BuildGraph(ts, y))
    case Err(e) => Err(e)
    case Ok(h) => Ok(EmitAll(h, h.order, y))
  }

  function EmitYearsAsWritten(ts: seq<BalanceRow>, ys: seq<int>): (r: Result<seq<DebtBalance>>)
    requires AllNonZero(ts)
    ensures r.Ok? ==> forall i :: 0 <= i < |r.value| ==> r.value[i].useYear in ys && r.value[i].amount > 0
  {
    if ys == [] then Ok([])
    else match EmitYearsAsWritten(ts, ys[..|ys| - 1])
      case Err(e) => Err(e)
      case Ok(prev) =>
        match YearBalancesAsWritten(ts, ys[|ys| - 1])
        case Err(e) => Err(e)
        case Ok(last) => Ok(prev + last)
  }

  /** The page as written, where collapsing a chain may write a self-debt and a later pass may
    * then crash with `KeyError`. */
  function ConsolidateAsWritten(rows: seq<BalanceRow>): Result<seq<DebtBalance>>
  {
    var ts := GroupTotals(rows);
    match EmitYearsAsWritten(ts, YearsOf(ts))
    case Err(e) => Err(e)
    case Ok(bs) => Ok(SortBalances(bs))
  }

  /** A year's listing as written, when the loop does not crash, keeps every position of the
    * year's graph. */
  lemma YearBalancesAsWrittenPos(ts: seq<BalanceRow>, y: int, x: MemberId)
    requires AllNonZero(ts) && YearBalancesAsWritten(ts, y).Ok?
    ensures BalancePos(YearBalancesAsWritten(ts, y).value, y, x) == Position(BuildGraph(ts, y), x)
  {
    BuildWellFormed(ts, y);
    SettleAsWrittenProps(BuildGraph(ts, y));
    var h := SettleAsWritten(BuildGraph(ts, y)).value;
    EmitAllPos(h, h.order, y, x);
  }

  lemma {:induction false} EmitYearsAsWrittenPos(ts: seq<BalanceRow>, ys: seq<int>, y: int, x: MemberId)
    requires AllNonZero(ts) && NoDuplicates(ys) && EmitYearsAsWritten(ts, ys).Ok?
    ensures BalancePos(EmitYearsAsWritten(ts, ys).value, y, x) == if y in ys then Position(BuildGraph(ts, y), x) else 0
    decreases |ys|
  {
    if ys != [] {
      var init := ys[..|ys| - 1];
      var z := ys[|ys| - 1];
      EmitYearsAsWrittenPos(ts, init, y, x);
      var last := YearBalancesAsWritten(ts, z).value;
      BalancePosAppend(EmitYearsAsWritten(ts, init).value, last, y, x);
      if z == y {
        YearBalancesAsWrittenPos(ts, y, x);
      } else {
        BalancePosOtherYear(last, y, x);
      }
      assert y in ys <==> y in init || y == z;
    }
  }

  /** When the page as written does not crash, it lists what the corrected page promises: sorted,
    * positive balances that give every member, in every use year, the position the canonical
    * rows give them. */
  lemma ConsolidateAsWrittenPosition(rows: seq<BalanceRow>, y: int, x: MemberId)
    requires Canonical(rows) && ConsolidateAsWritten(rows).Ok?
    ensures BalancePos(ConsolidateAsWritten(rows).value, y, x) == YearPos(rows, y, x)
  {
    var ts := GroupTotals(rows);
    GroupTotalsProps(rows);
    var ys := YearsOf(ts);
    var bs := EmitYearsAsWritten(ts, ys).value;
    SortPos(bs, y, x);
    EmitYearsAsWrittenPos(ts, ys, y, x);
    if y in ys {
      CanonicalPairsDistinct(ts, y);
      BuildProps(ts, y);
    } else {
      YearPosAbsent(ts, y, x);
    }
  }

  lemma ConsolidateAsWrittenListing(rows: seq<BalanceRow>)
    requires ConsolidateAsWritten(rows).Ok?
    ensures Sorted(ConsolidateAsWritten(rows).value)
    ensures forall i :: 0 <= i < |ConsolidateAsWritten(rows).value| ==> ConsolidateAsWritten(rows).value[i].amount > 0
  {
    var ts := GroupTotals(rows);
    var before := EmitYearsAsWritten(ts, YearsOf(ts)).value;
    var bs := ConsolidateAsWritten(rows).value;
    assert multiset(bs) == multiset(before);
    forall i | 0 <= i < |bs| ensures bs[i].amount > 0 {
      assert bs[i] in multiset(before);
    }
  }

  // ---- The crash, and the corrected page on the same rows ----

  /** The rows of three transfers of 10 points in 2024 around a cycle: 1 to 2, 2 to 3, 3 to 1. */
  const CycleRows: seq<BalanceRow> :=
    [BalanceRow(1, 2, 2024, -10), BalanceRow(2, 3, 2024, -10), BalanceRow(1, 3, 2024, 10)]

  const CycleGraph: Graph :=
    Graph([1, 2, 3], map[1 := [Edge(2, 10)], 2 := [Edge(3, 10)], 3 := [Edge(1, 10)]])

  /** The graph after the first pass, and as written after the second. */
  const CycleGraph1: Graph := Graph([1, 2, 3], map[1 := [Edge(3, 10)], 2 := [], 3 := [Edge(1, 10)]])
  const CycleSelfLoop: Graph := Graph([1, 2, 3], map[1 := [Edge(1, 10)], 2 := [], 3 := []])
  const CycleCleared: Graph := Graph([1, 2, 3], map[1 := [], 2 := [], 3 := []])

  lemma CycleRowsAreTransfers()
    ensures CycleRows == [TransferRow(1, 2, 2024, 10), TransferRow(2, 3, 2024, 10), TransferRow(3, 1, 2024, 10)]
  {
  }

  lemma CycleTotals()
    ensures GroupTotals(CycleRows) == CycleRows
    ensures YearsOf(CycleRows) == [2024]
  {
    var r := CycleRows;
    assert Group(r[..1]) == [r[0]];
    assert r[..2][..1] == r[..1];
    assert GroupAdd([r[0]], r[1]) == [r[0], r[1]] by {
      assert [r[0]][1..] == [];
    }
    assert Group(r[..2]) == [r[0], r[1]];
    assert r[..3][..2] == r[..2] && r[..3] == r;
    assert GroupAdd([r[0], r[1]], r[2]) == r by {
      assert [r[0], r[1]][1..] == [r[1]] && [r[1]][1..] == [];
      assert GroupAdd([r[1]], r[2]) == [r[1], r[2]];
    }
    assert Group(r) == r;
    assert NonZero(r[..1]) == [r[0]];
    assert NonZero(r[..2]) == [r[0], r[1]];
    assert NonZero(r) == r;
    assert YearsOf(r[..1]) == [2024];
    assert YearsOf(r[..2]) == [2024];
  }

  /** Entering a line into a graph that lacks both its members. */
  lemma AddTotalFresh(g: Graph, t: BalanceRow)
    requires t.member1 != t.member2 && t.member1 !in g.adj && t.member2 !in g.adj
    ensures AddTotal(g, t)
            == Graph(g.order + [t.member1, t.member2],
                     g.adj[t.member1 := []][t.member2 := []][Debtor(t) := [Edge(Creditor(t), Owed(t))]])
  {
    assert g.order + [t.member1] + [t.member2] == g.order + [t.member1, t.member2];
  }

  /** Entering a line whose first member is already a key with no debts, and whose second is new. */
  lemma AddTotalHalfFresh(g: Graph, t: BalanceRow)
    requires t.member1 != t.member2 && t.member1 in g.adj && g.adj[t.member1] == [] && t.member2 !in g.adj
    ensures AddTotal(g, t)
            == Graph(g.order + [t.member2], g.adj[t.member2 := []][Debtor(t) := [Edge(Creditor(t), Owed(t))]])
  {
  }

  lemma CycleBuildFirst()
    ensures BuildGraph(CycleRows[..1], 2024) == Graph([1, 2], map[1 := [Edge(2, 10)], 2 := []])
  {
    var r := CycleRows;
    assert r[..1][..0] == [];
    AddTotalFresh(Empty, r[0]);
  }

  lemma CycleBuildSecond()
    ensures BuildGraph(CycleRows[..2], 2024)
            == Graph([1, 2, 3], map[1 := [Edge(2, 10)], 2 := [Edge(3, 10)], 3 := []])
  {
    var r := CycleRows;
    assert r[..2][..1] == r[..1];
    CycleBuildFirst();
    var g := Graph([1, 2], map[1 := [Edge(2, 10)], 2 := []]);
    AddTotalHalfFresh(g, r[1]);
    assert g.adj[3 := []][2 := [Edge(3, 10)]] == map[1 := [Edge(2, 10)], 2 := [Edge(3, 10)], 3 := []];
  }

  lemma CycleBuild()
    ensures BuildGraph(CycleRows, 2024) == CycleGraph
  {
    var r := CycleRows;
    assert r[..3][..2] == r[..2] && r[..3] == r;
    CycleBuildSecond();
    var g := Graph([1, 2, 3], map[1 := [Edge(2, 10)], 2 := [Edge(3, 10)], 3 := []]);
    assert AddTotal(g, r[2]) == WithDebts(g, 3, SetDebt([], 1, 10));
  }

  /** `inner[c] -= m` on an inner dict holding just `c: m` empties it. */
  lemma DebitOnly(c: MemberId, m: int)
    ensures Debit([Edge(c, m)], c, m) == Some([])
  {
    assert [Edge(c, m)][1..] == [];
  }

  /** The first pass finds 1 -> 2 -> 3 and collapses it into 1 -> 3. */
  lemma CyclePassOne()
    ensures FirstChain(CycleGraph) == Some(Chain(1, 2, 3, 10))
    ensures Collapse(CycleGraph, Chain(1, 2, 3, 10)) == Ok(CycleGraph1)
  {
    DebitOnly(2, 10);
    DebitOnly(3, 10);
    assert CycleGraph.adj[1 := []][2 := []][1 := [Edge(3, 10)]] == CycleGraph1.adj;
  }

  /** The second pass finds 1 -> 3 -> 1 and, as written, collapses it into the self-debt 1 -> 1. */
  lemma CyclePassTwo()
    ensures FirstChain(CycleGraph1) == Some(Chain(1, 3, 1, 10))
    ensures Collapse(CycleGraph1, Chain(1, 3, 1, 10)) == Ok(CycleSelfLoop)
  {
    DebitOnly(3, 10);
    DebitOnly(1, 10);
    assert CycleGraph1.adj[1 := []][3 := []][1 := [Edge(1, 10)]] == CycleSelfLoop.adj;
  }

  /** A self-debt `n -> n` alone in its inner dict: the pass finds `n -> n -> n`, whose first
    * decrement deletes the entry that the second then misses. */
  lemma SelfLoopCrashes(g: Graph, n: MemberId, m: int)
    requires g.order != [] && g.order[0] == n && n in g.adj && g.adj[n] == [Edge(n, m)] && m > 0
    ensures FirstChain(g) == Some(Chain(n, n, n, m))
    ensures Collapse(g, Chain(n, n, n, m)) == Err(KeyError)
  {
    DebitOnly(n, m);
  }

  /** The first two passes and the crash of the third. */
  lemma CyclePasses()
    ensures FirstChain(CycleGraph) == Some(Chain(1, 2, 3, 10))
    ensures Collapse(CycleGraph, Chain(1, 2, 3, 10)) == Ok(CycleGraph1)
    ensures FirstChain(CycleGraph1) == Some(Chain(1, 3, 1, 10))
    ensures Collapse(CycleGraph1, Chain(1, 3, 1, 10)) == Ok(CycleSelfLoop)
    ensures FirstChain(CycleSelfLoop) == Some(Chain(1, 1, 1, 10))
    ensures Collapse(CycleSelfLoop, Chain(1, 1, 1, 10)) == Err(KeyError)
  {
    CyclePassOne();
    CyclePassTwo();
    SelfLoopCrashes(CycleSelfLoop, 1, 10);
  }

  /** As written, the page crashes on three transfers around a cycle. */
  lemma CycleCrashes()
    ensures ConsolidateAsWritten(CycleRows) == Err(KeyError)
  {
    CycleTotals();
    CycleBuild();
    CyclePasses();
    BuildWellFormed(CycleRows, 2024);
    var g0 := CycleGraph;
    FirstChainSpec(g0);
    CollapseProps(g0, Chain(1, 2, 3, 10));
    var g1 := Collapse(g0, Chain(1, 2, 3, 10)).value;
    FirstChainSpec(g1);
    CollapseProps(g1, Chain(1, 3, 1, 10));
    var g2 := Collapse(g1, Chain(1, 3, 1, 10)).value;
    assert SettleAsWritten(g2) == Err(KeyError);
    assert SettleAsWritten(g1) == Err(KeyError);
    assert SettleAsWritten(g0) == Err(KeyError);
    assert [2024][..0] == [];
  }

  /** An inner dict without an entry for `n` loses nothing when `n`'s entries are dropped. */
  lemma {:induction false} WithoutAbsent(es: seq<Edge>, n: MemberId)
    requires !HasCreditor(es, n)
    ensures Without(es, n) == es
    decreases |es|
  {
    if es != [] {
      WithoutAbsent(es[1..], n);
      assert [es[0]] + es[1..] == es;
    }
  }

  /** A single debt to someone else is no self-debt, and dropping self-debts keeps it. */
  lemma SingleDebtNotSelf(n: MemberId, c: MemberId, m: int)
    requires n != c
    ensures !HasCreditor([Edge(c, m)], n) && Without([Edge(c, m)], n) == [Edge(c, m)]
  {
    assert [Edge(c, m)][1..] == [];
  }

  lemma CycleWellFormed()
    ensures WellFormed(CycleGraph)
  {
    CycleBuild();
    BuildWellFormed(CycleRows, 2024);
  }

  lemma CycleNoSelfDebts()
    ensures NoSelfDebts(CycleGraph) && DropSelfDebts(CycleGraph) == CycleGraph
  {
    SingleDebtNotSelf(1, 2, 10);
    SingleDebtNotSelf(2, 3, 10);
    SingleDebtNotSelf(3, 1, 10);
    assert CycleGraph.adj.Keys == {1, 2, 3};
    assert DropSelfDebts(CycleGraph).adj == CycleGraph.adj;
  }

  lemma CycleGraphProps()
    ensures WellFormed(CycleGraph) && NoSelfDebts(CycleGraph)
    ensures DropSelfDebts(CycleGraph) == CycleGraph
  {
    CycleWellFormed();
    CycleNoSelfDebts();
  }

  lemma CycleCancelFirst()
    ensures WellFormed(CycleGraph) && NoSelfDebts(CycleGraph) && IsChain(CycleGraph, Chain(1, 2, 3, 10))
            && Cancel(CycleGraph, Chain(1, 2, 3, 10)) == CycleGraph1
  {
    CycleGraphProps();
    CyclePassOne();
    FirstChainSpec(CycleGraph);
    CancelAgrees(CycleGraph, Chain(1, 2, 3, 10));
  }

  /** The corrected second step: 1 -> 3 -> 1 cancels both debts. */
  lemma CycleCancelSecondValue()
    requires WellFormed(CycleGraph1) && NoSelfDebts(CycleGraph1) && IsChain(CycleGraph1, Chain(1, 3, 1, 10))
    ensures Cancel(CycleGraph1, Chain(1, 3, 1, 10)) == CycleCleared
  {
    DebitOnly(3, 10);
    DebitOnly(1, 10);
    assert CycleGraph1.adj[1 := []][3 := []] == CycleCleared.adj;
  }

  lemma CycleCancelSecond()
    ensures WellFormed(CycleGraph1) && NoSelfDebts(CycleGraph1) && IsChain(CycleGraph1, Chain(1, 3, 1, 10))
            && Cancel(CycleGraph1, Chain(1, 3, 1, 10)) == CycleCleared
  {
    CycleCancelFirst();
    CancelProps(CycleGraph, Chain(1, 2, 3, 10));
    CyclePassTwo();
    FirstChainSpec(CycleGraph1);
    CycleCancelSecondValue();
  }

  /** A graph in which nobody owes anything lists nothing. */
  lemma NothingOwed(g: Graph, ns: seq<MemberId>, y: int)
    requires forall n :: Debts(g, n) == []
    ensures EmitAll(g, ns, y) == []
  {
    var bs := EmitAll(g, ns, y);
    assert forall n, c :: !HasCreditor(Debts(g, n), c);
  }

  lemma CycleClearedWellFormed()
    ensures WellFormed(CycleCleared) && NoSelfDebts(CycleCleared)
  {
    CycleCancelSecond();
    CancelProps(CycleGraph1, Chain(1, 3, 1, 10));
  }

  lemma CycleClearedSettled()
    ensures WellFormed(CycleCleared) && NoSelfDebts(CycleCleared) && FirstChain(CycleCleared).None?
    ensures EmitAll(CycleCleared, CycleCleared.order, 2024) == []
  {
    CycleClearedWellFormed();
    assert forall n, c :: !HasCreditor(Debts(CycleCleared, n), c);
    FirstChainSpec(CycleCleared);
    NothingOwed(CycleCleared, CycleCleared.order, 2024);
  }

  /** Settling the cycle cancels the chain 1 -> 2 -> 3 into 1 -> 3, and then the chain
    * 1 -> 3 -> 1 altogether. */
  lemma CycleSettleSteps()
    ensures WellFormed(CycleGraph) && NoSelfDebts(CycleGraph) && Settle(CycleGraph) == CycleCleared
  {
    CyclePassOne();
    CyclePassTwo();
    CycleCancelFirst();
    CycleCancelSecond();
    CycleClearedSettled();
    assert Settle(CycleCleared) == CycleCleared;
    assert Settle(CycleGraph1) == CycleCleared;
  }

  /** With self-debts never written, the three transfers cancel out: no one owes anyone. */
  lemma CycleSettles()
    ensures Consolidate(CycleRows) == []
  {
    CycleTotals();
    CycleBuild();
    CycleGraphProps();
    CycleSettleSteps();
    CycleClearedSettled();
    assert YearBalances(CycleRows, 2024) == [];
    assert [2024][..0] == [];
  }

  /** The row of a transfer of 10 points of 2024 from member 1 to member 1. */
  const SelfRows: seq<BalanceRow> := [BalanceRow(1, 1, 2024, 10)]

  const SelfGraph: Graph := Graph([1], map[1 := [Edge(1, 10)]])

  lemma SelfRowsBuild()
    ensures SelfRows == [TransferRow(1, 1, 2024, 10)]
    ensures GroupTotals(SelfRows) == SelfRows
    ensures YearsOf(SelfRows) == [2024]
    ensures BuildGraph(SelfRows, 2024) == SelfGraph
  {
    var r := SelfRows;
    assert r[..0] == [];
    assert GroupTotals(r) == r;
    assert AddTotal(Empty, r[0]) == SelfGraph;
  }

  /** As written, the page crashes on a transfer to oneself: its row makes the self-debt
    * 1 -> 1 directly. */
  lemma SelfTransferCrashes()
    ensures SelfRows == [TransferRow(1, 1, 2024, 10)]
    ensures ConsolidateAsWritten(SelfRows) == Err(KeyError)
  {
    SelfRowsBuild();
    SelfLoopCrashes(SelfGraph, 1, 10);
    assert [2024][..0] == [];
  }

  const SelfCleared: Graph := Graph([1], map[1 := []])

  lemma SelfClearedSettled()
    ensures DropSelfDebts(SelfGraph) == SelfCleared
    ensures WellFormed(SelfCleared) && NoSelfDebts(SelfCleared) && FirstChain(SelfCleared).None?
    ensures EmitAll(SelfCleared, SelfCleared.order, 2024) == []
  {
    assert [Edge(1, 10)][1..] == [];
    assert DropSelfDebts(SelfGraph).adj == SelfCleared.adj;
    assert [1][..0] == [] && [1][1..] == [];
    assert forall n, c :: !HasCreditor(Debts(SelfCleared, n), c);
    NothingOwed(SelfCleared, SelfCleared.order, 2024);
  }

  /** With self-debts dropped, a transfer to oneself leaves no balance. */
  lemma SelfTransferSettles()
    ensures Consolidate(SelfRows) == []
  {
    SelfRowsBuild();
    SelfClearedSettled();
    assert Settle(SelfCleared) == SelfCleared;
    assert YearBalances(SelfRows, 2024) == [];
    assert [2024][..0] == [];
  }
}
