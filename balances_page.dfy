/** The loops of the balances page, step by step: building the year graphs from the grouped
  * totals, the chain search and the `while True` loop that settles a graph, and the listing of
  * what remains. Each loop computes what the matching function of `Consolidation` or
  * `DebtGraph` specifies. */
module BalancesPage {
  import opened Common
  import opened Balances
  import opened DebtGraph
  import opened Consolidation

  /** A year none of whose lines occurs has an empty graph. */
  lemma {:induction false} BuildGraphAbsent(ts: seq<BalanceRow>, y: int)
    requires forall i :: 0 <= i < |ts| ==> ts[i].useYear != y
    ensures BuildGraph(ts, y) == Empty
    decreases |ts|
  {
    if ts != [] {
      BuildGraphAbsent(ts[..|ts| - 1], y);
    }
  }

  /** The loop over the grouped totals: a year's graph is created at its first line, and each
    * line is entered into its year's graph. */
  method BuildGraphs(ts: seq<BalanceRow>) returns (years: seq<int>, graphs: map<int, Graph>)
    ensures years == YearsOf(ts)
    ensures forall y :: y in graphs <==> y in years
    ensures forall y :: y in graphs ==> graphs[y] == BuildGraph(ts, y)
  {
    years, graphs := [], map[];
    for i := 0 to |ts|
      invariant years == YearsOf(ts[..i])
      invariant forall y :: y in graphs <==> y in years
      invariant forall y :: y in graphs ==> graphs[y] == BuildGraph(ts[..i], y)
    {
      var t := ts[i];
      assert ts[..i + 1][..i] == ts[..i];
      if t.useYear !in graphs {
        BuildGraphAbsent(ts[..i], t.useYear);
        years := years + [t.useYear];
        graphs := graphs[t.useYear := Empty];
      }
      graphs := graphs[t.useYear := AddTotal(graphs[t.useYear], t)];
    }
    assert ts[..|ts|] == ts;
  }

  /** One pass of the chain search: debtors in order, then each debtor's creditors, then each
    * creditor's own creditors, stopping at the first link pair whose smaller amount is positive. */
  method FindChain(g: Graph) returns (r: Option<Chain>)
    ensures r == FirstChain(g)
  {
    var i := 0;
    while i < |g.order|
      invariant 0 <= i <= |g.order|
      invariant ChainAmong(g, g.order[i..]) == FirstChain(g)
    {
      var debtor := g.order[i];
      var es := Debts(g, debtor);
      assert g.order[i..][1..] == g.order[i + 1..];
      var j := 0;
      while j < |es|
        invariant 0 <= j <= |es|
        invariant ChainFrom(g, debtor, es[j..]) == ChainFrom(g, debtor, es)
      {
        var creditor, amount := es[j].creditor, es[j].amount;
        var fs := Debts(g, creditor);
        assert es[j..][1..] == es[j + 1..];
        var k := 0;
        while k < |fs|
          invariant 0 <= k <= |fs|
          invariant ChainVia(debtor, creditor, amount, fs[k..]) == ChainVia(debtor, creditor, amount, fs)
        {
          assert fs[k..][1..] == fs[k + 1..];
          var m := Min(amount, fs[k].amount);
          if m > 0 {
            return Some(Chain(debtor, creditor, fs[k].creditor, m));
          }
          k := k + 1;
        }
        j := j + 1;
      }
      i := i + 1;
    }
    return None;
  }

  /** The `while True` loop: cancel the chain a pass finds until a pass finds none. */
  method SettleGraph(g: Graph) returns (h: Graph)
    requires WellFormed(g) && NoSelfDebts(g)
    ensures h == Settle(g)
  {
    h := g;
    WeightNonNegative(h);
    while true
      invariant WellFormed(h) && NoSelfDebts(h)
      invariant Settle(h) == Settle(g)
      decreases Weight(h)
    {
      var found := FindChain(h);
      if found.None? {
        return;
      }
      FirstChainSpec(h);
      CancelProps(h, found.value);
      h := Cancel(h, found.value);
      WeightNonNegative(h);
    }
  }

  /** The inner listing loop: the entries of one member's inner dict with a positive amount. */
  method EmitDebtsOf(n: MemberId, es: seq<Edge>, y: int) returns (part: seq<DebtBalance>)
    ensures part == EmitFrom(n, es, y)
  {
    part := [];
    assert es[0..] == es;
    for j := 0 to |es|
      invariant part + EmitFrom(n, es[j..], y) == EmitFrom(n, es, y)
    {
      EmitFromStep(n, es, j, y);
      ghost var rest := EmitFrom(n, es[j + 1..], y);
      if es[j].amount > 0 {
        var d := DebtBalance(n, es[j].creditor, y, es[j].amount);
        assert (part + [d]) + rest == part + ([d] + rest);
        part := part + [d];
      } else {
        assert [] + rest == rest;
      }
    }
  }

  lemma EmitFromStep(n: MemberId, es: seq<Edge>, j: nat, y: int)
    requires j < |es|
    ensures EmitFrom(n, es[j..], y)
            == (if es[j].amount > 0 then [DebtBalance(n, es[j].creditor, y, es[j].amount)] else [])
               + EmitFrom(n, es[j + 1..], y)
  {
    assert es[j..][1..] == es[j + 1..];
  }

  lemma EmitAllStep(h: Graph, ns: seq<MemberId>, i: nat, y: int)
    requires i < |ns|
    ensures EmitAll(h, ns[..i + 1], y) == EmitAll(h, ns[..i], y) + EmitFrom(ns[i], Debts(h, ns[i]), y)
  {
    assert ns[..i + 1][..i] == ns[..i];
  }

  /** The listing loop: every positive debt of every member, debtor by debtor. */
  method EmitBalances(h: Graph, y: int) returns (bs: seq<DebtBalance>)
    ensures bs == EmitAll(h, h.order, y)
  {
    bs := [];
    for i := 0 to |h.order|
      invariant bs == EmitAll(h, h.order[..i], y)
    {
      var part := EmitDebtsOf(h.order[i], Debts(h, h.order[i]), y);
      EmitAllStep(h, h.order, i, y);
      bs := bs + part;
    }
    assert h.order[..|h.order|] == h.order;
  }

  lemma EmitYearsStep(ts: seq<BalanceRow>, ys: seq<int>, k: nat, h: Graph)
    requires AllNonZero(ts) && k < |ys|
    requires WellFormed(BuildGraph(ts, ys[k]))
    requires WellFormed(DropSelfDebts(BuildGraph(ts, ys[k]))) && NoSelfDebts(DropSelfDebts(BuildGraph(ts, ys[k])))
    requires h == Settle(DropSelfDebts(BuildGraph(ts, ys[k])))
    ensures EmitYears(ts, ys[..k + 1]) == EmitYears(ts, ys[..k]) + EmitAll(h, h.order, ys[k])
  {
    assert ys[..k + 1][..k] == ys[..k];
  }

  /** `view_point_balances`: group the rows, build a graph per year, and for each year in order
    * drop the self-debts, settle the graph and list its debts; then sort by year and amount. */
  method ConsolidateBalances(rows: seq<BalanceRow>) returns (bs: seq<DebtBalance>)
    ensures bs == Consolidate(rows)
  {
    var ts := GroupTotals(rows);
    var years, graphs := BuildGraphs(ts);
    var all: seq<DebtBalance> := [];
    for k := 0 to |years|
      invariant all == EmitYears(ts, years[..k])
    {
      var y := years[k];
      BuildWellFormed(ts, y);
      DropSelfDebtsProps(graphs[y]);
      var h := SettleGraph(DropSelfDebts(graphs[y]));
      var listed := EmitBalances(h, y);
      EmitYearsStep(ts, years, k, h);
      all := all + listed;
    }
    assert years[..|years|] == years;
    bs := SortBalances(all);
  }
}
