/** `balance_graph[year]` of the balances page: for every member, the inner dict of what the
  * member owes to whom, and the in-place updates the consolidation makes to it. */
module DebtGraph {
  import opened Common

  /** One entry `creditor: amount` of a debtor's inner dict. */
  datatype Edge = Edge(creditor: MemberId, amount: int)

  /** The outer dict: its keys in insertion order and each key's inner dict, whose entries are
    * in insertion order too. */
  datatype Graph = Graph(order: seq<MemberId>, adj: map<MemberId, seq<Edge>>)

  const Empty: Graph := Graph([], map[])

  /** `graph.get(n, {})`. */
  function Entries(adj: map<MemberId, seq<Edge>>, n: MemberId): seq<Edge>
  {
    if n in adj then adj[n] else []
  }

  function Debts(g: Graph, n: MemberId): seq<Edge>
  {
    Entries(g.adj, n)
  }

  function WithDebts(g: Graph, n: MemberId, es: seq<Edge>): Graph
  {
    g.(adj := g.adj[n := es])
  }

  // ---- Inner dicts ----

  predicate HasCreditor(es: seq<Edge>, c: MemberId)
  {
    es != [] && (es[0].creditor == c || HasCreditor(es[1..], c))
  }

  /** Each creditor appears at most once, as in a dict. */
  predicate DistinctCreditors(es: seq<Edge>)
  {
    es == [] || (!HasCreditor(es[1..], es[0].creditor) && DistinctCreditors(es[1..]))
  }

  predicate AllPositive(es: seq<Edge>)
  {
    es == [] || (es[0].amount > 0 && AllPositive(es[1..]))
  }

  /** `inner[c]` (the first entry for `c`), 0 when there is none. */
  function AmountOf(es: seq<Edge>, c: MemberId): (a: int)
    ensures AllPositive(es) ==> a >= 0
    ensures AllPositive(es) && HasCreditor(es, c) ==> a > 0
    ensures !HasCreditor(es, c) ==> a == 0
  {
    if es == [] then 0 else if es[0].creditor == c then es[0].amount else AmountOf(es[1..], c)
  }

  /** The sum of the amounts. */
  function ListWeight(es: seq<Edge>): int
  {
    if es == [] then 0 else es[0].amount + ListWeight(es[1..])
  }

  /** The sum of the amounts owed to `x`. */
  function OwedIn(es: seq<Edge>, x: MemberId): int
  {
    if es == [] then 0 else (if es[0].creditor == x then es[0].amount else 0) + OwedIn(es[1..], x)
  }

  /** What `n`'s inner dict adds to member `x`'s position: what `x` owes in it minus what `x` is
    * owed in it. */
  function ListPos(n: MemberId, es: seq<Edge>, x: MemberId): int
  {
    (if n == x then ListWeight(es) else 0) - OwedIn(es, x)
  }

  lemma {:induction false} ListSnoc(es: seq<Edge>, x: MemberId)
    requires es != []
    ensures ListWeight(es) == ListWeight(es[..|es| - 1]) + es[|es| - 1].amount
    ensures OwedIn(es, x) == OwedIn(es[..|es| - 1], x) + (if es[|es| - 1].creditor == x then es[|es| - 1].amount else 0)
    decreases |es|
  {
    if |es| > 1 {
      ListSnoc(es[1..], x);
      assert es[1..][..|es[1..]| - 1] == es[..|es| - 1][1..];
    }
  }

  /** `inner[c] -= m` followed by `del inner[c]` when that leaves 0; `None` is the `KeyError`
    * of a missing `c`. */
  function Debit(es: seq<Edge>, c: MemberId, m: int): (r: Option<seq<Edge>>)
    ensures r.Some? <==> HasCreditor(es, c)
    ensures r.Some? ==> ListWeight(r.value) == ListWeight(es) - m
    ensures r.Some? ==> forall x :: OwedIn(r.value, x) == OwedIn(es, x) - (if x == c then m else 0)
    ensures r.Some? ==> forall x :: x != c ==> (HasCreditor(r.value, x) <==> HasCreditor(es, x))
    ensures r.Some? ==> forall x :: x != c ==> AmountOf(r.value, x) == AmountOf(es, x)
    ensures r.Some? && DistinctCreditors(es) ==> DistinctCreditors(r.value)
    ensures r.Some? && DistinctCreditors(es) ==> (HasCreditor(r.value, c) <==> AmountOf(es, c) != m)
    ensures r.Some? && AllPositive(es) && m <= AmountOf(es, c) ==> AllPositive(r.value)
  {
    if es == [] then None
    else if es[0].creditor == c then
      var left := es[0].amount - m;
      Some(if left == 0 then es[1..] else [Edge(c, left)] + es[1..])
    else
      match Debit(es[1..], c, m)
      case None => None
      case Some(rest) =>
        var r := [es[0]] + rest;
        assert r[1..] == rest;
        Some(r)
  }

  /** `inner[c] += m` when `c` is present, else `inner[c] = m` (a new last entry). */
  function AddDebt(es: seq<Edge>, c: MemberId, m: int): (r: seq<Edge>)
    ensures ListWeight(r) == ListWeight(es) + m
    ensures forall x :: OwedIn(r, x) == OwedIn(es, x) + (if x == c then m else 0)
    ensures forall x :: HasCreditor(r, x) <==> HasCreditor(es, x) || x == c
    ensures DistinctCreditors(es) ==> DistinctCreditors(r)
    ensures AllPositive(es) && m > 0 ==> AllPositive(r)
  {
    if es == [] then [Edge(c, m)]
    else if es[0].creditor == c then
      var r := [Edge(c, es[0].amount + m)] + es[1..];
      assert r[1..] == es[1..];
      r
    else
      var r := [es[0]] + AddDebt(es[1..], c, m);
      assert r[1..] == AddDebt(es[1..], c, m);
      r
  }

  /** `inner[c] = a`: overwrites the entry for `c` in place, or appends one. */
  function SetDebt(es: seq<Edge>, c: MemberId, a: int): (r: seq<Edge>)
    ensures !HasCreditor(es, c) ==> ListWeight(r) == ListWeight(es) + a
    ensures !HasCreditor(es, c) ==> forall x :: OwedIn(r, x) == OwedIn(es, x) + (if x == c then a else 0)
    ensures forall x :: HasCreditor(r, x) <==> HasCreditor(es, x) || x == c
    ensures DistinctCreditors(es) ==> DistinctCreditors(r)
    ensures AllPositive(es) && a > 0 ==> AllPositive(r)
  {
    if es == [] then [Edge(c, a)]
    else if es[0].creditor == c then
      var r := [Edge(c, a)] + es[1..];
      assert r[1..] == es[1..];
      r
    else
      var r := [es[0]] + SetDebt(es[1..], c, a);
      assert r[1..] == SetDebt(es[1..], c, a);
      r
  }

  /** The entries whose creditor is not `n`. */
  function Without(es: seq<Edge>, n: MemberId): (r: seq<Edge>)
    ensures !HasCreditor(r, n)
    ensures forall x :: HasCreditor(r, x) ==> HasCreditor(es, x)
    ensures DistinctCreditors(es) ==> DistinctCreditors(r)
    ensures AllPositive(es) ==> AllPositive(r)
    ensures forall x :: ListPos(n, r, x) == ListPos(n, es, x)
  {
    if es == [] then []
    else if es[0].creditor == n then Without(es[1..], n)
    else
      var rest := Without(es[1..], n);
      var r := [es[0]] + rest;
      assert r[1..] == rest;
      assert ListWeight(r) == es[0].amount + ListWeight(rest);
      assert forall x :: ListPos(n, r, x) == ListPos(n, es, x) by {
        forall x ensures ListPos(n, r, x) == ListPos(n, es, x) {
          assert OwedIn(r, x) == (if es[0].creditor == x then es[0].amount else 0) + OwedIn(rest, x);
          assert ListPos(n, rest, x) == ListPos(n, es[1..], x);
        }
      }
      r
  }

  // ---- The outer dict ----

  predicate NoDuplicates(ns: seq<MemberId>)
  {
    ns == [] || (ns[|ns| - 1] !in ns[..|ns| - 1] && NoDuplicates(ns[..|ns| - 1]))
  }

  /** The invariant of the consolidation's graph: the key order lists each key once, every inner
    * dict is a dict of positive amounts, and every creditor is itself a key. */
  ghost predicate WellFormed(g: Graph)
  {
    && NoDuplicates(g.order)
    && (forall n :: n in g.adj <==> n in g.order)
    && (forall n :: n in g.adj ==> DistinctCreditors(g.adj[n]) && AllPositive(g.adj[n]))
    && (forall n, c :: n in g.adj && HasCreditor(g.adj[n], c) ==> c in g.adj)
  }

  /** No member owes itself. */
  predicate NoSelfDebts(g: Graph)
  {
    forall n :: n in g.adj ==> !HasCreditor(g.adj[n], n)
  }

  /** The sum of all amounts of the members in `ns`. */
  function WeightOver(ns: seq<MemberId>, adj: map<MemberId, seq<Edge>>): int
  {
    if ns == [] then 0 else WeightOver(ns[..|ns| - 1], adj) + ListWeight(Entries(adj, ns[|ns| - 1]))
  }

  /** Member `x`'s position summed over the inner dicts of the members in `ns`. */
  function PositionOver(ns: seq<MemberId>, adj: map<MemberId, seq<Edge>>, x: MemberId): int
  {
    if ns == [] then 0
    else PositionOver(ns[..|ns| - 1], adj, x) + ListPos(ns[|ns| - 1], Entries(adj, ns[|ns| - 1]), x)
  }

  /** The total of all amounts: the measure the consolidation loop decreases. */
  function Weight(g: Graph): int
  {
    WeightOver(g.order, g.adj)
  }

  /** Member `x`'s net position in the graph: the total `x` owes minus the total `x` is owed. */
  function Position(g: Graph, x: MemberId): int
  {
    PositionOver(g.order, g.adj, x)
  }

  lemma {:induction false} ListWeightPositive(es: seq<Edge>)
    requires AllPositive(es)
    ensures ListWeight(es) >= 0
    ensures es != [] ==> ListWeight(es) > 0
    decreases |es|
  {
    if es != [] {
      ListWeightPositive(es[1..]);
    }
  }

  lemma {:induction false} WeightOverNonNegative(ns: seq<MemberId>, adj: map<MemberId, seq<Edge>>)
    requires forall n :: n in adj ==> AllPositive(adj[n])
    ensures WeightOver(ns, adj) >= 0
    decreases |ns|
  {
    if ns != [] {
      WeightOverNonNegative(ns[..|ns| - 1], adj);
      if ns[|ns| - 1] in adj {
        ListWeightPositive(adj[ns[|ns| - 1]]);
      }
    }
  }

  lemma {:induction false} UnchangedOver(ns: seq<MemberId>, adj: map<MemberId, seq<Edge>>, d: MemberId, v: seq<Edge>, x: MemberId)
    requires d !in ns
    ensures WeightOver(ns, adj[d := v]) == WeightOver(ns, adj)
    ensures PositionOver(ns, adj[d := v], x) == PositionOver(ns, adj, x)
    decreases |ns|
  {
    if ns != [] {
      UnchangedOver(ns[..|ns| - 1], adj, d, v, x);
    }
  }

  /** Replacing one member's inner dict changes the sums by exactly the difference it makes. */
  lemma {:induction false} UpdateOver(ns: seq<MemberId>, adj: map<MemberId, seq<Edge>>, d: MemberId, v: seq<Edge>, x: MemberId)
    requires NoDuplicates(ns) && d in ns
    ensures WeightOver(ns, adj[d := v]) == WeightOver(ns, adj) - ListWeight(Entries(adj, d)) + ListWeight(v)
    ensures PositionOver(ns, adj[d := v], x)
            == PositionOver(ns, adj, x) - ListPos(d, Entries(adj, d), x) + ListPos(d, v, x)
    decreases |ns|
  {
    var init := ns[..|ns| - 1];
    if ns[|ns| - 1] == d {
      UnchangedOver(init, adj, d, v, x);
    } else {
      assert d in init;
      UpdateOver(init, adj, d, v, x);
    }
  }

  lemma {:induction false} AppendOver(ns: seq<MemberId>, n: MemberId, adj: map<MemberId, seq<Edge>>, x: MemberId)
    ensures WeightOver(ns + [n], adj) == WeightOver(ns, adj) + ListWeight(Entries(adj, n))
    ensures PositionOver(ns + [n], adj, x) == PositionOver(ns, adj, x) + ListPos(n, Entries(adj, n), x)
  {
    assert (ns + [n])[..|ns + [n]| - 1] == ns;
  }

  /** `inner[c] -= m` (and `del` at 0) on a well-formed graph, for an `m` no larger than the entry:
    * the graph stays well-formed, the weight drops by `m`, and the position moves by `m` from
    * the debtor to the creditor. */
  lemma DebitStep(g: Graph, n: MemberId, c: MemberId, m: int)
    requires WellFormed(g) && n in g.adj && HasCreditor(g.adj[n], c)
    requires 0 < m <= AmountOf(g.adj[n], c)
    ensures WellFormed(WithDebts(g, n, Debit(g.adj[n], c, m).value))
    ensures Weight(WithDebts(g, n, Debit(g.adj[n], c, m).value)) == Weight(g) - m
    ensures forall x :: Position(WithDebts(g, n, Debit(g.adj[n], c, m).value), x)
                        == Position(g, x) - (if n == x then m else 0) + (if c == x then m else 0)
    ensures NoSelfDebts(g) ==> NoSelfDebts(WithDebts(g, n, Debit(g.adj[n], c, m).value))
  {
    var es := g.adj[n];
    var r := Debit(es, c, m).value;
    var g' := WithDebts(g, n, r);
    assert g'.adj.Keys == g.adj.Keys;
    forall n', c' | n' in g'.adj && HasCreditor(g'.adj[n'], c') ensures c' in g'.adj {
      if n' == n && c' != c {
        assert HasCreditor(es, c');
      }
    }
    forall x ensures Position(g', x) == Position(g, x) - (if n == x then m else 0) + (if c == x then m else 0) {
      UpdateOver(g.order, g.adj, n, r, x);
    }
    UpdateOver(g.order, g.adj, n, r, n);
    if NoSelfDebts(g) {
      forall n' | n' in g'.adj ensures !HasCreditor(g'.adj[n'], n') {
        if n' == n && n != c {
          assert !HasCreditor(es, n);
        }
      }
    }
  }

  /** `inner[c] += m` (or `= m`) on a well-formed graph, for a creditor that is a key. */
  lemma AddStep(g: Graph, n: MemberId, c: MemberId, m: int)
    requires WellFormed(g) && n in g.adj && c in g.adj && m > 0
    ensures WellFormed(WithDebts(g, n, AddDebt(g.adj[n], c, m)))
    ensures Weight(WithDebts(g, n, AddDebt(g.adj[n], c, m))) == Weight(g) + m
    ensures forall x :: Position(WithDebts(g, n, AddDebt(g.adj[n], c, m)), x)
                        == Position(g, x) + (if n == x then m else 0) - (if c == x then m else 0)
    ensures NoSelfDebts(g) && n != c ==> NoSelfDebts(WithDebts(g, n, AddDebt(g.adj[n], c, m)))
  {
    var r := AddDebt(g.adj[n], c, m);
    var g' := WithDebts(g, n, r);
    assert g'.adj.Keys == g.adj.Keys;
    forall x ensures Position(g', x) == Position(g, x) + (if n == x then m else 0) - (if c == x then m else 0) {
      UpdateOver(g.order, g.adj, n, r, x);
    }
    UpdateOver(g.order, g.adj, n, r, n);
  }

  // ---- Chains ----

  /** A chain `debtor -> creditor -> next` found by the search, and `min` of its two amounts. */
  datatype Chain = Chain(debtor: MemberId, creditor: MemberId, next: MemberId, amount: int)

  /** `ch` runs through an entry of `es` and an entry of its creditor's inner dict, and its amount
    * is the smaller of the two, which is positive. */
  predicate ChainThrough(g: Graph, es: seq<Edge>, ch: Chain)
  {
    && HasCreditor(es, ch.creditor) && HasCreditor(Debts(g, ch.creditor), ch.next)
    && ch.amount == Min(AmountOf(es, ch.creditor), AmountOf(Debts(g, ch.creditor), ch.next))
    && ch.amount > 0
  }

  predicate IsChain(g: Graph, ch: Chain)
  {
    ch.debtor in g.adj && ChainThrough(g, g.adj[ch.debtor], ch)
  }

  /** No creditor owes anything: no member both owes and is owed. */
  ghost predicate Settled(g: Graph)
  {
    forall n, c :: n in g.adj && HasCreditor(g.adj[n], c) ==> Debts(g, c) == []
  }

  /** The innermost loop: the first entry `next: b` of the creditor's inner dict with
    * `min(a, b) > 0`. */
  function ChainVia(d: MemberId, c: MemberId, a: int, es: seq<Edge>): Option<Chain>
  {
    if es == [] then None
    else if Min(a, es[0].amount) > 0 then Some(Chain(d, c, es[0].creditor, Min(a, es[0].amount)))
    else ChainVia(d, c, a, es[1..])
  }

  /** The middle loop over the entries `es` of debtor `d`'s inner dict. */
  function ChainFrom(g: Graph, d: MemberId, es: seq<Edge>): Option<Chain>
  {
    if es == [] then None
    else match ChainVia(d, es[0].creditor, es[0].amount, Debts(g, es[0].creditor))
      case Some(ch) => Some(ch)
      case None => ChainFrom(g, d, es[1..])
  }

  /** The outer loop over the debtors `ns`. */
  function ChainAmong(g: Graph, ns: seq<MemberId>): Option<Chain>
  {
    if ns == [] then None
    else match ChainFrom(g, ns[0], Debts(g, ns[0]))
      case Some(ch) => Some(ch)
      case None => ChainAmong(g, ns[1..])
  }

  /** The chain one pass of the `while True` loop acts on, `None` when the pass finds none. */
  function FirstChain(g: Graph): Option<Chain>
  {
    ChainAmong(g, g.order)
  }

  lemma {:induction false} ChainFromSpec(g: Graph, d: MemberId, es: seq<Edge>)
    requires WellFormed(g) && DistinctCreditors(es) && AllPositive(es)
    ensures ChainFrom(g, d, es).Some? ==>
              ChainFrom(g, d, es).value.debtor == d && ChainThrough(g, es, ChainFrom(g, d, es).value)
    ensures ChainFrom(g, d, es).None? <==> forall c :: HasCreditor(es, c) ==> Debts(g, c) == []
    decreases |es|
  {
    if es != [] {
      var c := es[0].creditor;
      var ds := Debts(g, c);
      assert AllPositive(ds);
      if ChainVia(d, c, es[0].amount, ds).None? {
        assert ds == [];
        ChainFromSpec(g, d, es[1..]);
        if ChainFrom(g, d, es).Some? {
          var ch := ChainFrom(g, d, es).value;
          assert ch.creditor != c;
        }
      }
    }
  }

  lemma {:induction false} ChainAmongSpec(g: Graph, ns: seq<MemberId>)
    requires WellFormed(g) && forall n :: n in ns ==> n in g.adj
    ensures ChainAmong(g, ns).Some? ==> IsChain(g, ChainAmong(g, ns).value)
    ensures ChainAmong(g, ns).None? <==>
              forall n, c :: n in ns && HasCreditor(g.adj[n], c) ==> Debts(g, c) == []
    decreases |ns|
  {
    if ns != [] {
      ChainFromSpec(g, ns[0], g.adj[ns[0]]);
      ChainAmongSpec(g, ns[1..]);
      if ChainFrom(g, ns[0], g.adj[ns[0]]).None? {
        assert forall n :: n in ns ==> n == ns[0] || n in ns[1..];
      }
    }
  }

  /** A pass of the search finds a chain exactly when the graph is not settled, and what it finds
    * is a chain of the graph. */
  lemma FirstChainSpec(g: Graph)
    requires WellFormed(g)
    ensures FirstChain(g).Some? ==> IsChain(g, FirstChain(g).value)
    ensures FirstChain(g).None? <==> Settled(g)
  {
    ChainAmongSpec(g, g.order);
  }

  // ---- Collapsing a chain ----

  /** The body of the innermost `if` as written: take `min` off both links, deleting an entry
    * that reaches 0, then add it to the direct debt `debtor -> next`. `Err(KeyError)` is the
    * crash when the second decrement finds its entry deleted by the first. */
  function Collapse(g: Graph, ch: Chain): Result<Graph>
  {
    match Debit(Debts(g, ch.debtor), ch.creditor, ch.amount)
    case None => Err(KeyError)
    case Some(e1) =>
      var g1 := WithDebts(g, ch.debtor, e1);
      match Debit(Debts(g1, ch.creditor), ch.next, ch.amount)
      case None => Err(KeyError)
      case Some(e2) =>
        var g2 := WithDebts(g1, ch.creditor, e2);
        Ok(WithDebts(g2, ch.debtor, AddDebt(Debts(g2, ch.debtor), ch.next, ch.amount)))
  }

  /** Collapsing a chain crashes exactly on a self-debt chain `d -> d -> d`; otherwise it keeps
    * the graph well-formed, takes `min` off the total and leaves every position as it was. */
  lemma CollapseProps(g: Graph, ch: Chain)
    requires WellFormed(g) && IsChain(g, ch)
    ensures Collapse(g, ch).Err? <==> ch.debtor == ch.creditor == ch.next
    ensures Collapse(g, ch).Ok? ==> WellFormed(Collapse(g, ch).value)
    ensures Collapse(g, ch).Ok? ==> Collapse(g, ch).value.order == g.order
    ensures Collapse(g, ch).Ok? ==> Weight(Collapse(g, ch).value) == Weight(g) - ch.amount
    ensures Collapse(g, ch).Ok? ==> forall x :: Position(Collapse(g, ch).value, x) == Position(g, x)
  {
    if ch.debtor == ch.creditor == ch.next {
      CollapseSelfLoop(g, ch);
    } else {
      CollapseLinks(g, ch);
    }
  }

  /** On `d -> d -> d` the first decrement takes the whole entry `d: m` and deletes it, so the
    * second finds no entry. */
  lemma CollapseSelfLoop(g: Graph, ch: Chain)
    requires WellFormed(g) && IsChain(g, ch) && ch.debtor == ch.creditor == ch.next
    ensures Collapse(g, ch).Err?
  {
    var es := g.adj[ch.debtor];
    assert DistinctCreditors(es) && AmountOf(es, ch.debtor) == ch.amount;
    assert !HasCreditor(Debit(es, ch.debtor, ch.amount).value, ch.debtor);
  }

  /** Unless the chain is `d -> d -> d`, the second link is still present after the first
    * decrement and holds at least `min`. */
  lemma SecondLinkKept(g: Graph, ch: Chain)
    requires WellFormed(g) && IsChain(g, ch) && !(ch.debtor == ch.creditor == ch.next)
    ensures ch.creditor in g.adj
    ensures var g1 := WithDebts(g, ch.debtor, Debit(g.adj[ch.debtor], ch.creditor, ch.amount).value);
            HasCreditor(g1.adj[ch.creditor], ch.next) && ch.amount <= AmountOf(g1.adj[ch.creditor], ch.next)
  {
    assert ch.creditor in g.adj;
  }

  lemma CollapseLinks(g: Graph, ch: Chain)
    requires WellFormed(g) && IsChain(g, ch) && !(ch.debtor == ch.creditor == ch.next)
    ensures Collapse(g, ch).Ok?
    ensures WellFormed(Collapse(g, ch).value)
    ensures Collapse(g, ch).value.order == g.order
    ensures Weight(Collapse(g, ch).value) == Weight(g) - ch.amount
    ensures forall x :: Position(Collapse(g, ch).value, x) == Position(g, x)
  {
    var d, c, cc, m := ch.debtor, ch.creditor, ch.next, ch.amount;
    SecondLinkKept(g, ch);
    var g1 := WithDebts(g, d, Debit(g.adj[d], c, m).value);
    var g2 := WithDebts(g1, c, Debit(g1.adj[c], cc, m).value);
    TwoDebits(g, ch, g2);
    AddStep(g2, d, cc, m);
    assert Collapse(g, ch) == Ok(WithDebts(g2, d, AddDebt(g2.adj[d], cc, m)));
  }

  /** Both decrements of a chain other than `d -> d -> d`: `min` moves from the debtor's position
    * to the last member's, and the total drops by twice `min`. */
  lemma TwoDebits(g: Graph, ch: Chain, g2: Graph)
    requires WellFormed(g) && IsChain(g, ch) && !(ch.debtor == ch.creditor == ch.next)
    requires ch.creditor in g.adj
    requires var g1 := WithDebts(g, ch.debtor, Debit(g.adj[ch.debtor], ch.creditor, ch.amount).value);
      && HasCreditor(g1.adj[ch.creditor], ch.next)
      && g2 == WithDebts(g1, ch.creditor, Debit(g1.adj[ch.creditor], ch.next, ch.amount).value)
    ensures WellFormed(g2) && g2.order == g.order && Weight(g2) == Weight(g) - 2 * ch.amount
    ensures forall x :: Position(g2, x) == Position(g, x) - (if ch.debtor == x then ch.amount else 0)
                                                       + (if ch.next == x then ch.amount else 0)
    ensures NoSelfDebts(g) ==> NoSelfDebts(g2)
    ensures ch.debtor in g2.adj && ch.next in g2.adj
  {
    var d, c, cc, m := ch.debtor, ch.creditor, ch.next, ch.amount;
    DebitStep(g, d, c, m);
    SecondLinkKept(g, ch);
    var g1 := WithDebts(g, d, Debit(g.adj[d], c, m).value);
    DebitStep(g1, c, cc, m);
    assert cc in g2.adj;
  }

  /** The collapse with a self-debt never written: when the chain returns to its debtor
    * (`d -> c -> d`) both links are reduced and nothing is added. */
  function Cancel(g: Graph, ch: Chain): Graph
    requires WellFormed(g) && NoSelfDebts(g) && IsChain(g, ch)
  {
    var g1 := WithDebts(g, ch.debtor, Debit(g.adj[ch.debtor], ch.creditor, ch.amount).value);
    var g2 := WithDebts(g1, ch.creditor, Debit(g1.adj[ch.creditor], ch.next, ch.amount).value);
    if ch.debtor == ch.next then g2
    else WithDebts(g2, ch.debtor, AddDebt(g2.adj[ch.debtor], ch.next, ch.amount))
  }

  /** Cancelling a chain keeps the graph well-formed and free of self-debts, lowers the total by
    * `min` (twice `min` for a chain back to its debtor) and leaves every position as it was. */
  lemma CancelProps(g: Graph, ch: Chain)
    requires WellFormed(g) && NoSelfDebts(g) && IsChain(g, ch)
    ensures WellFormed(Cancel(g, ch)) && NoSelfDebts(Cancel(g, ch))
    ensures Cancel(g, ch).order == g.order
    ensures Weight(Cancel(g, ch)) == Weight(g) - (if ch.debtor == ch.next then 2 * ch.amount else ch.amount)
    ensures forall x :: Position(Cancel(g, ch), x) == Position(g, x)
  {
    var d, c, cc, m := ch.debtor, ch.creditor, ch.next, ch.amount;
    SecondLinkKept(g, ch);
    var g1 := WithDebts(g, d, Debit(g.adj[d], c, m).value);
    var g2 := WithDebts(g1, c, Debit(g1.adj[c], cc, m).value);
    TwoDebits(g, ch, g2);
    if d != cc {
      AddStep(g2, d, cc, m);
    }
  }

  /** Apart from a chain back to its debtor, cancelling is collapsing as written. */
  lemma CancelAgrees(g: Graph, ch: Chain)
    requires WellFormed(g) && NoSelfDebts(g) && IsChain(g, ch) && ch.debtor != ch.next
    ensures Collapse(g, ch) == Ok(Cancel(g, ch))
  {
    assert ch.debtor in g.adj;
  }

  // ---- The `while True` loop ----

  lemma WeightNonNegative(g: Graph)
    requires WellFormed(g)
    ensures Weight(g) >= 0
  {
    WeightOverNonNegative(g.order, g.adj);
  }

  /** The loop as written: collapse the first chain until a pass finds none, or crash. */
  function SettleAsWritten(g: Graph): Result<Graph>
    requires WellFormed(g)
    decreases Weight(g)
  {
    WeightNonNegative(g);
    match FirstChain(g)
    case None => Ok(g)
    case Some(ch) =>
      FirstChainSpec(g);
      CollapseProps(g, ch);
      match Collapse(g, ch)
      case Err(e) => Err(e)
      case Ok(g') => SettleAsWritten(g')
  }

  /** When the loop as written does not crash, it ends like the corrected one: in a settled,
    * well-formed graph over the same members in which every position is what it was. */
  lemma {:induction false} SettleAsWrittenProps(g: Graph)
    requires WellFormed(g)
    ensures SettleAsWritten(g).Ok? ==> WellFormed(SettleAsWritten(g).value) && Settled(SettleAsWritten(g).value)
    ensures SettleAsWritten(g).Ok? ==> SettleAsWritten(g).value.order == g.order
    ensures SettleAsWritten(g).Ok? ==> forall x :: Position(SettleAsWritten(g).value, x) == Position(g, x)
    decreases Weight(g)
  {
    FirstChainSpec(g);
    WeightNonNegative(g);
    if FirstChain(g).Some? {
      var ch := FirstChain(g).value;
      CollapseProps(g, ch);
      if Collapse(g, ch).Ok? {
        SettleAsWrittenProps(Collapse(g, ch).value);
      }
    }
  }

  /** The loop with `Cancel` for the collapse. */
  function Settle(g: Graph): Graph
    requires WellFormed(g) && NoSelfDebts(g)
    decreases Weight(g)
  {
    WeightNonNegative(g);
    match FirstChain(g)
    case None => g
    case Some(ch) =>
      FirstChainSpec(g);
      CancelProps(g, ch);
      Settle(Cancel(g, ch))
  }

  /** Settling ends in a settled, well-formed graph over the same members in which every
    * member's position is what it was. */
  lemma {:induction false} SettleProps(g: Graph)
    requires WellFormed(g) && NoSelfDebts(g)
    ensures WellFormed(Settle(g)) && NoSelfDebts(Settle(g)) && Settled(Settle(g))
    ensures Settle(g).order == g.order
    ensures forall x :: Position(Settle(g), x) == Position(g, x)
    decreases Weight(g)
  {
    FirstChainSpec(g);
    WeightNonNegative(g);
    if FirstChain(g).Some? {
      var ch := FirstChain(g).value;
      CancelProps(g, ch);
      SettleProps(Cancel(g, ch));
    }
  }

  /** Every inner dict without its self-debt: a member owing itself owes nobody. */
  function DropSelfDebts(g: Graph): Graph
  {
    Graph(g.order, map n | n in g.adj :: Without(g.adj[n], n))
  }

  lemma {:induction false} PositionOverSame(ns: seq<MemberId>, a: map<MemberId, seq<Edge>>, b: map<MemberId, seq<Edge>>, x: MemberId)
    requires forall n :: n in ns ==> ListPos(n, Entries(a, n), x) == ListPos(n, Entries(b, n), x)
    ensures PositionOver(ns, a, x) == PositionOver(ns, b, x)
    decreases |ns|
  {
    if ns != [] {
      PositionOverSame(ns[..|ns| - 1], a, b, x);
    }
  }

  /** Dropping self-debts keeps the graph well-formed, leaves no self-debt and changes no
    * position. */
  lemma DropSelfDebtsProps(g: Graph)
    requires WellFormed(g)
    ensures WellFormed(DropSelfDebts(g)) && NoSelfDebts(DropSelfDebts(g))
    ensures DropSelfDebts(g).order == g.order
    ensures forall x :: Position(DropSelfDebts(g), x) == Position(g, x)
  {
    var h := DropSelfDebts(g);
    forall x ensures Position(h, x) == Position(g, x) {
      PositionOverSame(g.order, h.adj, g.adj, x);
    }
  }
}
