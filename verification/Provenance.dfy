/**
 * Which sema sites an input expression may draw on, through variable initializers and the
 * assignments that may reach the consumer.
 */
module Provenance {
  import opened DependencyGraph
  import opened Outcomes

  type Symbol = nat

  /** An expression as far as provenance goes: sema sites and references at the leaves. */
  datatype Expr = SiteLeaf(id: Id) | Ref(symbol: Symbol) | Node(children: seq<Expr>)

  /**
   * A program as one consumer sees it: the initializers of each symbol, the assigned
   * expressions that may reach the consumer, and the symbols whose assignments count.
   */
  datatype View = View(initializers: map<Symbol, seq<Expr>>, writes: map<Symbol, seq<Expr>>, tracked: set<Symbol>)

  function Initializers(view: View, symbol: Symbol): seq<Expr> {
    if symbol in view.initializers then view.initializers[symbol] else []
  }

  function Writes(view: View, symbol: Symbol): seq<Expr> {
    if symbol in view.tracked && symbol in view.writes then view.writes[symbol] else []
  }

  // ----- reachability, defined by paths

  ghost predicate Contains(e: Expr, id: Id) {
    match e
    case SiteLeaf(own) => own == id
    case Ref(_) => false
    case Node(children) => exists i :: 0 <= i < |children| && Contains(children[i], id)
  }

  ghost predicate Mentions(e: Expr, symbol: Symbol) {
    match e
    case SiteLeaf(_) => false
    case Ref(own) => own == symbol
    case Node(children) => exists i :: 0 <= i < |children| && Mentions(children[i], symbol)
  }

  ghost predicate IsBody(view: View, symbol: Symbol, body: Expr) {
    body in Initializers(view, symbol) || body in Writes(view, symbol)
  }

  ghost predicate Holds(view: View, symbol: Symbol, id: Id) {
    exists body :: IsBody(view, symbol, body) && Contains(body, id)
  }

  ghost predicate RefersTo(view: View, from: Symbol, to: Symbol) {
    exists body :: IsBody(view, from, body) && Mentions(body, to)
  }

  /** A reference from an initializer, not from an assignment. */
  ghost predicate Initializes(view: View, from: Symbol, to: Symbol) {
    exists body :: body in Initializers(view, from) && Mentions(body, to)
  }

  ghost predicate Step(view: View, path: seq<Symbol>, i: int) {
    0 <= i < |path| - 1 && RefersTo(view, path[i], path[i + 1])
  }

  ghost predicate IsPath(view: View, path: seq<Symbol>) {
    forall i :: 0 <= i < |path| - 1 ==> Step(view, path, i)
  }

  ghost predicate Avoids(path: seq<Symbol>, avoided: set<Symbol>) {
    forall i :: 0 <= i < |path| ==> path[i] !in avoided
  }

  /** A reference path from `symbol` to a symbol that holds the site, clear of `avoided`. */
  ghost predicate Leads(view: View, path: seq<Symbol>, symbol: Symbol, id: Id, avoided: set<Symbol>) {
    && path != [] && path[0] == symbol
    && IsPath(view, path) && Avoids(path, avoided)
    && Holds(view, path[|path| - 1], id)
  }

  ghost predicate Reaches(view: View, symbol: Symbol, id: Id, avoided: set<Symbol>) {
    exists path :: Leads(view, path, symbol, id, avoided)
  }

  ghost predicate ExprReaches(view: View, e: Expr, id: Id, avoided: set<Symbol>) {
    Contains(e, id) || exists symbol :: Mentions(e, symbol) && Reaches(view, symbol, id, avoided)
  }

  /** A path of references that comes back to the symbol it started from. */
  ghost predicate IsProvenanceCycle(view: View, path: seq<Symbol>) {
    |path| >= 2 && path[0] == path[|path| - 1] && IsPath(view, path)
  }

  /** Such a path that leaves its start through an initializer: the only kind that may be reported. */
  ghost predicate IsInitializerCycle(view: View, path: seq<Symbol>) {
    IsProvenanceCycle(view, path) && Initializes(view, path[0], path[1])
  }

  ghost predicate InitializerStep(view: View, path: seq<Symbol>, i: int) {
    0 <= i < |path| - 1 && Initializes(view, path[i], path[i + 1])
  }

  /** A path from the symbol along initializers alone that comes back to a symbol it has been at. */
  ghost predicate RunsInCircles(view: View, path: seq<Symbol>, symbol: Symbol) {
    && path != [] && path[0] == symbol
    && (forall i :: 0 <= i < |path| - 1 ==> InitializerStep(view, path, i))
    && exists i, j :: 0 <= i < j < |path| && path[i] == path[j]
  }

  /** Following initializers from the symbol never runs in circles. */
  ghost predicate Grounded(view: View, symbol: Symbol) {
    forall path :: !RunsInCircles(view, path, symbol)
  }

  ghost predicate ExprGrounded(view: View, e: Expr) {
    forall symbol :: Mentions(e, symbol) ==> Grounded(view, symbol)
  }

  /** A symbol is grounded when everything its initializers mention is. */
  lemma {:induction false} GroundedByInitializers(view: View, symbol: Symbol)
    requires forall body :: body in Initializers(view, symbol) ==> ExprGrounded(view, body)
    ensures Grounded(view, symbol)
  {
    forall path
      ensures !RunsInCircles(view, path, symbol)
    {
      if RunsInCircles(view, path, symbol) {
        var i, j :| 0 <= i < j < |path| && path[i] == path[j];
        assert InitializerStep(view, path, 0);
        NextRunsInCircles(view, path, i, j);
        NextIsGrounded(view, path);
      }
    }
  }

  lemma {:induction false} NextIsGrounded(view: View, path: seq<Symbol>)
    requires |path| >= 2 && InitializerStep(view, path, 0)
    requires forall body :: body in Initializers(view, path[0]) ==> ExprGrounded(view, body)
    ensures Grounded(view, path[1])
  {
    var body :| body in Initializers(view, path[0]) && Mentions(body, path[1]);
  }

  /** A path that runs in circles shows one that does from its second symbol. */
  lemma {:induction false} NextRunsInCircles(view: View, path: seq<Symbol>, i: nat, j: nat)
    requires i < j < |path| && path[i] == path[j]
    requires forall k :: 0 <= k < |path| - 1 ==> InitializerStep(view, path, k)
    ensures exists other :: RunsInCircles(view, other, path[1])
  {
    var other := if i == 0 then path[1..j + 1] + [path[1]] else path[1..];
    forall k | 0 <= k < |other| - 1
      ensures InitializerStep(view, other, k)
    {
      assert InitializerStep(view, path, 0);
      assert k + 1 < |path| - 1 ==> InitializerStep(view, path, k + 1);
    }
    assert other[0] == path[1];
    assert if i == 0 then other[0] == other[|other| - 1] else other[i - 1] == other[j - 1];
    assert RunsInCircles(view, other, path[1]);
  }

  lemma {:induction false} AvoidingLess(view: View, symbol: Symbol, id: Id, more: set<Symbol>, fewer: set<Symbol>)
    requires fewer <= more
    ensures Reaches(view, symbol, id, more) ==> Reaches(view, symbol, id, fewer)
  {
    if Reaches(view, symbol, id, more) {
      var path :| Leads(view, path, symbol, id, more);
      assert Leads(view, path, symbol, id, fewer);
    }
  }

  lemma {:induction false} ExprAvoidingLess(view: View, e: Expr, id: Id, more: set<Symbol>, fewer: set<Symbol>)
    requires fewer <= more && ExprReaches(view, e, id, more)
    ensures ExprReaches(view, e, id, fewer)
  {
    if !Contains(e, id) {
      var symbol :| Mentions(e, symbol) && Reaches(view, symbol, id, more);
      AvoidingLess(view, symbol, id, more, fewer);
    }
  }

  function LastVisit(path: seq<Symbol>, symbol: Symbol): (at: nat)
    requires symbol in path
    ensures at < |path| && path[at] == symbol
    ensures forall later :: at < later < |path| ==> path[later] != symbol
  {
    if path[|path| - 1] == symbol then |path| - 1 else LastVisit(path[..|path| - 1], symbol)
  }

  lemma {:induction false} TailIsPath(view: View, path: seq<Symbol>, from: nat)
    requires IsPath(view, path) && from <= |path|
    ensures IsPath(view, path[from..])
  {
    forall i | 0 <= i < |path[from..]| - 1
      ensures Step(view, path[from..], i)
    {
      assert Step(view, path, from + i);
    }
  }

  /** A site reached from a symbol is reached from one of its bodies without coming back to the symbol. */
  lemma {:induction false} ReachedWithoutReturn(view: View, symbol: Symbol, id: Id, avoided: set<Symbol>)
    returns (body: Expr)
    requires Reaches(view, symbol, id, avoided)
    ensures IsBody(view, symbol, body) && ExprReaches(view, body, id, avoided + {symbol})
  {
    var path :| Leads(view, path, symbol, id, avoided);
    var at := LastVisit(path, symbol);
    if at == |path| - 1 {
      body :| IsBody(view, symbol, body) && Contains(body, id);
    } else {
      assert Step(view, path, at);
      body :| IsBody(view, symbol, body) && Mentions(body, path[at + 1]);
      TailIsPath(view, path, at + 1);
      assert Leads(view, path[at + 1..], path[at + 1], id, avoided + {symbol});
    }
  }

  /** What a body of a symbol reaches, the symbol reaches. */
  lemma {:induction false} BodyReaches(view: View, symbol: Symbol, body: Expr, id: Id)
    requires IsBody(view, symbol, body) && ExprReaches(view, body, id, {})
    ensures Reaches(view, symbol, id, {})
  {
    if Contains(body, id) {
      assert Leads(view, [symbol], symbol, id, {});
    } else {
      var next :| Mentions(body, next) && Reaches(view, next, id, {});
      var path :| Leads(view, path, next, id, {});
      var longer := [symbol] + path;
      forall i | 0 <= i < |longer| - 1
        ensures Step(view, longer, i)
      {
        assert i > 0 ==> Step(view, path, i - 1);
      }
      assert Leads(view, longer, symbol, id, {});
    }
  }

  // ----- the resolver

  datatype Failure = Budget | Cycle(path: seq<Symbol>)

  type Answer = Result<set<Id>, Failure>

  /**
   * Everything the expression reaches clear of `ignored`, and nothing it does not reach at all; and with
   * nothing ignored, no initializers run in circles below it.
   */
  ghost predicate Bounded(view: View, e: Expr, ignored: set<Symbol>, found: set<Id>) {
    && (ignored == {} ==> ExprGrounded(view, e))
    && (forall id :: ExprReaches(view, e, id, ignored) ==> id in found)
    && (forall id :: id in found ==> ExprReaches(view, e, id, {}))
  }

  ghost predicate SymbolBounded(view: View, symbol: Symbol, ignored: set<Symbol>, found: set<Id>) {
    && (ignored == {} ==> Grounded(view, symbol))
    && (forall id :: Reaches(view, symbol, id, ignored) ==> id in found)
    && (forall id :: id in found ==> Reaches(view, symbol, id, {}))
  }

  ghost predicate MemoRight(view: View, memo: map<Symbol, set<Id>>) {
    forall symbol :: symbol in memo ==> SymbolBounded(view, symbol, {}, memo[symbol])
  }

  /**
   * Where the symbol counts, its reference to the next is from an initializer: its assignments are not
   * being resolved.
   */
  ghost predicate Refers(view: View, from: Symbol, to: Symbol, ignored: set<Symbol>) {
    RefersTo(view, from, to) && (from !in ignored ==> Initializes(view, from, to))
  }

  ghost predicate ActiveStep(view: View, active: seq<Symbol>, ignored: set<Symbol>, i: int) {
    0 <= i < |active| - 1 && Refers(view, active[i], active[i + 1], ignored)
  }

  /** The symbols being resolved form a reference path, along initializers where they are not ignored. */
  ghost predicate IsActive(view: View, active: seq<Symbol>, ignored: set<Symbol>) {
    forall i :: 0 <= i < |active| - 1 ==> ActiveStep(view, active, ignored, i)
  }

  ghost predicate Continues(view: View, active: seq<Symbol>, ignored: set<Symbol>, symbol: Symbol) {
    active != [] ==> Refers(view, active[|active| - 1], symbol, ignored)
  }

  /** The current expression belongs to the last symbol being resolved. */
  ghost predicate Exploring(view: View, active: seq<Symbol>, ignored: set<Symbol>, e: Expr) {
    IsActive(view, active, ignored) && forall symbol :: Mentions(e, symbol) ==> Continues(view, active, ignored, symbol)
  }

  ghost predicate AllExploring(view: View, active: seq<Symbol>, ignored: set<Symbol>, es: seq<Expr>) {
    forall i :: 0 <= i < |es| ==> Exploring(view, active, ignored, es[i])
  }

  lemma {:induction false} ActiveCycle(view: View, active: seq<Symbol>, ignored: set<Symbol>, symbol: Symbol,
      start: nat)
    requires IsActive(view, active, ignored) && start < |active| && active[start] == symbol && symbol !in ignored
    requires Continues(view, active, ignored, symbol)
    ensures IsInitializerCycle(view, active[start..] + [symbol])
  {
    var path := active[start..] + [symbol];
    forall i | 0 <= i < |path| - 1
      ensures Step(view, path, i) && Refers(view, path[i], path[i + 1], ignored)
    {
      assert start + i < |active| - 1 ==> ActiveStep(view, active, ignored, start + i);
    }
    assert Refers(view, path[0], path[1], ignored);
  }

  function FirstIndex(symbols: seq<Symbol>, symbol: Symbol): (at: int)
    ensures -1 <= at < |symbols|
    ensures at >= 0 ==> symbols[at] == symbol
    ensures at < 0 <==> symbol !in symbols
  {
    if symbols == [] then -1
    else if symbols[0] == symbol then 0
    else var rest := FirstIndex(symbols[1..], symbol); if rest < 0 then -1 else rest + 1
  }

  // ----- how deep and how costly a resolution can be

  /** Following children, references and bodies for `n` levels is possible. */
  ghost predicate Descends(view: View, e: Expr, n: nat)
    decreases n
  {
    n == 0 ||
    match e
    case SiteLeaf(_) => false
    case Ref(symbol) => SymbolDescends(view, symbol, n - 1)
    case Node(children) => exists i :: 0 <= i < |children| && Descends(view, children[i], n - 1)
  }

  ghost predicate AnyDescends(view: View, es: seq<Expr>, n: nat) {
    exists i :: 0 <= i < |es| && Descends(view, es[i], n)
  }

  ghost predicate SymbolDescends(view: View, symbol: Symbol, n: nat)
    decreases n
  {
    n == 0 || exists body :: IsBody(view, symbol, body) && Descends(view, body, n - 1)
  }

  /**
   * The work of resolving an expression without memo in `n` levels, among `m` sites: one unit a visit,
   * one an element merged.
   */
  ghost function Cost(view: View, e: Expr, n: nat, m: nat): nat
    decreases n, 0, 0
  {
    if n == 0 then 0
    else 1 + match e
         case SiteLeaf(_) => 0
         case Ref(symbol) => SymbolCost(view, symbol, n - 1, m)
         case Node(children) => CostOfFirst(view, children, |children|, n - 1, m)
  }

  ghost function SymbolCost(view: View, symbol: Symbol, n: nat, m: nat): nat
    decreases n, 0, 0
  {
    if n == 0 then 0
    else 1 + BodiesCost(view, Initializers(view, symbol), n - 1, m) + BodiesCost(view, Writes(view, symbol), n - 1, m)
  }

  ghost function BodiesCost(view: View, bodies: seq<Expr>, n: nat, m: nat): nat
    decreases n, 2, 0
  {
    CostOfFirst(view, bodies, |bodies|, n, m)
  }

  /** The work of the first `k` expressions, with merging what they give. */
  ghost function CostOfFirst(view: View, es: seq<Expr>, k: nat, n: nat, m: nat): nat
    requires k <= |es|
    decreases n, 1, k
  {
    if k == 0 then 0 else CostOfFirst(view, es, k - 1, n, m) + Cost(view, es[k - 1], n, m) + m
  }

  lemma {:induction false} CostOfFirstGrows(view: View, es: seq<Expr>, k: nat, n: nat, m: nat)
    requires k <= |es|
    ensures CostOfFirst(view, es, k, n, m) <= CostOfFirst(view, es, |es|, n, m)
    decreases |es| - k
  {
    if k < |es| {
      CostOfFirstGrows(view, es, k + 1, n, m);
    }
  }

  /** All sites the expression reaches are among these. */
  ghost predicate ReachesOnly(view: View, e: Expr, sites: set<Id>) {
    forall id :: ExprReaches(view, e, id, {}) ==> id in sites
  }

  ghost predicate AllReachOnly(view: View, es: seq<Expr>, sites: set<Id>) {
    forall i :: 0 <= i < |es| ==> ReachesOnly(view, es[i], sites)
  }

  ghost predicate SymbolReachesOnly(view: View, symbol: Symbol, sites: set<Id>) {
    forall id :: Reaches(view, symbol, id, {}) ==> id in sites
  }

  lemma {:induction false} ChildReachesOnly(view: View, children: seq<Expr>, i: nat, sites: set<Id>)
    requires i < |children| && ReachesOnly(view, Node(children), sites)
    ensures ReachesOnly(view, children[i], sites)
  {
    forall id | ExprReaches(view, children[i], id, {})
      ensures id in sites
    {
      if Contains(children[i], id) {
        assert Contains(Node(children), id);
      } else {
        var symbol :| Mentions(children[i], symbol) && Reaches(view, symbol, id, {});
        assert Mentions(Node(children), symbol);
      }
      assert ExprReaches(view, Node(children), id, {});
    }
  }

  lemma {:induction false} RefReachesOnly(view: View, symbol: Symbol, sites: set<Id>)
    requires ReachesOnly(view, Ref(symbol), sites)
    ensures SymbolReachesOnly(view, symbol, sites)
  {
    forall id | Reaches(view, symbol, id, {})
      ensures id in sites
    {
      assert Mentions(Ref(symbol), symbol);
      assert ExprReaches(view, Ref(symbol), id, {});
    }
  }

  lemma {:induction false} BodyReachesOnly(view: View, symbol: Symbol, body: Expr, sites: set<Id>)
    requires SymbolReachesOnly(view, symbol, sites) && IsBody(view, symbol, body)
    ensures ReachesOnly(view, body, sites)
  {
    forall id | ExprReaches(view, body, id, {})
      ensures id in sites
    {
      BodyReaches(view, symbol, body, id);
    }
  }

  lemma {:induction false} FewFound(view: View, e: Expr, ignored: set<Symbol>, found: set<Id>, sites: set<Id>)
    requires Bounded(view, e, ignored, found) && ReachesOnly(view, e, sites)
    ensures |found| <= |sites|
  {
    assert found <= sites;
    SubsetIsSmaller(found, sites);
  }

  class ProvenanceResolver {
    const maximumDepth: nat
    const maximumWork: nat
    var symbolMemo: map<Symbol, set<Id>>
    var activeSymbols: seq<Symbol>
    var ignoredSymbols: set<Symbol>
    var work: nat

    constructor (maximumDepth: nat, maximumWork: nat)
      ensures this.maximumDepth == maximumDepth && this.maximumWork == maximumWork
      ensures activeSymbols == [] && ignoredSymbols == {} && work == 0
    {
      this.maximumDepth, this.maximumWork := maximumDepth, maximumWork;
      symbolMemo, activeSymbols, ignoredSymbols, work := map[], [], {}, 0;
    }

    /** Charges one unit of work; false once the budget is exceeded. */
    method ConsumeWork() returns (within: bool)
      modifies `work
      ensures work == old(work) + 1
      ensures within <==> work <= maximumWork
    {
      work := work + 1;
      within := work <= maximumWork;
    }

    method Consume(depth: nat) returns (within: bool)
      modifies `work
      ensures work == if depth <= maximumDepth then old(work) + 1 else old(work)
      ensures within <==> depth <= maximumDepth && work <= maximumWork
    {
      if depth > maximumDepth {
        return false;
      }
      within := ConsumeWork();
    }

    /** Adds the source to the target, charging one unit for every element. */
    method Merge(target: set<Id>, source: set<Id>) returns (within: bool, merged: set<Id>)
      requires work <= maximumWork
      modifies `work
      ensures within <==> old(work) + |source| <= maximumWork
      ensures within ==> merged == target + source && work == old(work) + |source|
      ensures !within ==> work == maximumWork + 1
    {
      merged := target;
      var rest := source;
      while rest != {}
        invariant rest <= source
        invariant merged == target + (source - rest)
        invariant work + |rest| == old(work) + |source| && work <= maximumWork
        decreases rest
      {
        var value :| value in rest;
        within := ConsumeWork();
        if !within {
          return;
        }
        merged := merged + {value};
        rest := rest - {value};
      }
      within := true;
    }

    /** Levels below the given one, itself included, that the depth limit allows. */
    ghost function Levels(depth: nat): nat
      requires depth <= maximumDepth + 1
    {
      maximumDepth + 1 - depth
    }

    /**
     * The work charged stays within the cost, and a budget failure has a cause: the work limit is
     * passed by the one unit that failed, or the traversal can go deeper than the depth limit.
     */
    ghost predicate Charged(before: nat, after: nat, cost: nat, failure: bool, deep: bool) {
      && before <= after <= before + cost
      && (failure ==> after == maximumWork + 1 || (deep && after <= maximumWork))
      && (!failure ==> after <= maximumWork)
    }

    /**
     * The sites the expression draws on for this consumer. Memo entries of another consumer
     * never answer for this one, and the traversal state is restored whatever happens.
     */
    method ForExpression(view: View, expression: Expr, ghost sites: set<Id>) returns (answer: Answer)
      requires activeSymbols == [] && ignoredSymbols == {}
      requires work <= maximumWork && ReachesOnly(view, expression, sites)
      modifies this
      ensures activeSymbols == [] && ignoredSymbols == {}
      ensures answer.Ok? ==> forall id :: id in answer.value <==> ExprReaches(view, expression, id, {})
      ensures answer.Ok? ==> forall symbol, id :: symbol in symbolMemo ==>
                               (id in symbolMemo[symbol] <==> Reaches(view, symbol, id, {}))
      ensures answer.Err? && answer.error.Cycle? ==> IsInitializerCycle(view, answer.error.path)
      ensures answer.Ok? ==> ExprGrounded(view, expression)
      ensures Charged(old(work), work, Cost(view, expression, maximumDepth + 1, |sites|), answer == Err(Budget),
                      Descends(view, expression, maximumDepth + 1))
    {
      symbolMemo := map[];
      answer := ForNode(view, expression, 0, sites);
    }

    method ForNode(view: View, node: Expr, depth: nat, ghost sites: set<Id>) returns (answer: Answer)
      requires MemoRight(view, symbolMemo) && Exploring(view, activeSymbols, ignoredSymbols, node)
      requires depth <= maximumDepth + 1 && work <= maximumWork && ReachesOnly(view, node, sites)
      modifies this
      ensures activeSymbols == old(activeSymbols) && ignoredSymbols == old(ignoredSymbols)
      ensures MemoRight(view, symbolMemo)
      ensures answer.Ok? ==> Bounded(view, node, ignoredSymbols, answer.value)
      ensures answer.Err? && answer.error.Cycle? ==> IsInitializerCycle(view, answer.error.path)
      ensures Charged(old(work), work, Cost(view, node, Levels(depth), |sites|), answer == Err(Budget),
              Descends(view, node, Levels(depth)))
      decreases Levels(depth), 0
    {
      var within := Consume(depth);
      if !within {
        return Err(Budget);
      }
      match node {
        case SiteLeaf(id) =>
          return Ok({id});
        case Ref(symbol) =>
          if symbol in ignoredSymbols {
            IgnoredReachesNothing(view, symbol, ignoredSymbols);
            return Ok({});
          }
          assert Mentions(node, symbol);
          RefReachesOnly(view, symbol, sites);
          answer := ForSymbol(view, symbol, depth + 1, sites);
          if answer.Ok? {
            RefBounded(view, symbol, ignoredSymbols, answer.value);
          }
        case Node(children) =>
          ChildrenExplored(view, activeSymbols, ignoredSymbols, children, sites);
          answer := ForAll(view, children, {}, depth + 1, sites);
          if answer.Ok? {
            NodeBounded(view, children, ignoredSymbols, answer.value);
          }
      }
    }

    /** Resolves one expression and merges what it gives into the target. */
    method ForOne(view: View, e: Expr, target: set<Id>, depth: nat, ghost sites: set<Id>)
      returns (answer: Answer, ghost found: set<Id>)
      requires MemoRight(view, symbolMemo) && Exploring(view, activeSymbols, ignoredSymbols, e)
      requires depth <= maximumDepth + 1 && work <= maximumWork && ReachesOnly(view, e, sites)
      modifies this
      ensures activeSymbols == old(activeSymbols) && ignoredSymbols == old(ignoredSymbols)
      ensures MemoRight(view, symbolMemo)
      ensures answer.Ok? ==> Bounded(view, e, ignoredSymbols, found) && answer.value == target + found
      ensures answer.Err? && answer.error.Cycle? ==> IsInitializerCycle(view, answer.error.path)
      ensures Charged(old(work), work, Cost(view, e, Levels(depth), |sites|) + |sites|, answer == Err(Budget),
                      Descends(view, e, Levels(depth)))
      decreases Levels(depth), 1
    {
      found := {};
      answer := ForNode(view, e, depth, sites);
      if answer.Err? {
        return;
      }
      found := answer.value;
      FewFound(view, e, ignoredSymbols, found, sites);
      var within, merged := Merge(target, answer.value);
      answer := if within then Ok(merged) else Err(Budget);
    }

    /** Resolves expressions that belong to the same symbol and merges what they give into the target. */
    method ForAll(view: View, es: seq<Expr>, target: set<Id>, depth: nat, ghost sites: set<Id>) returns (answer: Answer)
      requires MemoRight(view, symbolMemo) && AllExploring(view, activeSymbols, ignoredSymbols, es)
      requires depth <= maximumDepth + 1 && work <= maximumWork && AllReachOnly(view, es, sites)
      modifies this
      ensures activeSymbols == old(activeSymbols) && ignoredSymbols == old(ignoredSymbols)
      ensures MemoRight(view, symbolMemo)
      ensures answer.Ok? ==> MergedInto(view, es, ignoredSymbols, target, answer.value)
      ensures answer.Err? && answer.error.Cycle? ==> IsInitializerCycle(view, answer.error.path)
      ensures Charged(old(work), work, CostOfFirst(view, es, |es|, Levels(depth), |sites|), answer == Err(Budget),
                      AnyDescends(view, es, Levels(depth)))
      decreases Levels(depth), 2
    {
      var result := target;
      ghost var all: set<Id> := {};
      for i := 0 to |es|
        invariant activeSymbols == old(activeSymbols) && ignoredSymbols == old(ignoredSymbols)
        invariant MemoRight(view, symbolMemo)
        invariant AllBounded(view, es[..i], ignoredSymbols, all) && result == target + all
        invariant Charged(old(work), work, CostOfFirst(view, es, i, Levels(depth), |sites|), false, false)
      {
        CostOfFirstGrows(view, es, i + 1, Levels(depth), |sites|);
        ghost var found;
        answer, found := ForOne(view, es[i], result, depth, sites);
        if answer.Err? {
          return;
        }
        OneMoreBounded(view, es, i, ignoredSymbols, all, found);
        all := all + found;
        result := answer.value;
      }
      assert es[..|es|] == es;
      return Ok(result);
    }

    /** Resolves the initializers of the symbol on top of the stack, then its writes with the symbol ignored. */
    method ForOwnBodies(view: View, symbol: Symbol, depth: nat, ghost sites: set<Id>) returns (answer: Answer)
      requires MemoRight(view, symbolMemo) && activeSymbols != [] && activeSymbols[|activeSymbols| - 1] == symbol
      requires IsActive(view, activeSymbols, ignoredSymbols) && symbol !in ignoredSymbols
      requires depth <= maximumDepth + 1 && work <= maximumWork && SymbolReachesOnly(view, symbol, sites)
      modifies this
      ensures activeSymbols == old(activeSymbols) && ignoredSymbols == old(ignoredSymbols)
      ensures MemoRight(view, symbolMemo)
      ensures answer.Ok? ==> SymbolBounded(view, symbol, ignoredSymbols, answer.value)
      ensures answer.Err? && answer.error.Cycle? ==> IsInitializerCycle(view, answer.error.path)
      ensures Charged(old(work), work,
                      BodiesCost(view, Initializers(view, symbol), Levels(depth), |sites|)
                        + BodiesCost(view, Writes(view, symbol), Levels(depth), |sites|),
                      answer == Err(Budget), SymbolDescends(view, symbol, Levels(depth) + 1))
      decreases Levels(depth), 3
    {
      BodiesExplored(view, activeSymbols, ignoredSymbols, Initializers(view, symbol), sites);
      answer := ForAll(view, Initializers(view, symbol), {}, depth, sites);
      if answer.Err? {
        return;
      }
      ghost var initial := answer.value;
      if symbol in view.tracked {
        MoreIgnored(view, activeSymbols, ignoredSymbols, symbol);
        ignoredSymbols := ignoredSymbols + {symbol};
        BodiesExplored(view, activeSymbols, ignoredSymbols, Writes(view, symbol), sites);
        answer := ForAll(view, Writes(view, symbol), answer.value, depth, sites);
        ignoredSymbols := ignoredSymbols - {symbol};
      }
      if answer.Ok? {
        SymbolFromBodies(view, symbol, ignoredSymbols, initial, answer.value);
      }
    }

    method ForSymbol(view: View, symbol: Symbol, depth: nat, ghost sites: set<Id>) returns (answer: Answer)
      requires MemoRight(view, symbolMemo) && IsActive(view, activeSymbols, ignoredSymbols)
      requires symbol !in ignoredSymbols && Continues(view, activeSymbols, ignoredSymbols, symbol)
      requires depth <= maximumDepth + 1 && work <= maximumWork && SymbolReachesOnly(view, symbol, sites)
      modifies this
      ensures activeSymbols == old(activeSymbols) && ignoredSymbols == old(ignoredSymbols)
      ensures MemoRight(view, symbolMemo)
      ensures answer.Ok? ==> SymbolBounded(view, symbol, ignoredSymbols, answer.value)
      ensures answer.Err? && answer.error.Cycle? ==> IsInitializerCycle(view, answer.error.path)
      ensures Charged(old(work), work, SymbolCost(view, symbol, Levels(depth), |sites|), answer == Err(Budget),
                      SymbolDescends(view, symbol, Levels(depth)))
      decreases Levels(depth), 0
    {
      var within := Consume(depth);
      if !within {
        return Err(Budget);
      }
      if symbol in symbolMemo {
        WidenBound(view, symbol, ignoredSymbols, symbolMemo[symbol]);
        return Ok(symbolMemo[symbol]);
      }
      var cycleStart := FirstIndex(activeSymbols, symbol);
      if cycleStart >= 0 {
        ActiveCycle(view, activeSymbols, ignoredSymbols, symbol, cycleStart);
        return Err(Cycle(activeSymbols[cycleStart..] + [symbol]));
      }
      ActivePathGrows(view, activeSymbols, ignoredSymbols, symbol);
      activeSymbols := activeSymbols + [symbol];
      answer := ForOwnBodies(view, symbol, depth + 1, sites);
      activeSymbols := activeSymbols[..|activeSymbols| - 1];
      if answer.Ok? && ignoredSymbols == {} {
        symbolMemo := symbolMemo[symbol := answer.value];
      }
    }
  }

  /**
   * A program none of whose reference loops uses an initializer is never refused: whatever symbol the
   * analysis enters first, loops through assignments alone are no provenance cycles.
   */
  ghost predicate LoopsOnlyByAssignment(view: View) {
    forall path :: IsProvenanceCycle(view, path) ==> forall i :: 0 <= i < |path| - 1 ==> !InitializerStep(view, path, i)
  }

  lemma {:induction false} AssignmentLoopsAreNoCycles(view: View, path: seq<Symbol>)
    requires LoopsOnlyByAssignment(view)
    ensures !IsInitializerCycle(view, path)
  {
    if IsInitializerCycle(view, path) {
      assert InitializerStep(view, path, 0);
    }
  }

  /** A loop along initializers alone is always refused: no symbol on it is grounded. */
  lemma {:induction false} InitializerLoopsAreRefused(view: View, path: seq<Symbol>, e: Expr)
    requires |path| >= 2 && path[0] == path[|path| - 1] && Mentions(e, path[0])
    requires forall i :: 0 <= i < |path| - 1 ==> InitializerStep(view, path, i)
    ensures !ExprGrounded(view, e)
  {
    assert RunsInCircles(view, path, path[0]);
  }

  // ----- bounds under the operations of the resolver

  ghost predicate AllBounded(view: View, es: seq<Expr>, ignored: set<Symbol>, found: set<Id>) {
    && (ignored == {} ==> AllGrounded(view, es))
    && (forall e, id :: e in es && ExprReaches(view, e, id, ignored) ==> id in found)
    && (forall id :: id in found ==> AnyReaches(view, es, id))
  }

  /** What the expressions give, merged into a target. */
  ghost predicate MergedInto(view: View, es: seq<Expr>, ignored: set<Symbol>, target: set<Id>, merged: set<Id>) {
    exists found :: AllBounded(view, es, ignored, found) && merged == target + found
  }

  ghost predicate AllGrounded(view: View, es: seq<Expr>) {
    forall e :: e in es ==> ExprGrounded(view, e)
  }

  ghost predicate AnyReaches(view: View, es: seq<Expr>, id: Id) {
    exists e :: e in es && ExprReaches(view, e, id, {})
  }

  lemma {:induction false} OneMoreBounded(view: View, es: seq<Expr>, i: nat, ignored: set<Symbol>, found: set<Id>,
      more: set<Id>)
    requires i < |es| && AllBounded(view, es[..i], ignored, found) && Bounded(view, es[i], ignored, more)
    ensures AllBounded(view, es[..i + 1], ignored, found + more)
  {
    var longer := es[..i + 1];
    assert longer == es[..i] + [es[i]];
    assert es[i] in longer;
    forall id | id in found + more
      ensures AnyReaches(view, longer, id)
    {
      if id in found {
        assert AnyReaches(view, es[..i], id);
        var e :| e in es[..i] && ExprReaches(view, e, id, {});
        assert e in longer;
      }
    }
  }

  lemma {:induction false} NodeBounded(view: View, children: seq<Expr>, ignored: set<Symbol>, found: set<Id>)
    requires MergedInto(view, children, ignored, {}, found)
    ensures Bounded(view, Node(children), ignored, found)
  {
    assert AllBounded(view, children, ignored, found);
    if ignored == {} {
      forall symbol | Mentions(Node(children), symbol)
        ensures Grounded(view, symbol)
      {
        var i :| 0 <= i < |children| && Mentions(children[i], symbol);
        assert ExprGrounded(view, children[i]);
      }
    }
    forall id | ExprReaches(view, Node(children), id, ignored)
      ensures id in found
    {
      if Contains(Node(children), id) {
        var i :| 0 <= i < |children| && Contains(children[i], id);
        assert children[i] in children && ExprReaches(view, children[i], id, ignored);
      } else {
        var symbol :| Mentions(Node(children), symbol) && Reaches(view, symbol, id, ignored);
        var i :| 0 <= i < |children| && Mentions(children[i], symbol);
        assert children[i] in children && ExprReaches(view, children[i], id, ignored);
      }
    }
    forall id | id in found
      ensures ExprReaches(view, Node(children), id, {})
    {
      assert AnyReaches(view, children, id);
      var e :| e in children && ExprReaches(view, e, id, {});
      var i :| 0 <= i < |children| && children[i] == e;
      if Contains(e, id) {
        assert Contains(Node(children), id);
      } else {
        var symbol :| Mentions(e, symbol) && Reaches(view, symbol, id, {});
        assert Mentions(Node(children), symbol);
      }
    }
  }

  lemma {:induction false} RefBounded(view: View, symbol: Symbol, ignored: set<Symbol>, found: set<Id>)
    requires SymbolBounded(view, symbol, ignored, found)
    ensures Bounded(view, Ref(symbol), ignored, found)
  {
    forall id, avoided
      ensures ExprReaches(view, Ref(symbol), id, avoided) <==> Reaches(view, symbol, id, avoided)
    {
      assert Mentions(Ref(symbol), symbol);
    }
  }

  lemma {:induction false} IgnoredReachesNothing(view: View, symbol: Symbol, ignored: set<Symbol>)
    requires symbol in ignored
    ensures Bounded(view, Ref(symbol), ignored, {})
  {
    forall id, path
      ensures !Leads(view, path, symbol, id, ignored)
    {
    }
  }

  lemma {:induction false} WidenBound(view: View, symbol: Symbol, ignored: set<Symbol>, found: set<Id>)
    requires SymbolBounded(view, symbol, {}, found)
    ensures SymbolBounded(view, symbol, ignored, found)
  {
    forall id | Reaches(view, symbol, id, ignored)
      ensures id in found
    {
      AvoidingLess(view, symbol, id, ignored, {});
    }
  }

  lemma {:induction false} ChildrenExplored(view: View, active: seq<Symbol>, ignored: set<Symbol>, children: seq<Expr>,
      sites: set<Id>)
    requires Exploring(view, active, ignored, Node(children)) && ReachesOnly(view, Node(children), sites)
    ensures AllExploring(view, active, ignored, children) && AllReachOnly(view, children, sites)
  {
    forall i | 0 <= i < |children|
      ensures Exploring(view, active, ignored, children[i]) && ReachesOnly(view, children[i], sites)
    {
      ChildReachesOnly(view, children, i, sites);
      assert forall symbol :: Mentions(children[i], symbol) ==> Mentions(Node(children), symbol);
    }
  }

  lemma {:induction false} BodiesExplored(view: View, active: seq<Symbol>, ignored: set<Symbol>, bodies: seq<Expr>,
      sites: set<Id>)
    requires IsActive(view, active, ignored) && active != []
    requires var symbol := active[|active| - 1];
             && SymbolReachesOnly(view, symbol, sites)
             && (forall body :: body in bodies ==> IsBody(view, symbol, body))
             && (symbol in ignored || bodies == Initializers(view, symbol))
    ensures AllExploring(view, active, ignored, bodies) && AllReachOnly(view, bodies, sites)
    ensures forall n: nat :: AnyDescends(view, bodies, n) ==> SymbolDescends(view, active[|active| - 1], n + 1)
  {
    var last := active[|active| - 1];
    forall i | 0 <= i < |bodies|
      ensures Exploring(view, active, ignored, bodies[i]) && ReachesOnly(view, bodies[i], sites)
    {
      assert bodies[i] in bodies;
      BodyReachesOnly(view, last, bodies[i], sites);
      assert forall symbol :: Mentions(bodies[i], symbol) ==> RefersTo(view, last, symbol);
    }
    forall n: nat | AnyDescends(view, bodies, n)
      ensures SymbolDescends(view, last, n + 1)
    {
      var i :| 0 <= i < |bodies| && Descends(view, bodies[i], n);
      assert bodies[i] in bodies;
    }
  }

  /** Ignoring one symbol more asks less of the symbols being resolved. */
  lemma {:induction false} MoreIgnored(view: View, active: seq<Symbol>, ignored: set<Symbol>, symbol: Symbol)
    requires IsActive(view, active, ignored)
    ensures IsActive(view, active, ignored + {symbol})
  {
    forall i | 0 <= i < |active| - 1
      ensures ActiveStep(view, active, ignored + {symbol}, i)
    {
      assert ActiveStep(view, active, ignored, i);
    }
  }

  lemma {:induction false} ActivePathGrows(view: View, active: seq<Symbol>, ignored: set<Symbol>, symbol: Symbol)
    requires IsActive(view, active, ignored) && Continues(view, active, ignored, symbol)
    ensures IsActive(view, active + [symbol], ignored)
  {
    var longer := active + [symbol];
    forall i | 0 <= i < |longer| - 1
      ensures ActiveStep(view, longer, ignored, i)
    {
      assert i < |active| - 1 ==> ActiveStep(view, active, ignored, i);
    }
  }

  /** Initializers resolved beside `ignored` and writes resolved beside the symbol as well cover the symbol. */
  lemma {:induction false} SymbolFromBodies(view: View, symbol: Symbol, ignored: set<Symbol>, initial: set<Id>,
      found: set<Id>)
    requires MergedInto(view, Initializers(view, symbol), ignored, {}, initial)
    requires if symbol in view.tracked
             then MergedInto(view, Writes(view, symbol), ignored + {symbol}, initial, found) else found == initial
    ensures SymbolBounded(view, symbol, ignored, found)
  {
    var written: set<Id> := {};
    if symbol in view.tracked {
      written :| AllBounded(view, Writes(view, symbol), ignored + {symbol}, written) && found == initial + written;
    }
    if ignored == {} {
      GroundedByInitializers(view, symbol);
    }
    forall id | Reaches(view, symbol, id, ignored)
      ensures id in found
    {
      var body := ReachedWithoutReturn(view, symbol, id, ignored);
      if body in Initializers(view, symbol) {
        ExprAvoidingLess(view, body, id, ignored + {symbol}, ignored);
      }
    }
    forall id | id in found
      ensures Reaches(view, symbol, id, {})
    {
      if id in initial {
        assert AnyReaches(view, Initializers(view, symbol), id);
        var body :| body in Initializers(view, symbol) && ExprReaches(view, body, id, {});
        BodyReaches(view, symbol, body, id);
      } else {
        assert AnyReaches(view, Writes(view, symbol), id);
        var body :| body in Writes(view, symbol) && ExprReaches(view, body, id, {});
        BodyReaches(view, symbol, body, id);
      }
    }
  }
}
