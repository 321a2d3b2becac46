/** The differential-privacy budget accountant and its pre-flight check, with epsilon as a real number. */
module Privacy {
  import opened Wrappers

  /** `f64::EPSILON`, the slack both budget checks allow. */
  const TOLERANCE: real := 1.0 / 4_503_599_627_370_496.0

  datatype Sensitivity = Public | Internal | Personal | SensitivePersonal | SpecialCategory

  datatype PrivacyError = BudgetExhausted(requested: real, remaining: real)
                        | AgentNotFound(agent: string)
                        | AgentBudgetExhausted(agent: string, requested: real, remaining: real)
                        | AllocationExceedsSystem(requested: real, available: real)
                        | InvalidEpsilon

  datatype Budget = Budget(granted: real, consumed: real)
  datatype Event = Event(agent: string, cost: real, category: Sensitivity, description: string)
  datatype Accountant = Accountant(max: real, used: real, delta: real, agents: map<string, Budget>, ledger: seq<Event>)

  function Cost(s: Sensitivity): real {
    match s
    case Public => 0.0
    case Internal => 0.1
    case Personal => 0.5
    case SensitivePersonal => 1.0
    case SpecialCategory => 2.0
  }

  function MaxZero(x: real): real { if x < 0.0 then 0.0 else x }

  function Remaining(b: Budget): real { MaxZero(b.granted - b.consumed) }

  function RemainingSystem(a: Accountant): real { MaxZero(a.max - a.used) }

  function NewAccountant(max: real, delta: real): Result<Accountant, PrivacyError> {
    if max < 0.0 || delta < 0.0 then Err(InvalidEpsilon) else Ok(Accountant(max, 0.0, delta, map[], []))
  }

  // --- Sums --------------------------------------------------------------------

  /** The sum of `f` over `keys`. */
  ghost function Sum(keys: set<string>, f: string -> real): real {
    if keys == {} then 0.0
    else
      var k :| k in keys;
      f(k) + Sum(keys - {k}, f)
  }

  /** The order of summation does not matter. */
  lemma {:induction false} SumSplit(keys: set<string>, f: string -> real, x: string)
    requires x in keys
    ensures Sum(keys, f) == f(x) + Sum(keys - {x}, f)
    decreases |keys|
  {
    var k :| k in keys && Sum(keys, f) == f(k) + Sum(keys - {k}, f);
    if k != x {
      SumSplit(keys - {k}, f, x);
      SumSplit(keys - {x}, f, k);
      assert keys - {k} - {x} == keys - {x} - {k};
    }
  }

  lemma {:induction false} SumSame(keys: set<string>, f: string -> real, g: string -> real)
    requires forall k :: k in keys ==> f(k) == g(k)
    ensures Sum(keys, f) == Sum(keys, g)
    decreases |keys|
  {
    if keys != {} {
      var k :| k in keys;
      SumSplit(keys, f, k);
      SumSplit(keys, g, k);
      SumSame(keys - {k}, f, g);
    }
  }

  /** Changing one term changes the sum by as much. */
  lemma SumBump(keys: set<string>, f: string -> real, g: string -> real, x: string)
    requires x in keys && forall k :: k in keys && k != x ==> f(k) == g(k)
    ensures Sum(keys, g) == Sum(keys, f) - f(x) + g(x)
  {
    SumSplit(keys, f, x);
    SumSplit(keys, g, x);
    SumSame(keys - {x}, f, g);
  }

  function AllocatedOf(agents: map<string, Budget>): string -> real {
    k => if k in agents then agents[k].granted else 0.0
  }

  function ConsumedOf(agents: map<string, Budget>): string -> real {
    k => if k in agents then agents[k].consumed else 0.0
  }

  ghost function TotalAllocated(a: Accountant): real { Sum(a.agents.Keys, AllocatedOf(a.agents)) }

  function LedgerSum(ledger: seq<Event>): real {
    if ledger == [] then 0.0 else LedgerSum(ledger[..|ledger| - 1]) + ledger[|ledger| - 1].cost
  }

  function AgentSum(ledger: seq<Event>, agent: string): real {
    if ledger == [] then 0.0
    else
      var e := ledger[|ledger| - 1];
      AgentSum(ledger[..|ledger| - 1], agent) + (if e.agent == agent then e.cost else 0.0)
  }

  function AgentEvents(ledger: seq<Event>, agent: string): nat {
    if ledger == [] then 0
    else AgentEvents(ledger[..|ledger| - 1], agent) + (if ledger[|ledger| - 1].agent == agent then 1 else 0)
  }

  // --- Operations ----------------------------------------------------------------

  ghost function Allocate(a: Accountant, agent: string, epsilon: real): (Accountant, Result<(), PrivacyError>) {
    var existing := AllocatedOf(a.agents)(agent);
    var available := a.max - (TotalAllocated(a) - existing);
    if epsilon < 0.0 then (a, Err(InvalidEpsilon))
    else if epsilon > available + TOLERANCE then (a, Err(AllocationExceedsSystem(epsilon, available)))
    else (a.(agents := a.agents[agent := Budget(epsilon, ConsumedOf(a.agents)(agent))]), Ok(()))
  }

  /** `consume`: the new state, and the agent's remaining budget or the reason for refusal. */
  function Consume(a: Accountant, agent: string, s: Sensitivity, description: string):
      (Accountant, Result<real, PrivacyError>)
  {
    var cost := Cost(s);
    if cost == 0.0 then (a, Ok(if agent in a.agents then Remaining(a.agents[agent]) else 0.0))
    else if agent !in a.agents then (a, Err(AgentNotFound(agent)))
    else
      var b := a.agents[agent];
      var sysRemaining := a.max - a.used;
      if cost > sysRemaining + TOLERANCE then (a, Err(BudgetExhausted(cost, sysRemaining)))
      else if cost > Remaining(b) + TOLERANCE then (a, Err(AgentBudgetExhausted(agent, cost, Remaining(b))))
      else
        var b' := b.(consumed := b.consumed + cost);
        (a.(used := a.used + cost, agents := a.agents[agent := b'],
            ledger := a.ledger + [Event(agent, cost, s, description)]),
         Ok(Remaining(b')))
  }

  /** `check_privacy_budget`: the pre-flight twin of `consume`. */
  function Check(a: Accountant, agent: string, s: Sensitivity): Result<(), PrivacyError> {
    var cost := Cost(s);
    if cost == 0.0 then Ok(())
    else if agent !in a.agents then Err(AgentNotFound(agent))
    else
      var agentRemaining, sysRemaining := Remaining(a.agents[agent]), RemainingSystem(a);
      if cost > sysRemaining + TOLERANCE then Err(BudgetExhausted(cost, sysRemaining))
      else if cost > agentRemaining + TOLERANCE then Err(AgentBudgetExhausted(agent, cost, agentRemaining))
      else Ok(())
  }

  // --- The invariant ---------------------------------------------------------------

  ghost predicate AgentsMatch(agents: map<string, Budget>, ledger: seq<Event>) {
    forall k {:trigger AgentSum(ledger, k)} :: ConsumedOf(agents)(k) == AgentSum(ledger, k)
  }

  ghost predicate EventsKnown(agents: map<string, Budget>, ledger: seq<Event>) {
    forall i :: 0 <= i < |ledger| ==> ledger[i].agent in agents
  }

  ghost predicate Inv(a: Accountant) {
    && 0.0 <= a.max && 0.0 <= a.used <= a.max + TOLERANCE
    && a.used == LedgerSum(a.ledger)
    && AgentsMatch(a.agents, a.ledger)
    && EventsKnown(a.agents, a.ledger)
    && Sum(a.agents.Keys, ConsumedOf(a.agents)) == a.used
    && TotalAllocated(a) <= a.max + TOLERANCE
  }

  lemma NewKeeps(max: real, delta: real)
    requires 0.0 <= max && 0.0 <= delta
    ensures Inv(NewAccountant(max, delta).value)
  {
  }

  lemma SumAgents(before: map<string, Budget>, agent: string, b: Budget)
    ensures var after := before[agent := b];
            && Sum(after.Keys, AllocatedOf(after)) ==
               Sum(before.Keys, AllocatedOf(before)) - AllocatedOf(before)(agent) + b.granted
            && Sum(after.Keys, ConsumedOf(after)) ==
               Sum(before.Keys, ConsumedOf(before)) - ConsumedOf(before)(agent) + b.consumed
  {
    var after := before[agent := b];
    var keys := after.Keys;
    assert keys == before.Keys + {agent};
    if agent in before {
      assert keys == before.Keys;
    } else {
      SumSplit(keys, AllocatedOf(before), agent);
      SumSplit(keys, ConsumedOf(before), agent);
      assert keys - {agent} == before.Keys;
    }
    SumBump(keys, AllocatedOf(before), AllocatedOf(after), agent);
    SumBump(keys, ConsumedOf(before), ConsumedOf(after), agent);
  }

  lemma AllocateKeeps(a: Accountant, agent: string, epsilon: real)
    requires Inv(a)
    ensures Inv(Allocate(a, agent, epsilon).0)
  {
    hide Sum, LedgerSum;
    var b := Budget(epsilon, ConsumedOf(a.agents)(agent));
    SumAgents(a.agents, agent, b);
    var agents := a.agents[agent := b];
    forall k ensures ConsumedOf(agents)(k) == AgentSum(a.ledger, k) { }
  }

  lemma ConsumeKeeps(a: Accountant, agent: string, s: Sensitivity, description: string)
    requires Inv(a)
    ensures Inv(Consume(a, agent, s, description).0)
  {
    hide Sum;
    var (a', r) := Consume(a, agent, s, description);
    if a' != a {
      var e := Event(agent, Cost(s), s, description);
      assert a'.ledger[..|a'.ledger| - 1] == a.ledger;
      SumAgents(a.agents, agent, a'.agents[agent]);
      forall k ensures ConsumedOf(a'.agents)(k) == AgentSum(a'.ledger, k) {
        assert ConsumedOf(a.agents)(k) == AgentSum(a.ledger, k);
      }
    }
  }

  // --- Runs --------------------------------------------------------------------------

  datatype Op = OpAllocate(agent: string, epsilon: real) | OpConsume(agent: string, s: Sensitivity, description: string)

  ghost function Step(a: Accountant, op: Op): Accountant {
    match op
    case OpAllocate(agent, epsilon) => Allocate(a, agent, epsilon).0
    case OpConsume(agent, s, d) => Consume(a, agent, s, d).0
  }

  ghost function Run(max: real, delta: real, ops: seq<Op>): Accountant
    requires 0.0 <= max && 0.0 <= delta
  {
    if ops == [] then NewAccountant(max, delta).value
    else Step(Run(max, delta, ops[..|ops| - 1]), ops[|ops| - 1])
  }

  /** In every run: usage is the ledger sum, each agent's consumption is its own ledger sum even
      across re-allocation, the agents' consumption adds up to the usage, and neither usage nor
      total allocation passes the maximum by more than the tolerance. */
  lemma {:induction false} RunKeeps(max: real, delta: real, ops: seq<Op>)
    requires 0.0 <= max && 0.0 <= delta
    ensures Inv(Run(max, delta, ops)) && Run(max, delta, ops).max == max
  {
    if ops == [] {
      NewKeeps(max, delta);
    } else {
      var before := ops[..|ops| - 1];
      RunKeeps(max, delta, before);
      match ops[|ops| - 1]
      case OpAllocate(agent, epsilon) => AllocateKeeps(Run(max, delta, before), agent, epsilon);
      case OpConsume(agent, s, d) => ConsumeKeeps(Run(max, delta, before), agent, s, d);
    }
  }

  /** The ledger only grows, and only by charges that both budgets allowed. */
  lemma {:induction false} LedgerOnlyGrows(max: real, delta: real, ops: seq<Op>, k: nat)
    requires 0.0 <= max && 0.0 <= delta && k <= |ops|
    ensures Run(max, delta, ops[..k]).ledger <= Run(max, delta, ops).ledger
  {
    hide Allocate, Cost, Remaining;
    if k < |ops| {
      var before := ops[..|ops| - 1];
      assert before[..k] == ops[..k];
      LedgerOnlyGrows(max, delta, before, k);
      StepGrows(Run(max, delta, before), ops[|ops| - 1]);
    } else {
      assert ops[..k] == ops;
    }
  }

  lemma StepGrows(a: Accountant, op: Op)
    ensures a.ledger <= Step(a, op).ledger
  {
    hide Sum;
  }

  /** A refused call leaves the accountant as it was. */
  lemma RefusedUnchanged(a: Accountant, agent: string, s: Sensitivity, description: string, epsilon: real)
    ensures Consume(a, agent, s, description).1.Err? ==> Consume(a, agent, s, description).0 == a
    ensures Allocate(a, agent, epsilon).1.Err? ==> Allocate(a, agent, epsilon).0 == a
  {
    hide Sum;
  }

  /** The pre-flight check succeeds exactly when charging would; otherwise it fails with the same
      kind of error, and with the same figures unless usage is already past the maximum. */
  lemma CheckAgreesWithConsume(a: Accountant, agent: string, s: Sensitivity, description: string)
    ensures Check(a, agent, s).Ok? <==> Consume(a, agent, s, description).1.Ok?
    ensures var c, r := Check(a, agent, s), Consume(a, agent, s, description).1;
            c.Err? ==>
              && (c.error.BudgetExhausted? <==> r.error.BudgetExhausted?)
              && (c.error.AgentNotFound? <==> r.error.AgentNotFound?)
              && (c.error.AgentBudgetExhausted? <==> r.error.AgentBudgetExhausted?)
              && (a.used <= a.max || !c.error.BudgetExhausted? <==> c.error == r.error)
  {
  }

  /** A successful charge returns what is left, and leaves the agent at most the tolerance over. */
  lemma ChargeWithinAllocation(a: Accountant, agent: string, s: Sensitivity, description: string)
    requires Cost(s) > 0.0 && Consume(a, agent, s, description).1.Ok?
    ensures var (a', r) := Consume(a, agent, s, description);
            && agent in a'.agents && a'.agents[agent].consumed <= a'.agents[agent].granted + TOLERANCE
            && a'.used <= a.max + TOLERANCE && r.value == Remaining(a'.agents[agent])
  {
  }

  // --- When a charge or an allocation succeeds --------------------------------------------

  /** What one operation on data of a tier costs. */
  ghost predicate Price(s: Sensitivity, cost: real) {
    || (s == Public && cost == 0.0) || (s == Internal && cost == 0.1) || (s == Personal && cost == 0.5)
    || (s == SensitivePersonal && cost == 1.0) || (s == SpecialCategory && cost == 2.0)
  }

  /** `x` is at most `y`, give or take 2^-52. */
  ghost predicate Within(x: real, y: real) { x <= y + 1.0 / 4_503_599_627_370_496.0 }

  ghost function AtLeastZero(x: real): (y: real)
    ensures y >= 0.0 && y >= x && (y == 0.0 || y == x)
  {
    if x < 0.0 then 0.0 else x
  }

  /** What an agent was granted and has not spent according to the ledger. */
  ghost function Unspent(a: Accountant, agent: string): real
    requires agent in a.agents
  {
    a.agents[agent].granted - AgentSum(a.ledger, agent)
  }

  /** In every run: public data is free; any other charge succeeds exactly when the agent is known and
      its price fits what the ledger leaves of the maximum and of the agent's grant. Each refusal has
      its own condition. */
  lemma ChargeSucceedsIff(max: real, delta: real, ops: seq<Op>, agent: string, s: Sensitivity, d: string, cost: real)
    requires 0.0 <= max && 0.0 <= delta && Price(s, cost)
    ensures var a := Run(max, delta, ops);
            var r, left := Consume(a, agent, s, d).1, max - LedgerSum(a.ledger);
            && (r.Ok? <==> s == Public || (agent in a.agents && Within(cost, left) && Within(cost, Unspent(a, agent))))
            && (r == Err(AgentNotFound(agent)) <==> s != Public && agent !in a.agents)
            && (r == Err(BudgetExhausted(cost, left)) <==> s != Public && agent in a.agents && !Within(cost, left))
            && (s != Public && agent in a.agents && Within(cost, left) && !Within(cost, Unspent(a, agent)) <==>
                  agent in a.agents && r == Err(AgentBudgetExhausted(agent, cost, AtLeastZero(Unspent(a, agent)))))
  {
    hide *;
    RunKeeps(max, delta, ops);
    var a := Run(max, delta, ops);
    UsedIs(a);
    SpentIs(a, agent);
    ConsumeIff(a, agent, s, d, cost, AgentSum(a.ledger, agent));
    if agent in a.agents { UnspentIs(a, agent); }
  }

  lemma UsedIs(a: Accountant)
    requires Inv(a)
    ensures a.used == LedgerSum(a.ledger)
  {
    hide Sum, LedgerSum;
  }

  lemma UnspentIs(a: Accountant, agent: string)
    requires agent in a.agents
    ensures Unspent(a, agent) == a.agents[agent].granted - AgentSum(a.ledger, agent)
  {
  }

  lemma ConsumeIff(a: Accountant, agent: string, s: Sensitivity, d: string, cost: real, spent: real)
    requires Price(s, cost) && ConsumedOf(a.agents)(agent) == spent
    ensures var r, left := Consume(a, agent, s, d).1, a.max - a.used;
            && (r.Ok? <==>
                  || s == Public
                  || (agent in a.agents && Within(cost, left) && Within(cost, a.agents[agent].granted - spent)))
            && (r == Err(AgentNotFound(agent)) <==> s != Public && agent !in a.agents)
            && (r == Err(BudgetExhausted(cost, left)) <==> s != Public && agent in a.agents && !Within(cost, left))
            && (s != Public && agent in a.agents && Within(cost, left) && !Within(cost, a.agents[agent].granted - spent)
                <==> agent in a.agents &&
                     r == Err(AgentBudgetExhausted(agent, cost, AtLeastZero(a.agents[agent].granted - spent))))
  {
    PriceIs(s, cost);
    WithinIs(cost, a.max - a.used);
    if agent in a.agents {
      WithinRemaining(cost, a.agents[agent]);
      assert a.agents[agent].consumed == spent;
    }
    hide Cost, Price, Within, AtLeastZero, ConsumedOf, Remaining;
  }

  lemma WithinRemaining(cost: real, b: Budget)
    ensures Remaining(b) == AtLeastZero(b.granted - b.consumed)
    ensures cost >= 0.1 ==> (Within(cost, b.granted - b.consumed) <==> cost <= Remaining(b) + TOLERANCE)
  {
  }

  lemma PriceIs(s: Sensitivity, cost: real)
    requires Price(s, cost)
    ensures Cost(s) == cost && (s == Public <==> cost == 0.0) && (s != Public ==> cost >= 0.1)
  {
  }

  /** A charge that succeeds returns what is left of the agent's grant. It adds its price to
      the usage and to the agent's consumption and appends itself to the ledger; it touches no grant
      and no other agent. */
  lemma ChargeState(a: Accountant, agent: string, s: Sensitivity, d: string, cost: real)
    requires Price(s, cost) && Consume(a, agent, s, d).1.Ok?
    ensures var (a', r) := Consume(a, agent, s, d);
            && (agent in a'.agents ==> r.value == AtLeastZero(a'.agents[agent].granted - a'.agents[agent].consumed))
            && (agent !in a'.agents ==> r.value == 0.0)
            && (s == Public ==> a' == a)
            && (s != Public ==>
                  && agent in a.agents && a'.max == a.max && a'.delta == a.delta && a'.used == a.used + cost
                  && a'.ledger == a.ledger + [Event(agent, cost, s, d)]
                  && a'.agents == a.agents[agent := Budget(a.agents[agent].granted, a.agents[agent].consumed + cost)])
  {
  }

  /** In every run: an allocation succeeds exactly when it is not negative and, with the grants of the
      other agents, fits the maximum; a new grant keeps what the agent has spent. */
  lemma AllocationSucceedsIff(max: real, delta: real, ops: seq<Op>, agent: string, epsilon: real)
    requires 0.0 <= max && 0.0 <= delta
    ensures var a := Run(max, delta, ops);
            var (a', r) := Allocate(a, agent, epsilon);
            var others := Sum(a.agents.Keys - {agent}, AllocatedOf(a.agents));
            && (r.Ok? <==> 0.0 <= epsilon && Within(epsilon + others, max))
            && (r == Err(InvalidEpsilon) <==> epsilon < 0.0)
            && (r == Err(AllocationExceedsSystem(epsilon, max - others)) <==>
                  0.0 <= epsilon && !Within(epsilon + others, max))
            && (r.Ok? ==> a' == a.(agents := a.agents[agent := Budget(epsilon, AgentSum(a.ledger, agent))]))
            && (r.Err? ==> a' == a)
  {
    hide *;
    RunKeeps(max, delta, ops);
    var a := Run(max, delta, ops);
    SpentIs(a, agent);
    OthersAllocated(a, agent);
    AllocateIff(a, agent, epsilon, Sum(a.agents.Keys - {agent}, AllocatedOf(a.agents)), AgentSum(a.ledger, agent));
  }

  lemma SpentIs(a: Accountant, agent: string)
    requires Inv(a)
    ensures ConsumedOf(a.agents)(agent) == AgentSum(a.ledger, agent)
  {
    hide Sum, LedgerSum;
  }

  lemma AllocateIff(a: Accountant, agent: string, epsilon: real, others: real, spent: real)
    requires TotalAllocated(a) == others + AllocatedOf(a.agents)(agent) && ConsumedOf(a.agents)(agent) == spent
    ensures var (a', r) := Allocate(a, agent, epsilon);
            && (r.Ok? <==> 0.0 <= epsilon && Within(epsilon + others, a.max))
            && (r == Err(InvalidEpsilon) <==> epsilon < 0.0)
            && (r == Err(AllocationExceedsSystem(epsilon, a.max - others)) <==>
                  0.0 <= epsilon && !Within(epsilon + others, a.max))
            && (r.Ok? ==> a' == a.(agents := a.agents[agent := Budget(epsilon, spent)]))
            && (r.Err? ==> a' == a)
  {
    hide TotalAllocated, AllocatedOf, ConsumedOf, Within;
    WithinIs(epsilon + others, a.max);
  }

  lemma WithinIs(x: real, y: real)
    ensures Within(x, y) <==> x <= y + TOLERANCE
  {
  }

  lemma OthersAllocated(a: Accountant, agent: string)
    ensures TotalAllocated(a) == Sum(a.agents.Keys - {agent}, AllocatedOf(a.agents)) + AllocatedOf(a.agents)(agent)
  {
    hide Sum;
    if agent in a.agents {
      SumSplit(a.agents.Keys, AllocatedOf(a.agents), agent);
    } else {
      assert a.agents.Keys - {agent} == a.agents.Keys;
    }
  }

  // --- The report ----------------------------------------------------------------------

  /** The positions of an agent's events in the ledger. */
  ghost function EventsOf(ledger: seq<Event>, agent: string): set<int> {
    set i | 0 <= i < |ledger| && ledger[i].agent == agent
  }

  lemma {:induction false} EventsCounted(ledger: seq<Event>, agent: string)
    ensures AgentEvents(ledger, agent) == |EventsOf(ledger, agent)|
  {
    if ledger != [] {
      var n := |ledger| - 1;
      EventsCounted(ledger[..n], agent);
      var before := EventsOf(ledger[..n], agent);
      assert EventsOf(ledger, agent) == if ledger[n].agent == agent then before + {n} else before;
    } else {
      assert EventsOf(ledger, agent) == {};
    }
  }

  /** In every run, the report lists each agent with its grant, its ledger sum, what is left of the
      grant, and the number of its events. */
  lemma ReportIs(max: real, delta: real, ops: seq<Op>, agent: string)
    requires 0.0 <= max && 0.0 <= delta && agent in Run(max, delta, ops).agents
    ensures var a := Run(max, delta, ops);
            && agent in Summaries(a)
            && var y := Summaries(a)[agent];
               && y.granted == a.agents[agent].granted && y.consumed == AgentSum(a.ledger, agent)
               && y.remaining == AtLeastZero(Unspent(a, agent))
               && y.eventCount == |EventsOf(a.ledger, agent)|
  {
    RunKeeps(max, delta, ops);
    var a := Run(max, delta, ops);
    hide Run, Sum;
    EventsCounted(a.ledger, agent);
    assert ConsumedOf(a.agents)(agent) == AgentSum(a.ledger, agent);
  }

  datatype Summary = Summary(granted: real, consumed: real, remaining: real, eventCount: nat)

  function Summaries(a: Accountant): map<string, Summary> {
    map k | k in a.agents ::
      Summary(a.agents[k].granted, a.agents[k].consumed, Remaining(a.agents[k]), AgentEvents(a.ledger, k))
  }

  function CountOf(ledger: seq<Event>): string -> real { k => AgentEvents(ledger, k) as real }

  lemma {:induction false} CountsAddUp(keys: set<string>, ledger: seq<Event>)
    requires forall i :: 0 <= i < |ledger| ==> ledger[i].agent in keys
    ensures Sum(keys, CountOf(ledger)) == |ledger| as real
    decreases |ledger|
  {
    if ledger == [] {
      SumZero(keys, CountOf(ledger));
    } else {
      var n := |ledger| - 1;
      var x := ledger[n].agent;
      CountsAddUp(keys, ledger[..n]);
      hide Sum;
      SumBump(keys, CountOf(ledger[..n]), CountOf(ledger), x);
    }
  }

  lemma {:induction false} SumZero(keys: set<string>, f: string -> real)
    requires forall k :: k in keys ==> f(k) == 0.0
    ensures Sum(keys, f) == 0.0
    decreases |keys|
  {
    if keys != {} {
      var k :| k in keys;
      SumSplit(keys, f, k);
      SumZero(keys - {k}, f);
    }
  }

  function ReportedCount(summaries: map<string, Summary>): string -> real {
    k => if k in summaries then summaries[k].eventCount as real else 0.0
  }

  function ReportedConsumed(summaries: map<string, Summary>): string -> real {
    k => if k in summaries then summaries[k].consumed else 0.0
  }

  /** In every run, the report's event counts add up to the ledger and its consumptions to the usage. */
  lemma ReportAddsUp(max: real, delta: real, ops: seq<Op>)
    requires 0.0 <= max && 0.0 <= delta
    ensures var a := Run(max, delta, ops);
            var report := Summaries(a);
            && report.Keys == a.agents.Keys
            && Sum(report.Keys, ReportedCount(report)) == |a.ledger| as real
            && Sum(report.Keys, ReportedConsumed(report)) == a.used
  {
    RunKeeps(max, delta, ops);
    var a := Run(max, delta, ops);
    hide Run, Sum;
    var report := Summaries(a);
    CountsAddUp(a.agents.Keys, a.ledger);
    SumSame(a.agents.Keys, ReportedCount(report), CountOf(a.ledger));
    SumSame(a.agents.Keys, ReportedConsumed(report), ConsumedOf(a.agents));
  }
}
