/** The accountant as an object: a map of budgets, a running total and an append-only ledger. */
module PrivacyAccountant {
  import opened Privacy
  import opened Wrappers

  /** The iterator sum over a map's budgets, in whatever order the map yields them. */
  method SumAllocations(agents: map<string, Budget>) returns (total: real)
    ensures total == Sum(agents.Keys, AllocatedOf(agents))
  {
    hide Sum;
    total := 0.0;
    var left := agents.Keys;
    while left != {}
      invariant left <= agents.Keys
      invariant total + Sum(left, AllocatedOf(agents)) == Sum(agents.Keys, AllocatedOf(agents))
      decreases |left|
    {
      var k :| k in left;
      SumSplit(left, AllocatedOf(agents), k);
      total := total + agents[k].granted;
      left := left - {k};
    }
    SumZero({}, AllocatedOf(agents));
  }

  class PrivacyBudgetAccountant {
    const max: real
    const delta: real
    var used: real
    var agents: map<string, Budget>
    var ledger: seq<Event>

    ghost function View(): Accountant
      reads this
    {
      Accountant(max, used, delta, agents, ledger)
    }

    ghost predicate Valid()
      reads this
    {
      Inv(View())
    }

    constructor (max: real, delta: real)
      requires 0.0 <= max && 0.0 <= delta
      ensures Valid() && Ok(View()) == NewAccountant(max, delta)
    {
      this.max, this.delta, used, agents, ledger := max, delta, 0.0, map[], [];
      new;
      NewKeeps(max, delta);
    }

    /** `new`: negative budgets are refused. */
    static method New(max: real, delta: real) returns (r: Result<PrivacyBudgetAccountant, PrivacyError>)
      ensures r.Ok? ==> fresh(r.value) && r.value.Valid() && Ok(r.value.View()) == NewAccountant(max, delta)
      ensures r.Ok? <==> 0.0 <= max && 0.0 <= delta
      ensures r.Ok? ==> r.value.View() == Accountant(max, 0.0, delta, map[], [])
      ensures r.Err? ==> r.error == InvalidEpsilon && NewAccountant(max, delta) == Err(r.error)
    {
      if max < 0.0 || delta < 0.0 {
        return Err(InvalidEpsilon);
      }
      var a := new PrivacyBudgetAccountant(max, delta);
      r := Ok(a);
    }

    method AllocateAgent(agent: string, epsilon: real) returns (r: Result<(), PrivacyError>)
      requires Valid()
      modifies this`agents
      ensures Valid() && (View(), r) == Allocate(old(View()), agent, epsilon)
    {
      AllocateKeeps(View(), agent, epsilon);
      hide Inv, Sum;
      if epsilon < 0.0 {
        return Err(InvalidEpsilon);
      }
      var existing := if agent in agents then agents[agent].granted else 0.0;
      var total := SumAllocations(agents);
      var available := max - (total - existing);
      if epsilon > available + TOLERANCE {
        return Err(AllocationExceedsSystem(epsilon, available));
      }
      var consumed := if agent in agents then agents[agent].consumed else 0.0;
      agents := agents[agent := Budget(epsilon, consumed)];
      r := Ok(());
    }

    method Consume(agent: string, s: Sensitivity, description: string) returns (r: Result<real, PrivacyError>)
      requires Valid()
      modifies this`used, this`agents, this`ledger
      ensures Valid() && (View(), r) == Privacy.Consume(old(View()), agent, s, description)
    {
      ghost var before := View();
      ConsumeKeeps(before, agent, s, description);
      hide Inv, Cost, Remaining;
      var cost := Cost(s);
      if cost == 0.0 {
        return Ok(if agent in agents then Remaining(agents[agent]) else 0.0);
      }
      if agent !in agents {
        return Err(AgentNotFound(agent));
      }
      var sysRemaining := max - used;
      if cost > sysRemaining + TOLERANCE {
        return Err(BudgetExhausted(cost, sysRemaining));
      }
      var agentRemaining := Remaining(agents[agent]);
      if cost > agentRemaining + TOLERANCE {
        return Err(AgentBudgetExhausted(agent, cost, agentRemaining));
      }
      var left := Charge(agent, cost, s, description);
      r := Ok(left);
    }

    /** Charge both budgets and append to the ledger. */
    method Charge(agent: string, cost: real, s: Sensitivity, description: string) returns (left: real)
      requires agent in agents
      modifies this`used, this`agents, this`ledger
      ensures used == old(used) + cost
      ensures agents == old(agents)[agent := old(agents[agent]).(consumed := old(agents[agent]).consumed + cost)]
      ensures ledger == old(ledger) + [Event(agent, cost, s, description)]
      ensures left == Remaining(agents[agent])
    {
      used := used + cost;
      var b := agents[agent].(consumed := agents[agent].consumed + cost);
      agents := agents[agent := b];
      ledger := ledger + [Event(agent, cost, s, description)];
      left := Remaining(b);
    }
  }
}
