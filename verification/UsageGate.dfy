/** The usage gate of a graph and its move-only guard (graph_usage_gate.hpp). The class methods are the
    critical sections under the gate's mutex; each is tied to a function on `Gate`, which the protocol in
    `GraphProtocol` uses for its steps. */
module UsageGate {

  datatype Gate = Gate(closed: bool, inflight: nat)

  const OPEN := Gate(false, 0)

  predicate Admits(g: Gate) {
    !g.closed
  }

  function Enter(g: Gate): Gate {
    if g.closed then g else g.(inflight := g.inflight + 1)
  }

  function Leave(g: Gate): Gate {
    if g.inflight > 0 then g.(inflight := g.inflight - 1) else g
  }

  function Close(g: Gate): Gate {
    g.(closed := true)
  }

  class GraphUsageGate {
    var closed: bool
    var inflight: nat

    function State(): Gate
      reads this
    {
      Gate(closed, inflight)
    }

    constructor ()
      ensures State() == OPEN
    {
      closed, inflight := false, 0;
    }

    /** An open gate counts the user and hands out a valid guard; a closed one hands out an empty guard. */
    method TryEnter() returns (g: Guard)
      modifies this
      ensures State() == Enter(old(State()))
      ensures fresh(g) && g.valid == Admits(old(State()))
      ensures g.valid ==> g.gate == this
      ensures !g.valid ==> g.gate == null
    {
      if closed {
        g := new Guard(null, false);
      } else {
        inflight := inflight + 1;
        g := new Guard(this, true);
      }
    }

    method CloseGate()
      modifies this
      ensures State() == Close(old(State()))
    {
      closed := true;
    }

    method LeaveGate()
      modifies this
      ensures State() == Leave(old(State()))
    {
      if inflight > 0 {
        inflight := inflight - 1;
      }
    }
  }

  /** A guard gives its place back once: after a release, or after its place was moved to another guard, it
      is empty and releasing it does nothing. */
  class Guard {
    var gate: GraphUsageGate?
    var valid: bool

    constructor (gate: GraphUsageGate?, valid: bool)
      ensures this.gate == gate && this.valid == valid
    {
      this.gate, this.valid := gate, valid;
    }

    /** The destructor and reset(). */
    method Release()
      modifies this, gate
      ensures gate == null && (old(gate) != null ==> !valid)
      ensures old(gate) != null ==>
                old(gate).State() == if old(valid) then Leave(old(gate.State())) else old(gate.State())
    {
      if valid && gate != null {
        gate.LeaveGate();
        valid := false;
      }
      gate := null;
    }

    /** Move construction: the place changes hands and the source is left empty. */
    constructor Move(other: Guard)
      modifies other
      ensures gate == old(other.gate) && valid == old(other.valid)
      ensures other.gate == null && !other.valid
    {
      gate, valid := other.gate, other.valid;
      new;
      other.gate := null;
      other.valid := false;
    }

    /** Move assignment: the own place is given back first; assigning a guard to itself does nothing. */
    method MoveAssign(other: Guard)
      modifies this, other, gate
      ensures other == this ==> gate == old(gate) && valid == old(valid)
      ensures other != this ==>
                gate == old(other.gate) && valid == old(other.valid) && other.gate == null && !other.valid
      ensures old(gate) != null ==>
                old(gate).State() == if old(valid) && other != this then Leave(old(gate.State()))
                                     else old(gate.State())
    {
      if this != other {
        Release();
        gate := other.gate;
        other.gate := null;
        valid := other.valid;
        other.valid := false;
      }
    }
  }
}
