/** Armed faults: each point fails a counted number of times, then disarms itself. */
module FaultInjection {
  datatype FaultPoint = BulkInsertEntitiesBeforeCommit | BulkInsertEdgesBeforeCommit | RecoveryLoadBeforeCommit

  type Registry = map<FaultPoint, nat>

  predicate IsArmed(m: Registry, point: FaultPoint) {
    point in m && m[point] > 0
  }

  /** One injected failure uses up one count; the entry disappears with the last one. */
  function Spent(m: Registry, point: FaultPoint): Registry
    requires IsArmed(m, point)
  {
    if m[point] == 1 then m - {point} else m[point := m[point] - 1]
  }

  /** The registry after n checks of one point. */
  function AfterChecks(m: Registry, point: FaultPoint, n: nat): Registry {
    if n == 0 then m
    else
      var before := AfterChecks(m, point, n - 1);
      if IsArmed(before, point) then Spent(before, point) else before
  }

  /** A point armed c times fails exactly its next c checks; other points do not notice. */
  lemma {:induction false} FailsExactly(m: Registry, point: FaultPoint, n: nat, other: FaultPoint)
    requires other != point
    ensures var after := AfterChecks(m, point, n);
      && (IsArmed(after, point) <==> point in m && n < m[point])
      && (IsArmed(after, point) ==> after[point] == m[point] - n)
      && (other in after <==> other in m)
      && (other in m ==> after[other] == m[other])
  {
    if n > 0 {
      FailsExactly(m, point, n - 1, other);
    }
  }

  class FaultRegistry {
    var remaining: Registry

    constructor ()
      ensures remaining == map[]
    {
      remaining := map[];
    }

    ghost predicate Armed(point: FaultPoint)
      reads this
    {
      IsArmed(remaining, point)
    }

    /** False is the injected fault; its counter drops by one and an exhausted entry disappears. */
    method CheckFault(point: FaultPoint) returns (ok: bool)
      modifies this
      ensures ok == !old(Armed(point))
      ensures remaining == if ok then old(remaining) else Spent(old(remaining), point)
    {
      if point in remaining && remaining[point] > 0 {
        var left := remaining[point] - 1;
        remaining := remaining[point := left];
        if left == 0 {
          remaining := remaining - {point};
        }
        return false;
      }
      return true;
    }
  }
}
