/** The keyword-argument updates of the admin services: the loop that keeps the allowed keys,
    checks each allowed value, and collects the `key=?` clauses and their values in order;
    the UPDATE statement built from them; and what executing it returns. */
module FieldUpdates {
  import opened Wrappers
  import opened Text
  import opened Lists

  /** A Python value passed as a keyword argument. */
  datatype Value = VStr(s: string) | VInt(i: int) | VReal(x: real) | VBool(b: bool) | VNone

  /** One `key=value` keyword argument, in call order. */
  type Entry = (string, Value)

  /** The verdict of a service on one allowed value: keep it, return an error dictionary, or
      raise (a comparison or `in` test on a value of the wrong type). */
  datatype FieldCheck = Accept | Reject(error: string) | CheckRaises

  /** The lists `fields` and `values` after the loop, or the check that stopped it. */
  datatype Collected = Collected(fields: seq<string>, values: seq<Value>) | Stopped(check: FieldCheck)

  function Clause(key: string): string
  {
    key + "=?"
  }

  function IsAllowed(allowed: set<string>): Entry -> bool
  {
    (e: Entry) => e.0 in allowed
  }

  function ClauseOf(e: Entry): string
  {
    Clause(e.0)
  }

  function ValueOf(e: Entry): Value
  {
    e.1
  }

  /** The loop over `updates.items()`: entries whose key is not allowed are skipped; the first
      allowed entry the check does not accept ends the loop; every other allowed entry adds
      its clause and its value. */
  function Collect(updates: seq<Entry>, allowed: set<string>, check: (string, Value) -> FieldCheck): (r: Collected)
    ensures r.Collected? ==> |r.fields| == |r.values|
    ensures r.Stopped? ==> r.check != Accept
    decreases |updates|
  {
    if updates == [] then Collected([], [])
    else
      var e := updates[|updates| - 1];
      match Collect(updates[..|updates| - 1], allowed, check)
      case Stopped(c) => Stopped(c)
      case Collected(fields, values) =>
        if e.0 !in allowed then Collected(fields, values)
        else
          var c := check(e.0, e.1);
          if c == Accept then Collected(fields + [Clause(e.0)], values + [e.1]) else Stopped(c)
  }

  /** Once the loop has stopped, later entries change nothing. */
  lemma {:induction false} StoppedStays(updates: seq<Entry>, allowed: set<string>, check: (string, Value) -> FieldCheck, j: nat)
    requires j <= |updates| && Collect(updates[..j], allowed, check).Stopped?
    ensures Collect(updates, allowed, check) == Collect(updates[..j], allowed, check)
    decreases |updates|
  {
    if j < |updates| {
      var init := updates[..|updates| - 1];
      assert init[..j] == updates[..j];
      StoppedStays(init, allowed, check, j);
    } else {
      assert updates[..j] == updates;
    }
  }

  /** The loop itself, returning as soon as a check does not accept. */
  method CollectFields(updates: seq<Entry>, allowed: set<string>, check: (string, Value) -> FieldCheck) returns (r: Collected)
    ensures r == Collect(updates, allowed, check)
  {
    var fields: seq<string> := [];
    var values: seq<Value> := [];
    var i := 0;
    while i < |updates|
      invariant 0 <= i <= |updates|
      invariant Collect(updates[..i], allowed, check) == Collected(fields, values)
    {
      var e := updates[i];
      assert updates[..i + 1][..i] == updates[..i];
      if e.0 in allowed {
        var c := check(e.0, e.1);
        if c != Accept {
          StoppedStays(updates, allowed, check, i + 1);
          return Stopped(c);
        }
        fields := fields + [Clause(e.0)];
        values := values + [e.1];
      }
      i := i + 1;
    }
    assert updates[..i] == updates;
    return Collected(fields, values);
  }

  /** Keys outside the allowed set do not matter at all. */
  lemma {:induction false} CollectIgnoresOthers(updates: seq<Entry>, allowed: set<string>, check: (string, Value) -> FieldCheck)
    ensures Collect(updates, allowed, check) == Collect(Filter(updates, IsAllowed(allowed)), allowed, check)
    decreases |updates|
  {
    if updates != [] {
      var init := updates[..|updates| - 1];
      var e := updates[|updates| - 1];
      CollectIgnoresOthers(init, allowed, check);
      var f := Filter(init, IsAllowed(allowed));
      if e.0 in allowed {
        assert Filter(updates, IsAllowed(allowed)) == f + [e];
        assert (f + [e])[..|f + [e]| - 1] == f;
      }
    }
  }

  /** When no allowed value is refused, the clauses and values are those of the allowed
      entries, in call order. */
  lemma {:induction false} CollectAllAccepted(updates: seq<Entry>, allowed: set<string>, check: (string, Value) -> FieldCheck)
    requires forall i :: 0 <= i < |updates| && updates[i].0 in allowed ==> check(updates[i].0, updates[i].1) == Accept
    ensures var kept := Filter(updates, IsAllowed(allowed));
      Collect(updates, allowed, check) == Collected(Map(kept, ClauseOf), Map(kept, ValueOf))
    decreases |updates|
  {
    if updates != [] {
      var init := updates[..|updates| - 1];
      var e := updates[|updates| - 1];
      assert forall i :: 0 <= i < |init| ==> init[i] == updates[i];
      CollectAllAccepted(init, allowed, check);
      var f := Filter(init, IsAllowed(allowed));
      if e.0 in allowed {
        MapSnoc(f, e, ClauseOf);
        MapSnoc(f, e, ValueOf);
      }
    }
  }

  /** The first allowed entry whose value is refused decides the outcome, whatever follows. */
  lemma FirstRefusalWins(updates: seq<Entry>, allowed: set<string>, check: (string, Value) -> FieldCheck, k: nat)
    requires k < |updates| && updates[k].0 in allowed && check(updates[k].0, updates[k].1) != Accept
    requires forall i :: 0 <= i < k && updates[i].0 in allowed ==> check(updates[i].0, updates[i].1) == Accept
    ensures Collect(updates, allowed, check) == Stopped(check(updates[k].0, updates[k].1))
  {
    var pre := updates[..k];
    assert forall i :: 0 <= i < |pre| ==> pre[i] == updates[i];
    CollectAllAccepted(pre, allowed, check);
    assert updates[..k + 1][..k] == pre;
    StoppedStays(updates, allowed, check, k + 1);
  }

  /** `f"UPDATE {table} SET {', '.join(fields)} WHERE id=?"`. */
  function UpdateSql(table: string, clauses: seq<string>): string
  {
    "UPDATE " + table + " SET " + Join(clauses, ", ") + " WHERE id=?"
  }

  /** What an update service decides before touching the database: run a statement, return
      an error dictionary, or let the exception of a check escape. */
  datatype Plan = Execute(sql: string, values: seq<Value>) | Refuse(error: string) | Raise

  /** A database call: its result, or the exception it raised, by type name and message. */
  datatype DbResult<T> = DbOk(result: T) | DbRaised(typeName: string, message: string)

  /** `f'{type(e).__name__}: {e}'`. */
  function ExceptionText(typeName: string, message: string): string
  {
    typeName + ": " + message
  }

  const NoFieldsError := "수정할 필드가 없습니다"

  /** The dictionary an update service returns, or the escaped exception. */
  datatype UpdateResult = Updated | UpdateFailed(error: string) | UpdateRaised

  /** Running a plan: the statement's exception becomes an error dictionary. */
  function RunPlan(plan: Plan, exec: (string, seq<Value>) -> DbResult<()>): (r: UpdateResult)
    ensures r == Updated <==> plan.Execute? && exec(plan.sql, plan.values).DbOk?
    ensures r == UpdateRaised <==> plan == Raise
    ensures plan.Refuse? ==> r == UpdateFailed(plan.error)
  {
    match plan
    case Execute(sql, values) =>
      (match exec(sql, values)
       case DbOk(_) => Updated
       case DbRaised(t, m) => UpdateFailed(ExceptionText(t, m)))
    case Refuse(e) => UpdateFailed(e)
    case Raise => UpdateRaised
  }
}
