/** Boolean models with linear constraints, and what an honest solver may answer about them. */
module CpModel {
  import opened Contract
  import opened Counting

  datatype Constraint =
    | ExactlyOne(terms: seq<Key>)
    | AtMost(terms: seq<Key>, bound: int)
    | Equals(terms: seq<Key>, total: int)

  datatype Objective = Minimize(terms: seq<Key>) | Maximize(terms: seq<Key>)

  datatype Model = Model(variables: seq<Key>, constraints: seq<Constraint>) {
    function Add(c: Constraint): Model {
      Model(variables, constraints + [c])
    }
  }

  /** The sum of `terms` when exactly the variables `on` are true. A repeated term counts each time. */
  function Total(terms: seq<Key>, on: set<Key>): nat {
    if terms == [] then 0
    else Total(terms[..|terms| - 1], on) + (if terms[|terms| - 1] in on then 1 else 0)
  }

  ghost predicate Holds(c: Constraint, on: set<Key>) {
    match c
    case ExactlyOne(terms) => Total(terms, on) == 1
    case AtMost(terms, bound) => Total(terms, on) <= bound
    case Equals(terms, total) => Total(terms, on) == total
  }

  ghost predicate Satisfies(m: Model, on: set<Key>) {
    && (forall k :: k in on ==> k in m.variables)
    && (forall c :: c in m.constraints ==> Holds(c, on))
  }

  /** The solver's status, with the values it leaves readable. */
  datatype Answer = Optimal(on: set<Key>) | FeasibleOnly(on: set<Key>) | NoSolution | Unknown | InvalidModel

  ghost predicate AtLeastAsGood(objective: Objective, on: set<Key>, other: set<Key>) {
    match objective
    case Minimize(terms) => Total(terms, on) <= Total(terms, other)
    case Maximize(terms) => Total(terms, on) >= Total(terms, other)
  }

  /** All that is assumed of the solver: a solution it gives satisfies the model, one it calls optimal is best,
    * and it denies only models without solutions. It may always give up. */
  ghost predicate Honest(m: Model, objective: Objective, answer: Answer) {
    match answer
    case Optimal(on) => Satisfies(m, on) && forall other :: Satisfies(m, other) ==> AtLeastAsGood(objective, on, other)
    case FeasibleOnly(on) => Satisfies(m, on)
    case NoSolution => forall other :: !Satisfies(m, other)
    case Unknown => true
    case InvalidModel => true
  }

  /** A solver answers its n-th question, possibly differently each time. */
  type Solver = (nat, Model, Objective) -> Answer

  ghost predicate HonestSolver(solver: Solver) {
    forall n, m, objective :: Honest(m, objective, solver(n, m, objective))
  }

  lemma AddMeaning(m: Model, c: Constraint, on: set<Key>)
    ensures Satisfies(m.Add(c), on) <==> Satisfies(m, on) && Holds(c, on)
  {
    assert c in m.Add(c).constraints;
    assert forall d :: d in m.constraints ==> d in m.Add(c).constraints;
  }

  lemma CountedOnce(front: seq<Key>, last: Key, on: set<Key>)
    requires last !in front
    ensures |Elements(front + [last]) * on| == |Elements(front) * on| + (if last in on then 1 else 0)
  {
    var before, after := Elements(front) * on, Elements(front + [last]) * on;
    if last in on {
      assert after == before + {last};
    } else {
      assert after == before;
    }
  }

  lemma {:induction false} TotalSize(terms: seq<Key>, on: set<Key>)
    requires Distinct(terms)
    ensures Total(terms, on) == |Elements(terms) * on|
  {
    if terms == [] {
      assert Elements(terms) * on == {};
    } else {
      var front, last := terms[..|terms| - 1], terms[|terms| - 1];
      assert terms == front + [last] && last !in front;
      TotalSize(front, on);
      CountedOnce(front, last, on);
    }
  }
}
