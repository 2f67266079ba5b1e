/** Claim predicates: their evaluation at a ledger close time, and the rules they have to follow. */
module ClaimPredicates {
  import opened Text

  const MAX_INT64: int := 0x7fff_ffff_ffff_ffff
  const MAX_EVALUATION_DEPTH: nat := 64
  const MAX_NESTING: nat := 4

  /** A predicate; the constructors without a field stand for an arm that is missing. */
  datatype Predicate =
    | Unconditional
    | BeforeAbsolute(time: int)
    | NoAbsoluteTime
    | BeforeRelative(duration: int)
    | NoDuration
    | Not(child: Predicate)
    | NoNegated
    | And(conjuncts: seq<Predicate>)
    | NoConjuncts
    | Or(disjuncts: seq<Predicate>)
    | NoDisjuncts
    | Unknown

  datatype Context = Context(now: int, created: int)

  /** Why a predicate is not satisfied. */
  datatype Failure = NotBefore(now: int, time: int) | NotWithin(now: int, created: int, duration: int) | NegatedHolds

  datatype Verdict = Verdict(satisfied: bool, failures: seq<Failure>)

  /** The verdicts of several children, taken together. */
  datatype Tally = Tally(all: bool, any: bool, failures: seq<Failure>)

  // ---------------------------------------------------------------- evaluation

  function Evaluate(p: Predicate, c: Context, depth: nat): Option<Verdict>
    decreases p, 1
  {
    if depth > MAX_EVALUATION_DEPTH then None
    else
      match p
      case Unconditional => Some(Verdict(true, []))
      case BeforeAbsolute(time) => Some(if c.now < time then Verdict(true, []) else Verdict(false, [NotBefore(c.now, time)]))
      case BeforeRelative(duration) =>
        if duration < 0 || c.created > MAX_INT64 - duration then None
        else Some(if c.now < c.created + duration then Verdict(true, []) else Verdict(false, [NotWithin(c.now, c.created, duration)]))
      case Not(child) =>
        var v := Evaluate(child, c, depth + 1);
        if v.None? then None else Some(if v.value.satisfied then Verdict(false, [NegatedHolds]) else Verdict(true, []))
      case And(children) =>
        var t := EvaluateAll(children, c, depth + 1);
        if children == [] || t.None? then None else Some(Verdict(t.value.all, t.value.failures))
      case Or(children) =>
        var t := EvaluateAll(children, c, depth + 1);
        if children == [] || t.None? then None else Some(if t.value.any then Verdict(true, []) else Verdict(false, t.value.failures))
      case _ => None
  }

  /** The verdicts of the children from the last one back; the failures keep the order of the children. */
  function EvaluateAll(ps: seq<Predicate>, c: Context, depth: nat): Option<Tally>
    decreases ps, 0
  {
    if ps == [] then Some(Tally(true, false, []))
    else
      var v, rest := Evaluate(ps[0], c, depth), EvaluateAll(ps[1..], c, depth);
      if v.None? || rest.None? then None
      else Some(Joined(Tally(v.value.satisfied, v.value.satisfied, if v.value.satisfied then [] else v.value.failures), rest.value))
  }

  function Joined(t: Tally, rest: Tally): Tally {
    Tally(t.all && rest.all, t.any || rest.any, t.failures + rest.failures)
  }

  function JoinedTo(t: Tally, rest: Option<Tally>): Option<Tally> {
    match rest
    case None => None
    case Some(r) => Some(Joined(t, r))
  }

  lemma JoinedAssociates(a: Tally, b: Tally, rest: Option<Tally>)
    ensures JoinedTo(Joined(a, b), rest) == JoinedTo(a, JoinedTo(b, rest))
  {
    if rest.Some? {
      Associate(a.failures, b.failures, rest.value.failures);
    }
  }

  method EvaluateClaimPredicate(p: Predicate, c: Context, depth: nat) returns (v: Option<Verdict>)
    ensures v == Evaluate(p, c, depth)
    decreases p, 1
  {
    if depth > MAX_EVALUATION_DEPTH {
      return None;
    }
    match p {
      case Unconditional => return Some(Verdict(true, []));
      case BeforeAbsolute(time) =>
        if c.now < time {
          return Some(Verdict(true, []));
        }
        return Some(Verdict(false, [NotBefore(c.now, time)]));
      case BeforeRelative(duration) =>
        if duration < 0 || c.created > MAX_INT64 - duration {
          return None;
        }
        if c.now < c.created + duration {
          return Some(Verdict(true, []));
        }
        return Some(Verdict(false, [NotWithin(c.now, c.created, duration)]));
      case Not(child) =>
        var inner := EvaluateClaimPredicate(child, c, depth + 1);
        if inner.None? {
          return None;
        }
        return Some(if inner.value.satisfied then Verdict(false, [NegatedHolds]) else Verdict(true, []));
      case And(children) =>
        if children == [] {
          return None;
        }
        var t := EvaluateChildren(children, c, depth + 1);
        return if t.None? then None else Some(Verdict(t.value.all, t.value.failures));
      case Or(children) =>
        if children == [] {
          return None;
        }
        var t := EvaluateChildren(children, c, depth + 1);
        if t.None? {
          return None;
        }
        return Some(if t.value.any then Verdict(true, []) else Verdict(false, t.value.failures));
      case _ => return None;
    }
  }

  method EvaluateChildren(children: seq<Predicate>, c: Context, depth: nat) returns (t: Option<Tally>)
    ensures t == EvaluateAll(children, c, depth)
    decreases children, 0
  {
    hide Evaluate;
    var all, any, failures: seq<Failure> := true, false, [];
    ghost var whole := EvaluateAll(children, c, depth);
    assert whole.Some? ==> [] + whole.value.failures == whole.value.failures;
    assert children[0..] == children;
    for i := 0 to |children|
      invariant whole == JoinedTo(Tally(all, any, failures), EvaluateAll(children[i..], c, depth))
    {
      assert children[i..][1..] == children[i + 1..];
      var v := EvaluateClaimPredicate(children[i], c, depth);
      if v.None? {
        return None;
      }
      ghost var before := Tally(all, any, failures);
      var satisfied := v.value.satisfied;
      JoinedAssociates(before, Tally(satisfied, satisfied, if satisfied then [] else v.value.failures), EvaluateAll(children[i + 1..], c, depth));
      all, any := all && satisfied, any || satisfied;
      if !satisfied {
        failures := failures + v.value.failures;
      }
      assert Tally(all, any, failures) == Joined(before, Tally(satisfied, satisfied, if satisfied then [] else v.value.failures));
    }
    assert failures + [] == failures;
    return Some(Tally(all, any, failures));
  }

  // ---------------------------------------------------------------- what a predicate means

  predicate Holds(p: Predicate, c: Context) {
    match p
    case Unconditional => true
    case BeforeAbsolute(time) => c.now < time
    case BeforeRelative(duration) => c.now < c.created + duration
    case Not(child) => !Holds(child, c)
    case And(children) => forall i :: 0 <= i < |children| ==> Holds(children[i], c)
    case Or(children) => exists i :: 0 <= i < |children| && Holds(children[i], c)
    case _ => false
  }

  /** A verdict is the truth of the predicate, and gives reasons exactly when it is unfavourable. */
  lemma {:induction false} EvaluationIsFaithful(p: Predicate, c: Context, depth: nat)
    requires Evaluate(p, c, depth).Some?
    ensures Evaluate(p, c, depth).value.satisfied <==> Holds(p, c)
    ensures Evaluate(p, c, depth).value.failures == [] <==> Evaluate(p, c, depth).value.satisfied
    decreases p, 1
  {
    match p
    case Not(child) => EvaluationIsFaithful(child, c, depth + 1);
    case And(children) => TallyIsFaithful(children, c, depth + 1);
    case Or(children) => TallyIsFaithful(children, c, depth + 1);
    case _ =>
  }

  lemma {:induction false} TallyIsFaithful(ps: seq<Predicate>, c: Context, depth: nat)
    requires EvaluateAll(ps, c, depth).Some?
    ensures EvaluateAll(ps, c, depth).value.all <==> forall i :: 0 <= i < |ps| ==> Holds(ps[i], c)
    ensures EvaluateAll(ps, c, depth).value.any <==> exists i :: 0 <= i < |ps| && Holds(ps[i], c)
    ensures EvaluateAll(ps, c, depth).value.failures == [] <==> EvaluateAll(ps, c, depth).value.all
    decreases ps, 0
  {
    hide Evaluate, Holds;
    if ps != [] {
      EvaluationIsFaithful(ps[0], c, depth);
      TallyIsFaithful(ps[1..], c, depth);
      var rest := ps[1..];
      assert (forall i :: 0 <= i < |ps| ==> Holds(ps[i], c)) <==> Holds(ps[0], c) && forall i :: 0 <= i < |rest| ==> Holds(rest[i], c);
      if Holds(ps[0], c) {
      } else if i :| 0 <= i < |ps| && Holds(ps[i], c) {
        assert rest[i - 1] == ps[i];
      } else {
        assert forall i :: 0 <= i < |rest| ==> !Holds(rest[i], c) by {
          assert forall i :: 0 <= i < |rest| ==> rest[i] == ps[i + 1];
        }
      }
    }
  }

  predicate NotFree(p: Predicate) {
    match p
    case Not(_) => false
    case And(children) => forall i :: 0 <= i < |children| ==> NotFree(children[i])
    case Or(children) => forall i :: 0 <= i < |children| ==> NotFree(children[i])
    case _ => true
  }

  /** Without negation, time only runs out: what holds now held at every earlier time. */
  lemma {:induction false} HoldsEarlier(p: Predicate, c: Context, earlier: int)
    requires NotFree(p) && Holds(p, c) && earlier <= c.now
    ensures Holds(p, c.(now := earlier))
  {
    match p
    case And(children) =>
      forall i | 0 <= i < |children|
        ensures Holds(children[i], c.(now := earlier))
      {
        HoldsEarlier(children[i], c, earlier);
      }
    case Or(children) =>
      var i :| 0 <= i < |children| && Holds(children[i], c);
      HoldsEarlier(children[i], c, earlier);
    case _ =>
  }

  /** Whether there is a verdict at all does not depend on the time asked about. */
  lemma {:induction false} VerdictIgnoresTime(p: Predicate, c: Context, now: int, depth: nat)
    ensures Evaluate(p, c, depth).Some? <==> Evaluate(p, c.(now := now), depth).Some?
    decreases p, 1
  {
    match p
    case Not(child) => VerdictIgnoresTime(child, c, now, depth + 1);
    case And(children) => TallyIgnoresTime(children, c, now, depth + 1);
    case Or(children) => TallyIgnoresTime(children, c, now, depth + 1);
    case _ =>
  }

  lemma {:induction false} TallyIgnoresTime(ps: seq<Predicate>, c: Context, now: int, depth: nat)
    ensures EvaluateAll(ps, c, depth).Some? <==> EvaluateAll(ps, c.(now := now), depth).Some?
    decreases ps, 0
  {
    hide Evaluate;
    if ps != [] {
      VerdictIgnoresTime(ps[0], c, now, depth);
      TallyIgnoresTime(ps[1..], c, now, depth);
    }
  }

  /** A predicate without negation that is satisfied now is satisfied, without error, at every earlier time. */
  lemma SatisfiedEarlier(p: Predicate, c: Context, earlier: int, depth: nat)
    requires NotFree(p) && earlier <= c.now
    requires Evaluate(p, c, depth).Some? && Evaluate(p, c, depth).value.satisfied
    ensures var v := Evaluate(p, c.(now := earlier), depth);
            v.Some? && v.value.satisfied && v.value.failures == []
  {
    hide Evaluate, Holds, NotFree;
    EvaluationIsFaithful(p, c, depth);
    HoldsEarlier(p, c, earlier);
    VerdictIgnoresTime(p, c, earlier, depth);
    EvaluationIsFaithful(p, c.(now := earlier), depth);
  }

  // ---------------------------------------------------------------- the rules

  datatype Problem =
    | TooDeep | MissingTime | NegativeTime | MissingDuration | NegativeDuration
    | MissingChild | MissingChildren | WrongCount(count: nat) | UnknownType

  /** The first violation found, depth first. */
  function ProblemOf(p: Predicate, depth: nat): Option<Problem>
    decreases p, 1
  {
    if depth > MAX_NESTING then Some(TooDeep)
    else
      match p
      case Unconditional => None
      case BeforeAbsolute(time) => if time < 0 then Some(NegativeTime) else None
      case NoAbsoluteTime => Some(MissingTime)
      case BeforeRelative(duration) => if duration < 0 then Some(NegativeDuration) else None
      case NoDuration => Some(MissingDuration)
      case Not(child) => ProblemOf(child, depth + 1)
      case NoNegated => Some(MissingChild)
      case And(children) => if |children| != 2 then Some(WrongCount(|children|)) else FirstProblem(children, depth + 1)
      case NoConjuncts => Some(MissingChildren)
      case Or(children) => if |children| != 2 then Some(WrongCount(|children|)) else FirstProblem(children, depth + 1)
      case NoDisjuncts => Some(MissingChildren)
      case Unknown => Some(UnknownType)
  }

  function FirstProblem(ps: seq<Predicate>, depth: nat): Option<Problem>
    decreases ps, 0
  {
    if ps == [] then None
    else if ProblemOf(ps[0], depth).Some? then ProblemOf(ps[0], depth)
    else FirstProblem(ps[1..], depth)
  }

  method ClaimPredicateProblem(p: Predicate, depth: nat) returns (problem: Option<Problem>)
    ensures problem == ProblemOf(p, depth)
    decreases p, 1
  {
    if depth > MAX_NESTING {
      return Some(TooDeep);
    }
    match p {
      case Unconditional => return None;
      case BeforeAbsolute(time) => return if time < 0 then Some(NegativeTime) else None;
      case NoAbsoluteTime => return Some(MissingTime);
      case BeforeRelative(duration) => return if duration < 0 then Some(NegativeDuration) else None;
      case NoDuration => return Some(MissingDuration);
      case Not(child) => problem := ClaimPredicateProblem(child, depth + 1);
      case NoNegated => return Some(MissingChild);
      case And(children) => problem := ChildrenProblem(children, depth + 1);
      case NoConjuncts => return Some(MissingChildren);
      case Or(children) => problem := ChildrenProblem(children, depth + 1);
      case NoDisjuncts => return Some(MissingChildren);
      case Unknown => return Some(UnknownType);
    }
  }

  method ChildrenProblem(children: seq<Predicate>, depth: nat) returns (problem: Option<Problem>)
    ensures problem == if |children| != 2 then Some(WrongCount(|children|)) else FirstProblem(children, depth)
    decreases children, 0
  {
    hide ProblemOf;
    if |children| != 2 {
      return Some(WrongCount(|children|));
    }
    assert children[0..] == children;
    for i := 0 to |children|
      invariant FirstProblem(children[i..], depth) == FirstProblem(children, depth)
    {
      assert children[i..][1..] == children[i + 1..];
      problem := ClaimPredicateProblem(children[i], depth);
      if problem.Some? {
        return;
      }
    }
    return None;
  }

  /** Some relative duration in the predicate reaches beyond 64 bits from the creation time. */
  predicate OverflowsIn(p: Predicate, created: int) {
    match p
    case BeforeRelative(duration) => created > MAX_INT64 - duration
    case Not(child) => OverflowsIn(child, created)
    case And(children) => exists i :: 0 <= i < |children| && OverflowsIn(children[i], created)
    case Or(children) => exists i :: 0 <= i < |children| && OverflowsIn(children[i], created)
    case _ => false
  }

  /** A predicate that follows the rules always gets a verdict, unless one of its durations overflows. */
  lemma {:induction false} AcceptedIsEvaluatedIff(p: Predicate, c: Context, nesting: nat, depth: nat)
    requires ProblemOf(p, nesting).None? && depth <= nesting
    ensures Evaluate(p, c, depth).Some? <==> !OverflowsIn(p, c.created)
    decreases p, 1
  {
    match p
    case Not(child) => AcceptedIsEvaluatedIff(child, c, nesting + 1, depth + 1);
    case And(children) => ChildrenAreEvaluatedIff(children, c, nesting + 1, depth + 1);
    case Or(children) => ChildrenAreEvaluatedIff(children, c, nesting + 1, depth + 1);
    case _ =>
  }

  lemma {:induction false} ChildrenAreEvaluatedIff(ps: seq<Predicate>, c: Context, nesting: nat, depth: nat)
    requires FirstProblem(ps, nesting).None? && depth <= nesting
    ensures EvaluateAll(ps, c, depth).Some? <==> !exists i :: 0 <= i < |ps| && OverflowsIn(ps[i], c.created)
    decreases ps, 0
  {
    hide Evaluate, OverflowsIn, ProblemOf;
    if ps != [] {
      var rest := ps[1..];
      AcceptedIsEvaluatedIff(ps[0], c, nesting, depth);
      ChildrenAreEvaluatedIff(rest, c, nesting, depth);
      if i :| 0 <= i < |ps| && OverflowsIn(ps[i], c.created) {
        assert i > 0 ==> rest[i - 1] == ps[i];
      } else {
        assert forall i :: 0 <= i < |rest| ==> rest[i] == ps[i + 1];
      }
    }
  }

  /** Negative close times are refused; otherwise the verdict is that of the evaluation from the root. */
  method DiagnoseClaimablePredicate(p: Predicate, c: Context) returns (v: Option<Verdict>)
    ensures c.now < 0 || c.created < 0 ==> v.None?
    ensures c.now >= 0 && c.created >= 0 ==> v == Evaluate(p, c, 0)
    ensures v.Some? ==> (v.value.satisfied <==> Holds(p, c)) && (v.value.failures == [] <==> v.value.satisfied)
    ensures ProblemOf(p, 1).None? ==> (v.Some? <==> c.now >= 0 && c.created >= 0 && !OverflowsIn(p, c.created))
  {
    hide Evaluate, Holds, ProblemOf, OverflowsIn;
    if c.now < 0 || c.created < 0 {
      return None;
    }
    v := EvaluateClaimPredicate(p, c, 0);
    if v.Some? {
      EvaluationIsFaithful(p, c, 0);
    }
    if ProblemOf(p, 1).None? {
      AcceptedIsEvaluatedIff(p, c, 1, 0);
    }
  }

  /** The depth bound of the evaluation alone never stops a predicate that follows the rules. */
  lemma DiagnosisOfAccepted(p: Predicate, c: Context)
    requires ProblemOf(p, 1).None? && !OverflowsIn(p, c.created)
    ensures Evaluate(p, c, 0).Some? && (Evaluate(p, c, 0).value.satisfied <==> Holds(p, c))
  {
    AcceptedIsEvaluatedIff(p, c, 1, 0);
    EvaluationIsFaithful(p, c, 0);
  }
}
