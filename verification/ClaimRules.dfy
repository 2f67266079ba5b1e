/** The rules of claim predicates and the reasons of a verdict, read off the predicates that occur inside. */
module ClaimRules {
  import opened Text
  import opened ClaimPredicates

  /** A predicate that occurs in another, and how deep. */
  datatype Occurrence = Occurrence(inner: Predicate, depth: nat)

  /** Every predicate that occurs in `p`, each before those inside it, from left to right. */
  function Occurrences(p: Predicate, depth: nat): seq<Occurrence>
    decreases p, 1
  {
    [Occurrence(p, depth)] +
    match p
    case Not(child) => Occurrences(child, depth + 1)
    case And(children) => OccurrencesAll(children, depth + 1)
    case Or(children) => OccurrencesAll(children, depth + 1)
    case _ => []
  }

  function OccurrencesAll(ps: seq<Predicate>, depth: nat): seq<Occurrence>
    decreases ps, 0
  {
    if ps == [] then [] else Occurrences(ps[0], depth) + OccurrencesAll(ps[1..], depth)
  }

  // ---------------------------------------------------------------- the rules

  /** At most four levels, no negative time or duration, nothing missing, and two children to every junction. */
  ghost predicate Breaks(o: Occurrence, problem: Problem) {
    if o.depth > 4 then problem == TooDeep
    else
      match o.inner
      case Unconditional => false
      case BeforeAbsolute(time) => time < 0 && problem == NegativeTime
      case NoAbsoluteTime => problem == MissingTime
      case BeforeRelative(duration) => duration < 0 && problem == NegativeDuration
      case NoDuration => problem == MissingDuration
      case Not(_) => false
      case NoNegated => problem == MissingChild
      case And(children) => |children| != 2 && problem == WrongCount(|children|)
      case NoConjuncts => problem == MissingChildren
      case Or(children) => |children| != 2 && problem == WrongCount(|children|)
      case NoDisjuncts => problem == MissingChildren
      case Unknown => problem == UnknownType
  }

  ghost predicate Clean(os: seq<Occurrence>, n: nat)
    requires n <= |os|
  {
    forall i, problem :: 0 <= i < n ==> !Breaks(os[i], problem)
  }

  /** The first occurrence that breaks a rule breaks it in this way. */
  ghost predicate FirstBreak(os: seq<Occurrence>, problem: Problem) {
    exists i :: 0 <= i < |os| && Breaks(os[i], problem) && Clean(os, i)
  }

  /** No problem is found where no rule is broken, and otherwise the one found is the first. */
  ghost predicate IsVerdictOn(found: Option<Problem>, os: seq<Occurrence>) {
    match found
    case None => Clean(os, |os|)
    case Some(problem) => FirstBreak(os, problem)
  }

  lemma VerdictAppend(a: Option<Problem>, xs: seq<Occurrence>, b: Option<Problem>, ys: seq<Occurrence>)
    requires IsVerdictOn(a, xs)
    requires a.None? ==> IsVerdictOn(b, ys)
    ensures IsVerdictOn(if a.Some? then a else b, xs + ys)
  {
    hide Breaks;
    var all := xs + ys;
    assert forall i :: 0 <= i < |xs| ==> all[i] == xs[i];
    if a.Some? {
      var i :| 0 <= i < |xs| && Breaks(xs[i], a.value) && Clean(xs, i);
      assert Breaks(all[i], a.value) && Clean(all, i);
    } else if b.Some? {
      var i :| 0 <= i < |ys| && Breaks(ys[i], b.value) && Clean(ys, i);
      CleanBoth(xs, ys, i);
      assert all[|xs| + i] == ys[i];
      assert Breaks(all[|xs| + i], b.value) && Clean(all, |xs| + i);
    } else {
      CleanBoth(xs, ys, |ys|);
    }
  }

  lemma CleanBoth(xs: seq<Occurrence>, ys: seq<Occurrence>, n: nat)
    requires Clean(xs, |xs|) && n <= |ys| && Clean(ys, n)
    ensures Clean(xs + ys, |xs| + n)
  {
    hide Breaks;
    forall i, problem | 0 <= i < |xs| + n
      ensures !Breaks((xs + ys)[i], problem)
    {
      if i >= |xs| {
        assert (xs + ys)[i] == ys[i - |xs|];
      }
    }
  }

  /** The problem found is the first rule broken, from the outside in and from left to right. */
  lemma {:induction false} FirstViolationIsFound(p: Predicate, depth: nat)
    ensures IsVerdictOn(ProblemOf(p, depth), Occurrences(p, depth))
    decreases p, 1
  {
    hide IsVerdictOn, Breaks;
    var own, inner := OwnProblem(p, depth), Occurrences(p, depth)[1..];
    OwnIsVerdict(p, depth);
    assert Occurrences(p, depth) == [Occurrence(p, depth)] + inner;
    if own.None? {
      match p
      case Not(child) => FirstViolationIsFound(child, depth + 1);
      case And(children) => FirstViolationAmong(children, depth + 1);
      case Or(children) => FirstViolationAmong(children, depth + 1);
      case _ => NothingInside();
    }
    VerdictAppend(own, [Occurrence(p, depth)], ProblemOf(p, depth), inner);
  }

  lemma NothingInside()
    ensures IsVerdictOn(None, [])
  {
  }

  /** The rule that the outermost predicate breaks by itself. */
  function OwnProblem(p: Predicate, depth: nat): Option<Problem> {
    if p.Not? || (p.And? && |p.conjuncts| == 2) || (p.Or? && |p.disjuncts| == 2) then if depth > 4 then Some(TooDeep) else None
    else ProblemOf(p, depth)
  }

  lemma OwnIsVerdict(p: Predicate, depth: nat)
    ensures IsVerdictOn(OwnProblem(p, depth), [Occurrence(p, depth)])
    ensures OwnProblem(p, depth).Some? ==> ProblemOf(p, depth) == OwnProblem(p, depth)
  {
    var own, os := OwnProblem(p, depth), [Occurrence(p, depth)];
    if own.Some? {
      assert Breaks(os[0], own.value) && Clean(os, 0);
    }
  }

  lemma {:induction false} FirstViolationAmong(ps: seq<Predicate>, depth: nat)
    ensures IsVerdictOn(FirstProblem(ps, depth), OccurrencesAll(ps, depth))
    decreases ps, 0
  {
    hide IsVerdictOn, ProblemOf, Occurrences;
    if ps == [] {
      NothingInside();
    } else {
      FirstViolationIsFound(ps[0], depth);
      FirstViolationAmong(ps[1..], depth);
      VerdictAppend(ProblemOf(ps[0], depth), Occurrences(ps[0], depth), FirstProblem(ps[1..], depth), OccurrencesAll(ps[1..], depth));
    }
  }

  // ---------------------------------------------------------------- when there is a verdict

  /** A predicate that cannot be evaluated, whatever is inside it. */
  predicate Stuck(o: Occurrence, c: Context) {
    o.depth > 64 ||
    match o.inner
    case BeforeRelative(duration) => duration < 0 || c.created + duration > 0x7fff_ffff_ffff_ffff
    case And(children) => children == []
    case Or(children) => children == []
    case Unconditional => false
    case BeforeAbsolute(_) => false
    case Not(_) => false
    case _ => true
  }

  ghost predicate Unstuck(os: seq<Occurrence>, c: Context) {
    forall i :: 0 <= i < |os| ==> !Stuck(os[i], c)
  }

  lemma UnstuckAppend(xs: seq<Occurrence>, ys: seq<Occurrence>, c: Context)
    ensures Unstuck(xs + ys, c) <==> Unstuck(xs, c) && Unstuck(ys, c)
  {
    hide Stuck;
    var all := xs + ys;
    if Unstuck(all, c) {
      assert forall i :: 0 <= i < |xs| ==> xs[i] == all[i];
      forall i | 0 <= i < |ys|
        ensures !Stuck(ys[i], c)
      {
        assert ys[i] == all[|xs| + i];
      }
    }
  }

  /** There is a verdict exactly when nothing that occurs inside is stuck, wherever it occurs. */
  lemma {:induction false} VerdictIffUnstuck(p: Predicate, c: Context, depth: nat)
    ensures Evaluate(p, c, depth).Some? <==> Unstuck(Occurrences(p, depth), c)
    decreases p, 1
  {
    hide Unstuck;
    var own, inner := [Occurrence(p, depth)], Occurrences(p, depth)[1..];
    assert Occurrences(p, depth) == own + inner;
    UnstuckAppend(own, inner, c);
    OneUnstuck(p, depth, c);
    match p
    case Not(child) => VerdictIffUnstuck(child, c, depth + 1);
    case And(children) => TallyIffUnstuck(children, c, depth + 1);
    case Or(children) => TallyIffUnstuck(children, c, depth + 1);
    case _ => NothingStuck(c);
  }

  lemma OneUnstuck(p: Predicate, depth: nat, c: Context)
    ensures Unstuck([Occurrence(p, depth)], c) <==> !Stuck(Occurrence(p, depth), c)
  {
    hide Stuck;
    assert [Occurrence(p, depth)][0] == Occurrence(p, depth);
  }

  lemma NothingStuck(c: Context)
    ensures Unstuck([], c)
  {
  }

  lemma {:induction false} TallyIffUnstuck(ps: seq<Predicate>, c: Context, depth: nat)
    ensures EvaluateAll(ps, c, depth).Some? <==> Unstuck(OccurrencesAll(ps, depth), c)
    decreases ps, 0
  {
    hide Unstuck, Evaluate, Occurrences;
    if ps == [] {
      NothingStuck(c);
    } else {
      VerdictIffUnstuck(ps[0], c, depth);
      TallyIffUnstuck(ps[1..], c, depth);
      UnstuckAppend(Occurrences(ps[0], depth), OccurrencesAll(ps[1..], depth), c);
    }
  }

  // ---------------------------------------------------------------- the reasons

  /** Why a predicate does not hold: what its leaves say, in order, a negation giving no more than itself. */
  function Reasons(p: Predicate, c: Context): seq<Failure>
    decreases p, 1
  {
    if Holds(p, c) then []
    else
      match p
      case BeforeAbsolute(time) => [NotBefore(c.now, time)]
      case BeforeRelative(duration) => [NotWithin(c.now, c.created, duration)]
      case Not(_) => [NegatedHolds]
      case And(children) => ReasonsOf(children, c)
      case Or(children) => ReasonsOf(children, c)
      case _ => []
  }

  function ReasonsOf(ps: seq<Predicate>, c: Context): seq<Failure>
    decreases ps, 0
  {
    if ps == [] then [] else Reasons(ps[0], c) + ReasonsOf(ps[1..], c)
  }

  /** The failures reported are the reasons why the predicate does not hold. */
  lemma {:induction false} FailuresAreReasons(p: Predicate, c: Context, depth: nat)
    requires Evaluate(p, c, depth).Some?
    ensures Evaluate(p, c, depth).value.failures == Reasons(p, c)
    decreases p, 1
  {
    EvaluationIsFaithful(p, c, depth);
    match p
    case And(children) => TallyGivesReasons(children, c, depth + 1);
    case Or(children) => TallyGivesReasons(children, c, depth + 1);
    case _ =>
  }

  lemma {:induction false} TallyGivesReasons(ps: seq<Predicate>, c: Context, depth: nat)
    requires EvaluateAll(ps, c, depth).Some?
    ensures EvaluateAll(ps, c, depth).value.failures == ReasonsOf(ps, c)
    decreases ps, 0
  {
    hide Evaluate, Holds, Reasons;
    if ps != [] {
      EvaluationIsFaithful(ps[0], c, depth);
      FailuresAreReasons(ps[0], c, depth);
      TallyGivesReasons(ps[1..], c, depth);
    }
  }
}
