/** The untyped λ-calculus interpreter of lab 4: terms, substitution and one-step reduction. */
module Lambda {

  datatype Option<T> = None | Some(value: T)

  /** A term: the unit value `u`, a variable `x`, an abstraction `λx.t`, or an application `t u`.
      Variables are identified by a natural number. */
  datatype Term =
    | Unit
    | Var(id: nat)
    | Abs(parameter: nat, body: Term)
    | App(callee: Term, argument: Term)

  /** Structural equality of terms, alternative by alternative (the `operator==` overloads). */
  predicate Equal(a: Term, b: Term)
  {
    match (a, b)
    case (Unit, Unit) => true
    case (Var(x), Var(y)) => x == y
    case (Abs(x, t), Abs(y, u)) => x == y && Equal(t, u)
    case (App(f, t), App(g, u)) => Equal(f, g) && Equal(t, u)
    case _ => false
  }

  /** The overloaded equality agrees with equality of terms. */
  lemma {:induction false} EqualIsIdentity(a: Term, b: Term)
    ensures Equal(a, b) <==> a == b
  {
    match (a, b)
    case (Abs(x, t), Abs(y, u)) => EqualIsIdentity(t, u);
    case (App(f, t), App(g, u)) => EqualIsIdentity(f, g); EqualIsIdentity(t, u);
    case _ =>
  }

  /** `x` occurs free in `t`. */
  predicate FreeIn(x: nat, t: Term)
  {
    match t
    case Unit => false
    case Var(y) => y == x
    case Abs(y, b) => y != x && FreeIn(x, b)
    case App(f, a) => FreeIn(x, f) || FreeIn(x, a)
  }

  /** `t` in which the free occurrences of `x` are replaced by `u`. The substitution is not
      capture-avoiding: an abstraction whose parameter is not `x` substitutes in its body even
      when that parameter occurs free in `u`. */
  function Substitute(t: Term, x: nat, u: Term): (r: Term)
    ensures !FreeIn(x, t) ==> r == t
  {
    match t
    case Unit => Unit
    case Var(y) => if y == x then u else Var(y)
    case Abs(y, b) => if y == x then t else Abs(y, Substitute(b, x, u))
    case App(f, a) => App(Substitute(f, x, u), Substitute(a, x, u))
  }

  /** The variables free in the result are free in `t` (other than `x`) or free in `u`. */
  lemma {:induction false} SubstituteFreeVariables(t: Term, x: nat, u: Term, y: nat)
    requires FreeIn(y, Substitute(t, x, u))
    ensures (y != x && FreeIn(y, t)) || FreeIn(y, u)
  {
    match t
    case Unit =>
    case Var(z) =>
    case Abs(z, b) =>
      if z != x { SubstituteFreeVariables(b, x, u, y); }
    case App(f, a) =>
      if FreeIn(y, Substitute(f, x, u)) {
        SubstituteFreeVariables(f, x, u, y);
      } else {
        SubstituteFreeVariables(a, x, u, y);
      }
  }

  /** The substitution may capture: `(λ1.x0)[x0 := x1]` is `λ1.x1`. */
  lemma SubstituteCaptures()
    ensures Substitute(Abs(1, Var(0)), 0, Var(1)) == Abs(1, Var(1))
    ensures FreeIn(1, Var(1)) && !FreeIn(1, Abs(1, Var(1)))
  {
  }

  /** `t` holds a β-redex that the reduction strategy reaches: under binders, in the callee or in
      the argument of an application, or an application whose callee is an abstraction. */
  predicate HasRedex(t: Term)
  {
    match t
    case Unit => false
    case Var(_) => false
    case Abs(_, b) => HasRedex(b)
    case App(f, a) => f.Abs? || HasRedex(f) || HasRedex(a)
  }

  /** The one-step reduction of the application `t`, if any: the callee is stepped first, then the
      argument; only when neither steps and the callee is an abstraction is the application
      β-reduced. */
  function AppStep(t: Term): (r: Option<Term>)
    requires t.App?
    decreases t, 0
  {
    var (calleeStepped, c) := Step(t.callee);
    if calleeStepped then Some(App(c, t.argument))
    else
      var (argumentStepped, a) := Step(t.argument);
      if argumentStepped then Some(App(c, a))
      else if c.Abs? then Some(Substitute(c.body, c.parameter, a))
      else None
  }

  /** One reduction step of `t`, returning whether `t` reduced and the resulting term. An
      abstraction steps its body; an application steps as `AppStep` says; anything else is left
      alone. A term that does not step is returned unchanged. */
  function Step(t: Term): (r: (bool, Term))
    decreases t, 1
    ensures !r.0 ==> r.1 == t
  {
    match t
    case Abs(x, b) =>
      var (stepped, b') := Step(b);
      (stepped, Abs(x, b'))
    case App(_, _) =>
      (match AppStep(t)
       case Some(u) => (true, u)
       case None => (false, t))
    case _ => (false, t)
  }

  /** `Step` reports a reduction exactly when the term holds a redex: the result tells whether a
      step happened, not whether the reduct is a value. */
  lemma {:induction false} StepIffRedex(t: Term)
    ensures Step(t).0 <==> HasRedex(t)
    decreases t
  {
    match t
    case Unit =>
    case Var(_) =>
    case Abs(x, b) => StepIffRedex(b);
    case App(f, a) =>
      StepIffRedex(f);
      StepIffRedex(a);
  }

  /** `AppStep` on an application: callee first, then argument, then β-reduction. */
  lemma AppStepCases(f: Term, a: Term)
    ensures Step(f).0 ==> AppStep(App(f, a)) == Some(App(Step(f).1, a))
    ensures !Step(f).0 && Step(a).0 ==> AppStep(App(f, a)) == Some(App(f, Step(a).1))
    ensures !Step(f).0 && !Step(a).0 && f.Abs? ==>
      AppStep(App(f, a)) == Some(Substitute(f.body, f.parameter, a))
    ensures !Step(f).0 && !Step(a).0 && !f.Abs? ==> AppStep(App(f, a)) == None
  {
  }

  /** A value: the unit value or an abstraction. */
  predicate IsValue(t: Term)
  {
    t.Unit? || t.Abs?
  }

  /** The identity function `λx0.x0`. */
  function Identity(): Term
  {
    Abs(0, Var(0))
  }

  /** The diverging program `(λx0.x0 x0) (λx0.x0 x0)`. */
  function Loopy(): Term
  {
    var t := Abs(0, App(Var(0), Var(0)));
    App(t, t)
  }

  /** `let x = t in u`, encoded as `(λx.u) t`. */
  function Let(x: nat, t: Term, u: Term): Term
  {
    App(Abs(x, u), t)
  }

  /** The identity is in normal form: stepping it reports no reduction and leaves it unchanged. */
  lemma IdentityDoesNotStep()
    ensures Step(Identity()) == (false, Identity())
  {
  }

  /** `Loopy` steps to itself, so repeated stepping never stops. */
  lemma LoopyStepsToItself()
    ensures Step(Loopy()) == (true, Loopy())
  {
    var t := Abs(0, App(Var(0), Var(0)));
    StepIffRedex(t);
  }

  /** `(λx0.x0) u` steps to `u` in one step; the reduct is a value although `Step` answers true,
      so `step`'s result is not "the result is not a value". */
  lemma ApplyIdentityToUnit()
    ensures Step(App(Identity(), Unit)) == (true, Unit)
    ensures IsValue(Step(App(Identity(), Unit)).1)
  {
  }

  /** When neither the bound term nor the body can step, `let x = t in u` steps to `u[x := t]`. */
  lemma LetSteps(x: nat, t: Term, u: Term)
    requires !HasRedex(t) && !HasRedex(u)
    ensures Step(Let(x, t, u)) == (true, Substitute(u, x, t))
  {
    StepIffRedex(t);
    StepIffRedex(Abs(x, u));
  }
}
