/** Church encodings of booleans and natural numbers in the λ-calculus of lab 4. */
module Church {
  import opened Lambda

  /** `true` is `λx0.λx1.x0`. */
  function True(): Term
  {
    Abs(0, Abs(1, Var(0)))
  }

  /** `false` is `λx0.λx1.x1`. */
  function False(): Term
  {
    Abs(0, Abs(1, Var(1)))
  }

  /** Logical and, `λx0.λx1.(x0 x1) x0`. */
  function And(): Term
  {
    Abs(0, Abs(1, App(App(Var(0), Var(1)), Var(0))))
  }

  /** Logical or, `λx0.λx1.(x0 x0) x1`. */
  function Or(): Term
  {
    Abs(0, Abs(1, App(App(Var(0), Var(0)), Var(1))))
  }

  /** The successor function `λn.λf.λx.f (n f x)`, with `n`, `f`, `x` as `x0`, `x1`, `x2`. */
  function Successor(): Term
  {
    Abs(0, Abs(1, Abs(2, App(Var(1), App(App(Var(0), Var(1)), Var(2))))))
  }

  /** `f` applied `n` times to `x`, built by wrapping `x` in an accumulator (tail recursion). */
  function NumberHelper(n: nat, f: Term, x: Term): Term
  {
    if n == 0 then x else NumberHelper(n - 1, f, App(f, x))
  }

  /** `fⁿ x`, built from the outside in: the reference shape of a numeral's body. */
  function Iterate(n: nat, f: Term, x: Term): Term
  {
    if n == 0 then x else App(f, Iterate(n - 1, f, x))
  }

  /** The Church numeral `λx0.λx1.x0ⁿ x1`. */
  function Number(n: nat): Term
  {
    Abs(0, Abs(1, NumberHelper(n, Var(0), Var(1))))
  }

  /** Applying `f` once more inside is the same as applying it once more outside. */
  lemma {:induction false} IterateInside(n: nat, f: Term, x: Term)
    ensures Iterate(n, f, App(f, x)) == App(f, Iterate(n, f, x))
  {
    if n > 0 { IterateInside(n - 1, f, x); }
  }

  /** The accumulator-based helper builds exactly `fⁿ x`. */
  lemma {:induction false} NumberHelperIsIterate(n: nat, f: Term, x: Term)
    ensures NumberHelper(n, f, x) == Iterate(n, f, x)
  {
    if n > 0 {
      NumberHelperIsIterate(n - 1, f, App(f, x));
      IterateInside(n - 1, f, x);
    }
  }

  /** One more iteration of the helper puts one more application of `f` around its result. */
  lemma NumberHelperSucc(n: nat, f: Term, x: Term)
    ensures NumberHelper(n + 1, f, x) == App(f, NumberHelper(n, f, x))
  {
    NumberHelperIsIterate(n + 1, f, x);
    NumberHelperIsIterate(n, f, x);
  }

  /** The numeral `n` is `λx0.λx1.` around `n` applications of `x0` to `x1`. */
  lemma NumberShape(n: nat)
    ensures Number(n) == Abs(0, Abs(1, Iterate(n, Var(0), Var(1))))
  {
    NumberHelperIsIterate(n, Var(0), Var(1));
  }

  /** Zero and false have the same encoding. */
  lemma NumberZeroIsFalse()
    ensures Number(0) == False()
  {
  }

  /** Iterating a variable on a variable builds no redex. */
  lemma {:induction false} IterateVarsHasNoRedex(n: nat)
    ensures !HasRedex(Iterate(n, Var(0), Var(1)))
  {
    if n > 0 { IterateVarsHasNoRedex(n - 1); }
  }

  /** Every numeral is in normal form: stepping it reports no reduction and leaves it unchanged. */
  lemma NumberIsNormal(n: nat)
    ensures Step(Number(n)) == (false, Number(n))
  {
    NumberShape(n);
    IterateVarsHasNoRedex(n);
    StepIffRedex(Number(n));
  }

  /** `succ 0` steps: the successor's parameter is replaced by the numeral zero. */
  lemma SuccessorOfZeroSteps()
    ensures Step(App(Successor(), Number(0))) ==
      (true, Abs(1, Abs(2, App(Var(1), App(App(Number(0), Var(1)), Var(2))))))
  {
    StepIffRedex(Successor());
    StepIffRedex(Number(0));
  }
}
