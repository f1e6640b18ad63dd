# Proofs for the arki packages

Dafny models of the exact algebra of `@arki/cas`, the structured concurrency of `@arki/async` and the signed execution
protocol of `@arki/admin`, with proofs of what they promise. `dafny verify dfyconfig.toml` checks everything.

## What is modelled

**Factoring over the rationals.** `Arith`, `DensePoly`, `Hensel`, `Bezout`, `Lifting`, `LiftTree`, `ExactDivision`,
`Subsets`, `Recombination`, `PrimeFactors`, `Irreducibility`, `Factoring`, `Evaluation` and `IntegerRoots` hold
Zassenhaus's algorithm: division and Bezout cofactors mod p, the quadratic Hensel step, the balanced lifting tree,
recombination with the proof that every factor it returns is irreducible, symmetric digits, and square parts of
integers. Polynomials are `seq<int>` without trailing zeros; loops over arrays stay loops over arrays. Identities are
proved by values at every integer, which determine a polynomial (`DensePoly.EvalInjective`).

**Sparse polynomials, signs, printing.** `SparsePoly`, `SparseDegrees`, `SparseZeros`, `SparseDivision`,
`MonomialOrder` and `SparseRoots` hold multivariate exact division and square roots; `Signs`, `Constants`, `SignWorlds`
and `SignOracle` the sign oracle, and `SignAnswers` that each of its answers is the strongest its rule allows;
`Conditions` the merging of domain conditions; `Rationals`, `Decimals`, `Emitter`, `EmittedValues` and `EmittedForms`
the emitted trees, their values and their form.
A sparse polynomial is its terms in insertion order; coefficients are real numbers standing for exact rationals, of
which only field laws are used, so "no quotient exists" covers more than the rationals. A value of a kernel may be
undefined, and every statement about it is made where it is defined.

**Differentiation.** `Trees`, `DualNumbers`, `Rules`, `Calculus`, `Powers`, `Interning`, `Outcomes` and `Differentiator`
hold the folding tree builder, hash-consed ids and the memoised differentiator. The meaning of a derivative is
dual-number evaluation (`DualNumbers.Dual`), written from the textbook derivatives and independent of ids, memo and the
folded trees. It reads one thing as folding does, that an exponent is a literal zero, so that u^0 has derivative 0 also
where u^-1 is undefined. `Slopes` ties the textbook derivatives to each other and to first-order change.
`Outcomes.OutcomeOf` says, by structure alone, which trees have a derivative. Names,
functions and powers have any meaning that satisfies the laws of `Trees.Lawful`.

**Concurrency.** `Lifetime`, `Pool` and `Schedule` are transition systems whose events are the synchronous pieces of the
program, so a run is any interleaving. Beside each stands a class with the closure's variables whose methods are proved
to take exactly those steps. A callback that calls back in appears as a later event: the code has finished its own
updates before it calls out.

**Signed execution.** `Receipts` is the claim, run and settle protocol over an atomic store whose writes may fail and
still land later, with handlers that crash anywhere; `WireErrors` compares the first answer to a failure with the answer
a repeat reads from the receipt. `Nonces` is replay protection over the in-memory store. `CanonicalJson` is the canonical
text of a JSON value, over UTF-16 code units, and `JsonReader` a reader of JSON text (RFC 8259) that gives the value
back.

## Where the code and its documentation differ

- `fpBezout` documents deg s < deg b and deg t < deg a; this fails exactly when both inputs are constants.
- The sign oracle documents `u!` as positive. The program evaluates it as gamma(u + 1), which is negative for u between
  -2 and -1, -4 and -3, and so on; at x = -3/2 rewriting abs(x!) to x! is wrong. Facts are proved for the worlds in which
  no factorial they rest on is negative (`SignWorlds.Tame`); without factorials that is every world.
- `throttle` documents at most one call per `wait` ms; with both edges, its default, and `wait` > 0 two calls can share a
  millisecond.
- `replay` documents that another request is refused; it is refused exactly when a receipt is stored. After a crash
  between the claim key and the pending receipt, any request for the id is told "in progress", and never runs.
- A repeat documents the stored outcome. After an action that broke its output schema it reads null data where the
  first call answered an error; a failure's status is read back from its code, so AdminError E014 answers 500 at first
  and 400 on the repeat; a failure outside the receipt schema is never stored, and its repeats stay "in progress".

## Model

| member | source | states |
|---|---|---|
| Arith.ModInverse | packages/cas/src/factor.ts:266-273 | the result is the residue r in [0, m) with a*r = 1 mod m whenever a and m are coprime |
| Arith.Inverse | packages/cas/src/factor.ts:48-56 | an inverse mod p exactly when a and p are coprime, else the invariant error |
| DensePoly.EvalInjective | packages/cas/src/factor.ts:25-28 | a coefficient list is determined by its values, so identities checked by values are identities of polynomials |
| DensePoly.CongMul | packages/cas/src/factor.ts:171-199 | coefficientwise congruence mod m is kept by products |
| DensePoly.MonicDivision | packages/cas/src/factor.ts:201-212 | quotient and remainder of a multiple of m by a monic divisor are multiples of m: division by a monic divisor is unique mod m |
| Hensel.ZMul | packages/cas/src/factor.ts:190-199 | the loop computes the product polynomial, canonical |
| Hensel.FpMul | packages/cas/src/factor.ts:63-73 | the loop computes the reduced product mod p |
| Hensel.ZDivmodMonic | packages/cas/src/factor.ts:201-212 | a = q*b + r mod m with deg r < deg b, both reduced mod m, for a monic b |
| Hensel.FpDivmod | packages/cas/src/factor.ts:74-87 | a = q*b + r mod p with deg r < deg b when the leading coefficient is invertible, else the error |
| Bezout.FpBezout | packages/cas/src/factor.ts:110-124 | cofactors exist exactly for coprime inputs; then s*a + t*b = 1 mod p, and deg s < deg b, deg t < deg a exactly when not both inputs are constants |
| Bezout.TwoOnes | packages/cas/src/factor.ts:109-111 | at two constants cofactors exist, and none have the documented degrees |
| Lifting.HenselStep | packages/cas/src/factor.ts:214-229 | from f = g*h and s*g + t*h = 1 mod m with h monic to both congruences mod m^2, h monic of the same degree, and g, h unchanged mod m |
| LiftTree.FpProduct | packages/cas/src/factor.ts:231-233 | the fold is the reduced product of the list |
| LiftTree.CoprimeMul | packages/cas/src/factor.ts:245-253 | a polynomial coprime to two factors is coprime to their product |
| LiftTree.CofactorDegree | packages/cas/src/factor.ts:245-259 | degrees of lifted cofactors stay those of the factors |
| LiftTree.Lift | packages/cas/src/factor.ts:235-264 | for f = lc*prod(us) mod p with us monic and pairwise coprime and p not dividing lc: monic factors, each congruent to its own us[i] mod p, with lc(f) times their product congruent to f mod p^(2^steps) |
| LiftTree.LiftPair | packages/cas/src/factor.ts:245-263 | the loop of quadratic steps keeps both congruences and doubles the exponent each time |
| ExactDivision.GcdBig | packages/cas/src/factor.ts:297-301 | the greatest common divisor |
| ExactDivision.Primitive | packages/cas/src/factor.ts:303-308 | the primitive part: coprime coefficients, positive leading coefficient, f an integer multiple of it |
| ExactDivision.PrimitivePartUnique | packages/cas/src/factor.ts:303-308 | primitive parts are unique, so the result is determined by f |
| ExactDivision.ExactQuotient | packages/cas/src/factor.ts:310-323 | a quotient exactly when d divides f over the integers, and then f = q*d |
| Subsets.Advance | packages/cas/src/factor.ts:511-522 | the next index list is the least greater one in lexicographic order; none is left only after the last, so every subset of the size is visited once, in order |
| Subsets.LeftExactly | packages/cas/src/factor.ts:500 | the positions not in an index list, in increasing order: each other position once, and no other |
| Recombination.ConstantTestSound | packages/cas/src/factor.ts:494-496 | skipping a subset by the constant-term test never skips a true factor |
| Recombination.ConstantTestNeedsRoom | packages/cas/src/factor.ts:494-496 | the modulus must be at least twice the leading coefficient: below that the test rejects a true factor |
| Recombination.SymmetricResidue | packages/cas/src/factor.ts:474-477 | the one number in (-m/2, m/2] congruent to c mod m |
| Recombination.TrySubset | packages/cas/src/factor.ts:488-500 | a hit is a primitive factor and its exact quotient; a miss means the subset gives no factor |
| Recombination.SearchSize | packages/cas/src/factor.ts:485-504 | the first subset of the size that gives a factor, or none when no subset does |
| Recombination.Recombine | packages/cas/src/factor.ts:479-509 | the product of the returned factors is exactly f, every factor primitive with positive leading coefficient, and the list is the one the lexicographic search specifies, whatever the lifted pool |
| Irreducibility.WithoutKeeps | packages/cas/src/factor.ts:500 | the pool without a subset's factors is the entries at every other position, once each and in order, |pool| - |subset| of them |
| PrimeFactors.DivideMod | packages/cas/src/factor.ts:74-87 | division mod p with a shorter remainder exists for every divisor whose leading coefficient p does not divide |
| PrimeFactors.PrimeElement | packages/cas/src/factor.ts:449-453 | an irreducible monic polynomial that divides a product mod p divides one of its factors |
| PrimeFactors.ShareOut | packages/cas/src/factor.ts:482-483 | two polynomials with a product of irreducible factors as their product share those factors out, each taking some positions and the other the rest |
| Irreducibility.Blocks | packages/cas/src/factor.ts:482-483 | any factor over the integers is, mod p^(2^steps), its leading coefficient times the lifted factors at some positions, and its cofactor its own times the others |
| Irreducibility.BlockHits | packages/cas/src/factor.ts:488-499 | with room in the modulus, a true factor is found by the subset of its positions |
| Irreducibility.HitIsBlock | packages/cas/src/factor.ts:488-499 | a factor found by a subset is its leading coefficient times that subset's lifted factors |
| Irreducibility.HitStep | packages/cas/src/factor.ts:485-504 | at each hit the factor found is irreducible, and the rest and the pool without the subset can be searched on |
| Irreducibility.RecombinedIrreducible | packages/cas/src/factor.ts:479-509 | every factor the search returns is irreducible over the integers, for lifted irreducible factors of f and a modulus above twice lc(f) times any coefficient of any factor of smaller degree |
| Factoring.Binomial | packages/cas/src/factor.ts:291-295 | the loop divides exactly and computes the binomial coefficient |
| Factoring.Absorption | packages/cas/src/factor.ts:291-295 | k*C(n, k) = n*C(n - 1, k - 1), which makes each division exact |
| Factoring.Norm | packages/cas/src/factor.ts:464 | an integer above the Euclidean norm of the coefficients |
| Factoring.Squarings | packages/cas/src/factor.ts:466-468 | the least number of squarings that brings p above the bound |
| Factoring.RoomFromBound | packages/cas/src/factor.ts:462-465 | the source's modulus bound leaves room for every factor within the Landau-Mignotte bound |
| Factoring.OneFactor | packages/cas/src/factor.ts:459 | a polynomial with one factor mod p is irreducible |
| Factoring.IrreducibleFactors | packages/cas/src/factor.ts:449-472 | primitive factors with product f, each irreducible over the integers when the factors of f meet the Landau-Mignotte bound |
| Evaluation.Evaluate | packages/cas/src/factor.ts:329-335 | Horner computes the value at x |
| Evaluation.Interpolate | packages/cas/src/factor.ts:337-348 | the symmetric base-x digits of h: their value at x is h, each within x/2, no trailing zero; the loop ends |
| Evaluation.DigitsUnique | packages/cas/src/factor.ts:337-348 | two symmetric digit lists with one value are equal when one of them stays strictly below x/2 in size |
| Evaluation.ReadBack | packages/cas/src/factor.ts:329-348 | interpolating the value of f gives f back when every coefficient is below x/2 in size |
| IntegerRoots.Isqrt | packages/cas/src/roots.ts:69-75 | Newton returns the floor square root |
| IntegerRoots.SquarePart | packages/cas/src/roots.ts:77-102 | s^2*r = n for every n > 0, and r is square-free exactly when the untried cofactor is a square or square-free, in particular below 10^12 |
| SparsePoly.PutEval | packages/cas/src/poly.ts:34-40 | adding a term in place adds its value at every point |
| SparsePoly.PutValid | packages/cas/src/poly.ts:34-40 | one term per monomial and no zero coefficient is kept |
| SparsePoly.SumEval | packages/cas/src/poly.ts:77-83 | the sum has the sum of the values |
| SparsePoly.ProductEval | packages/cas/src/poly.ts:144-153 | the product has the product of the values |
| SparsePoly.ProductValid | packages/cas/src/poly.ts:144-153 | the product is in canonical form |
| SparseDivision.Add | packages/cas/src/poly.ts:77-83 | the loop over terms computes the sum of its specification |
| SparseDivision.Multiply | packages/cas/src/poly.ts:144-153 | the two loops compute the product of the specification, empty for an empty factor |
| SparseDivision.Subtract | packages/cas/src/poly.ts:91-93 | the difference |
| SparseDegrees.DegreeIn | packages/cas/src/poly.ts:191-195 | the highest exponent of a generator that occurs, -1 for zero |
| SparseDegrees.CoefficientEval | packages/cas/src/poly.ts:197-207 | entry k of the coefficient list has the value of the coefficient of g^k |
| SparseDegrees.CoefficientValid | packages/cas/src/poly.ts:197-207 | coefficients are canonical: terms of one exponent never collide |
| SparseDegrees.SliceProduct | packages/cas/src/poly.ts:263-285 | the top coefficient of a product is the product of the top coefficients |
| SparseZeros.AlongOne | packages/cas/src/poly.ts:197-218 | a polynomial is the sum of its coefficients times powers of one generator |
| SparseZeros.NonzeroPoint | packages/cas/src/poly.ts:8-10 | two nonzero polynomials are both nonzero at some point |
| SparseZeros.ZeroEverywhere | packages/cas/src/poly.ts:64-67 | only the empty map is zero everywhere: the zero test is exact |
| SparseDivision.ProductLeads | packages/cas/src/poly.ts:263-285 | degrees add up in a product and leading coefficients multiply |
| SparseDivision.ProductExactly | packages/cas/src/poly.ts:91-93 | a = q*b by values exactly when a - q*b is the zero polynomial |
| SparseDivision.DivideExact | packages/cas/src/poly.ts:262-285 | division by zero is an error; a quotient q only with q*b = a and no new generator; "not divisible" only when no q exists |
| SparseDivision.DivideAlong | packages/cas/src/poly.ts:270-285 | the long division in the highest generator ends: the degree of the rest falls at every step |
| MonomialOrder.CompareIsTotal | packages/cas/src/poly.ts:220-227 | the monomial order is total and equal only on equal monomials |
| MonomialOrder.SameTerms | packages/cas/src/poly.ts:8-10 | polynomials with equal values have the same terms |
| MonomialOrder.LeadProduct | packages/cas/src/poly.ts:144-153 | the leading term of a product is the product of the leading terms |
| MonomialOrder.LeadingTerm | packages/cas/src/poly.ts:229-234 | a term with the greatest monomial, none for zero |
| SparseRoots.NextTerm | packages/cas/src/poly.ts:422-427 | the leading term of what is left gives the next term of any root of p |
| SparseRoots.PolySqrt | packages/cas/src/poly.ts:405-432 | any root returned squares to p, and one is returned exactly when p has a root of at most 4|p| + 18 terms whose leading coefficient `rationalSqrt` finds |
| Decimals.DecimalText | packages/cas/src/emit.ts:51-62 | a text exactly when some power of ten clears the denominator, and then its digits and point stand for exactly n/d |
| Decimals.ReadText | packages/cas/src/emit.ts:51-62 | a number reads back from its digits |
| Emitters.ProductEval | packages/cas/src/emit.ts:45-49 | a product tree has the product of its factors' values |
| Emitters.FactorsValue | packages/cas/src/emit.ts:170-180 | the factors of a monomial multiply to its value in any product order |
| Emitters.RationalNodeEval | packages/cas/src/emit.ts:141-148 | a literal, decimal or fraction has the rational's value, the minus sign on its numerator |
| Emitters.TermNodeEval | packages/cas/src/emit.ts:150-168 | a term's tree has the value c*m, or its negative, wherever the sign is folded |
| Emitters.Join | packages/cas/src/emit.ts:182-189 | the loop joins the parts as the specification says |
| Emitters.JoinedEval | packages/cas/src/emit.ts:182-189 | the joined tree has the signed sum of its parts' values |
| Emitters.SumInAnyOrder | packages/cas/src/emit.ts:191-199 | reordering the terms does not change the value |
| Emitters.PolyNodeDenotes | packages/cas/src/emit.ts:191-204 | whatever order the terms are sorted in, the polynomial's tree denotes the polynomial |
| EmittedForms.RationalForm | packages/cas/src/emit.ts:141-148 | a coefficient is one literal exactly when it is whole or a terminating decimal that was asked for, else a fraction of two whole literals |
| EmittedForms.TermTidy | packages/cas/src/emit.ts:150-180 | a term's tree has no factor 1, no power 1, no divisor 1 and no signed literal |
| EmittedForms.JoinedTidy | packages/cas/src/emit.ts:182-200 | the same for sums, which start with 0 only when there are no terms |
| Emitters.FractionParts | packages/cas/src/emit.ts:206-218 | integer coefficients on both sides, and both sides multiplied by the same positive integer |
| Emitters.FractionDenotes | packages/cas/src/emit.ts:220-225 | the fraction's tree denotes the quotient of the two polynomials |
| EmittedValues.NodeDenotes | packages/cas/src/emit.ts:220-250 | the tree of a value has its value wherever it is defined, through powers, factorials and calls of further values |
| EmittedValues.GenDenotes | packages/cas/src/emit.ts:227-250 | the tree of a generator has its value |
| Signs.HoldsIsExact | packages/cas/src/sign.ts:56-67 | a claim is proved exactly when the set is not empty and every number it covers satisfies the claim |
| Signs.TimesSigns | packages/cas/src/sign.ts:73-83 | the nested loops compute the set of possible product signs |
| Signs.ProductCovers | packages/cas/src/sign.ts:73-83 | the product of covered numbers is covered |
| Signs.PlusCovers | packages/cas/src/sign.ts:85-92 | the sum of covered numbers is covered |
| Signs.PowerCovers | packages/cas/src/sign.ts:94-97 | a positive power of a covered number is covered |
| Signs.ProductIsLeast | packages/cas/src/sign.ts:73-83 | every sound set for products holds the signs given, so no smaller answer is sound |
| Signs.PlusIsLeast | packages/cas/src/sign.ts:85-92 | the same for sums |
| Signs.PowerIsLeast | packages/cas/src/sign.ts:94-97 | the same for powers |
| Constants.MonomialEnds | packages/cas/src/constants.ts:52-60 | both ends enclose the monomial for every pi and e within the decimals' error |
| Constants.PolynomialEnds | packages/cas/src/constants.ts:48-65 | both ends enclose the value of the polynomial |
| Constants.ConstantSign | packages/cas/src/constants.ts:29-69 | a rational constant answers its own sign; else the first attempt within the digits whose interval excludes 0 decides, and nothing is answered only when none does; a decided sign is right for all pi and e that the decimals enclose |
| Constants.DecidedExactly | packages/cas/src/constants.ts:10-16 | with enough digits every value is decided except zero |
| SignWorlds.NameSound | packages/cas/src/sign.ts:177-182 | a name's assumed signs are sound, name the assumption used, and prove exactly the claims the assumption implies |
| SignWorlds.PositiveKernel | packages/cas/src/sign.ts:196 | exp and cosh are positive, and a factorial is in every tame world, where its argument is not left of -1 in a place where gamma(u + 1) is negative |
| SignWorlds.FactorialIsExact | packages/cas/src/sign.ts:53-54 | for every table, the answer "positive" for a factorial is right exactly when its argument is always above -1 or where gamma(u + 1) is positive; world by world, exactly in the tame ones |
| SignWorlds.NegativeFactorial | packages/expr/src/float-builtins.ts:114-122 | a world, x = -3/2, in which x! is negative while the oracle answers "positive" |
| SignWorlds.NoFactorials | packages/cas/src/sign.ts:53-54 | without factorials in the table every world is tame |
| SignWorlds.SameSignKernel | packages/cas/src/sign.ts:197 | odd increasing functions have the argument's sign |
| SignWorlds.AtLeastZeroKernel | packages/cas/src/sign.ts:200-214 | abs and sqrt are at least 0, and positive when the argument is proved nonzero or positive |
| SignWorlds.LogarithmKernel | packages/cas/src/sign.ts:204-206 | a logarithm has the sign of the argument minus 1 |
| SignWorlds.RatFactSound | packages/cas/src/sign.ts:116-122 | the signs of a quotient where it is defined |
| SignOracles.Collect | packages/cas/src/sign.ts:128-143 | grouping terms by their part outside pi and e keeps the value |
| SignOracles.StepTerm | packages/cas/src/sign.ts:148-153 | one more factor keeps the term's signs sound, under the union of the names |
| SignOracles.StepSum | packages/cas/src/sign.ts:146-156 | one more group keeps the sum's signs sound |
| SignOracles.SquareSound | packages/cas/src/sign.ts:157-159 | a perfect square is not negative, with no assumption used |
| SignOracles.SignOracle.PolyFact | packages/cas/src/sign.ts:124-160 | the answer is the one its structure gives (`PolyAnswer`: groups, factors, sums, perfect squares), and in every tame world that satisfies the assumptions on its names the polynomial's sign is in its set wherever it is defined |
| SignOracles.SignOracle.ValueFact | packages/cas/src/sign.ts:116-122 | the same for a quotient |
| SignOracles.SignOracle.GeneratorFact | packages/cas/src/sign.ts:162-168 | the memo keeps only the facts structure gives, all sound |
| SignOracles.SignOracle.Compute | packages/cas/src/sign.ts:170-191 | the same for each kind of generator |
| SignOracles.SignOracle.KernelFact | packages/cas/src/sign.ts:193-209 | the same for each known kernel |
| SignWorlds.AssumedIsExact | packages/cas/src/sign.ts:45-50 | the signs of an assumption are exactly those of the numbers that meet it |
| SignAnswers.PlusIsExact | packages/cas/src/sign.ts:85-92 | `plus` gives exactly the signs of sums of numbers with the given signs |
| SignAnswers.ProductIsExact | packages/cas/src/sign.ts:73-83 | `times` gives exactly the signs of products |
| SignAnswers.PowerIsExact | packages/cas/src/sign.ts:94-97 | `toPower` gives exactly the signs of positive powers |
| SignAnswers.LeafIsExact | packages/cas/src/sign.ts:8-11 | the answer about a name covers exactly the numbers its assumption allows and names it; pi and e are positive with no assumption; nothing is known of atoms |
| SignAnswers.KernelGenIsExact | packages/cas/src/sign.ts:12-16 | the answer about a kernel covers exactly the signs of its values at arguments that the answer about its argument allows |
| SignAnswers.KernelNames | packages/cas/src/sign.ts:211-214 | an answer that does not rest on the argument names no assumption |
| SignAnswers.QuotientIsExact | packages/cas/src/sign.ts:116-122 | exactly the signs of quotients with a nonzero denominator |
| SignAnswers.SumIsExact | packages/cas/src/sign.ts:145-156 | exactly the signs of sums of one number for each group, with the signs of its answer: non-negatives with one positive are positive |
| SignAnswers.TermIsExact | packages/cas/src/sign.ts:146-153 | exactly the signs of products of the constant and powers of numbers with the signs of the generators' answers |
| SignAnswers.PolyIsExact | packages/cas/src/sign.ts:124-160 | zero is zero; else the groups decide when they leave a sign out; else a perfect square that `polySqrt` finds is at least zero, with no assumption named |
| SignAnswers.ProperGen | packages/cas/src/sign.ts:18-19 | no answer is empty, and the names it gives are assumed names among the generators it can rest on |
| SignAnswers.GroupsApart | packages/cas/src/sign.ts:124-143 | no two groups have the same part outside pi and e, so (pi - 3)*x^2 is decided by pi - 3 |
| Conditions.ImpliesIsExact | packages/cas/src/conditions.ts:227-230 | `implies` holds exactly when every real number with the one relation has the other |
| Conditions.KeptImplier | packages/cas/src/conditions.ts:246-255 | every dropped condition has a kept one on its subject that implies it |
| Conditions.MergeKeepsMeaning | packages/cas/src/conditions.ts:232-256 | the merged list holds under a valuation exactly when all the lists do |
| Conditions.MergeIsIrredundant | packages/cas/src/conditions.ts:246-255 | no kept condition implies another on the same subject |
| Conditions.MergeCombines | packages/cas/src/conditions.ts:232-245 | u >= 0 beside u != 0 for one reason becomes u > 0, and nothing weaker on u is kept |
| Conditions.MergeInventsNothing | packages/cas/src/conditions.ts:240-245 | each kept condition is given, or combines a given >= 0 with a given != 0 |
| Conditions.MergeKeepsTheFirst | packages/cas/src/conditions.ts:232-256 | list order is kept, and of equal conditions the first |
| Conditions.MergeIsIdempotent | packages/cas/src/conditions.ts:238-256 | merging again changes nothing |
| Trees.LiteralEval | packages/cas/src/differentiate.ts:99-107 | a literal tree has its literal value |
| Trees.ValueEval | packages/cas/src/differentiate.ts:121-127 | the tree of a rational has its value |
| Trees.NegateEval | packages/cas/src/differentiate.ts:129-134 | folded negation negates the value |
| Trees.PlusEval | packages/cas/src/differentiate.ts:136-144 | folded addition adds the values |
| Trees.MinusEval | packages/cas/src/differentiate.ts:146-154 | folded subtraction subtracts the values |
| Trees.TimesEval | packages/cas/src/differentiate.ts:156-169 | folded multiplication multiplies the values |
| Trees.OverEval | packages/cas/src/differentiate.ts:171-177 | folded division divides by a nonzero value |
| Trees.PowEval | packages/cas/src/differentiate.ts:179-184 | folded powers have the power's value |
| Interning.TreeOfInjective | packages/cas/src/differentiate.ts:225-232 | different keys stand for different trees |
| Interning.Grows | packages/cas/src/differentiate.ts:225-232 | interning a new key keeps ids one to one with erased trees |
| Interning.IdsAreExact | packages/cas/src/differentiate.ts:214-223 | ids are equal exactly when the erased trees are |
| Differentiators.Differentiator.Intern | packages/cas/src/differentiate.ts:225-232 | the id of the key's tree, old ids unchanged |
| Differentiators.Differentiator.Id | packages/cas/src/differentiate.ts:214-223 | the id of the tree with groups and unary plus erased |
| Differentiators.Differentiator.VariesNow | packages/cas/src/differentiate.ts:263-266 | whether the variable occurs |
| Differentiators.Differentiator.SharedIds | packages/cas/src/differentiate.ts:214-223 | two subtrees share an id exactly when they are equal once groups and unary plus are erased |
| Rules.TableSound | packages/cas/src/differentiate.ts:542-582 | each table entry evaluates to the derivative of its function |
| Rules.OuterOfSound | packages/cas/src/differentiate.ts:506-541 | each outer derivative evaluates to the function's slope |
| Slopes.CircularQuotients | packages/cas/src/differentiate.ts:557-563 | the slopes of tan, sec, cot and csc are those of the quotient rule on sine and cosine, sin' = cos and cos' = -sin |
| Slopes.HyperbolicQuotients | packages/cas/src/differentiate.ts:570-575 | the same for tanh, sech, coth and csch, with sinh' = cosh and cosh' = sinh |
| Slopes.InverseSlopes | packages/cas/src/differentiate.ts:564-581 | each inverse circular or hyperbolic function has the reciprocal of its function's slope |
| Slopes.InverseExponential | packages/cas/src/differentiate.ts:500-507 | the logarithm has the reciprocal of the slope of exp, which is exp |
| Slopes.DefinedByEquation | packages/cas/src/differentiate.ts:503-523 | the slopes of roots and of logarithms to fixed bases solve the derived equations w^2 = u, w^3 = u, exp(w*ln 10) = u and exp(w*ln 2) = u |
| Slopes.DualIsFirstOrder | packages/cas/src/differentiate.ts:350-381 | sums, differences, products and quotients of dual numbers are right to first order: the two sides agree up to a multiple of h^2 |
| Slopes.PowerByLogarithm | packages/cas/src/differentiate.ts:423-477 | the derivative of a power is that of exp(b*ln a), also where only the base or only the exponent varies |
| Slopes.LogarithmByQuotient | packages/cas/src/differentiate.ts:492-507 | the derivative of log(a, b) is that of ln a / ln b |
| Slopes.RootByPower | packages/cas/src/differentiate.ts:513-518 | the derivative w' of nthRoot(a, n) solves n*w^(n-1)*w' = a' |
| Calculus.EraseDual | packages/cas/src/differentiate.ts:92-97 | dual evaluation ignores groups and unary plus |
| Calculus.NegationSound | packages/cas/src/differentiate.ts:322-324 | the negation rule |
| Calculus.ScaledLeft | packages/cas/src/differentiate.ts:413-421 | the constant-multiple rule, constant first |
| Calculus.ScaledRight | packages/cas/src/differentiate.ts:413-421 | the constant-multiple rule, constant last |
| Calculus.ProductSound | packages/cas/src/differentiate.ts:350-361 | the product rule |
| Calculus.DivisorSound | packages/cas/src/differentiate.ts:363-370 | division by a constant |
| Calculus.QuotientSound | packages/cas/src/differentiate.ts:371-380 | the quotient rule |
| Calculus.ChainOfSums | packages/cas/src/differentiate.ts:388-411 | the derivative of a whole chain of + and - is the signed sum over its terms |
| Calculus.ChainSound | packages/cas/src/differentiate.ts:458-476 | the chain rule |
| Powers.PowerOuterSound | packages/cas/src/differentiate.ts:423-428 | the power rule for a constant exponent, literal 0 included |
| Powers.NaturalSound | packages/cas/src/differentiate.ts:429-438 | powers of e |
| Powers.ExponentialSound | packages/cas/src/differentiate.ts:439-446 | powers of another constant base |
| Powers.GeneralPowerSound | packages/cas/src/differentiate.ts:448-456 | varying base and exponent |
| Powers.LogBaseSound | packages/cas/src/differentiate.ts:506-512 | a logarithm to a constant base |
| Powers.LogVaryingSound | packages/cas/src/differentiate.ts:489-493 | a logarithm to a varying base |
| Powers.RootSound | packages/cas/src/differentiate.ts:519-524 | a root of constant degree |
| Differentiators.Differentiator.Derive | packages/cas/src/differentiate.ts:268-309 | the memoised folded derivative exists exactly when `OutcomeOf` is fine, else the error says why; it equals the e-part of dual-number evaluation wherever the latter is defined; every abs argument on the way is recorded |
| Outcomes.DefinedIsFine | packages/cas/src/differentiate.ts:311-341 | wherever dual evaluation is defined, differentiation succeeds |
| Outcomes.ChainOutcome | packages/cas/src/differentiate.ts:388-411 | a chain of sums fails as its first failing term does |
| Outcomes.TableHolds | packages/cas/src/differentiate.ts:555-582 | the functions in the table, and no others, have a rule there |
| Differentiators.Differentiator.Plan | packages/cas/src/differentiate.ts:320-340 | the same for each rule it chooses |
| Differentiators.Differentiator.SumRule | packages/cas/src/differentiate.ts:388-411 | the same for a chain of sums |
| Differentiators.Differentiator.PowerRule | packages/cas/src/differentiate.ts:423-456 | the same for powers |
| Differentiators.Differentiator.CallRule | packages/cas/src/differentiate.ts:478-546 | the same for calls; functions with jumps are refused before their arguments are looked at |
| Lifetime.RunsKeepInv | packages/async/src/scope.ts:233-347 | every interleaving keeps quiescence, finalizer order and the record of failures |
| Lifetime.RunsAreTold | packages/async/src/scope.ts:246-331 | over every run the recorded failures are exactly those brought before the lifetime that are not its own cancellation, work has settled exactly when an event settled it, quiesce and close are under way exactly when called, and the signal is aborted exactly when a failure was brought or one of them called |
| Lifetime.AdmittedExactly | packages/async/src/scope.ts:265-295 | until then every call of acquire, defer and fork is admitted, and its work unsettled; from then on none is |
| Lifetime.WorkSettlesOnce | packages/async/src/scope.ts:269-316 | admitted work may settle, in any way, exactly until it has |
| Lifetime.CleanupIsComplete | packages/async/src/scope.ts:329-345 | close ends every accepted finalizer, each before the next starts, before it releases the two watched signals, and both before it is closed |
| Lifetime.ClosedRanEveryFinalizer | packages/async/src/scope.ts:329-345 | at the end of close every accepted finalizer has run exactly once, in reverse order of acceptance |
| Lifetime.FinalizerStartsAfterJoin | packages/async/src/scope.ts:319-345 | finalizers start one at a time, in reverse order, after every admitted child and acquisition has settled |
| Lifetime.NothingAdmittedAfterQuiesce | packages/async/src/scope.ts:265-327 | after quiesce nothing is admitted; only a resource admitted before can still register its finalizer, and none once finalizers run |
| Lifetime.LateResourceIsKept | packages/async/src/scope.ts:275-279 | a resource that opens after an abort is kept for cleanup and not handed out |
| Lifetime.ClosingOutcomeIsExact | packages/async/src/scope.ts:110-120 | the outcome of close holds exactly the distinct reported failures in order, then every cleanup failure; it is clean for none, the failure itself for one, and keeps the two lists apart for more |
| Lifetime.QuietOutcomeIsExact | packages/async/src/scope.ts:319-328 | the outcome of quiesce holds exactly the distinct failures reported up to its one join, in order |
| Lifetime.OutcomesAreFinal | packages/async/src/scope.ts:319-331 | an outcome, once given, never changes |
| Lifetime.DistinctFacts | packages/async/src/scope.ts:246-250 | recording keeps each failure once and loses none |
| Lifetime.CloseNeverBlocks | packages/async/src/scope.ts:329-345 | until it has closed, close waits only for admitted work or a running finalizer |
| Lifetime.ContinuationsMakeProgress | packages/async/src/scope.ts:329-345 | each continuation and each finished finalizer brings the end of close nearer |
| Lifetime.Supervisor.AbortWith | packages/async/src/scope.ts:246-250 | refines the abort step |
| Lifetime.Supervisor.AcquireResource | packages/async/src/scope.ts:266-288 | admission exactly while accepting; refines the step |
| Lifetime.Supervisor.DeferFinalizer | packages/async/src/scope.ts:289-293 | admission exactly while accepting; refines the step |
| Lifetime.Supervisor.ForkChild | packages/async/src/scope.ts:294-318 | admission exactly while accepting; refines the step |
| Lifetime.Supervisor.PrepareSettled | packages/async/src/scope.ts:269-285 | refines the step; the value is handed out only while still accepting |
| Lifetime.Supervisor.ChildSettled | packages/async/src/scope.ts:296-316 | refines the step |
| Lifetime.Supervisor.QuiesceNow | packages/async/src/scope.ts:319-328 | refines the step |
| Lifetime.Supervisor.CloseNow | packages/async/src/scope.ts:329-347 | refines the step |
| Lifetime.Supervisor.ReverseList | packages/async/src/scope.ts:334 | the in-place reversal computes the reverse |
| Lifetime.Supervisor.FinishNow | packages/async/src/scope.ts:340-342 | the outcome returned is that of the step |
| Pool.RunsKeepAll | packages/async/src/concurrency.ts:17-71 | every interleaving keeps the pool's invariant |
| Pool.RunsAreTold | packages/async/src/concurrency.ts:40-71 | the pool begins once and returns once, and counts the workers it starts |
| Pool.AllowedExactly | packages/async/src/concurrency.ts:17-60 | what a pool that has not returned allows: begin once, at most one worker for each item and none above the limit, any running task to settle in any way, an abort at any time |
| Pool.BoundedAndInOrder | packages/async/src/concurrency.ts:44-60 | at most min(concurrency, n) tasks run at once; items start in input order, each at most once |
| Pool.NothingStartsAfterStop | packages/async/src/concurrency.ts:46-50 | nothing starts after a stop, and a stop is for ever |
| Pool.KeepsEveryWorkerBusy | packages/async/src/concurrency.ts:46-60 | while items are left and nothing stopped, every started worker is busy, and workers are started until there is one for each item or the limit is reached |
| Pool.ReturnIsJoinedAndComplete | packages/async/src/concurrency.ts:60-71 | nothing runs at return; the outcome is a defect of the cleanup, else the first defect the run reports, else its first cancellation, else all n results, each at its item's place |
| Pool.NeverBlocks | packages/async/src/concurrency.ts:40-71 | the pool waits only for its running tasks |
| Pool.WorkerPool.Turn | packages/async/src/concurrency.ts:46-50 | one turn of a worker takes the next item exactly when not stopped and items are left |
| Pool.WorkerPool.Fulfilled | packages/async/src/concurrency.ts:51-52 | refines the step |
| Pool.WorkerPool.Rejected | packages/async/src/concurrency.ts:53-55 | refines the step |
| Pool.WorkerPool.ReturnNow | packages/async/src/concurrency.ts:65-71 | refines the step |
| Schedule.PendingHasOneTimer | packages/async/src/schedule.ts:84-147 | a pending call always has exactly one live timer |
| Schedule.DeliveredOnceInOrder | packages/async/src/schedule.ts:89-101 | arguments are delivered at most once, in call order, never before their call |
| Schedule.DeliversTheLatest | packages/async/src/schedule.ts:89-147 | a delivery is always the latest call, at the present time, and never one that cancel dropped |
| Schedule.DebounceWaitsForQuiet | packages/async/src/schedule.ts:103-147 | trailing-only debounce without flush delivers exactly wait ms after the last call, with no call in between |
| Schedule.NoCallWaitsLonger | packages/async/src/schedule.ts:75-147 | with trailing and maxWait every call that cancel did not drop was delivered, itself or through a later call, at most max(maxWait, wait) after it was made, or still waits and that time has not passed |
| Schedule.NoCallIsLost | packages/async/src/schedule.ts:103-162 | with a trailing edge a call that cancel did not drop was delivered, itself or through a later call, or is pending with its timer due at most wait after the latest call |
| Schedule.DebounceServesBursts | packages/async/src/schedule.ts:103-124 | without maxWait a burst followed by wait quiet ms is delivered exactly then, through its last call |
| Schedule.FlushDelivers | packages/async/src/schedule.ts:149-162 | a flush delivers the pending call now; a cancel drops it |
| Schedule.LeadingEdge | packages/async/src/schedule.ts:126-147 | a fresh call is delivered at once exactly with a leading edge, and without maxWait no call within wait of the one before is |
| Schedule.AtOnceAfterLongest | packages/async/src/schedule.ts:126-147 | with a leading edge and maxWait, a call made max(maxWait, wait) or longer after the last delivery is delivered at once |
| Schedule.OneEdgeKeepsApart | packages/async/src/schedule.ts:108-147 | with at most one edge, and no cancel or flush, deliveries are at least wait apart |
| Schedule.BothEdgesCrowd | packages/async/src/schedule.ts:187-200 | with both edges and wait > 0 a throttle can deliver twice in one millisecond |
| Schedule.ThrottleSpacing | packages/async/src/schedule.ts:196-206 | a throttle delivers at most once per wait in every run without cancel and flush exactly when it has at most one edge or no wait |
| Schedule.Scheduled.CallAt | packages/async/src/schedule.ts:126-147 | refines the call step |
| Schedule.Scheduled.FireTimer | packages/async/src/schedule.ts:120-124 | refines the timer step |
| Schedule.Scheduled.CancelAt | packages/async/src/schedule.ts:149-155 | refines the cancel step |
| Schedule.Scheduled.FlushAt | packages/async/src/schedule.ts:156-162 | refines the flush step |
| Receipts.AtMostOnce | packages/admin/src/dispatcher.ts:370-400 | over any interleaving of handlers, crashes and store failures, an action runs at most once per execution id while its claim key lives |
| Receipts.ExpiredClaimRunsAgain | packages/admin/src/receipts.ts:187-193 | the condition is exact: once the key is gone, a waiting handler can run the action again |
| Receipts.ReceiptMovesForward | packages/admin/src/receipts.ts:220-233 | a receipt moves only from nothing to pending to one final value of the same request |
| Receipts.AnswerToARepeat | packages/admin/src/dispatcher.ts:448-491 | a matching hash gets the stored outcome or "in progress"; a different hash is refused exactly when a receipt is stored |
| Receipts.RefusalNeedsAReceipt | packages/admin/src/dispatcher.ts:448-491 | a run where another request is told "in progress" because the winner has not stored its receipt |
| Receipts.AnswerFromAnEarlierProcess | packages/admin/src/dispatcher.ts:448-491 | an id an earlier process claimed never runs here and its receipt never changes; a call is refused, told "in progress" or given the outcome by that receipt, and one without a hash is matched by action id |
| Receipts.UnstorableStaysPending | packages/admin/src/receipts.ts:92-106 | a failure outside the receipt schema never settles, and its repeats are told "in progress" |
| Receipts.RepeatNeverRuns | packages/admin/src/dispatcher.ts:389-398 | once an id is held, no other handler ever runs its action |
| Receipts.HeldOnlyWhenClaimed | packages/admin/src/dispatcher.ts:389-404 | only an id that a call has claimed is refused, told "in progress" or answered from a receipt |
| Receipts.ReceiptTellsTheOutcome | packages/admin/src/receipts.ts:69-105 | applied exactly when the action returned data or broke its own output schema, with that data or null; failed with exactly the code and message answered |
| Receipts.RepeatReadsTheSameResponse | packages/admin/src/dispatcher.ts:402-491 | a repeat reads the first call's response exactly for data with JSON and for failures whose code and status go together |
| WireErrors.RepeatAnswersAlike | packages/admin/src/dispatcher.ts:613-681 | a replayed failure always has the first answer's code, and its status and message exactly when a protocol code came with its own status and an AdminError is one both status tables agree on |
| WireErrors.WireCodesRoundTrip | packages/admin/src/failures.ts:164-194 | a wire code leads back to the failure that travels under it |
| WireErrors.OwnTextStaysInside | packages/admin/src/dispatcher.ts:612-640 | an answer with status 500 or above carries one of the two fixed messages, never the app's own text |
| WireErrors.StatusTablesAgree | packages/admin/src/dispatcher.ts:160-170 | the two status tables agree below 500; above, one says 500 and the other 500 or 502 |
| WireErrors.InvalidConfigDiffers | packages/admin/src/dispatcher.ts:160-170 | AdminError E014 answers 500 at first and 400 on the repeat |
| WireErrors.AdviceDiffers | packages/admin/src/dispatcher.ts:671-681 | any other thrown value answers alike with another advice |
| Receipts.KvReceiptStore.TakeClaim | packages/admin/src/receipts.ts:222-228 | the two writes of a claim, and what each store failure leaves behind |
| Receipts.KvReceiptStore.ExecuteOnce | packages/admin/src/dispatcher.ts:370-446 | one uninterrupted call is a run of the transition system, and runs the action exactly when it wins the key and stores its claim |
| Nonces.MemoryStore.Live | packages/admin/src/foreman-route.ts:112-119 | lazy delete finds what is live and changes no view from now on |
| Nonces.MemoryStore.Sweep | packages/admin/src/foreman-route.ts:120-123 | the sweep leaves exactly the live view |
| Nonces.MemoryStore.Get | packages/admin/src/foreman-route.ts:126-129 | the live value |
| Nonces.MemoryStore.Set | packages/admin/src/foreman-route.ts:130-134 | the new entry is seen exactly until its seconds are over, and every other view is unchanged |
| Nonces.MemoryStore.SetIfNotExists | packages/admin/src/foreman-route.ts:135-140 | succeeds exactly when no live entry exists, and then adds it to every later view |
| Nonces.AcceptedAtMostOnce | packages/admin/src/dispatcher.ts:279-300 | one nonce and issue time is accepted at most once when the later request reaches the store less than 180 s after its clock check |
| Nonces.AcceptedExactly | packages/admin/src/dispatcher.ts:279-300 | a request is accepted exactly when its clock is within 60 s of its issue time, the store did not fail, and no request before it recorded the nonce within the last 300 s |
| Nonces.SlowAttemptIsAcceptedTwice | packages/admin/src/protocol.ts:46-50 | the 180 s are exact: every longer delay has a run that accepts twice |
| Nonces.Gate.Authenticate | packages/admin/src/dispatcher.ts:279-300 | checks over the memory store decide as the run specifies |
| CanonicalJson.BodyPrefix | packages/admin/src/json.ts:32 | a quoted string says where it ends, and determines the string |
| CanonicalJson.BodyHasWholeCharacters | packages/admin/src/json.ts:32 | a quoted string holds no lone surrogate, whatever the string |
| CanonicalJson.EscapeIsShort | packages/admin/src/json.ts:32 | a unit is escaped only where JSON needs it, in two units where it has a short escape, and a surrogate pair is written as it is |
| CanonicalJson.TokenPrefix | packages/admin/src/json.ts:34 | a number token says where it ends |
| CanonicalJson.PrintedIsToken | packages/admin/src/json.ts:34 | every token JavaScript prints for a finite number is in the number grammar of RFC 8259, section 6 |
| CanonicalJson.JoinPrefix | packages/admin/src/json.ts:29-32 | a bracketed list of unambiguous parts determines the parts |
| CanonicalJson.TextDetermines | packages/admin/src/json.ts:25-35 | equal canonical texts come from values equal up to key order |
| CanonicalJson.SameText | packages/admin/src/json.ts:21-35 | values equal up to key order have one canonical text |
| CanonicalJson.CompleteInvariant | packages/admin/src/json.ts:21-35 | two values have the same canonical text exactly when they are equal up to object key order at every level |
| JsonReader.CanonicalIsJson | packages/admin/src/json.ts:25-36 | the canonical text is JSON: the reader of the grammar of RFC 8259, section 2, takes all of it |
| JsonReader.ReadsBack | packages/admin/src/json.ts:25-36 | it reads back to a value equal to the one written up to key order, with the keys of every object strictly ascending by code units |
| JsonReader.BodyBack | packages/admin/src/json.ts:32 | a quoted string reads back to itself through the escapes of section 7 of RFC 8259 |
| JsonReader.NumberBack | packages/admin/src/json.ts:34 | a number token reads back to itself |

## Left out

- Factoring.IrreducibleFactors: the prime and the irreducible factors mod p are given; how Cantor-Zassenhaus finds them,
  and Yun's split before, are not modelled. The bound of Landau and Mignotte is a condition on f, since its proof is
  complex analysis.
- The primitive-PRS gcd of sparse polynomials as a true gcd, and everything that calls it.
- Budgets, fuel and abort signals of the algebra: each loop is modelled without its budget stops.
- Number width: residues mod p stay far below 2^53 because p < 2^15, so the JavaScript numbers of the mod-p loops are
  exact and modelled as integers.
- SparseDivision.DivideExact: coefficients are real numbers, so a quotient is sought among more polynomials than the
  rational ones; a rational quotient is covered.
- SparseRoots.PolySqrt: `rationalSqrt` is a given function that answers exact roots or nothing.
- SignWorlds.SameSignKernel: stands for the eight functions of the source's set; `nthRoot` and powers with rational
  exponents are opaque kernels here.
- Emitters.PolyNodeDenotes: the sort that orders terms is any reordering, and the product order any list of the
  generators; the keys they are sorted by, and the cache of the order, are not modelled.
- Differentiators.Differentiator.Derive: recorded steps, spans and the step budget are not modelled; object identity of
  nodes is modelled by equality of trees, and texts of keys by structured keys.
- Parsing and printing of expressions, and the classes `Rational` and `Decimal`, are not part of this model; rationals
  are exact fractions.
- Receipts.AtMostOnce: signatures and hashes are ideal, and times inside receipts, logging and response proofs are left
  out.
- Schedule.NoCallWaitsLonger: times are whole milliseconds of one monotone clock, and timers fire on time.
- Nonces.AcceptedAtMostOnce: one clock; signature, schema and body checks happen before the modelled part.
- CanonicalJson.CompleteInvariant: a number is known by the token it prints as, so 0 and -0 are one number.
- Lifetime.RunsKeepInv: telemetry, the plan loop of `openScope` and the watching of outside signals appear only as calls
  to the modelled operations.
- `race` and `timeout`, authentication definitions, modules, manifests, fetch, Postgres and Redis stores: single-branch
  or foreign code.
