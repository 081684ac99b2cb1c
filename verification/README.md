# Combinatorics of formal languages, modelled in Dafny

This project models the core of a C++ program that counts the words of a regular language by
length. The program works in four steps:

1. A regular expression over single characters is compiled into a nondeterministic automaton
   (NFA). The expression uses `+` for choice, `*` for iteration and brackets for grouping.
2. The epsilon transitions of the NFA are removed.
3. The NFA is turned into a deterministic automaton (DFA) by the subset construction, which
   memoises DFA states through `PtrMap`. The DFA is then minimised by table filling.
4. The generating function Σ_n (number of accepted words of length n)·x^n is computed as a
   rational function. This is the sum of the accepting entries of row 0 of (I − x·A)^−1, where A
   counts the transitions between states. The inverse comes from Gauss–Jordan elimination over
   rational functions.

The number tower below the last step is modelled as well:

- `Operators` holds the gcd and prime factorisation.
- `Rational` holds fractions of integers.
- `Polynomial` holds polynomials with rational coefficients, including long division and gcd.
- `RationalFunction` holds quotients of polynomials, normalised so that the denominator's
  constant term is 1.
- `ExtendedRationalFunction` holds the partial-fraction-style decomposition of a rational
  function.

## How the model is organised

- Automata are arenas: maps from state ids to states. A C++ `new` becomes "take the next unused
  id".
- The `parents` back-pointers become rewrites of every transition set that holds an id.
- The `explored`, `index` and `epsilonParents` fields are scratch data of a single call. They
  appear only as local values of the operation that uses them.
- `std::set<NFA*>` is iterated in pointer order. Where that order matters, it is modelled as
  ascending id order.
- Integers (`integer`, the GMP type) are Dafny `int`. Polynomial coefficients are Dafny `real`,
  which are exact rationals. The `Rationals` module proves that its operations have the values of
  real arithmetic, which justifies using `real` in place of `Rational` in the polynomial layers.
- Every exception (`ZeroInversion`) is a `Failure` of a `Result`. The operations state when they
  fail.

Modules and files:

| file | module | source |
|---|---|---|
| wrappers.dfy | Wrappers | `Result`, `Option`, the `ZeroInversion` error |
| scalars.dfy | Scalars | field facts about `real` products and quotients |
| operators.dfy | Operators | src/Operators.h |
| rational.dfy | Rationals | src/Rational.h |
| poly.dfy, polydiv.dfy | Polynomials, PolyDivision | src/Polynomial.h |
| ratfunc.dfy | RationalFunctions | src/RationalFunction.h |
| extended.dfy | ExtendedRationalFunctions | src/ExtendedRationalFunction.h |
| matrix.dfy, inverse.dfy, ratmatrix.dfy | Matrices, RealInverse, RationalMatrices | src/MatrixInversion.h |
| ordering.dfy, graphs.dfy | Ordering, Graphs | traversal and ordering helpers |
| regex.dfy | Regexes | `NFA::isValidRegex` |
| nfa.dfy | Nfas | NFA constructors, `add`, `concatenate`, `cycle`, `getNumberOfStates` |
| construct.dfy | Construction | `NFA::regexToAutomaton` |
| epsilon.dfy, epsilon_closure.dfy, epsilon_findings.dfy | EpsilonRemoval, EpsilonClosure, EpsilonFindings | `removeEpsilonTransitions`, `findEpsilonClosures` |
| ptrmap.dfy | PtrMaps | src/PtrMap.h |
| subset.dfy | SubsetConstruction | `NFA::toDFA` |
| dfa.dfy | Dfas | `regexMatch`, `getNumberOfStates` |
| minimize.dfy | Minimization | `DFA::minimize` |
| gf.dfy | GeneratingFunctions | `DFA::getGeneratingFunction` |

## Model

| member | source | states |
|---|---|---|
| Operators.TruncRem | src/Operators.h:11 | C++ `%`: a = b·(a/b) + r with \|r\| < \|b\|, and r has the sign of the dividend |
| Operators.Gcd | src/Operators.h:9-17 | Euclid's loop returns a common divisor that every common divisor divides; it is zero only when both inputs are, it is a itself when b = 0, and it is non-negative for non-negative inputs |
| Operators.PrimeFactors | src/Operators.h:19-37 | trial division yields strictly increasing primes, each with exponent ≥ 1, whose powers multiply to \|a\|; the list is empty exactly when \|a\| = 1 |
| Operators.DivideOut | src/Operators.h:26-32 | the inner do-while divides the prime out as often as it goes, records it with exponent ≥ 1, keeps product·rest = \|n\|, and leaves no factor ≤ i |
| Rationals.Zero | src/Rational.h:14-17 | the default rational is 0/1, in lowest terms |
| Rationals.FromInt | src/Rational.h:19-22 | n/1 has value n and is in lowest terms |
| Rationals.Make | src/Rational.h:24-40 | the denominator ends non-negative and the value is n/d; with reduction the result is in lowest terms, and without it the pair is kept up to the sign |
| Rationals.SignFix | src/Rational.h:36-39 | moving the sign to the numerator keeps the value and the lowest terms |
| Rationals.Neg | src/Rational.h:54-56 | the value is negated and the result is in lowest terms |
| Rationals.Add | src/Rational.h:58-61 | the sum over the common denominator has the sum of the values and is in lowest terms |
| Rationals.Sub | src/Rational.h:63-66 | the difference has the difference of the values and is in lowest terms |
| Rationals.Mul | src/Rational.h:68-72 | the cross-cancelled product is valid, has the product of the values, and is in lowest terms when both operands are |
| Rationals.Div | src/Rational.h:74-79 | division fails exactly when the divisor's numerator is 0; otherwise the result is valid, has the quotient of the values, and is in lowest terms when both operands are |
| Rationals.Eq | src/Rational.h:97-99 | cross-multiplication equality holds iff the values are equal |
| Rationals.Greater | src/Rational.h:105-107 | holds iff the first value is larger |
| Rationals.Less | src/Rational.h:109-111 | holds iff the first value is smaller |
| Rationals.GreaterEq | src/Rational.h:113-115 | holds iff the first value is at least the second |
| Rationals.LessEq | src/Rational.h:117-119 | holds iff the first value is at most the second |
| Polynomials.Trim | src/Polynomial.h:23-28 | `setCoefficients` removes only trailing zeros: every coefficient is kept, and a trimmed vector is unchanged |
| Polynomials.Constant | src/Polynomial.h:15-17 | `Polynomial({c})` has c as its only coefficient and is the zero polynomial iff c = 0 |
| Polynomials.Degree | src/Polynomial.h:40-42 | size − 1 in 32-bit unsigned: it indexes the leading nonzero coefficient, and the zero polynomial wraps to 2^32 − 1 |
| Polynomials.Neg | src/Polynomial.h:48-54 | every coefficient is negated |
| Polynomials.Add | src/Polynomial.h:56-75 | the coefficients are added pointwise and the result is no longer than the longer operand |
| Polynomials.Sub | src/Polynomial.h:77-96 | the coefficients are subtracted pointwise |
| Polynomials.Mul | src/Polynomial.h:98-114 | coefficient k is the convolution Σ a_i·b_(k−i); nonzero factors give length n + m − 1, and a zero factor gives zero |
| Polynomials.EvalMul | src/Polynomial.h:98-114 | the product evaluates to the product of the values |
| Polynomials.EvalAdd | src/Polynomial.h:56-75 | the sum evaluates to the sum of the values |
| Polynomials.EvalSub | src/Polynomial.h:77-96 | the difference evaluates to the difference of the values |
| Polynomials.MulComm | src/Polynomial.h:98-114 | multiplication is commutative |
| Polynomials.MulAssoc | src/Polynomial.h:98-114 | multiplication is associative |
| Polynomials.MulAddDistrib | src/Polynomial.h:98-114 | multiplication distributes over addition |
| Polynomials.MulOne | src/Polynomial.h:98-114 | the constant 1 is the unit of multiplication |
| Polynomials.Evaluate | src/Polynomial.h:166-173 | Horner's loop computes the power sum Σ c_k·x^k |
| Polynomials.EvalInjective | src/Polynomial.h:166-173 | two polynomials that agree at every point are equal (identity theorem) |
| Polynomials.Equal | src/Polynomial.h:182-192 | `==` holds iff all coefficients agree, which is iff the polynomials are equal |
| Polynomials.EqualIffSameValues | src/Polynomial.h:182-192 | `==` holds iff the two polynomial functions agree everywhere |
| Polynomials.IndexAsWritten | src/Polynomial.h:175-180 | as written, `operator[]` reads out of range exactly at n = size; it reads the coefficient everywhere else |
| Polynomials.IndexAsWrittenReadsPastEnd | src/Polynomial.h:176 | index 0 of the zero polynomial reads out of range |
| Polynomials.Index | src/Polynomial.h:175-180 | corrected: indices at or beyond the size read 0, and the result agrees with the as-written read wherever that one is in range |
| PolyDivision.Div | src/Polynomial.h:116-136 | `div` fails exactly on a zero divisor; otherwise a = q·b + r with r shorter than b, and a divisor longer than a gives (0, a) |
| PolyDivision.DivUnique | src/Polynomial.h:116-136 | any q, r with a = q·b + r and r shorter than b are exactly what `div` returns |
| PolyDivision.DivOfMul | src/Polynomial.h:116-136 | dividing q·b by b gives back q with remainder 0 |
| PolyDivision.Quotient | src/Polynomial.h:138-140 | `/` fails only on a zero divisor, and a − q·b is shorter than b |
| PolyDivision.Remainder | src/Polynomial.h:142-144 | `%` fails only on a zero divisor, is shorter than b, and b divides a − r |
| PolyDivision.Monic | src/Polynomial.h:244 | dividing by the leading coefficient keeps the length, makes the leading coefficient 1, and multiplying back gives the input |
| PolyDivision.Gcd | src/Polynomial.h:242-252 | the gcd is zero exactly when both inputs are, and is monic otherwise |
| PolyDivision.GcdDivides | src/Polynomial.h:242-252 | the gcd divides both inputs |
| PolyDivision.GcdGreatest | src/Polynomial.h:242-252 | every common divisor divides the gcd |
| RationalFunctions.EvalAt | src/RationalFunction.h:113-115 | evaluation fails exactly where the denominator vanishes; otherwise value·den(x) = num(x) |
| RationalFunctions.Default | src/RationalFunction.h:12-15 | the default function is the canonical 0/1, defined everywhere with value 0 |
| RationalFunctions.FromScalar | src/RationalFunction.h:17-20 | c/1 is canonical and has value c everywhere |
| RationalFunctions.FromCoefficients | src/RationalFunction.h:22-25 | p/1 is canonical and has the value of p everywhere |
| RationalFunctions.Make | src/RationalFunction.h:27-52 | a zero denominator fails; otherwise the pair is stored as given, or reduced when asked |
| RationalFunctions.Reduce | src/RationalFunction.h:129-137 | reduction fails only when den(0) = 0, and then with ZeroInversion; its result is canonical, and its numerator is zero iff the input's is |
| RationalFunctions.ReducePreservesValue | src/RationalFunction.h:129-137 | reduction keeps the value wherever the input is defined |
| RationalFunctions.ReduceLowest | src/RationalFunction.h:129-137 | a reduced function has no common factor of positive degree |
| RationalFunctions.ReduceIdempotent | src/RationalFunction.h:129-137 | reducing a canonical function in lowest terms returns it unchanged |
| RationalFunctions.Build | src/RationalFunction.h:62-95 | the shared step of the four operators: it fails only when den(0) = 0, gives canonical 0/1 for a zero numerator, and its value is n(x)/d(x) wherever d(x) ≠ 0 |
| RationalFunctions.Neg | src/RationalFunction.h:58-60 | unary minus negates the value, and cannot fail on canonical input |
| RationalFunctions.Add | src/RationalFunction.h:62-68 | `+` has the sum of the values, is canonical, and never fails on canonical operands |
| RationalFunctions.Sub | src/RationalFunction.h:70-76 | `-` has the difference of the values, is canonical, and never fails on canonical operands |
| RationalFunctions.Mul | src/RationalFunction.h:78-84 | `*` has the product of the values, is canonical, and never fails on canonical operands |
| RationalFunctions.Div | src/RationalFunction.h:86-95 | `/` fails on a zero divisor; otherwise it has the quotient of the values, and it succeeds when the divisor's numerator does not vanish at 0 |
| RationalFunctions.Equal | src/RationalFunction.h:117-119 | cross-multiplication equality holds iff the functions agree wherever both are defined |
| ExtendedRationalFunctions.RootFactor | src/ExtendedRationalFunction.h:88 | the factor 1 − x/c has two coefficients and vanishes at c |
| ExtendedRationalFunctions.DivideOut | src/ExtendedRationalFunction.h:91-94 | dividing the root c out as long as it is a root leaves a shorter nonzero cofactor that no longer vanishes at c, with multiplicity ≥ 1 |
| ExtendedRationalFunctions.DivideOutValue | src/ExtendedRationalFunction.h:91-94 | a(x) = (1 − x/c)^m · cofactor(x) |
| ExtendedRationalFunctions.FactorOut | src/ExtendedRationalFunction.h:85-97 | the candidate loop fails only when 0 is a candidate; each recorded factor is 1 − x/c for a nonzero candidate c that is a root of a, with multiplicity ≥ 1, and the leftover is nonzero and no longer than a |
| ExtendedRationalFunctions.FactorOutValue | src/ExtendedRationalFunction.h:85-97 | the factors and the leftover multiply back to a at every point |
| ExtendedRationalFunctions.FactorOutNoRoot | src/ExtendedRationalFunction.h:85-97 | the leftover vanishes at none of the candidates |
| ExtendedRationalFunctions.FactorOutSucceeds | src/ExtendedRationalFunction.h:85-97 | a polynomial that does not vanish at 0 never fails |
| ExtendedRationalFunctions.Decompose | src/ExtendedRationalFunction.h:24-104 | `decompose` fails only on a zero candidate root, and every factor has multiplicity ≥ 1 |
| ExtendedRationalFunctions.DecomposeValue | src/ExtendedRationalFunction.h:24-104 | the new numerator over the product of the factors equals the old numerator over g·a, wherever a does not vanish |
| ExtendedRationalFunctions.Extend | src/ExtendedRationalFunction.h:17-22 | the constructor fails only on a zero candidate root, and every factor has multiplicity ≥ 1 |
| ExtendedRationalFunctions.CorrectedValue | src/ExtendedRationalFunction.h:17-29 | with the remainder scaled by g as well, the extended function has f's value wherever f is defined |
| ExtendedRationalFunctions.AsWrittenValue | src/ExtendedRationalFunction.h:17-29 | as written, the value is q(x) + r(x)/(g·den(x)), while f is q(x) + r(x)/den(x) |
| ExtendedRationalFunctions.AsWrittenLosesGcd | src/ExtendedRationalFunction.h:25-29 | for f = 1/((1 + x)/2), so g = 2, the constructor as written gives value 1 at x = 0, where f is 2 |
| ExtendedRationalFunctions.GcdOne | src/ExtendedRationalFunction.h:17-29 | with g = 1, the as-written and corrected constructors coincide |
| ExtendedRationalFunctions.ExtendSucceeds | src/ExtendedRationalFunction.h:17-22 | a function defined at 0 is always decomposed |
| ExtendedRationalFunctions.CanonicalSucceeds | src/ExtendedRationalFunction.h:17-22 | the constructor never fails on a canonical rational function, whatever the candidate roots |
| Matrices.Identity | src/MatrixInversion.h:10-13 | `b` starts as the identity |
| Matrices.FirstNonzero | src/MatrixInversion.h:15-18 | the pivot search returns the first row at or after l with a nonzero entry in column i, or n when there is none |
| Matrices.ForwardWithoutExchange | src/MatrixInversion.h:14-38 | when the forward pass exchanges no rows, exchanging `b` as well makes no difference |
| Matrices.AsWrittenWithoutExchange | src/MatrixInversion.h:8-55 | on such inputs the elimination as written equals the corrected one |
| RealInverse.EliminateSucceeds | src/MatrixInversion.h:8-55 | over exact scalars, the elimination never divides by zero |
| RealInverse.GaussJordanInverse | src/MatrixInversion.h:8-55 | corrected (rows of `b` exchanged too), the result is a left inverse of every matrix whose forward pass finds a pivot in each column |
| RealInverse.GaussianEliminationInverse | src/MatrixInversion.h:8-55 | as written, the result is a left inverse when, besides finding every pivot, no rows are exchanged |
| RealInverse.FlipAsWrittenWrong | src/MatrixInversion.h:20-22 | as written, the exchange matrix [[0,1],[1,0]] is "inverted" to the identity, which is not its inverse |
| RealInverse.FlipCorrected | src/MatrixInversion.h:20-22 | corrected, the exchange matrix is inverted to itself, its true inverse |
| RationalMatrices.InverseAt0 | src/MatrixInversion.h:8-55 | a matrix of rational functions that is the identity at x = 0 exchanges no rows, never raises, and is inverted to a matrix that is again the identity at 0 |
| GeneratingFunctions.TransferMatrix | src/DFA.cpp:120-131 | the matrix built is I − x·A: entry (r, c) is δ_rc − x·(number of transitions from state r to state c), and no subtraction fails |
| GeneratingFunctions.SumAcceptingValue | src/DFA.cpp:133-138 | the sum over row 0 never fails, is canonical, and adds up the values of the accepting entries |
| GeneratingFunctions.GeneratingFunctionWithAt0 | src/DFA.cpp:101-140 | for any numbering of the states that starts at the start state, the computation succeeds with a canonical function whose constant term is 1 iff the start state accepts |
| GeneratingFunctions.GeneratingFunctionAt0 | src/DFA.cpp:101-140 | `getGeneratingFunction` never fails on a valid DFA, and its constant term is the number of accepted words of length 0 |
| Regexes.IsValidRegex | src/NFA.cpp:323-344 | the scan answers exactly the validity condition: every `+` has operands on both sides, no `*` is first or follows `(`, and the brackets balance |
| Regexes.RepeatedStarValid | src/NFA.cpp:330-333 | repeated stars such as `a**` are valid |
| Regexes.StarAfterOpenInvalid | src/NFA.cpp:330-333 | a `*` right after `(` makes the expression invalid |
| Regexes.ValidNeighbours | src/NFA.cpp:326-333 | in a valid expression, neither `(` nor `+` is followed by `*` |
| Nfas.NewState | src/NFA.cpp:170-172 | `new NFA(acc)` is a fresh state without transitions, and nothing else changes |
| Nfas.CharNfa | src/NFA.cpp:174-180 | `new NFA(c)` is a fresh non-accepting state with exactly one c-transition, to a fresh accepting state without transitions; old states are unchanged |
| Nfas.Add | src/NFA.cpp:7-15 | a fresh non-accepting state with a single epsilon set {x, y}; nothing else changes |
| Nfas.Traversed | src/NFA.cpp:18-35 | the traversal of `concatenate` visits x and never passes through tree |
| Nfas.TraversedWithin | src/NFA.cpp:18-35 | the traversal stays inside every closed set holding x |
| Nfas.ConcatWith | src/NFA.cpp:36-53 | every visited accepting state either disappears (and every set holding it holds tree instead) or stops accepting and gains an epsilon edge to tree; states outside the traversal keep their acceptance |
| Nfas.Concatenate | src/NFA.cpp:17-64 | `concatenate` returns x or tree as root and rewrites exactly the states the traversal visits |
| Nfas.CycleWith | src/NFA.cpp:66-71 | `cycle` keeps x as an accepting root and sends every other visited accepting state back to x |
| Nfas.Cycle | src/NFA.cpp:66-71 | `cycle` rewrites the states reachable from x with x itself as the target |
| Nfas.NumberOfStates | src/NFA.cpp:93-116 | the count is the number of states reachable from x, between 1 and the arena size |
| Graphs.CountReachable | src/NFA.cpp:93-116 | the FIFO work-list count equals the size of the reachable set |
| Graphs.ReachIsLeast | src/NFA.cpp:93-116 | the reachable set is the least set that holds the root and is closed under successors |
| Graphs.DiscoveryOrder | src/DFA.cpp:102-119 | the stack traversal lists the root first, then every reachable state exactly once |
| Construction.ReadLetters | src/NFA.cpp:356-359 | the run consumes only plain characters and stops at the first `(`, `)` or `+`, or before a character followed by `*`; the bracket depth and the well-formedness of the fragments are kept |
| Construction.StarredLetter | src/NFA.cpp:360-366 | a starred character is consumed with all the stars after it: the scan resumes at the first character that is not `*`, and the bracket depth and the fragments are kept |
| Construction.SkipStars | src/NFA.cpp:364-366 | the do-while stops at the last star without changing the bracket depth |
| Construction.CloseBracket | src/NFA.cpp:371-386 | a `)` pops its bracket frame, and the pending choice frame below it when there is one; the stars after it are consumed; the stack empties only at the appended bracket, and the fragments stay well formed |
| Construction.Choice | src/NFA.cpp:387-394 | a `+` replaces a pending choice frame, or pushes one; when a choice was pending its new root is a fresh non-accepting state with the epsilon set {old choice root, current automaton}, otherwise the current automaton; a fresh accepting state with no transitions becomes the new operand |
| Construction.RegexToAutomaton | src/NFA.cpp:346-400 | the result is absent exactly for invalid expressions, and is otherwise a root in a well-formed arena |
| EpsilonRemoval.Discovered | src/NFA.cpp:183-200 | the first traversal lists the root first, then distinct reachable states |
| EpsilonRemoval.PopOrderFacts | src/NFA.cpp:202-228 | the second traversal pops only states not seen before, and pops every listed state not seen before |
| EpsilonRemoval.PopOrderFirst | src/NFA.cpp:202-228 | every state popped before the first listed state is one it does not reach: its tree is popped last |
| EpsilonRemoval.GroupsFacts | src/NFA.cpp:230-251 | the source's grouping yields disjoint components of untaken states, each holding its head and only states reaching the head, and puts every untaken pop in some component |
| EpsilonRemoval.GroupsHead | src/NFA.cpp:230-251 | a pop not reached along reversed edges from any earlier pop, and not yet taken, heads a component |
| EpsilonRemoval.SccGroupsFacts | src/NFA.cpp:230-251 | corrected grouping: the same disjointness and coverage, and each component lies both within what reaches its head and within what its head reaches |
| EpsilonClosure.SccGroupsFull | src/NFA.cpp:230-251 | corrected grouping: each component holds every state on a common epsilon cycle with its head |
| EpsilonClosure.ComponentsFull | src/NFA.cpp:202-251 | the corrected components are whole strongly connected classes of the reachable states |
| EpsilonRemoval.ComponentsPartition | src/NFA.cpp:233-253 | the corrected components partition the reachable states |
| EpsilonRemoval.SourceComponentsPartition | src/NFA.cpp:202-253 | the source's grouping also partitions the reachable states |
| EpsilonRemoval.ComponentsConnected | src/NFA.cpp:233-253 | the corrected components are strongly connected along epsilon edges |
| EpsilonRemoval.MergeTrans | src/NFA.cpp:255-273 | a merged head carries, label by label, the heads of all targets of its members' transitions |
| EpsilonRemoval.MergeEpsEdge | src/NFA.cpp:255-273 | every epsilon edge of a merged head comes from an epsilon edge of one of its members, redirected to the head of the target |
| EpsilonClosure.MergeHasEdge | src/NFA.cpp:255-273 | conversely, every epsilon edge of a member appears on its head, redirected to the head of the target |
| EpsilonClosure.ContractedRanked | src/NFA.cpp:202-273 | after merging the corrected components, the epsilon graph has no cycles except self-loops |
| EpsilonRemoval.ClosuresFacts | src/NFA.cpp:73-91 | after the closure loop, each head's epsilon set holds the head and its epsilon targets, and only states epsilon-reachable from it |
| EpsilonClosure.ClosuresExact | src/NFA.cpp:73-91 | on an epsilon graph whose only cycles are self-loops (as after merging components), the closure loop over all states leaves each state with exactly the states epsilon-reachable from it |
| EpsilonClosure.CloseAllExact | src/NFA.cpp:73-91 | the loop over a state's epsilon children, on such a graph, leaves each state holding at least everything it reaches |
| EpsilonClosure.CloseProgress | src/NFA.cpp:73-91 | one `findEpsilonClosures` call keeps the recursion's invariant: states no longer open are finished, holding themselves and every finished child's whole set |
| EpsilonClosure.CloseAllProgress | src/NFA.cpp:79-90 | the loop over the children keeps the same invariant when every child outranks the states still pending |
| EpsilonRemoval.CloseFacts | src/NFA.cpp:73-91 | `findEpsilonClosures` changes only the states it marks explored, and each of those ends holding itself and its former set |
| EpsilonRemoval.CloseAllFacts | src/NFA.cpp:275-279 | the loop over the states has the same frame: it changes only the states it closes, each growing to hold itself |
| EpsilonRemoval.CloseSound | src/NFA.cpp:73-91 | closing never adds a state that is not epsilon-reachable from the key |
| EpsilonRemoval.Absorb | src/NFA.cpp:280-309 | absorption leaves no epsilon transitions and keeps the set of states |
| EpsilonRemoval.AbsorbAccepting | src/NFA.cpp:280-286 | a head accepts after absorption when it or an epsilon target accepted, and only when some epsilon-reachable state accepted |
| EpsilonRemoval.ContractAccepting | src/NFA.cpp:255-274 | after merging, a head accepts as written iff it accepted itself, and corrected iff some member of its component accepted |
| EpsilonRemoval.RemoveEpsilonAsWritten | src/NFA.cpp:182-312 | as written: the root survives and no epsilon transitions remain |
| EpsilonRemoval.RemoveEpsilon | src/NFA.cpp:182-312 | corrected: the root survives and no epsilon transitions remain |
| EpsilonRemoval.RemoveEpsilonKeepsAccepting | src/NFA.cpp:255-286 | corrected: an accepting state makes the head of its component accept |
| EpsilonRemoval.RemoveEpsilonSound | src/NFA.cpp:255-286 | corrected: a head accepts only when some state epsilon-reachable from it accepted originally |
| EpsilonClosure.RemoveEpsilonComplete | src/NFA.cpp:255-286 | corrected: a head accepts whenever some state epsilon-reachable from it accepted originally |
| EpsilonClosure.RemoveEpsilonExact | src/NFA.cpp:182-312 | corrected: a head of the result accepts exactly when some state epsilon-reachable from it in the original accepted |
| EpsilonRemoval.RemoveEpsilonAsWrittenKeepsHead | src/NFA.cpp:255-286 | as written: a head that accepted still accepts |
| EpsilonFindings.LoopAsWrittenRejects | src/NFA.cpp:255-274 | as written, the epsilon loop 0 ⇄ 1 with only 1 accepting loses its acceptance: state 0 reaches 1, but the result's root does not accept |
| EpsilonFindings.LoopCorrectedAccepts | src/NFA.cpp:255-274 | corrected, the loop's root accepts |
| EpsilonFindings.ForkAsWrittenNotConnected | src/NFA.cpp:202-253 | as written, the fork 0 → {1, 2}, 1 → 2 groups 1 with 2, although 2 does not reach 1: the components are not strongly connected |
| PtrMaps.Empty | src/PtrMap.h:9 | the memo starts empty |
| PtrMaps.Lookup | src/PtrMap.h:11-19 | a recorded key returns its object and changes nothing; an absent key gets a fresh object, recorded under it, and every earlier entry is kept |
| PtrMaps.LookupTwice | src/PtrMap.h:11-19 | a second lookup of the same key returns the same object and changes nothing |
| PtrMaps.LookupDistinct | src/PtrMap.h:11-19 | distinct keys never share an object |
| SubsetConstruction.AddMember | src/NFA.cpp:418-423 | inserting one member's targets, label by label, yields the label-wise union |
| SubsetConstruction.Gather | src/NFA.cpp:414-425 | the gathered map has exactly the members' labels, each mapped to the union of the members' targets, and the set accepts iff a member accepts |
| SubsetConstruction.Expand | src/NFA.cpp:426-429 | the memo only grows, every label of the gathered map points to the DFA state recorded for its target set, every set newly entered in the memo is on the stack, and the target sets are pushed after the old stack in ascending label order |
| SubsetConstruction.ToDfa | src/NFA.cpp:402-438 | the DFA starts at the state of {root}, is well formed, gives distinct sets distinct states, builds every state right, and accepts exactly the words the NFA accepts from root |
| SubsetConstruction.SubsetAccepts | src/NFA.cpp:414-429 | the DFA state of a set accepts exactly the words the NFA accepts from some member of the set |
| Dfas.Labels | src/DFA.cpp:159 | a state's labels in `std::map` order: exactly its keys, strictly increasing |
| Dfas.RunAppend | src/DFA.cpp:89-99 | reading u + v is reading u, then v |
| Dfas.RegexMatch | src/DFA.cpp:89-99 | `regexMatch` answers whether the DFA accepts the word; a missing transition rejects, and the empty word is accepted iff the start state accepts |
| Dfas.NumberOfStates | src/DFA.cpp:11-32 | the count is the number of states reachable from the start |
| Dfas.OrderEnumerates | src/DFA.cpp:152-163 | the stack traversal numbers every reachable state once, starting at the start state |
| Minimization.InitialTable | src/DFA.cpp:170-178 | a pair is marked initially iff its states differ in acceptance |
| Minimization.Propagate | src/DFA.cpp:208-223 | marking a distinguishable pair marks its recorded dependants and marks only distinguishable pairs |
| Minimization.Register | src/DFA.cpp:228-259 | the pair is appended as a dependant of each successor pair of two distinct states, and nothing else changes |
| Minimization.ProcessPair | src/DFA.cpp:181-262 | each pair ends marked or registered with all its successor pairs, and the table stays sound |
| Minimization.FillTable | src/DFA.cpp:166-263 | after the pass, every pair is marked or registered, and the table stays sound |
| Minimization.TableCorrect | src/DFA.cpp:166-263 | the finished table leaves a pair unmarked iff its states accept the same words |
| Minimization.Representatives | src/DFA.cpp:265-277 | each index gets an index at most itself that it is unmarked with and that represents itself; when unmarked is transitive, as `FinishedTransitive` shows for the finished table, it is the least such index |
| Minimization.Rebuild | src/DFA.cpp:278-309 | the rebuilt automaton is well formed and keeps exactly the representatives |
| Minimization.RebuildLanguage | src/DFA.cpp:278-290 | a kept state accepts what the same index did before |
| Minimization.RebuildIsReduced | src/DFA.cpp:278-309 | no two states of the result accept the same words |
| Minimization.StartFacts | src/DFA.cpp:295-309 | the result starts at the representative of index 1, and that is the dead placeholder exactly when nothing is accepted |
| Minimization.IndexLanguage | src/DFA.cpp:146-163 | index k of the table accepts what the k-th discovered state accepts |
| Minimization.Minimize | src/DFA.cpp:146-310 | `minimize` returns a well-formed, reduced DFA with the same language, which starts at the placeholder exactly when the language is empty |

## Left out

- Printing is not modelled: every `operator<<`, `print`, `walk` and `setDepths`, and main.cpp, because they are I/O only.
- Memory management is not modelled: `delete`, the `parents` back-pointers as separate data, and the freeing of the tables in `minimize`. The arena model makes them implicit.
- `Polynomial::setCoefficient` (src/Polynomial.h:30-38) is not modelled, because the program never calls it.
- The compound assignments (`+=` and the rest) and `!=` are not modelled separately, because they are the binary operators and `==` by definition.
- The candidate search of `decompose` (src/ExtendedRationalFunction.h:30-83) is not modelled: the candidate roots are an input of `Decompose`. That code dereferences `it_0` after it can have reached the end (line 49), which has no defined meaning to model. The fact that the candidate list starts with 1 (line 38) goes with it.
- ExtendedRationalFunctions.Decompose: the gcd g of the coefficients' denominators (lines 25-29) is a parameter rather than computed, because the coefficients are exact reals rather than integer fractions.
- ExtendedRationalFunctions.DecomposeValue: requires at most 2^32 coefficients, because `degree()` wraps in `unsigned int`; CorrectedValue and AsWrittenValue carry the same bound.
- The language of the regular expression is not stated. `RegexToAutomaton` is proved to fail exactly on invalid input and to build a well-formed NFA, but not to accept the words the expression denotes. `EpsilonRemoval` is proved exact about the acceptance of heads (a head accepts iff it reaches an accepting state by epsilon edges), not about whole languages. `ToDfa` and `Minimize` are proved to preserve languages.
- GeneratingFunctions.GeneratingFunctionAt0: only the constant term of the generating function is stated, because the series coefficients beyond x^0 would need power series, which the model does not have. The matrix, the absence of failure and the final sum are stated in full.
- RealInverse.GaussJordanInverse: the inverse is proved for inputs whose forward pass finds a pivot in every column (invertible matrices), and over exact reals. Singular inputs give an unspecified result in the source too.
- `Make` in Rationals excludes reducing 0/0, because the source divides by a zero gcd there. `PrimeFactors` excludes 0, because the source loops forever on it.
- GMP `integer` is unbounded here, as it is in the source. `unsigned int` counters are modelled as `nat`, except `degree()`, whose wrap-around is explicit.
- Transition labels are `char` ordered as unsigned code points. Where C++ `char` is signed, labels of 0x80 and above sort before ASCII in `std::map<char, …>`, which changes only the numbering of DFA states, never the languages.

## Findings

| source | as written | input that shows it | evidently intended | confidence | as-written member | corrected member |
|---|---|---|---|---|---|---|
| src/MatrixInversion.h:20-22 | the pivot row is exchanged in `a` only, not in the accumulated inverse `b` | [[0,1],[1,0]]: the result is the identity | exchange the same rows of `b` | not executed | RealInverse.FlipAsWrittenWrong | RealInverse.FlipCorrected, RealInverse.GaussJordanInverse |
| src/Polynomial.h:175-180 | the guard `n > size` lets n == size through to an out-of-range read | index 0 of the zero polynomial | `n >= size` returns 0 | not executed | Polynomials.IndexAsWritten, Polynomials.IndexAsWrittenReadsPastEnd | Polynomials.Index |
| src/NFA.cpp:255-274 | merged members' acceptance is not carried over to the head of their group | the epsilon loop 0 ⇄ 1 with only 1 accepting: afterwards the root rejects the empty word | the head accepts when any member accepts | not executed | EpsilonFindings.LoopAsWrittenRejects | EpsilonFindings.LoopCorrectedAccepts, EpsilonRemoval.RemoveEpsilonKeepsAccepting |
| src/NFA.cpp:202-253 | the components are grown from a pre-order of the epsilon traversal rather than a finishing order, so they need not be strongly connected | the fork 0 → {1, 2}, 1 → 2 of epsilon edges: 1 is grouped with 2 | Kosaraju's order (finishing order) | not executed | EpsilonFindings.ForkAsWrittenNotConnected | EpsilonRemoval.ComponentsConnected |
| src/ExtendedRationalFunction.h:17-29 | the denominator is multiplied by g, but the numerator (the remainder) is not | 1/((1 + x)/2), unreduced, so g = 2: value 1 at x = 0 instead of 2 | scale the remainder by g too | not executed; reduced inputs have g = 1 (see GcdOne) | ExtendedRationalFunctions.AsWrittenValue, ExtendedRationalFunctions.AsWrittenLosesGcd | ExtendedRationalFunctions.CorrectedValue |
