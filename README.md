# A Dafny model of the cambrian accumulator library

The library implements cryptographic accumulators and vector commitments over groups of unknown
order (RSA groups and class groups of imaginary quadratic fields). This project models its core
in Dafny and proves properties of the model:

- the generic group algorithms: square-and-multiply exponentiation, `multi_exp`, the
  divide-and-conquer fold and Shamir's trick;
- the proofs of exponentiation (PoE) and of knowledge of co-prime roots (PoKCR);
- the accumulator (`setup`, `add`, `delete`, membership and non-membership proofs) and the
  vector commitment built on it;
- the UTXO simulation: the user's UTXO set and the miner's pending transactions, block forging
  and block validation;
- the class group of binary quadratic forms: normalisation and reduction of forms, the linear
  congruence solver, composition (NUCOMP-style `op`), squaring, the identity, the inverse and
  exponentiation, in both the current `group/class` code and the older `group/class.rs`;
- the RSA group `Dummy2048`: residues modulo the RSA-2048 number with `x` and `-x` identified;
- the Baillie-PSW probable-prime test (trial division, Miller-Rabin to base 2, the choice of
  `D` by Jacobi symbols, the strong Lucas test) and its older unfinished version;
- the fixed-width integers `U256`/`U512` and `I256`/`I512` over 64-bit GMP limbs, and the
  Montgomery reducer built on them (`new`, `reduce`, `unreduce`, `mul_mod_`, `exp_mod`).

The GMP `mpn` functions the fixed-width integers call are foreign; each is modelled by the result
GMP's documentation promises, on the limb sequences (`Limbs.AddN`, `Limbs.TDivQR`, ...), and a
call outside what GMP requires of its arguments is a `None` result.

Groups are values of the datatype `Group.Group` (identity, operation, inverse); the laws the
library relies on are the ghost predicates `IsCommutativeMonoid` and `IsAbelianGroup`. The
arbitrary-precision integers (`rug::Integer`, `BigUint`, GMP's `Mpz`) are Dafny `int`s.

## Model

| member | source | states |
|---|---|---|
| Group.ExpBySquaring | src/group/mod.rs:37-54 | the square-and-multiply loop (through `inv(a)` and `-n` for negative `n`) returns exactly `a^n`; `n = 0` gives the identity |
| Group.ExpAdd | src/group/mod.rs:37-54 | `a^(m+n) = a^m * a^n` for all integers, the law that makes repeated halving correct |
| Group.ExpMul | src/group/mod.rs:37-54 | `(a^m)^n = a^(m*n)` for all integers |
| Group.MultiExpOfPowers | src/group/mod.rs:95-111 | when each `alpha_i = w_i^(x_i)`, `multi_exp` is `(w_1 * ... * w_n)^(x_1 * ... * x_n)` |
| Group.MultiExpExamples | src/group/mod.rs:118-133 | `multi_exp([2,3],[3,2]) = 108` and `multi_exp([2,3,5],[3,2,1]) = 1687500` |
| Group.MultiExp | src/group/mod.rs:95-111 | defined for `1 <= |alphas| == |x|`: one element is returned as it is, otherwise the halves' results are raised to the other half's exponent product and combined; its meaning is `Group.MultiExpOfPowers` |
| Util.DivideAndConquerIsFold | src/util.rs:59-87 | for an associative operation that never fails, the divide-and-conquer fold equals the sequential left fold from `acc`; the empty list gives `Ok(acc)` |
| Util.MergeProductExample | src/util.rs:100-107 | `merge_product([3,5,7,9,11]) = 10395` |
| Util.ShamirTrickIsRoot | src/util.rs:40-57 | Shamir's trick succeeds exactly when `xth_root^x = yth_root^y` and `gcd(x, y) = 1`, and then returns an `x*y`-th root of that element |
| Util.ShamirTrickOfPowers | src/util.rs:40-57 | from the roots `g^(y*z)` and `g^(x*z)` of coprime `x`, `y` it returns `g^z` (the 13, 17, 19 test) |
| Util.ShamirTrickNotCoprime | src/util.rs:119-124 | with `x = 7`, `y = 14` it returns `None` |
| Util.DivideAndConquer | src/util.rs:59-87 | the empty list gives `Ok(acc)`; every error the fold returns is one that `f` returned for some pair of arguments |
| Util.DivideAndConquerFails | src/util.rs:61-87 | an error of `f` short-circuits the fold: when `f` fails on every pair, the fold of a non-empty list fails with that error |
| Util.ShamirTrick | src/util.rs:40-57 | `None` when `xth_root^x != yth_root^y` or when the gcd is not 1, otherwise `xth_root^b * yth_root^a` with the Bezout cofactors; its meaning is `Util.ShamirTrickIsRoot` |
| Poe.Prove | src/internal/proof/poe.rs:14-20 | `Q = base^(exp / l)` for the challenge prime `l`; an exponent below `l` gives the identity |
| Poe.ProveVerifies | src/internal/proof/poe.rs:14-29 | `verify` accepts the honest proof exactly when `result = base^exp` (completeness and its converse) |
| Poe.Verify | src/internal/proof/poe.rs:23-29 | accepts exactly when `Q^l * base^(exp mod l) == result` for `l` the hash of the statement; completeness is `Poe.ProveVerifies` |
| Pokcr.Prove | src/internal/proof/pokcr.rs:11-15 | `w` is the fold of the witnesses from the identity; no witnesses give the identity |
| Pokcr.ProveVerifies | src/internal/proof/pokcr.rs:11-21 | completeness: when `alpha_i = w_i^(x_i)` the proof of the witnesses is accepted |
| Pokcr.ProveExample | src/internal/proof/pokcr.rs:30-38 | witnesses 2, 3 give `w = 6`, which verifies for alphas 4, 9 and exponents 2, 2 |
| Pokcr.Verify | src/internal/proof/pokcr.rs:17-21 | accepts exactly when `multi_exp(alphas, x) == w^(product of x)`; completeness is `Pokcr.ProveVerifies` |
| Accumulator.Setup | src/primitive/accumulator.rs:14-17 | the accumulator starts at the base element |
| Accumulator.SetupThenAdd | src/primitive/accumulator.rs:14-26 | after `setup` and `add`, the accumulator is `g` raised to the product of the added elements |
| Accumulator.AddVerifies | src/primitive/accumulator.rs:21-26 | `add` returns `acc^(product of elems)` and a PoE that is accepted for it |
| Accumulator.AddTwice | src/primitive/accumulator.rs:21-26 | adding two batches one after the other gives the accumulator of adding both at once |
| Accumulator.AddExample | src/primitive/accumulator.rs:154-162 | adding 5, 7, 11 to `g^(41*67*89)` gives `g^94125955`, with a PoE accepted for 385 |
| Accumulator.Add | src/primitive/accumulator.rs:21-26 | the new accumulator `acc^(product of elems)` with the PoE of that exponentiation; `Accumulator.AddVerifies` proves both |
| Accumulator.Delete | src/primitive/accumulator.rs:29-52 | the loop returns what `DeleteResult` specifies: the first `BadWitness` or `InputsNotCoPrime`, or the root and its PoE; no pairs give `acc` itself with a PoE for exponent 1 |
| Accumulator.DeleteLoopSound | src/primitive/accumulator.rs:33-48 | after the loop the aggregate is the product of all deleted elements and the running root raised to it is the old accumulator |
| Accumulator.DeleteLoopErrors | src/primitive/accumulator.rs:36-45 | `delete` succeeds exactly when every witness is a root of `acc` for its element and every element is coprime to those before it; `BadWitness` only for a bad witness, `InputsNotCoPrime` only for a common factor |
| Accumulator.DeleteVerifies | src/primitive/accumulator.rs:47-51 | a successful `delete` returns a root of `acc` for the product of the elements, with a PoE that `verify_membership` accepts |
| Accumulator.DeleteOfPowers | src/primitive/accumulator.rs:29-52 | deleting elements from `g^(s * e_1 * ... * e_n)` with the witnesses `g^(s * product of the others)` leaves `g^s` |
| Accumulator.DeleteExample | src/primitive/accumulator.rs:164-175 | deleting 67 and 89 from `g^(41*67*89)` with the witnesses `g^3649`, `g^2747` leaves `g^41` |
| Accumulator.VerifyMembershipOf | src/primitive/accumulator.rs:62-72 | `verify_membership`: the PoE check that `witness^(product of elems) == result`; `Accumulator.DeleteVerifies` proves it accepts a delete's proof |
| Accumulator.VerifyMembership | src/primitive/accumulator.rs:62-72 | the same check on a membership proof that carries its witness, with the accumulator as result |
| Accumulator.ProveMembership | src/primitive/accumulator.rs:54-60 | `prove_membership` returns exactly what `delete` returns |
| Accumulator.ProveNonmembership | src/primitive/accumulator.rs:82-109 | fails, with `InputsNotCoPrime`, exactly when the product of the elements and that of the accumulated set have a common factor |
| Accumulator.NonmembershipVerifies | src/primitive/accumulator.rs:82-125 | completeness: for `acc = g^(product of acc_set)` and a complete PoKE2, the proof `prove_nonmembership` returns is accepted by `verify_nonmembership` |
| Accumulator.NonmembershipExamples | src/primitive/accumulator.rs:194-212 | 5, 7, 11 are provably not in {41, 67, 89}; 41, 7, 11 fail with `InputsNotCoPrime` |
| Accumulator.VerifyNonmembership | src/primitive/accumulator.rs:111-125 | `verify_nonmembership`: the PoKE2 check of `v` and the PoE that `d^(product of elems) == g * v^-1`; completeness is `Accumulator.NonmembershipVerifies` |
| VectorCommitment.GroupElemsByBit | src/vector_commitment.rs:24-39 | the loop returns `ConflictingIndicesError` exactly when an index repeats, and otherwise the primes of the zero-bits and of the one-bits, each in input order, as `(zeros, ones)` |
| VectorCommitment.ZerosOnesPartition | src/vector_commitment.rs:32-36 | every bit lands in exactly one of the two lists |
| VectorCommitment.Update | src/vector_commitment.rs:41-62 | a grouping error comes back unchanged, and it is the only error `update` returns |
| VectorCommitment.UpdateVerifies | src/vector_commitment.rs:41-62 | completeness: the commitment `update` returns is accepted by `verify` for the same bits |
| VectorCommitment.Open | src/vector_commitment.rs:64-90 | fails, always with `InvalidOpenError`, exactly when the membership or the non-membership proof fails |
| VectorCommitment.OpenVerifies | src/vector_commitment.rs:64-108 | completeness: an opening of the zero-bits and one-bits of a bit vector is accepted by `verify` |
| VectorCommitment.VerifyConflicting | src/vector_commitment.rs:99-103 | a bit vector with a repeated index is never accepted |
| VectorCommitment.Verify | src/vector_commitment.rs:92-108 | false when grouping the bits fails, otherwise membership of the one-bits and non-membership of the zero-bits; `VectorCommitment.OpenVerifies` and `VectorCommitment.VerifyConflicting` are its partners |
| SimulationUtil.ElemsFromTransactions | src/simulation/util.rs:7-23 | the loop returns the in-order concatenation of each transaction's hashed added UTXOs, and of its hashed spent UTXOs with their witnesses; empty input gives empty lists |
| SimulationUtil.ElemsLengths | src/simulation/util.rs:7-23 | the output lengths are the total numbers of added and spent UTXOs |
| SimulationUtil.ElemsAppend | src/simulation/util.rs:13-20 | the lists of concatenated transaction lists are the concatenated lists |
| SimulationUtil.ElemsOfOne | src/simulation/util.rs:13-20 | one transaction contributes the primes of its own UTXOs, each spent one with its witness unchanged |
| SimulationUser.User.Setup | src/simulation/user.rs:8-10 | `setup` stores the given set |
| SimulationUser.User.GetInputForTransaction | src/simulation/user.rs:14-16 | returns an owned UTXO without removing it; an empty set panics |
| SimulationUser.User.Update | src/simulation/user.rs:18-25 | every added output is owned afterwards, a spent and not re-added input is not, and any other UTXO keeps its status |
| SimulationMiner.Miner.Setup | src/simulation/miner.rs:16-22 | `setup` keeps the accumulator and height, with nothing pending |
| SimulationMiner.Miner.AddTransaction | src/simulation/miner.rs:24-26 | appends the transaction to the pending list and changes nothing else |
| SimulationMiner.Miner.ElemsFromTransactions | src/simulation/miner.rs:28-42 | the same lists as `util::elems_from_transactions` of the pending transactions |
| SimulationMiner.Miner.ForgeBlock | src/simulation/miner.rs:44-55 | returns the block `ForgedBlock` specifies from the unchanged state: delete, then add, at height + 1 |
| SimulationMiner.ForgedBlockValid | src/simulation/miner.rs:44-69 | a forged block passes `validate_block` against the state it was forged from, has the next height, and its accumulator is the deletion root raised to the added primes |
| SimulationMiner.Miner.ValidateBlock | src/simulation/miner.rs:57-73 | accepts exactly when both membership proofs hold and share their witness; then the block's accumulator and height replace the miner's and the pending list is emptied; otherwise nothing changes |
| Forms.Default | src/group/class/elem.rs:13-21 | the default element, all coefficients 0, has discriminant 0 and is not normal, so it is no group element |
| Forms.HashInputInjective | src/group/class/elem.rs:33-49 | the hash input `a`, `b`, `c` is the same for two elements exactly when `eq` holds for them |
| Forms.Discriminant | src/group/class/mod.rs:248-259 | `b^2 - 4ac` is congruent to `b` modulo 2, taken modulo 4 |
| Forms.Validate | src/group/class/mod.rs:244-246 | `validate`: the form's discriminant is the group's |
| Forms.IsNormal | src/group/class/mod.rs:440-443 | `elem_is_normal`: `-a < b <= a` |
| Forms.IsReduced | src/group/class/mod.rs:436-438 | `elem_is_reduced`: normal, `a <= c`, and not `a == c` with `b < 0`; `Forms.ReduceLoop` ends exactly there |
| Forms.Translate | src/group/class/mod.rs:491-512 | the substitution `normalize_` applies keeps `a` and the discriminant |
| Forms.TranslateCompose | src/group/class/mod.rs:491-512 | translating by `r` and then by `s` is translating by `r + s`; translating by `-r` undoes it |
| Forms.Shifted | src/group/class/mod.rs:491-512 | `normalize_` returns a normal form with the same `a` and discriminant, and leaves a normal form unchanged |
| Forms.ShiftedTranslate | src/group/class/mod.rs:491-512 | every translate of a form normalises to the same form |
| Forms.NormalTranslateUnique | src/group/class/mod.rs:440-443 | for `a > 0` at most one translate of a form is normal |
| Forms.Normalize | src/group/class/mod.rs:212-224 | skipping `normalize_` for a normal form changes nothing: the result is always the normal translate, with the same `a` and discriminant |
| Forms.Rho | src/group/class/mod.rs:456-472 | one reduction step moves `c` to `a`, gives a normal form and keeps the discriminant |
| Forms.RhoDecreases | src/group/class/mod.rs:451-475 | on a positive-definite form that is not reduced, a step stays positive definite and normal, and lowers `a` or turns a negative `b` non-negative at the same `a`: the loop ends |
| Forms.ReduceLoop | src/group/class/mod.rs:451-475 | the loop ends in a reduced form with the same discriminant and leaves a reduced form unchanged |
| Forms.Reduce | src/group/class/mod.rs:226-231 | `reduce` gives a reduced form with the same discriminant; a reduced form is its own reduction |
| Forms.ReduceTranslate | src/group/class/mod.rs:226-231 | every translate of a positive-definite form is positive definite and reduces to the same form |
| Forms.NormalizeExample | src/group/class/mod.rs:734-764 | `(16, 105, c)` normalises to `(16, 9, c - 171)` for every `c` |
| Forms.ReduceExample | src/group/class/mod.rs:226-231 | for `c >= 187`, `(16, 105, c)` is positive definite and reduces to `(16, 9, c - 171)` |
| LinCongruence.LinearCongruence | src/group/class/ctx.rs:89-111 | no solution exactly when `gcd(a, m)` does not divide `b`; otherwise `0 <= mu < abs(m)`, `v = floor(m / gcd(a, m))`, and the solutions of `a*k == b (mod m)` are exactly the `k` congruent to `mu` modulo `v` |
| LinCongruence.SolutionSet | src/group/class/ctx.rs:99-110 | for any Bezout cofactors of the gcd, `mu + v*n` are exactly the solutions (both directions) |
| LinCongruence.SolveLinearCongruence | src/group/class/lin_congruence_ctx.rs:23-48 | the solver returns what `LinearCongruence` specifies, `None` included |
| LinCongruence.SolveUnchecked | src/group/class.rs:104-116 | the older solver, which never fails, agrees with the checked one when a solution exists, and otherwise writes a `mu` that is no solution |
| LinCongruence.UncheckedMissesAll | src/group/class.rs:104-116 | when the gcd does not divide `b`, the `mu` written does not solve the congruence |
| LinCongruence.SolverExamples | src/group/class/ctx.rs:143-187 | the four solvable test congruences give their expected `(mu, v)`, and `33k == 7 (mod 143)`, `13k == 14 (mod 39)` have no solution |
| ClassContext.FourthRoot | src/group/class/ctx.rs:132-133 | `root_mut(4)` is the integer fourth root: `r^4 <= n < (r+1)^4` |
| ClassContext.FourthRootUnique | src/group/class/ctx.rs:132-133 | those bounds admit no other root |
| ClassContext.ClassCtx.Default | src/group/class/ctx.rs:123-136 | `L_sq_op` is the integer fourth root of the absolute value of the discriminant |
| ClassContext.FourthRootExamples | src/group/class/ctx.rs:132-133 | the root of `10^4` is 10 and that of `10^4 - 1` is 9 |
| ClassGroup.IsGroupDiscriminant | src/group/class/mod.rs:40-45 | the group's discriminant is negative and congruent to 1 modulo 8, hence to 1 modulo 4 |
| ClassGroup.NormalizeInPlace | src/group/class/mod.rs:491-512 | the register-by-register `normalize_` computes `Forms.Shifted`: normal, same `a` and discriminant |
| ClassGroup.Normalize | src/group/class/mod.rs:212-224 | `normalize` and `normalize_mut` give `Forms.Normalize`, a normal form with the same discriminant |
| ClassGroup.RhoStep | src/group/class/mod.rs:456-472 | one pass of the loop computes the rho step |
| ClassGroup.ReduceInPlace | src/group/class/mod.rs:451-475 | `reduce_` runs the rho step until the form is reduced, computing `Forms.ReduceLoop` |
| ClassGroup.Reduce | src/group/class/mod.rs:226-231 | `reduce` and `reduce_mut` give a reduced form with the same discriminant, `Forms.Reduce` |
| ClassGroup.Id | src/group/class/mod.rs:130-143 | the principal form `(1, 1, (1 - d) / 4)` has discriminant `d` and is reduced for negative `d` |
| ClassGroup.IdIsElement | src/group/class/mod.rs:130-143 | for the group's discriminant the identity is a group element |
| ClassGroup.Inv | src/group/class/mod.rs:145-151 | `(a, -b, c)`: same `a`, `c` and discriminant |
| ClassGroup.InvInvolutive | src/group/class/mod.rs:145-151 | inverting twice gives the form back |
| ClassGroup.Compose | src/group/class/mod.rs:56-128 | a result of NUCOMP is a reduced form with the operands' discriminant |
| ClassGroup.ComposeNoneIff | src/group/class/mod.rs:56-128 | NUCOMP fails (the `unwrap` panic) exactly when one of its two congruences has no solution |
| ClassGroup.Op | src/group/class/mod.rs:56-128 | `op_`, register by register, returns what `Compose` specifies |
| ClassGroup.FirstCongruenceNone | src/group/class/mod.rs:56-128 | an unsolvable first congruence makes `op_` fail |
| ClassGroup.SecondCongruenceNone | src/group/class/mod.rs:56-128 | an unsolvable second congruence makes `op_` fail |
| ClassGroup.ComposedForm | src/group/class/mod.rs:56-128 | the unreduced NUCOMP form is positive definite and has the operands' discriminant |
| ClassGroup.NucompExact | src/group/class/mod.rs:56-128 | the two divisions NUCOMP performs are exact |
| ClassGroup.ComposeInverse | src/group/class/mod.rs:929-949 | an element composed with its inverse, on either side, is the identity |
| ClassGroup.ComposeIdentityLeft | src/group/class/mod.rs:902-925 | `op(id, x) == x` for every element `x` |
| ClassGroup.ComposeIdentityRight | src/group/class/mod.rs:902-925 | `op(x, id) == x` for every element `x` |
| ClassGroup.SquareForm | src/group/class/mod.rs:261-288 | squaring fails exactly when `b*mu == c (mod a)` has no solution, and otherwise gives a reduced form with the same discriminant |
| ClassGroup.SquareExact | src/group/class/mod.rs:272-274 | the division by `a` in `square_regular` is exact |
| ClassGroup.SquareDiscriminant | src/group/class/mod.rs:261-288 | the squared form's discriminant is kept exactly when that division is exact |
| ClassGroup.Square | src/group/class/mod.rs:261-288 | `square_regular`, register by register, returns what `SquareForm` specifies, and for coprime `a` and `b` that is `op(x, x)` |
| ClassGroup.SquareIsCompose | src/group/class/mod.rs:963-980 | for a positive-definite form with `gcd(a, b) = 1`, squaring succeeds and equals composing the form with itself |
| ClassGroup.CoprimeForPrime | src/group/class/mod.rs:261-288 | when `-d` is prime every group element has `gcd(a, b) = 1`, so squaring is composing |
| ClassGroup.SquareNeedsCoprime | src/group/class/mod.rs:261-288 | without that coprimality the two part: each reduced `(3, 3, c)` with `3` not dividing `c` cannot be squared, while NUCOMP composes it with itself |
| ClassGroup.PowerLoop | src/group/class/mod.rs:162-173 | square-and-multiply from an element gives an element; exponent 0 gives the start |
| ClassGroup.Exp | src/group/class/mod.rs:153-174 | `exp_` is the loop on `inv(x)` and `-n` for negative `n`; `n = 0` gives the identity; any result is a group element; under the group law with a prime `-d` and an element base, the result is the `abs(n)`-fold composition `Power` |
| ClassGroup.Power | src/group/class/mod.rs:951-960 | the `n`-fold composition `((id * x) * x) ... * x` that `test_exp_basic` builds: an element when defined, always defined under the group law |
| ClassGroup.ElementOpIsMonoid | src/group/class/mod.rs:902-925 | under the group law NUCOMP on elements is closed and associative, with the identity neutral on both sides |
| ClassGroup.PowerIsPowerOf | src/group/class/mod.rs:951-960 | under the group law the `n`-fold composition is the `n`-th power in that monoid |
| ClassGroup.PowerLoopIsPower | src/group/class/mod.rs:162-173 | under the group law with a prime `-d` the square-and-multiply loop keeps `val * a^k` and ends with `val` times the `k`-th power |
| ClassGroup.ExpIsPower | src/group/class/mod.rs:951-960 | `exp(x, n)` equals the `n`-fold composition of `x` (`test_exp_basic`), under the group law with a prime `-d` |
| ClassGroup.PowerOne | src/group/class/mod.rs:153-174 | raising an element to 1 gives it back, when the final squaring succeeds |
| ClassGroup.UnknownOrderElem | src/group/class/mod.rs:176-190 | the reduced form `(2, 1, (1 - d) / 8)` is a group element |
| ClassGroup.Elem | src/group/class/mod.rs:196-207 | `elem` panics exactly when the given form's discriminant is not the group's; otherwise it returns the reduced form, a group element |
| ClassGroup.BadElemRejected | src/group/class/mod.rs:530-534 | `elem((1, 2, 3))` panics for every group discriminant |
| LegacyClass.ReducedTestsAgree | src/group/class.rs:388-391 | on normal forms the older `is_reduced` test agrees with `elem_is_reduced` |
| LegacyClass.Reduce | src/group/class.rs:202-231 | normalise, rho steps while `is_reduced` fails, normalise: the same reduced form as `Forms.Reduce` |
| LegacyClass.Equals | src/group/class.rs:69-77 | two forms are equal exactly when their reductions are |
| LegacyClass.EqualTranslates | src/group/class.rs:69-77 | a form equals all its translates |
| LegacyClass.EqualityExample | src/group/class.rs:581-624 | `(16, 105, c)` equals `(16, 9, c - 171)` for `c >= 187` |
| LegacyClass.Square | src/group/class.rs:233-259 | with a solvable congruence the squaring of class/mod.rs; without one, any result has a different discriminant; results are reduced and positive definite |
| LegacyClass.ComposeAgrees | src/group/class.rs:261-344 | with both congruences solvable, the unchecked NUCOMP computes the values of `ClassGroup.Compose` |
| LegacyClass.Op | src/group/class.rs:261-344 | on operands of one discriminant with solvable congruences the result is `ClassGroup.Compose`; any result is reduced and positive definite |
| LegacyClass.Exp | src/group/class.rs:452-475 | exponent 0 gives the identity, and whenever the exponentiation of class/mod.rs succeeds this one gives the same element |
| LegacyClass.Elem | src/group/class.rs:506-521 | the discriminant is asserted before reducing: `elem` fails exactly when it is not `d`, and otherwise gives `Forms.Reduce` of the form |
| Dummy2048.Canonical | src/group/dummy2048.rs:46-56 | `elem_from_biguint` returns a number in `[0, n/2]` equal or opposite to `a` modulo `n` |
| Dummy2048.CanonicalUnique | src/group/dummy2048.rs:46-56 | that representative is the only one in `[0, n/2]` |
| Dummy2048.CanonicalEqual | src/group/dummy2048.rs:46-56 | two numbers give the same element exactly when they are equal or opposite modulo `n` (both directions) |
| Dummy2048.CanonicalSmall | src/group/dummy2048.rs:46-56 | a number in `[0, n/2]` is its own representative |
| Dummy2048.Op | src/group/dummy2048.rs:60-69 | the product's representative: an element equal or opposite to `x * y` modulo `n` |
| Dummy2048.Id | src/group/dummy2048.rs:70-72 | the element of 1, which is 1 for `n >= 2` |
| Dummy2048.UnknownOrderElem | src/group/dummy2048.rs:91-93 | the element of 2, which is 2 for `n >= 4` |
| Dummy2048.Inv | src/group/dummy2048.rs:73-78 | panics exactly when `gcd(x, n) != 1`; otherwise an element whose product with `x` is not 0 modulo `n` |
| Dummy2048.InvIsInverse | src/group/dummy2048.rs:73-78 | the Bezout cofactor's representative times `x` is the identity up to sign |
| Dummy2048.OpCommutative | src/group/dummy2048.rs:60-69 | `op` is commutative |
| Dummy2048.OpAssociative | src/group/dummy2048.rs:60-69 | `op` is associative |
| Dummy2048.OpIdentity | src/group/dummy2048.rs:60-72 | the identity is neutral on both sides of every element |
| Dummy2048.InvRight | src/group/dummy2048.rs:73-78 | `inv` gives a right inverse, and it succeeds whenever `x` has an inverse at all |
| Dummy2048.RsaIsMonoid | src/group/dummy2048.rs:58-93 | the elements under `op` and `id` form a commutative monoid |
| Dummy2048.OpExamples | src/group/dummy2048.rs:109-118 | `op(2, 3) = 6` and `op(n-2, n-3) = 6` for any `n >= 12`, and `2 * inv(2) = id` for odd `n` |
| Dummy2048.RsaExamples | src/group/dummy2048.rs:108-154 | with the RSA-2048 modulus: `op(n-2, n-3) = 6`, `2 * inv(2) = 1`, the generator is 2, and `2^3 = 8` |
| Lucas.StepUp | src/hash/primality/mod.rs:179-188 | `2 U_{k+1} = P U_k + V_k` and `2 V_{k+1} = D U_k + P V_k`, the identities behind the odd step |
| Lucas.Addition | src/hash/primality/mod.rs:171-189 | the addition formulas `2 U_{m+j} = U_m V_j + U_j V_m` and `2 V_{m+j} = V_m V_j + D U_m U_j` |
| Lucas.Norm | src/hash/primality/mod.rs:171-189 | `V_k^2 - D U_k^2 = 4 Q^k` |
| Lucas.Doubling | src/hash/primality/mod.rs:173-176 | the doubling step's formulas `U_{2k} = U_k V_k` and `V_{2k} = V_k^2 - 2 Q^k` |
| Lucas.FibonacciExample | src/hash/primality/mod.rs:135-139 | for `P = 1`, `Q = -1` the sequences are the Fibonacci and Lucas numbers: `U_10 = 55`, `V_10 = 123` |
| Lucas.ToBinary | src/hash/primality/mod.rs:196-198 | the digits are '0' and '1', read back as `n`, and a positive `n` starts with '1' |
| Lucas.ToBinaryExamples | src/hash/primality/mod.rs:224-228 | `to_binary(1) = "1"` and `to_binary(44) = "101100"` |
| Lucas.ModN | src/hash/primality/mod.rs:155-161 | `mod_n` gives a number in `[0, n]` congruent to `x`, below `n` for non-negative `x`; a negative multiple of `n` gives `n` itself |
| Lucas.Half | src/hash/primality/mod.rs:163-169 | for non-negative `x` and odd `n`, `half(x)` is below `n` and twice it is `x` modulo `n` |
| Lucas.DoubleStep | src/hash/primality/mod.rs:174-177 | the doubling step turns the residues of `U_k`, `V_k`, `Q^k` into those of index `2k` |
| Lucas.OddStep | src/hash/primality/mod.rs:178-187 | the '1' step turns the residues of index `2k` into those of `2k + 1` |
| Lucas.LadderDouble | src/hash/primality/mod.rs:174-177 | the doubling statements keep the residues, for index `k` to `2k` |
| Lucas.LadderIncrement | src/hash/primality/mod.rs:178-187 | the '1' statements keep the residues, for index `k` to `k + 1` |
| Lucas.ComputeUAndVK | src/hash/primality/mod.rs:140-194 | from `(U_1, V_1) = (1, P)` with `D = P^2 - 4Q` and odd `n > 1`, the ladder returns `U_k mod n` (in `[0, n)`) and a number congruent to `V_k` |
| Lucas.PassesLucas | src/hash/primality/mod.rs:125-133 | for odd `n > 1` and `D == 1 (mod 4)`, accepts exactly when `n` divides `U_{n+1}(1, (1 - D)/4)` |
| Primality.Jacobi | src/hash/primality/mod.rs:83-122 | the recursion of `jacobi_symbol` terminates for odd positive `n` and returns -1, 0 or 1 |
| Primality.JacobiZero | src/hash/primality/mod.rs:83-122 | the symbol is 0 exactly when `a` and `n` have a common factor |
| Primality.JacobiExamples | src/hash/primality/mod.rs:215-222 | `(0/1) = 1`, `(15/17) = 1`, `(14/17) = -1`, `(30/59) = -1`, `(27/57) = 0` |
| Primality.CandidateModFour | src/hash/primality/mod.rs:59-63 | every candidate `5, -7, 9, ...` makes `Q = (1 - D)/4` an integer |
| Primality.CandidateNext | src/hash/primality/mod.rs:64-81 | the update of `choose_d`, away from zero by 2 and then negated, walks the candidates in order |
| Primality.FirstCandidateUnique | src/hash/primality/mod.rs:59-63 | there is only one first candidate with symbol -1 |
| Primality.FirstCandidateUsable | src/hash/primality/mod.rs:59-63 | the chosen `D` is coprime to `n` and gives an integral `Q` |
| Primality.ChooseD | src/hash/primality/mod.rs:64-81 | `None` exactly when none of the first `max_iter` candidates has symbol -1; otherwise the first one that has |
| Primality.Decompose | src/hash/primality/mod.rs:37-42 | `n - 1 = 2^r * d` with `d` odd |
| Primality.PassesMillerRabinBase2 | src/hash/primality/mod.rs:35-57 | the loops compute `MillerRabin(n)` for every `n >= 2` |
| Primality.MillerRabinIsStrong | src/hash/primality/mod.rs:35-57 | for `n >= 2` the test is exactly the strong probable-prime condition to base 2 of FIPS 186-4, Appendix C.3.1 |
| Primality.SquaringsFind | src/hash/primality/mod.rs:47-55 | the squaring loop succeeds exactly when one of the next squares is `n - 1` before a 1 appears |
| Primality.MillerRabinRejectsEven | src/hash/primality/mod.rs:35-57 | no even `n` passes |
| Primality.MillerRabinExamples | src/hash/primality/mod.rs:205-213 | 13 passes and 65 does not |
| Primality.SmallPrimeVerdictFirst | src/hash/primality/mod.rs:21-25 | the trial-division loop answers for the first listed divisor, and answers nothing exactly when no listed prime divides `n` |
| Primality.PrimeSurvivesSmallPrimes | src/hash/primality/mod.rs:21-25 | a prime is never rejected by trial division |
| Primality.IsProbPrime | src/hash/primality/mod.rs:19-33 | `is_prob_prime` decides `ProbPrime`: trial division, Miller-Rabin, `choose_d`, the Lucas test; `n < 2` is rejected |
| Primality.ProbPrimeMeans | src/hash/primality/mod.rs:19-33 | an accepted number with no listed divisor is odd, a strong probable prime to base 2, and passes the Lucas test for some `D` coprime to it with integral `Q` |
| Primality.HalvingLoop | src/hash/primality/mod.rs:37-42 | the halving loop, when it stops, leaves an odd `d` |
| Primality.HalvingLoopStops | src/hash/primality/mod.rs:37-42 | from `n - 1 > 0` it stops, at `Decompose(n - 1)` |
| Primality.OneNeverLeavesLoop | src/hash/primality/mod.rs:19-42 | for `n = 1` no listed prime divides, and the halving loop from `d = 0` never stops |
| PrimalityLegacy.SmallPrimesAdjacent | src/hash/primality.rs:6-10 | the fifty listed primes are strictly increasing |
| PrimalityLegacy.HasSmallPrimeFactor | src/hash/primality.rs:22-34 | the loop, which stops at the first listed prime above `n`, answers whether a listed prime no larger than `n` divides it |
| PrimalityLegacy.SmallFactorDivides | src/hash/primality.rs:22-34 | for positive `n` the early stop loses nothing: a factor is found exactly when some listed prime divides `n` |
| PrimalityLegacy.SmallFactorExamples | src/hash/primality.rs:294-306 | 233 has no listed factor, 50621 = 223 * 227 has one, 104927 = 317 * 331 has none |
| PrimalityLegacy.IsSquare | src/hash/primality.rs:65-243 | rejects when step 1 fires, accepts 0, and panics exactly when the folded table index is out of range |
| PrimalityLegacy.FailsStepOne | src/hash/primality.rs:65-78 | step 1 of `is_square`: bit 1 set, `n & 7 == 5`, or `n & 11 == 8`; `PrimalityLegacy.SquaresPassStepOne` shows no square fails it |
| PrimalityLegacy.Fold255 | src/hash/primality.rs:182-189 | step 2's fold of the 32-bit halves, the 16-bit halves and the low bytes, the index into `bad255`; `PrimalityLegacy.FoldKeepsResidue` and `PrimalityLegacy.FoldInRange` are its properties |
| PrimalityLegacy.StripZeros | src/hash/primality.rs:196-211 | step 3's removal of 32, 16, 8, 4 and 2 low zero bits when they are all zero, before the test modulo 8 |
| PrimalityLegacy.SquaresPassStepOne | src/hash/primality.rs:66-74 | step 1 never rejects a perfect square |
| PrimalityLegacy.FoldKeepsResidue | src/hash/primality.rs:182-188 | the fold of step 2 keeps the residue modulo 255 |
| PrimalityLegacy.FoldInRange | src/hash/primality.rs:182-190 | below `2^64` the fold stays inside the 512-entry table |
| PrimalityLegacy.IntSqrt | src/hash/primality.rs:254-263 | the integer square root `r`, with `r^2 <= n < (r + 1)^2` |
| PrimalityLegacy.PerfectSquareIff | src/hash/primality.rs:265-277 | the exact square test holds exactly when `n` is some `k^2` |
| PrimalityLegacy.ReachesStepThree | src/hash/primality.rs:194-214 | past steps 1 and 2 the verdict is whether the stripped number is 1 modulo 8 |
| PrimalityLegacy.IsSquareAcceptsNonSquare | src/hash/primality.rs:278-293 | `is_square(145)` is true although 145 is not a square |
| PrimalityLegacy.IsSquareRejectsSquare | src/hash/primality.rs:196-214 | `is_square(2^64)` is false although `2^64 = (2^32)^2` |
| PrimalityLegacy.IsSquarePanicsOnSquare | src/hash/primality.rs:182-190 | for the square `2^80` the table index is out of range |
| PrimalityLegacy.PassesLucas | src/hash/primality.rs:245-248 | the Lucas test rejects every number |
| PrimalityLegacy.IsProbPrime | src/hash/primality.rs:17-20 | the filters run in order and stop at the first that rejects; there is no verdict exactly when `n < 2` or when `n` passes trial division and Miller-Rabin and then `is_square` indexes outside `bad255` (never below 2^64); every verdict is false, since the Lucas test always fails |
| Limbs.Value | src/u256.rs:333-337 | lower-endian 64-bit limbs denote a number below `2^(64 n)` |
| Limbs.ValueAppend | src/u256.rs:333-337 | the limbs above index `k` are worth `2^(64 k)` per unit |
| Limbs.SplitValue | src/u256.rs:59-64 | the limbs below `n` hold the value modulo `2^(64 n)` and the limbs above it the quotient |
| Limbs.ToLimbs | src/u256.rs:521-527 | the `n` limbs of `v mod 2^(64 n)` |
| Limbs.ToLimbsOfValue | src/u256.rs:521-527 | reading limbs back and writing them again gives the same limbs |
| Limbs.ValueInjective | src/u256.rs:333-337 | limbs of one length are determined by their value |
| Limbs.SizeOf | src/u256.rs:377-385 | one past the highest non-zero limb: every limb at or above it is zero |
| Limbs.SizeOfUnique | src/u256.rs:377-385 | only one size meets those conditions |
| Limbs.SizeBounds | src/u256.rs:335 | the size brackets the value: `2^(64(size-1)) <= value < 2^(64 size)` |
| Limbs.SizeOrder | src/u256.rs:68-70 | fewer significant limbs means a smaller value, so the early return of `div_rem` is a quotient of zero |
| Limbs.ExtendKeeps | src/u256.rs:128-137 | zero-extending keeps value and size |
| Limbs.NormalizeSize | src/u256.rs:377-385 | the loop sets `size` to the number of significant limbs, never negative, and leaves the limbs alone |
| Limbs.NormalEqual | src/u256.rs:333-337 | on numbers whose size is normalised, the derived equality is equality of values |
| Limbs.FromValueOf | src/u256.rs:521-527 | a normalised number is the one built from its value |
| Limbs.AddN | src/u256.rs:604-610 | `mpn_add_n`: sum plus carry times the radix is the exact sum |
| Limbs.SubN | src/u256.rs:629-636 | `mpn_sub_n`: the difference plus the borrow times the radix |
| Limbs.MulLimbs | src/u256.rs:676-684 | `mpn_mul_n`: the exact product in twice as many limbs |
| Limbs.LShift | src/u256.rs:564-573 | `mpn_lshift` for the counts 1 to 63 GMP allows: `a * 2^count` with the bits shifted out dropped |
| Limbs.RShift | src/u256.rs:584-593 | `mpn_rshift` for the counts 1 to 63 GMP allows: `a / 2^count` rounded down |
| Limbs.TDivQR | src/u256.rs:392-411 | `mpn_tdiv_qr`: for a divisor with a non-zero top limb and no more limbs than the dividend, quotient and remainder of the exact lengths and values |
| Limbs.CmpIsValueOrder | src/u256.rs:536-549 | `mpn_cmp` is negative, zero or positive exactly as the values compare |
| U256.Zero | src/u256.rs:358-363 | a well-formed zero of the width |
| U256.IsOdd | src/u256.rs:387-389 | the low bit of the lowest limb is the parity of the whole number |
| U256.FromLimbs | src/u256.rs:521-527 | the number the limbs denote, with the size normalised |
| U256.FromU64 | src/u256.rs:529-534 | a well-formed number holding the `u64` |
| U256.LittleEndianAppend | src/u256.rs:497-506 | a byte string read little-endian splits at any point with weight `256^k` |
| U256.Chunks | src/u256.rs:499-503 | the eight-byte chunks, lowest first, denote the byte string read little-endian |
| U256.ChunkAt | src/u256.rs:501-503 | limb `i` is `u64::from_le_bytes` of bytes `8i .. 8i + 8` |
| U256.FromBytes | src/u256.rs:497-506 | the loop over four chunks builds the well-formed number the 32 bytes denote little-endian |
| U256.Widen | src/u256.rs:128-137 | `From<U256> for U512` keeps the value |
| U256.LowU256 | src/u256.rs:59-64 | `low_u256` is the value modulo `2^256` |
| U256.Compare | src/u256.rs:536-561 | `Less`, `Equal` or `Greater` exactly as the values compare |
| U256.ShiftedLeft | src/u256.rs:575-582 | `x << count` is `x * 2^count` modulo the width |
| U256.ShiftedRight | src/u256.rs:595-602 | `x >> count` is `x / 2^count` |
| U256.ShlAssignAsWritten | src/u256.rs:564-573 | with chunks of `min(64, count)` bits the loop is undefined exactly when `count >= 64` (a 64-bit `mpn_lshift`), and otherwise computes `x << count` |
| U256.ShrAssignAsWritten | src/u256.rs:584-593 | with chunks of `min(64, count)` bits the loop is undefined exactly when `count >= 64`, and otherwise computes `x >> count` |
| U256.ShlAssign | src/u256.rs:564-573 | with chunks of at most 63 bits the loop computes `x << count` for every count |
| U256.ShrAssign | src/u256.rs:584-593 | with chunks of at most 63 bits the loop computes `x >> count` for every count |
| U256.ShiftRoundTrip | src/u256.rs:564-593 | a left shift that loses no bits is undone by the right shift |
| U256.ShiftByLimbs | src/u256.rs:564-593 | shifting by `64 k` bits multiplies or divides by `2^(64 k)` |
| U256.Sum | src/u256.rs:612-627 | the sum exactly when it fits the width, otherwise the panic of the carry assertion |
| U256.AddAssign | src/u256.rs:604-610 | `mpn_add_n` in place with the carry assertion computes `Sum` |
| U256.Difference | src/u256.rs:638-674 | the difference exactly when it is not negative, otherwise the panic of the borrow assertion |
| U256.SubAssign | src/u256.rs:629-636 | `mpn_sub_n` in place with the borrow assertion computes `Difference` |
| U256.SumDifference | src/u256.rs:604-636 | subtracting `y` undoes adding it |
| U256.Product | src/u256.rs:676-694 | `U256 * U256` is the exact product as a U512 |
| U256.WideProduct | src/u256.rs:253-279 | `U512 * U512` as written: defined exactly when the two sizes add up to at most eight, then the exact product |
| U256.WideProductChecked | src/u256.rs:253-279 | the product whenever it fits in eight limbs |
| U256.WideProductOverruns | src/u256.rs:253-279 | `2^256 * 2^192` runs past the array although `2^448` fits |
| U256.LowLimbs | src/u256.rs:59-64 | the lowest `n` limbs hold the value modulo `2^(64 n)` |
| U256.SignificantLimbs | src/u256.rs:335 | the first `size` limbs hold the whole value; size 0 exactly for zero |
| U256.LongerDivisor | src/u256.rs:392-395 | when the divisor has more limbs the quotient is 0 and the remainder the dividend |
| U256.DivRem | src/u256.rs:392-411 | defined exactly for a non-zero divisor; then the well-formed quotient and remainder |
| U256.DivRemRebuilds | src/u256.rs:392-411 | `q * d + r = x` and `r < d` |
| U256.RemWide | src/u256.rs:302-331 | `U512 % U256`: defined exactly for a non-zero divisor, then the remainder |
| U256.InPlaceRemainder | src/u256.rs:419-430 | what `mpn_tdiv_qr` leaves in `self`: the remainder plus the untouched limbs above the divisor's length |
| U256.DivRemInPlace | src/u256.rs:413-433 | `div_rem_mut` as written: the right quotient, but `self` keeps the dividend's limbs above the divisor's length |
| U256.DivRemMut | src/u256.rs:413-433 | the method computes `DivRemInPlace` |
| U256.RemAssignKeepsHighLimb | src/u256.rs:718-722 | `2^64 %= 3` leaves `2^64 + 1`, not 1 |
| U256.AddSmallExample | src/u256.rs:825-828 | `1 + 2 == 3` |
| U256.AddCarryExample | src/u256.rs:830-833 | `[0,1,0,0] + [0,1,0,0] == [0,2,0,0]` |
| U256.AddWideExample | src/u256.rs:835-838 | `[0,1,0,0] + [0,1,1,1] == [0,2,1,1]` |
| U256.MulSmallExample | src/u256.rs:840-843 | `2 * 3 == 6` |
| U256.MulCarryExample | src/u256.rs:845-848 | `[0,1,0,0] * [0,1,0,0] == [0,0,1,0,0,0,0,0]` |
| U256.MulWideExample | src/u256.rs:850-853 | `[0,2,0,0] * [0,1,0,1] == [0,0,2,0,2,0,0,0]` |
| Montgomery.RadixFacts | src/u256.rs:750-751 | `r` is `2^256`, one more than the largest U256, and is even |
| Montgomery.RedcTemp | src/u256.rs:790 | `temp` is below `2^256` |
| Montgomery.RedcExact | src/u256.rs:788-791 | `c + temp * m` is a multiple of `r`, so the shift by 256 bits divides exactly |
| Montgomery.RedcCongruent | src/u256.rs:788-791 | the REDC quotient is congruent to `c * r^-1` modulo `m` |
| Montgomery.RedcBound | src/u256.rs:788-796 | for factors below `m < r` the REDC quotient is below `2 m`, so one subtraction suffices |
| Montgomery.RedcSumFits | src/u256.rs:791 | when `2 m <= r` the sum `c + temp * m` fits in 512 bits |
| Montgomery.OddModulusInvertible | src/u256.rs:761-768 | `r mod m` is coprime to every odd `m >= 3`, so `mod_inv` always succeeds |
| Montgomery.InverseModulo | src/u256.rs:754-755 | the stored `r_inv` is the inverse of `r` modulo `m` |
| Montgomery.KBelowR | src/u256.rs:755 | `k` fits in 256 bits |
| Montgomery.New | src/u256.rs:765-779 | `new` panics exactly when `m` is even or below 3; otherwise every field holds what the struct's comments say |
| Montgomery.InverseOfR | src/u256.rs:768 | `r_inv` lies in `(0, m)` and inverts `r` modulo `m` |
| Montgomery.Reduce | src/u256.rs:781-783 | the representative is below `m` |
| Montgomery.Unreduce | src/u256.rs:784-786 | the value is below `m` |
| Montgomery.ReduceRoundTrip | src/u256.rs:781-786 | `unreduce(reduce(a)) == a mod m` |
| Montgomery.UnreduceRoundTrip | src/u256.rs:781-786 | `reduce(unreduce(x)) == x` for every representative |
| Montgomery.ReducedConstants | src/u256.rs:770-771 | `one_reduced` and `minus_one_reduced` represent 1 and `m - 1` |
| Montgomery.MulReduced | src/u256.rs:788-797 | `mul_mod_` on representatives gives a representative, `a * b * r^-1 mod m` |
| Montgomery.RedcQuotient | src/u256.rs:791 | the quotient is below `2 m` and congruent to `c * r^-1` |
| Montgomery.RedcQuotientExact | src/u256.rs:791 | `c + temp * m` is `r` times the quotient, which is below `2 m` |
| Montgomery.SubtractOnce | src/u256.rs:792-796 | the conditional subtraction yields `u mod m` |
| Montgomery.MulReducedAsWritten | src/u256.rs:788-797 | `mul_mod_` as written panics exactly when `c + temp * m` reaches `2^512` |
| Montgomery.MulReducedAsWrittenAgrees | src/u256.rs:788-797 | where it returns, it agrees with `MulReduced` |
| Montgomery.MulReducedAsWrittenSafe | src/u256.rs:788-797 | for `m <= 2^255` it never panics on representatives |
| Montgomery.MulReducedOverflows | src/u256.rs:788-797 | for `m = 2^256 - 1` and `a = b = m - 1` the addition overflows, although the intended product is 1 |
| Montgomery.AllOnesConstants | src/u256.rs:768-769 | for `m = 2^256 - 1`, `r_inv = k = 1` |
| Montgomery.AllOnesModulusAccepted | src/u256.rs:765-766 | `new(2^256 - 1)` succeeds |
| Montgomery.MulReducedHomomorphic | src/u256.rs:788-797 | representatives multiply like the values they stand for |
| Montgomery.PowHalve | src/u256.rs:805-811 | `x^e == x^(e mod 2) * (x^2)^(e / 2)` |
| Montgomery.ExpStep | src/u256.rs:805-811 | one iteration of the square-and-multiply loop keeps its invariant |
| Montgomery.ExpModReduced | src/u256.rs:799-813 | `exp_mod_` returns the representative of `unreduce(a)^n mod m` |
| Montgomery.ExpMod | src/u256.rs:815-818 | `exp_mod` returns `a^n mod m` |
| I256.DivRem | src/i256.rs:339-356 | `div_rem` with no length check: defined exactly when the divisor has significant limbs and no more than the dividend, then the quotient and remainder of U256's `div_rem` |
| I256.DivRemDefined | src/i256.rs:339-356 | every divisor from 1 up to the dividend is accepted with the exact quotient and remainder; a dividend of 0 is never accepted |
| I256.DivRemMut | src/i256.rs:358-375 | defined exactly under the same length condition, then the in-place result of U256's `div_rem_mut` |
| I256.RemWide | src/i256.rs:274-279 | `I512 % I256` is defined exactly under the length condition, then the remainder |
| I256.ShlAssignAsWritten | src/i256.rs:480-492 | the `min(64, count)` loop is undefined exactly when `count >= 64`, and otherwise computes `x << count` |
| I256.ShrAssignAsWritten | src/i256.rs:503-515 | the `min(64, count)` loop is undefined exactly when `count >= 64`, and otherwise computes `x >> count` |
| I256.ShlAssign | src/i256.rs:480-492 | the loop with `min(63, count)` chunks computes `x << count` for every count |
| I256.ShrAssign | src/i256.rs:503-515 | the loop with `min(63, count)` chunks computes `x >> count` for every count |
| I256.Modulus | src/i256.rs:656-658 | the stored modulus has at least one significant limb |
| I256.ShiftedByR | src/i256.rs:687 | shifting a value below `r` left by 256 bits in eight limbs multiplies it by `r` |
| I256.Reduce | src/i256.rs:686-688 | `reduce` fails exactly for `a == 0`, and otherwise gives the representative `a * r mod m` |
| I256.ReduceSizes | src/i256.rs:686-688 | the shifted number is long enough for the division exactly when `a != 0` |
| I256.ShorterIsSmaller | src/i256.rs:325-333 | a number with fewer significant limbs is smaller |
| I256.Unreduce | src/i256.rs:689-691 | `unreduce` fails at 0 and only where the product is already below `m`; otherwise the value the representative stands for |
| I256.UnreduceSizes | src/i256.rs:689-691 | the product is too short only when it is below `m`, and always at 0 |
| I256.ExpModReduced | src/i256.rs:704-720 | the early-return loop returns the representative of `unreduce(a)^n mod m` |
| I256.ExpMod | src/i256.rs:722-725 | `exp_mod` fails for `a == 0`, and when it returns it gives `a^n mod m` |
| I256.ShortDividendUndefined | src/i256.rs:339-356 | `0 / 1` is outside GMP's requirement here, where U256's `div_rem` answers `(0, 0)`, and `reduce(0)` makes that call |

## Left out

- The Blake2b and SHA-256 hashing and `hash_to_prime` (src/hash/): `hash_to_prime` is a parameter of the members that use it, any function returning a prime; the PoKE2 proof of non-membership is likewise a parameter.
- GMP, FLINT and `rug` are foreign: the `mpn` functions are modelled by the results GMP documents (module Limbs), the `mpz`-level calls `mod_inv`, `gcdext` and `root` by their mathematical results (`Arith.ModInverse`, `Arith.ExtGcd`, `ClassContext.FourthRoot`). Where GMP may pick other Bezout cofactors than the Euclidean ones, the root `shamir_trick` returns is only proved to be a root, not to be GMP's particular one.
- `util::bezout` is not part of this model; it is taken to return the cofactors of the extended Euclidean algorithm.
- src/group/class/discriminant.rs is not part of this model: the class group's discriminant is a parameter `d` with `ClassGroup.IsGroupDiscriminant(d)` (negative, 1 modulo 8).
- src/hash/primality/constants.rs is not part of this model: the list of small primes is a parameter of `Primality.IsProbPrime`.
- The thread-local context plumbing (`with_ctx!`, the `RefCell` context, the scratch registers of src/group/class/class_ctx.rs): every operation is modelled on values, so the registers become local variables and aliasing between them is not modelled.
- `square_nudulp` (src/group/class/mod.rs:290-434): feature-gated and built on FLINT's partial extended gcd; not modelled, so in particular its fallback loop, whose guard at line 392 lets a zero divisor through to line 393, is not modelled either. Squaring is modelled by `square_regular`.
- Forms that are not positive definite: the class-group members require `a > 0` (and a negative discriminant where reduction is involved), since there the source's floor divisions have positive divisors and the reduction loop terminates; the behaviour of `normalize_` and `reduce_` on other forms is not modelled.
- `ClassElem::clone` and the derived `Hash` of src/group/class/elem.rs: Dafny values are copied by assignment, and hashing is modelled only by its input (`Forms.HashInputInjective`).
- The `Reduced` wrapper of the Montgomery reducer is the number it wraps, and the reducer's fields are values rather than U256 structs; module U256 proves the limb operations equal to those values, and module I256 follows the I256 code, whose divisions can fall outside GMP's requirements, through the U256/U512 limb model.
- `MontgomeryReducer::new` of src/i256.rs is modelled by `Montgomery.New`: its dividends (`r`, `(m - 1) << 256`, `(r_inv << 256) - 1`) are never shorter than the modulus, so the missing length check of src/i256.rs does not change its result.
- LinCongruence.LinearCongruence: `mu` is computed from the Euclidean cofactor of `Arith.ExtGcd`. The solutions are unique only modulo `m / gcd(a, m)`, so another cofactor from GMP's `gcdext` can give another `mu` below `m` (for `a = 2`, `b = 2`, `m = 4` the cofactor 1 gives `mu = 1`, the cofactor -1 gives `mu = 3`); the solution set (`LinCongruence.SolutionSet`) is the same, but `mu`, and with it NUCOMP's unreduced form, follows the Euclidean choice.
- The `PoE::<G>::prove` that src/primitive/accumulator.rs:2, 24 and 50 import from src/proof is the unfinished stub of src/proof/poe.rs (a fixed `l = 1` and `q = 23`); `Accumulator` uses the finished proof of exponentiation of src/internal/proof/poe.rs (`Poe.Prove`, `Poe.Verify`) in its place.
- ClassGroup.ComposeIsGroupLaw: that NUCOMP always succeeds on the elements of a discriminant and is associative there is a hypothesis of `ClassGroup.ElementOpIsMonoid`, `ClassGroup.PowerIsPowerOf`, `ClassGroup.PowerLoopIsPower`, `ClassGroup.ExpIsPower` and the last ensures of `ClassGroup.Exp`, not a proved fact; the theory of form classes it rests on is not modelled.
- ClassGroup.Exp: the tie to `Power` is stated for a base that is a group element; for `n < 0` the base is `inv(x)`, which is not reduced when `b = a` or `a = c` with `b > 0`, and for such a base nothing beyond "a group element when defined" is stated.
- ClassGroup.SquareForm: equals `Compose(x, x)` only for forms with `gcd(a, b) = 1` (`ClassGroup.SquareIsCompose`), which covers every element when `-d` is prime (`ClassGroup.CoprimeForPrime`); for other discriminants the two can differ (`ClassGroup.SquareNeedsCoprime`).
- I256.ShiftedByR, I256.Reduce, Montgomery.New, Montgomery.Reduce, Montgomery.MulReduced, Montgomery.MulReducedAsWritten, Montgomery.ExpMod: model the shifts by 256 bits (`<< 256`, `>> 256`) by their intended result, a multiplication or division by `r`; as written those shifts pass a count of 64 to `mpn_lshift`/`mpn_rshift`, which GMP does not allow (see Findings, `U256.ShlAssignAsWritten`). `Montgomery.MulReducedAsWritten` models `mul_mod_` as written only in its carry assertion: its `>> 256` is the division by `r`, not the count-64 `mpn_rshift`.
- Montgomery.ExpModReduced, Montgomery.ExpMod: use the panic-free `MulReduced`, so `ExpMod`'s `a^n mod m` holds only where `mul_mod_` does not panic; a panic of `mul_mod_` as written (`Montgomery.MulReducedAsWritten`) inside `exp_mod_` is not propagated.
- I256.ExpModReduced: like `Montgomery.ExpModReduced`, uses the panic-free `MulReduced`; the overflow of `c + temp * m` in `mul_mod_` of src/i256.rs:693-702 (see Findings, `Montgomery.MulReducedAsWritten`) is not propagated.
- I256.ExpMod: for `a > 0` the result may still be `None` when `unreduce` meets a product shorter than the modulus; when that happens is characterised only by `I256.Unreduce`.
- Further U256/I256 operations that call GMP's `mpz` layer or only format: `remove_factor`, `mod_inv`, `pow_mod`, `is_perfect_square`, `jacobi`, `is_congruent`, `write_binary`, and the `u256`/`u512` helpers. `one()` and `minus_one()` are not modelled; `minus_one` is the only place a negative size appears.
- The by-value conversions and arithmetic of src/i256.rs (`From` impls, `+`, `-`, `*`, comparisons, lines 412-616) are the code of src/u256.rs line for line, so they are modelled once, in module U256.
- `U512 * U512` with an operand of size 0 (GMP's `mpn_mul` needs a non-empty second operand): the model returns the product 0.
- `transmute` in `low_u256` and `From<[u8; 32]>` is modelled by its effect on the limbs (the lower four limbs; eight-byte little-endian chunks).
- The remaining modules of the crate: src/group/rsa.rs, ristretto.rs and ecc.rs (library-backed groups), the stubs src/accumulator.rs, src/vector.rs, src/primitive/vector.rs, src/proof/*, src/group/dummy.rs, src/simulation/bridge.rs and src/bin/*, build.rs and the benchmarks.
- Group.MultiExp, Pokcr.Verify: require `1 <= |alphas| == |x|`. `multi_exp` of an empty slice splits it into two empty halves and recurses without end (src/group/mod.rs:96-109), and `x` is sliced at `alphas.len() / 2`, so a shorter `x` panics and a longer one adds its extra exponents to the products; neither case is modelled. The only caller in the crate is `Pokcr::verify`, which does not check the lengths itself; its tests pass non-empty lists of equal length.
- Primality.HalvingLoop: the halving loop of Miller-Rabin is given a `fuel` bound; it shows that the loop from `d = 0` never stops for any fuel, but does not model non-termination itself.

## Findings

| source | as written | input that shows it | evidently intended | confidence | as-written member | corrected member |
|---|---|---|---|---|---|---|
| src/hash/primality.rs:65-243 | `is_square` only filters by residues (modulo 16, 255 and 8) and then answers true; its table index can run past the 512-entry `bad255` | `n = 145` is accepted, though the test at lines 278-293 expects false; `2^64` is rejected; `2^80` indexes entry 65536 | an exact perfect-square test | not executed | PrimalityLegacy.IsSquareAcceptsNonSquare | PrimalityLegacy.PerfectSquareIff |
| src/i256.rs:339-356 | `div_rem` calls `mpn_tdiv_qr` without the `x.size > self.size` check of src/u256.rs:393-395, so GMP gets a dividend shorter than the divisor, or an empty divisor | `reduce(0)`: dividend 0 (size 0) divided by `m` (size at least 1) | `(0, self)` for a longer divisor, as in src/u256.rs | not executed | I256.ShortDividendUndefined | U256.DivRem |
| src/u256.rs:788-797 | the U512 sum `c + temp * m` can reach `2^512`, and the carry assertion of src/u256.rs:211 then panics | `m = 2^256 - 1`, `a = b = m - 1`: `c + temp * m = 2^512` | the representative `a * b * r^-1 mod m` (here 1) for every odd `3 <= m < 2^256` the reducer's comment allows | not executed | Montgomery.MulReducedOverflows | Montgomery.MulReduced |
| src/hash/primality/mod.rs:19-42 | for `n = 1` no small prime divides, and Miller-Rabin's halving loop starts from `d = 0`, which stays even forever | `n = 1` | `is_prob_prime(1) == false` | not executed | Primality.OneNeverLeavesLoop | Primality.IsProbPrime |
| src/u256.rs:413-433 | `div_rem_mut` (and `%=`) lets `mpn_tdiv_qr` write the remainder over only the lowest `d.size` limbs of `self`; the dividend's limbs above them stay | `2^64 %= 3` leaves `2^64 + 1` | `self` becomes `self mod d` | not executed | U256.RemAssignKeepsHighLimb | U256.DivRem |
| src/u256.rs:253-279 | `U512 * U512` lets `mpn_mul` write `x.size + y.size` limbs into an eight-limb array | `2^256 * 2^192` (sizes 5 and 4), whose product `2^448` fits | the product whenever it fits in eight limbs | not executed | U256.WideProductOverruns | U256.WideProductChecked |
| src/u256.rs:564-573 | `<<=` shifts in chunks of `min(64, count)` bits, so any count of 64 or more hands `mpn_lshift` a count of 64, outside the 1 to 63 GMP allows | `reduce(a)` of the Montgomery reducer, `(u512(a) << 256) % m` at src/u256.rs:781-783: four chunks of 64 | chunks of at most 63 bits, shifting by `count` in all | not executed | U256.ShlAssignAsWritten | U256.ShlAssign |
| src/u256.rs:584-593 | `>>=` likewise hands `mpn_rshift` a count of 64 for any count of 64 or more | `((c + temp * m) >> 256)` in `mul_mod_` at src/u256.rs:791 | chunks of at most 63 bits | not executed | U256.ShrAssignAsWritten | U256.ShrAssign |
| src/i256.rs:480-492 | the I256 `<<=` loop stops only when `min(64, count)` is 0, so it also passes 64 to `mpn_lshift` | `reduce(a)` at src/i256.rs:686-688 shifts by 256 | chunks of at most 63 bits | not executed | I256.ShlAssignAsWritten | I256.ShlAssign |
| src/i256.rs:503-515 | the I256 `>>=` loop likewise passes 64 to `mpn_rshift` | `>> 256` in `mul_mod_` at src/i256.rs:696 | chunks of at most 63 bits | not executed | I256.ShrAssignAsWritten | I256.ShrAssign |
