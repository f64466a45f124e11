# Fixed-precision 3-adic ring and multiplication-extension engine

A Dafny model of two components of MinimalResolution, a program that
computes Adams–Novikov style spectral sequences from a free resolution.

- **The ring `Z3`** (`Z3.cpp`). An element is a raw `uint64_t` word standing
  for its residue modulo M = 3^40, the largest power of 3 below 2^64.
  Machine wrap-around (mod 2^64) is not the ring's reduction, so `add`
  catches the carry in three branches. `multiply` splits its operands into
  3^20-sized limbs. `inverse` runs six Newton–Hensel steps. `valuation`,
  `power_p` and `divide` complete the ring. Every C++ `uint64_t` operation is
  written out with `Wrap` (reduction mod 2^64), so overflow is part of the
  model and not assumed away.
- **The multiplication-extension engine** (`multiplication.cpp`). It walks the
  pages of a spectral sequence and, for every selected entry, records the
  name of its image under a multiplication matrix.
  - `mult_extension` and `mult_extension1` differ in their precision gates.
  - `three_extension` records multiplication by 3.
  - The drivers choose the pages, the matrix and the precision `pric` for
    each resolution degree.
  - `output_multiplication_table` and `output_multiplication_table1` render
    the tables as text.
  - `make_eta_R_multiplier` and `multily_matrix` build the matrices with
    their row-truncation rules.
  - The table, module and matrix operations (`valid`, `tagged`, `filtration`,
    `name_of_cycle`, `combine_cycles`, `maps_to`, `scalor_mult`, `output`, the
    row primitives) are function-valued fields of `Tables.Page`,
    `Tables.Ops`, `Matrices.MonIndex` and `Matrices.Resolution`. Every
    engine property therefore holds for every behaviour those operations
    may have.

Modules:

| file | module | contents |
|---|---|---|
| `mod_arith.dfy` | `ModArith` | `Pow3`, congruences, and the generic number theory (limb products, Newton iteration, exact powers of 3) behind the ring proofs |
| `z3_ring.dfy` | `Z3Ring` | the ring operations, with `Inverse` as a method with its loop |
| `z3_laws.dfy` | `Z3Laws` | ring laws, uniqueness of inverses, the valuation law, the `divide`/`power_p` round trip, and the `unit` finding |
| `sequences.dfy` | `Sequences` | `FilterMap` (a skip-or-append loop as a function), its kept indices, `Filter` and `Flatten` |
| `tables.dfy` | `Tables` | pages, entries, names and the abstract operations |
| `matrices.dfy` | `Matrices` | the `Matrix` class and the two row-truncating builders |
| `extension.dfy` | `Extension` | the three engines, their drivers, and what their tables contain |
| `output.dfy` | `Output` | the text rendering and its drivers |

Each imperative engine function is a method with the source's loop (`for`
with `continue` on each skip condition and an append on each kept entry).
Its `ensures` ties the result to a specification function built from
`FilterMap`. Lemmas then state what those functions contain: exactly which
entries, in which order, keyed by what and named how.

Four behaviours of the code are easy to misread, and the model follows the
code:

- Pass 2 of `mult_extension` keeps tagged entries whose filtration is **at
  least** `pric` (`multiplication.cpp:62` skips those below it). It does not
  keep those within the precision bound.
- The output functions print one table per degree, with column `k = i` and
  precision `pric - i`. They do not print a window `[k, k + shift)`:
  `shift` only offsets the column of the targets.
- `add(a, zero()) == a` and `multiply(a, unit(1)) == a` hold only for
  canonical words `a < 3^40`. For a larger word the result is its residue
  `a - 3^40`. `Z3Laws.AddZeroIdentity` and `Z3Laws.MultiplyUnitIdentity`
  carry that precondition.
- The valuations of nonzero words add up under `multiply` only while the
  product stays nonzero. Once it vanishes modulo 3^40 (`Z3.cpp:46-57`), the
  valuations of the factors sum to at least 40. The product is then zero
  and its valuation is the sentinel 35536 (`Z3.cpp:122`). So
  valuation(3^20) == 20, but valuation(multiply(3^20, 3^20)) == 35536.
  `Z3Laws.ValuationOfProduct` covers the nonzero case, and
  `Z3Laws.ValuationOfVanishingProduct` and `Z3Laws.ValuationBeyondPrecision`
  cover the vanishing one.

## Model

| member | source | states |
|---|---|---|
| Z3Ring.Add | Z3.cpp:16-43 | add(a, b) is below 3^40 and equals (a + b) mod 3^40 of the mathematical sum, for every pair of 64-bit words. This covers all three overflow branches; the rvalue overload has the same body |
| Z3Ring.AddZeroSumBranchRedundant | Z3.cpp:22-26 | when x + y wraps to exactly 0, the special branch returns what the general wrap-around branch would, namely 2^64 - 3^40 |
| Z3Ring.Multiply | Z3.cpp:46-57 | multiply(x, y) is below 3^40 and equals (x * y) mod 3^40 of the mathematical product, for all 64-bit x, y, with every intermediate wrapped as in C++ |
| Z3Ring.MultiplyIntermediatesFit | Z3.cpp:49-56 | x0*y0, x0y1, y0x1 and 3^20 times any limb remainder are all below 3^40, so no partial product overflows |
| Z3Ring.Unit | Z3.cpp:61 | unit(n) is below 3^40, equals n for n >= 0, and for n < 0 equals n + 2^64 - 3^40, because the int is converted to uint64_t first |
| Z3Ring.UnitResidue | Z3.cpp:61 | the corrected conversion: a canonical residue congruent to n modulo 3^40, agreeing with unit on n >= 0 |
| Z3Ring.IsZero | Z3.cpp:64 | isZero(x) holds exactly for x == 0 and x == 3^40, the only words divisible by 3^40 |
| Z3Ring.Zero | Z3.cpp:67 | zero() is canonical and isZero |
| Z3Ring.Minus | Z3.cpp:70 | minus(x) lies in (0, 3^40], x + minus(x) vanishes mod 3^40, and minus(x) is the non-canonical 3^40 exactly when x is zero |
| Z3Ring.Invertible | Z3.cpp:90 | invertible(x) holds iff the residue of x is not divisible by 3 |
| Z3Ring.Inverse | Z3.cpp:97-115 | returns None exactly for non-units (where the source throws); otherwise returns a canonical u with multiply(x, u) == 1, in both the x = 1 and the negated x = 2 (mod 3) branch |
| Z3Ring.NewtonStep | Z3.cpp:100-101 | one step u := u(2 - xu) turns x*u = 1 mod 3^k into x*u = 1 mod 3^min(2k, 40) |
| Z3Ring.NegatedNewtonStep | Z3.cpp:106-107 | the same doubling for the step u := u(2 + xu) run on -x |
| Z3Ring.HenselDone | Z3.cpp:102 | after six steps (precision 1, 2, 4, ..., 40) the product x*u reduces to exactly 1 |
| Z3Ring.NegatedHenselDone | Z3.cpp:108 | after six negated steps minus(u) is canonical and multiply(x, minus(u)) == 1 |
| Z3Ring.Valuation | Z3.cpp:118-128 | 35536 for zero and 0 for a unit; for any other nonzero word, the exact number v < 40 of factors 3: 3^v divides x and 3^(v+1) does not |
| Z3Ring.PowerP | Z3.cpp:131-139 | 0 for n < 0; 3^n mod 2^64 (raw `*`, not the ring product) for n >= 0, hence exactly 3^n for n <= 40, and always odd |
| Z3Ring.Divide | Z3.cpp:144-147 | the int64_t cast cancels out: divide(x, n) is unsigned floor division of x by power_p(n), which is nonzero, and x / 3^n for n <= 40 |
| Z3Laws.AddCommutative | Z3.cpp:16-28 | add(a, b) == add(b, a) |
| Z3Laws.AddAssociative | Z3.cpp:16-28 | add is associative on all words |
| Z3Laws.AddZeroIdentity | Z3.cpp:16-28 | add(a, zero()) == a for canonical a |
| Z3Laws.AddMinusIsZero | Z3.cpp:70 | isZero(add(x, minus(x))) for every word; minus(0) == 3^40, which is still zero |
| Z3Laws.MultiplyCommutative | Z3.cpp:46-57 | multiply(x, y) == multiply(y, x) |
| Z3Laws.MultiplyAssociative | Z3.cpp:46-57 | multiply is associative on all words |
| Z3Laws.MultiplyUnitIdentity | Z3.cpp:46-61 | multiply(a, unit(1)) == a for canonical a |
| Z3Laws.MultiplyDistributes | Z3.cpp:16-57 | multiply distributes over add |
| Z3Laws.InverseUnique | Z3.cpp:97-115 | two canonical inverses of the same word are equal, so inverse returns the inverse |
| Z3Laws.NonUnitHasNoInverse | Z3.cpp:90 | a word that is not invertible has no u with multiply(x, u) == 1, so invertible means "has an inverse" |
| Z3Laws.ValuationUnique | Z3.cpp:118-128 | a nonzero word with exactly v factors 3 has valuation v |
| Z3Laws.ValuationOfZero | Z3.cpp:121-122 | every zero word, including 3^40, has valuation 35536 |
| Z3Laws.ZeroFactor | Z3.cpp:46-57 | a zero factor makes the product zero |
| Z3Laws.ValuationOfProduct | Z3.cpp:118-128 | if multiply(a, b) is nonzero then so are a and b, and valuation(multiply(a, b)) == valuation(a) + valuation(b) |
| Z3Laws.ValuationOfVanishingProduct | Z3.cpp:118-128 | if a and b are nonzero and multiply(a, b) is zero, then valuation(a) + valuation(b) >= 40 and the product's valuation is 35536 |
| Z3Laws.ValuationBeyondPrecision | Z3.cpp:118-128 | valuation(3^20) == 20, multiply(3^20, 3^20) is zero, and its valuation 35536 is not 20 + 20 |
| Z3Laws.PowerPBase | Z3.cpp:131-139 | power_p(0) == unit(1) == 1 and power_p(-1) == 0 |
| Z3Laws.PowerPBeyondPrecision | Z3.cpp:135 | power_p(41) is 3^41 mod 2^64 = 18026252303461234787, which is not zero in the ring although 3^41 vanishes mod 3^40 |
| Z3Laws.DividePowerRoundTrip | Z3.cpp:144-147 | multiply(divide(x, n), power_p(n)) == x for canonical x divisible by 3^n, 0 <= n <= 40 |
| Z3Laws.UnitOfNegativeIsNotNegation | Z3.cpp:61 | unit(-1) == 6289078614652622814 and unit(-1) + unit(1) is not zero |
| Z3Laws.UnitResidueAdditive | Z3.cpp:61 | the corrected conversion is additive, and the conversions of a and -a sum to zero |
| Matrices.Matrix.Clear | multiplication.cpp:126 | the matrix is emptied |
| Matrices.Matrix.Construct | multiplication.cpp:21 | the matrix has `rank` rows and row i is the row oracle at i |
| Matrices.MakeEtaRMultiplier | multiplication.cpp:5-22 | one row per monomial; a row i strictly above ranksBelow[maxDegree - deg] is zero, and every other row is the primitive of monomial i times x |
| Matrices.MultiplyMatrix | multiplication.cpp:25-34 | one row per generator; the row of a generator of degree above maxDeg is zero, and every other row is the expanded product row |
| Extension.ExtendCycles | multiplication.cpp:41-53 | the first loop of mult_extension yields `ExtensionFirstPass`, the filter-and-name of the current page's valid untagged entries |
| Extension.ExtendTags | multiplication.cpp:56-69 | the second loop continues the result with `ExtensionSecondPass`: the given prefix is kept and the pass-2 lines follow it |
| Extension.MultExtension | multiplication.cpp:37-71 | the result is pass 1 over the current page followed by pass 2 over the next page, as `ExtensionTable` |
| Extension.ExtendCyclesBelow | multiplication.cpp:79-94 | the first loop of mult_extension1 yields `Extension1FirstPass` |
| Extension.ExtendTagsBelowOnCurrent | multiplication.cpp:97-112 | the second loop of mult_extension1 continues the result with `Extension1SecondPass` |
| Extension.MultExtension1 | multiplication.cpp:74-114 | the result is `Extension1Table`, the two passes of the variant engine |
| Extension.ThreeExtension | multiplication.cpp:212-230 | the result is `ThreeExtensionTable` |
| Extension.ExtendAtDegree | multiplication.cpp:126-130 | one driver iteration: mm holds the matrix of degree i (map i - 1, generators[i - 1], prims[i]), and the table is the extension of pages i - 1, i, i + 1 through it with precision pric, or pric - i when not fixed |
| Extension.MultExtensionTables | multiplication.cpp:117-134 | the result is `DegreeTables` for degrees 1 to resolutionLength - 2 (none when resolutionLength <= 2), and mm ends holding the last degree's matrix, or is left unchanged when the loop does not run |
| Extension.MultExtension1Tables | multiplication.cpp:137-155 | the same schedule with the variant engine, with the same final state of mm |
| Extension.DegreeTables | multiplication.cpp:122-132 | the driver's tables for degrees 1 to n: exactly n of them |
| Extension.DegreeTablesAt | multiplication.cpp:122-132 | entry i - 1 of the driver's tables is the table of degree i, for every 1 <= i <= n, so tables come in degree order and none is skipped |
| Extension.ThreeExtensionTables | multiplication.cpp:233-242 | max(0, resolutionLength) tables; table i is the 3-extension of page i with precision pric - i |
| Extension.ExtensionFirstPassEntries | multiplication.cpp:41-53 | pass 1 has one line per valid untagged entry of the current page, exactly those, in page order, keyed by the cycle and named combine_cycles(name_of_cycle(maps_to(full_cycle), third, pric)) |
| Extension.ExtensionSecondPassEntries | multiplication.cpp:56-69 | pass 2 has one line per valid tagged entry of the next page with filtration at least pric, exactly those, in page order, keyed by the tag and named from maps_to(full_tag) |
| Extension.Extension1FirstPassEntries | multiplication.cpp:79-94 | variant pass 1 keeps exactly the valid untagged entries whose filtration is below pric |
| Extension.Extension1SecondPassEntries | multiplication.cpp:97-112 | variant pass 2 keeps exactly the valid tagged entries of the next page whose tag has filtration below pric on the current page, and names them with the flag false |
| Extension.ExtensionTablesOrder | multiplication.cpp:39-70 | with k1 and k2 the kept entries of the current and next page, line t < |k1| is keyed by the cycle of the t-th of k1 and line |k1| + u by the tag of the u-th of k2; there are no other lines |
| Extension.Extension1TablesOrder | multiplication.cpp:74-114 | the same for mult_extension1: line t < |k1| is keyed by the cycle of the t-th kept entry of the current page (valid, untagged, below pric) and line |k1| + u by the tag of the u-th kept entry of the next page; there are no other lines |
| Extension.Extension1FirstPassRefines | multiplication.cpp:82-86 | variant pass 1 equals pass 1 of mult_extension with the lines whose source filtration is at least pric removed |
| Extension.ThreeExtensionTableEntries | multiplication.cpp:218-229 | one line per valid untagged entry of the page, exactly those, in page order, keyed by the cycle and named on the same page from 3 times the full cycle |
| Extension.ThreeExtensionSameSources | multiplication.cpp:218-229 | three_extension lists the same sources in the same order as pass 1 of mult_extension on the same page |
| Output.AppendNames | multiplication.cpp:167-168 | appends output(t, k) + "+" for each name in order |
| Output.OutputMultiplicationTable | multiplication.cpp:158-172 | the result is `TableText` without the tag-derived targets |
| Output.OutputMultiplicationTable1 | multiplication.cpp:184-200 | the result is `TableText` with the tag-derived targets after the direct ones |
| Output.OutputMultiplicationTables | multiplication.cpp:175-181 | the tables concatenated in order, table i at column i with precision pric - i |
| Output.OutputMultiplicationTables1 | multiplication.cpp:203-209 | the same for variant 1 |
| Output.TablesTextStep | multiplication.cpp:178-179 | the text of the first i + 1 tables is the text of the first i followed by table i at column i, precision pric - i |
| Output.TableTextLines | multiplication.cpp:161-170 | a table's text is one line per entry whose source filtration is below pric, exactly those, in order, each output(src, k) + "\t->\t" + targets + "o\n" |
| Output.NameListAppend | multiplication.cpp:193-196 | printing two target lists in turn is printing their concatenation |
| Output.Variant1Line | multiplication.cpp:193-197 | variant 1 prints an entry as variant 0 prints it with `first` appended to `second` |
| Output.VariantsAgreeWithoutTagNames | multiplication.cpp:184-200 | when no entry has tag-derived targets, both variants produce the same text |

## Left out

- `save`, `load` and `output` of the ring (`Z3.cpp:73-87`): byte-order stream I/O and hexadecimal formatting.
- `lift` (`Z3.cpp:150-152`) and the `F3_opers` constructor (`Z3.cpp:10`): they depend on the residue-field type, which is not part of this model.
- `BP_init.cpp` is not part of this model: it is orchestration and file I/O.
- The power-of-two-modulus ring variant is not part of this model.
- The maps file of the extension drivers: the matrices read one after another from it are the parameter `maps`, with map i - 1 the one loaded for degree i.
- Console progress printing in `mult_extension1` and its driver.
- Extension.ThreeExtension: the `static` caching of `three` is not modelled. The scalar is unit(3) on every call.
- Extension.MultExtensionTables: `pric` and the degree counters are unbounded integers, so `int` overflow of `pric - i` is not modelled.
- Output.OutputMultiplicationTables: the default-constructed page whose `filtration` and `output` the drivers use is a parameter `tb`.
- Tables.Ops: the default flag of the three-argument `name_of_cycle` is not visible. It is the field `defaultFlag`, and the four-argument call in `mult_extension1` passes `false`.
- Matrices.MakeEtaRMultiplier: the `(int)` cast of `ranksBelow` entries is not modelled (they are `int`). `number_of_all_mons()` is the length of `monArray`.
- Matrices.Matrix.Construct: `matrix::construct` is not part of this model. It is modelled by its use here: it evaluates the row function once per index below the rank, and it REPLACES any rows the matrix held. The drivers clear the matrix before each rebuild (`multiplication.cpp:126`, `:147`), so there the two readings agree. If construct appended instead, `Matrices.MakeEtaRMultiplier` would not leave exactly one row per monomial on a matrix that already held rows.
- The console reports of `inverse` ("tried to invert non-invertible element", `Z3.cpp:111`) and of `power_p` ("not integral!", `Z3.cpp:137`) are not modelled; only the throw (None) and the returned 0 are.
- Z3Ring.Divide: requires n >= 0. For negative n, `power_p(n)` is 0 and the source divides by zero (`Z3.cpp:144-147`), which is undefined, so the model has no result there.
- The bodies of `etaR`, `BPBP_opers.multiply`, `algebroid2vector`, `maps_to`, `expand`, `multiply_using_table`, `name_of_cycle`, `combine_cycles`, `scalor_mult` and the page queries are not part of this model. They are uninterpreted function fields.
- Z3Laws.AddZeroIdentity: requires a canonical word; for a word at or above 3^40, add(a, zero()) is its residue, not the word.
- Z3Laws.MultiplyUnitIdentity: requires a canonical word, for the same reason.

## Findings

| source | as written | input that shows it | evidently intended | confidence | as-written member | corrected member |
|---|---|---|---|---|---|---|
| Z3.cpp:61 | `x % MAX3` with `int x` and `uint64_t MAX3` converts x to uint64_t first, giving (x + 2^64) mod 3^40 for negative x | unit(-1) == 6289078614652622814, and unit(-1) + unit(1) is not zero | unit(n) is the residue of n, so unit(-n) is the negation of unit(n) | not executed; low impact, since the callers in Z3.cpp and multiplication.cpp pass only 1, 3 and prime() | Z3Laws.UnitOfNegativeIsNotNegation | Z3Ring.UnitResidue |
