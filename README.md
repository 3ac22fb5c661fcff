# Quinoa: verified model of four bookkeeping kernels

This project models, in Dafny, the non-numerical logic of four parts of the
Quinoa solver suite (Walker and Inciter) and proves what that logic promises.

- **Ornstein-Uhlenbeck constant coefficients** (`OrnsteinUhlenbeckCoeffPolicy`).
  The constructor checks the size of each user parameter vector. It then expands
  the packed upper triangle `sigmasq_` (length ncomp*(ncomp+1)/2) into a
  row-major ncomp x ncomp buffer, with zeros below the diagonal, using a running
  counter. Finally it copies `theta` and `mu`. `type()` is CONSTANT.
  `lookup()` and `operator()` do nothing.
- **FluxCorrector index assembly** (`FluxCorrector`). `findsys` collects the
  global component indices of every system that has system FCT switched on.
  `findvel` collects the velocity triple of every system. The class owns the
  antidiffusive element contribution (AEC) storage, sized (is, nprop) and
  re-sized by `resize`.
- **CGTransport names and Dirichlet BCs** (`CGTransport`). `names` and
  `fieldNames` build the output labels. `dirbc` builds the map from node id to
  per-component `(true, value)` pairs for a matching side set.
- **CGCompFlow IC box and Dirichlet BCs** (`CGCompFlow`). `IcBoxNodes` adds
  the nodes strictly inside the configured initial-condition box to a set.
  `dirbc` is the five-component Dirichlet map. In steady-state mode each node
  is evaluated at its own time and time step.

`Wrappers` holds the Result type. `Mesh` holds node coordinates, side sets,
the per-node BC type and the side-set matching predicate.

Error policy, as in the source:
- `ErrChk` always runs and throws. In the model it is a `Failure`.
- `std::vector::at` throws `std::out_of_range`. In the model it is a `Failure(OutOfRange)`.
- `Assert` is a debug-build check of the caller's obligation. In the model it is a `requires`.

The following calls into code this model does not contain are parameters:
- `Problem::solinc` and the CompFlow `solinc` become `solinc: SolutionIncrement`.
- `std::stoi` becomes `parse: string -> int`.
- `std::to_string` becomes `toString: nat -> string`.
- `ncomp::offset<Eq>(e)` becomes `offset: nat -> nat`.
- The input-deck entries are passed in as values.

Stored reals are only copied or compared, never computed, so Dafny `real` is used for them.

## Model

| member | source | states |
|---|---|---|
| OrnsteinUhlenbeckCoeffPolicy.Construct | src/DiffEq/OrnsteinUhlenbeckCoeffPolicy.h:84-102 | fails with the first failing check, in order: sigmasq_ length must be ncomp*(ncomp+1)/2, then theta_ and mu_ lengths must be ncomp; succeeds exactly when all three hold; on success sigmasq has ncomp*ncomp entries and is the expansion of sigmasq_ (IsUnpacked), and theta, mu equal theta_, mu_ |
| OrnsteinUhlenbeckCoeffPolicy.Unpack | src/DiffEq/OrnsteinUhlenbeckCoeffPolicy.h:92-99 | the resized buffer has ncomp*ncomp cells; cell (i,j) holds sigmasq_[counter] for i <= j and 0 for i > j; the counter ends at ncomp*(ncomp+1)/2 |
| OrnsteinUhlenbeckCoeffPolicy.RowStartClosedForm | src/DiffEq/OrnsteinUhlenbeckCoeffPolicy.h:93-97 | the running counter at the start of row i is i*ncomp - i*(i-1)/2 (the value at cell (i,j), i <= j, then lies j-i further on, as `Entry` and the inner loop invariant of `Unpack` state) |
| OrnsteinUhlenbeckCoeffPolicy.RowStartEnd | src/DiffEq/OrnsteinUhlenbeckCoeffPolicy.h:93-97 | after the last row the counter equals ncomp*(ncomp+1)/2: the packed vector is consumed completely |
| OrnsteinUhlenbeckCoeffPolicy.PackOfUnpacked | src/DiffEq/OrnsteinUhlenbeckCoeffPolicy.h:93-97 | reading the upper triangle of the expanded buffer back in row-major order gives sigmasq_: each input value is used exactly once, in order |
| OrnsteinUhlenbeckCoeffPolicy.UnpackOfPacked | src/DiffEq/OrnsteinUhlenbeckCoeffPolicy.h:93-99 | conversely, any buffer that is zero below the diagonal is the expansion of its own packed upper triangle |
| OrnsteinUhlenbeckCoeffPolicy.UnpackedUnique | src/DiffEq/OrnsteinUhlenbeckCoeffPolicy.h:92-99 | the expansion is unique: the loops write every one of the ncomp*ncomp cells |
| OrnsteinUhlenbeckCoeffPolicy.PolicyType | src/DiffEq/OrnsteinUhlenbeckCoeffPolicy.h:105-106 | type() is CONSTANT |
| OrnsteinUhlenbeckCoeffPolicy.Update | src/DiffEq/OrnsteinUhlenbeckCoeffPolicy.h:111-115 | operator() leaves sigmasq, theta and mu unchanged |
| FluxCorrector.FindSys | src/Inciter/FluxCorrector.hpp:53-78 | fails exactly when an at() on sysfct or sysfctvar is out of range; otherwise emits one list per flagged system, in system order, equal to that system's sysfctvar shifted by its offset (same length and order), every index below nprop; the index bound is demanded only of decks on which no at() throws, as the assertion runs after the loop |
| FluxCorrector.FlaggedMembers | src/Inciter/FluxCorrector.hpp:63-66 | a system contributes a list exactly when it is in range and its sysfct flag is set; unflagged systems contribute nothing |
| FluxCorrector.FlaggedIncreasing | src/Inciter/FluxCorrector.hpp:63-66 | the contributing systems appear in strictly increasing system order |
| FluxCorrector.FindVel | src/Inciter/FluxCorrector.hpp:86-104 | exactly one triple per system, in order, equal to (offset+1, offset+2, offset+3), every index below nprop |
| FluxCorrector.FluxCorrector.Create | src/Inciter/FluxCorrector.hpp:45-48 | fails exactly when findsys throws; otherwise the AEC storage is sized (is, nprop), the system lists are the flagged systems' sysfctvar shifted by their offsets, in system order, the velocity list is one (offset+1, offset+2, offset+3) per system, and every stored index is below nprop |
| FluxCorrector.FluxCorrector.Resize | src/Inciter/FluxCorrector.hpp:107-109 | the AEC storage becomes (is, nprop), still with nprop components; the system and velocity lists are unchanged |
| CGTransport.Names | src/PDE/Transport/CGTransport.hpp:617-626 | fails when the system has no depvar entry (at()); otherwise returns exactly ncomp names, entry c being depvar followed by to_string(c) |
| CGTransport.FieldNames | src/PDE/Transport/CGTransport.hpp:558-573 | fails as names(); otherwise returns exactly 3*ncomp names: entry c ends "_numerical", entry ncomp+c ends "_analytic", entry 2*ncomp+c ends "_error", each after depvar and to_string(c) |
| CGTransport.NamesDistinct | src/PDE/Transport/CGTransport.hpp:623-624 | the ncomp names are pairwise distinct whenever to_string is injective on the components |
| CGTransport.FieldNamesDistinct | src/PDE/Transport/CGTransport.hpp:564-571 | the 3*ncomp field names are pairwise distinct whenever to_string is injective: the blocks differ in suffix, entries within a block differ in component |
| CGTransport.DirBc | src/PDE/Transport/CGTransport.hpp:513-540 | empty when no Dirichlet lists are configured; a node is a key exactly when it is on the side set and some string of this system's list parses to the side-set id; every value has ncomp pairs, all true, carrying that node's solinc components; the system index and node ids must be in range (asserted) |
| CGCompFlow.IcBoxNodes | src/PDE/CompFlow/CGCompFlow.hpp:86-113 | only inserts; leaves the set unchanged when every bound has magnitude at most eps; otherwise adds exactly the nodes with x, y and z strictly inside the open box |
| CGCompFlow.DirBc | src/PDE/CompFlow/CGCompFlow.hpp:656-686 | empty when no Dirichlet lists are configured; side sets are matched against the first list only, so the key set does not depend on the system index; every value has 5 pairs, all true; node n is evaluated at tp[n], dtp[n] in steady-state mode and at t, deltat otherwise |

`OrnsteinUhlenbeckCoeffPolicy.Lookup` models `lookup()` (line 109). It is an
empty method with nothing to state.

## Left out

- Floating-point numerics: every PDE kernel (right-hand sides, time steps, gradients, limiting, `FluxCorrector::diffusion`, field output), the multi-material PDE and its integrators. Double rounding and NaN are not modelled; stored coefficients and BC values are reals.
- The Charm++ runtime, reductions and PUP serialisation (`pup` members), mesh I/O, partitioning and random-number libraries: concurrency or foreign libraries.
- Option tables, configuration defaults, info printing and factory registration: thin layers over Control/Toggle code. That code is not part of this model.
- `Problem::solinc`, the CompFlow `solinc`, `std::stoi`, `std::to_string` and `ncomp::offset<Eq>`: external. They are parameters. `std::stoi` throwing on a malformed string is not modelled: `parse` is total.
- FluxCorrector.FluxCorrector.Create: the AEC field values themselves are not modelled: `tk::Fields` is reduced to its shape (unknowns, components). The same holds for Resize.
- The enumerators of `tk::ctr::CoeffPolicyType` other than CONSTANT are declared in Options/CoeffPolicy.h, which is not part of this model. They stand as `Other(ordinal)`.
- `findsys` and `findvel` are templates over a pack of equation types. The model takes one equation type's deck entries, as the constructor uses them for CompFlow only.
- OrnsteinUhlenbeckCoeffPolicy.Construct: C++ writes sigmasq, theta and mu through reference parameters. The model returns them as a value. Callers get the same values, but reference aliasing is not modelled.
- The magnitude test in `IcBoxNodes` is modelled as the real absolute value, that is `std::abs` on a double. The source calls an unqualified `abs(p)` on a double (src/PDE/CompFlow/CGCompFlow.hpp:104); the model assumes that call resolves to the floating-point overload and not to C's `int abs(int)`, which would truncate the bound first.
