# Inheritance-tax kinship resolver and succession formulas, in Dafny

This project models the core of `openfisca_inheritance/variables/output_variables.py`, the
OpenFisca rules for French inheritance tax (droits de succession).

* **Kinship resolver** (`degre_parente_civil`): the civil degree of kinship of every individual
  with the deceased. Each individual has a role (`Decede`, `Epoux`, `Enfant`, `Parent` or any
  other) and the index of the individual it represents (`index_represente`). The computation
  runs on an integer array:
  * every entry starts at the sentinel `-9999`;
  * the deceased are set to 0;
  * spouses whose represented individual is already at a degree `>= 0` are set to -1, in a
    single pass;
  * passes `i = 0, 1, 2, …` follow. Each pass reads a snapshot of the represented degrees. It
    gives every child or parent whose represented degree is `>= i` that degree plus one;
  * the loop stops at the first pass that changes nothing.

  `Resolver.Resolve` runs this loop on an `array<int>`. `Kinship` gives two independent reference
  meanings of its result:
  * `BoundedDegree`: the degree reachable through at most `fuel` child/parent links;
  * `ChainToDeceased`: the length of the representation chain to a deceased.

  The proofs show the following:
  * the loop terminates after at most `n + 1` passes. Every non-final pass turns at least one
    sentinel into a resolved degree, and no pass changes an entry that is already resolved;
  * the result is the unique fixed point of the relaxation rules;
  * every resolved child or parent degree is the number of child/parent links on its chain to a
    deceased;
  * anything whose chain never reaches a deceased keeps `-9999`. This covers cycles,
    self-references and chains through a spouse.
* **Succession formulas**, over `real` amounts:
  * `actif_transmis`, `actif_imposable`, `part_recue` and `part_taxable`;
  * `is_enfant`;
  * the case-level sums `nombre_enfants` and `droits_sur_succession`, as sums over the members
    of a case (module `Aggregation`). Case membership is an explicit member → case index array.

  The bracket schedule `bareme.calc` is an opaque `real -> real` function passed in by the
  caller.

Files:
* `roles.dfy`: the role tags;
* `kinship.dfy`: the reference semantics and the fixed-point lemmas;
* `resolver.dfy`: the array loop and its termination;
* `aggregation.dfy`: per-case sums;
* `succession.dfy`: the tax formulas.

Two behaviours of the code are worth stating plainly:
* the resolver reports no error for a cycle, a self-reference or any other chain that never
  reaches a deceased: those individuals silently keep `-9999`. The loop has no explicit pass
  bound; the model proves one (`Resolver.Resolve`: at most `n + 1` passes, the last being the
  first that changes nothing);
* `droits` charges every member of a case, not only the children (see Findings). The rest of the
  model uses the per-child `droits`.

## Model

| member | source | states |
|---|---|---|
| `Resolver.Resolve` | openfisca_inheritance/variables/output_variables.py:60-84 | Terminates after 1 to n+1 passes; the last pass is the first whose reference degrees equal the previous pass's, and every earlier pass changed them. The result is a fixed point of the rules. The deceased are 0. A spouse is -1 exactly when its represented individual is deceased, and -9999 otherwise. Other roles are -9999. A child/parent is its represented degree + 1 when that is >= 0, and -9999 otherwise, so a resolved one is >= 1. A non-negative degree is exactly the length of the chain to a deceased. The result agrees with `BoundedDegree` for every fuel >= passes |
| `Kinship.BoundedDegree` | openfisca_inheritance/variables/output_variables.py:66-80 | Within `fuel` links a degree is -9999, -1 or between 0 and `fuel`. A degree >= 1 only ever belongs to a child or parent |
| `Kinship.ChainLengthUnique` | openfisca_inheritance/variables/output_variables.py:73-80 | Because each individual represents exactly one other, it has at most one chain length to a deceased |
| `Kinship.BoundedDegreeMonotone` | openfisca_inheritance/variables/output_variables.py:76-80 | Once a degree is resolved, more passes never change it |
| `Kinship.BoundedDegreeSettled` | openfisca_inheritance/variables/output_variables.py:79-80 | A degree v obtained in a later pass is already there after pass v. This is why the threshold `>= i` never holds back an entry |
| `Kinship.BoundedDegreeIsChain` | openfisca_inheritance/variables/output_variables.py:76-80 | Every non-negative degree the passes produce is the number of child/parent links from that individual to a deceased |
| `Kinship.ChainIsBoundedDegree` | openfisca_inheritance/variables/output_variables.py:76-80 | A chain of m child/parent links to a deceased is resolved to degree m by every pass index >= m |
| `Kinship.SettledForever` | openfisca_inheritance/variables/output_variables.py:76-82 | Once one more pass changes nothing, no later pass changes anything |
| `Kinship.FixedPointIsChain` | openfisca_inheritance/variables/output_variables.py:70-80 | In any array that the rules leave unchanged, a non-negative degree is a chain length to a deceased |
| `Kinship.ChainIsFixedPoint` | openfisca_inheritance/variables/output_variables.py:70-80 | In any array that the rules leave unchanged, a chain of m links gives degree m |
| `Kinship.FixedPointUnique` | openfisca_inheritance/variables/output_variables.py:66-84 | The rules have exactly one fixed point, so any procedure that reaches a fixed point of the rules gives the same result as the loop |
| `Kinship.GrandchildCaseDegrees` | openfisca_inheritance/variables/output_variables.py:66-84 | The case deceased, spouse, child, grandchild by representation resolves to 0, -1, 1, 2 |
| `Kinship.UnreachableCaseDegrees` | openfisca_inheritance/variables/output_variables.py:66-84 | Two children representing each other, a parent representing itself and a child representing a spouse all keep -9999, and no error is raised |
| `Resolver.InitialDegrees` | openfisca_inheritance/variables/output_variables.py:66-74 | After filling with -9999, setting the deceased to 0 and the one-time spouse rule, the array holds the reference degrees with no child/parent link (fuel 0): 0 for the deceased, -1 for a spouse of a deceased, -9999 for everyone else |
| `Resolver.RelaxPass` | openfisca_inheritance/variables/output_variables.py:77-80 | The in-place pass equals the pass computed entirely from the snapshot taken at its start |
| `Resolver.RunPasses` | openfisca_inheritance/variables/output_variables.py:76-82 | The loop stops after 1 to n+1 passes. It returns the reference degrees of the last pass before the stopping one, which that stopping pass leaves unchanged, and every earlier pass changed them |
| `Resolver.FixedPointRoles` | openfisca_inheritance/variables/output_variables.py:66-80 | In any array the rules leave unchanged: the deceased are 0; a spouse is -1 exactly when its represented individual is deceased, and -9999 otherwise; other roles are -9999; a child/parent is its represented degree + 1 when that is >= 0, and -9999 otherwise |
| `Resolver.PassAdvancesLevel` | openfisca_inheritance/variables/output_variables.py:76-80 | Pass i on the degrees reachable within i links yields exactly the degrees reachable within i+1 links |
| `Resolver.PassKeepsResolved` | openfisca_inheritance/variables/output_variables.py:77-80 | A pass never changes an entry that is not -9999 |
| `Resolver.CountDecreases` | openfisca_inheritance/variables/output_variables.py:78-82 | A change that touches only sentinel entries never raises the sentinel count, and lowers it when something changes |
| `Resolver.PassProgress` | openfisca_inheritance/variables/output_variables.py:76-82 | Every pass that changes the array resolves at least one sentinel |
| `Resolver.SettledDegrees` | openfisca_inheritance/variables/output_variables.py:81-84 | When a pass changes nothing, the array is the fixed point: its non-negative degrees are exactly the chain lengths, and later passes keep them |
| `Aggregation.SumMembers` | openfisca_inheritance/variables/output_variables.py:119 | The sum over a case with no members is 0 |
| `Aggregation.SumMembersLocal` | openfisca_inheritance/variables/output_variables.py:119 | A case sum reads only the values of that case's own members. Individuals of other cases do not affect it |
| `Aggregation.SumOverCasesAppend` | openfisca_inheritance/variables/output_variables.py:119 | Adding one individual to case c0 adds its value to the sum of cases 0..m-1 exactly when c0 < m |
| `Aggregation.SumOverCasesIsTotal` | openfisca_inheritance/variables/output_variables.py:119 | When every individual belongs to one of cases 0..m-1, the case sums add up to the total over all individuals: nothing is lost or counted twice |
| `Aggregation.SumFlaggedAmount` | openfisca_inheritance/variables/output_variables.py:119 | If every member carries `amount` where a flag holds and 0 elsewhere, the case sum is `amount` once per flagged member |
| `Aggregation.RepeatIsProduct` | openfisca_inheritance/variables/output_variables.py:119 | Adding an amount once per member is the member count times the amount |
| `Aggregation.SumIndicatorCounts` | openfisca_inheritance/variables/output_variables.py:152 | Summing a boolean over a case gives the number of members for which it holds |
| `Succession.ActifTransmis` | openfisca_inheritance/variables/output_variables.py:40-51 | The net community property splits evenly: what the estate takes of it beyond the own net property equals what is left for the spouse. So with a non-negative community the transmitted estate lies between the own net property and the whole net property, and with a negative community the bounds are reversed |
| `Succession.TransmisMonotone` | openfisca_inheritance/variables/output_variables.py:40-51 | More community or own assets never lower the transmitted estate; more community or own liabilities never raise it |
| `Succession.TransmisPartition` | openfisca_inheritance/variables/output_variables.py:16-51 | The transmitted estate is exactly the taxable estate, plus the spouse's share of the transmitted estate less life insurance, plus life insurance |
| `Succession.ActifImposable` | openfisca_inheritance/variables/output_variables.py:16-31 | The taxable estate is (1 - part_epoux) × (actif_transmis - assurance_vie). It is 0 when the spouse's share is 1, and actif_transmis - assurance_vie when the share is 0 |
| `Succession.ImposableWithinTransmis` | openfisca_inheritance/variables/output_variables.py:23-31 | With 0 <= part_epoux <= 1 and 0 <= assurance_vie <= actif_transmis: 0 <= actif_imposable <= actif_transmis - assurance_vie <= actif_transmis |
| `Succession.PartRecue` | openfisca_inheritance/variables/output_variables.py:184-187 | The received share times the number of children gives back the taxable estate |
| `Succession.PartTaxable` | openfisca_inheritance/variables/output_variables.py:196-200 | The taxable part is >= 0 and >= part_recue - abattement, and it is one of the two, i.e. their maximum |
| `Succession.IsEnfant` | openfisca_inheritance/variables/output_variables.py:128-131 | An individual is counted as a child exactly when it is succeeding and its role_representant is enfant. Every such individual is counted. A non-succeeding individual, and any individual whose role_representant is not enfant (deceased, spouse, parent), is never counted. A counted child always represents through a link that adds a degree of kinship |
| `Succession.NombreEnfants` | openfisca_inheritance/variables/output_variables.py:151-152 | A case without members has 0 children |
| `Succession.NombreEnfantsCountsChildren` | openfisca_inheritance/variables/output_variables.py:128-131 | `nombre_enfants` is the number of members of the case for which `is_enfant` holds. That is also the size of the explicit set of members whose role_succession is succedant and whose role_representant is enfant |
| `Succession.Droits` | openfisca_inheritance/variables/output_variables.py:222-229 | The per-child `droits` is 0 for a non-succeeding individual and for any individual whose role is not enfant, so the deceased and the spouse owe nothing. A succeeding enfant owes exactly the code's amount. When the schedule amount is non-negative, every individual owes between 0 and the code's amount |
| `Succession.AsWrittenIgnoresRoles` | openfisca_inheritance/variables/output_variables.py:222-229 | As written, `droits` is the same for any two individuals of a case, whatever their roles: `is_enfant` is read but plays no part |
| `Succession.DroitsSurSuccession` | openfisca_inheritance/variables/output_variables.py:118-119 | The case total of `droits` is 0 for a case without members |
| `Succession.DroitsPerChild` | openfisca_inheritance/variables/output_variables.py:222-229 | With `droits` charged to children only, the case total is the schedule applied to the case's taxable part once per child of the case |
| `Succession.DroitsPerChildProduct` | openfisca_inheritance/variables/output_variables.py:118-119 | With `droits` charged to children only, the case total is `nombre_enfants` × the schedule applied to the case's taxable part |
| `Succession.DroitsSurSuccessionAsWritten` | openfisca_inheritance/variables/output_variables.py:118-119 | As written, the case total is 0 for a case without members |
| `Succession.AsWrittenChargesEveryMember` | openfisca_inheritance/variables/output_variables.py:222-229 | As written, the case total is the schedule applied to the case's taxable part once per member: the deceased and the spouse are charged too |
| `Succession.TwoChildCaseMembers` | openfisca_inheritance/variables/output_variables.py:128-131 | In the case deceased, spouse, two children, only the two children satisfy `is_enfant`, out of four members |
| `Succession.TwoChildCaseCount` | openfisca_inheritance/variables/output_variables.py:151-152 | That case has `nombre_enfants` = 2 |
| `Succession.TwoChildCaseTaxablePart` | openfisca_inheritance/variables/output_variables.py:196-200 | With 2 children, a taxable estate of 400,000 and an allowance of 100,000 give a taxable part of 100,000 |
| `Succession.AsWrittenOverchargesTwoChildCase` | openfisca_inheritance/variables/output_variables.py:222-229 | In that case, for any schedule that charges a positive amount t, the code's total is 4t while the per-child total is 2t |

## Left out

- `Resolver.Resolve`: requires every `index_represente` to lie in `0..n-1`. Numpy would wrap a negative index and raise on one that is too large; neither is modelled.
- `Resolver.Resolve`: degrees are unbounded integers. The array's integer width is not modelled, and no degree can exceed n.
- `Succession.PartRecue`: requires `nombre_enfants != 0`. The code divides by zero and numpy yields an infinity or NaN; the model excludes that input instead of modelling it.
- `Succession.PartTaxable`: requires `nombre_enfants != 0`, for the same reason.
- The lines that read undefined names in the resolver are not modelled: `self.holder`, `column` and the `DECEDE`/`EPOUX`/`ENFANT`/`PARENT` constants (output_variables.py:7, 64-66). The model gives them their evident meaning: an array of the individuals' count, filled with -9999, and the role tags of `Roles.Role`.
- `bareme.calc` (output_variables.py:227) is a function parameter. The bracket schedule evaluator belongs to openfisca_core, which is not part of this model, so no bracket semantics are stated.
- The parameter lookups `parameters(period)…` (output_variables.py:199, 225-226) are not modelled. The allowance and the schedule are arguments.
- The OpenFisca entity machinery is reduced to the per-case sum over an explicit member → case array. This covers `succession.sum`, `members`, `individu.succession`, holders and per-period memoisation. The broadcast `individu.succession('part_taxable')` becomes `partTaxable[caseOf[k]]`.
- Order independence of the case sum under arbitrary permutations of the individuals is not proved. Locality and the partition into cases are.
- `taux_sur_part_recue`, `taux_sur_succession` and `taux_sur_transmis` are left out (output_variables.py:203-257). They are bare float divisions, and line 212 calls the class `Individu` instead of the individual.
- `is_enfant_donataire` is left out (output_variables.py:134-142). It compares an enumeration to 100, which has no meaningful behaviour.
- Commented-out code is left out (output_variables.py:87-109, 155-175).
- `openfisca_inheritance/input_variables.py` only declares input columns and the `QUISUCC` enumeration, and has no logic.
- The `TypesRoleSuccession` enumeration comes from openfisca_inheritance/variables/input_variables.py, which is not part of this model. Only its `succedant` value matters, so it is modelled as `Succedant | NonSuccedant`.
- Floating-point rounding is not modelled: monetary amounts are `real`.
- The code does no cycle detection or "unresolved" error reporting, so the model has none either.

## Findings

| source | as written | input that shows it | evidently intended | confidence | as-written member | corrected member |
|---|---|---|---|---|---|---|
| openfisca_inheritance/variables/output_variables.py:222-229 | `droits` reads `is_enfant` but never uses it. Every individual is charged `bareme.calc(part_taxable)`, and `droits_sur_succession` (line 119) sums over all members | A case with a deceased, a spouse and two children, a taxable estate of 400,000 and an allowance of 100,000 has a taxable part of 100,000. The code's case total is 4 × the schedule amount: 80,000 at a flat 20% | Only the children are charged, giving 2 × the schedule amount (40,000) | medium; not executed | `Succession.AsWrittenOverchargesTwoChildCase` | `Succession.DroitsPerChild` |
