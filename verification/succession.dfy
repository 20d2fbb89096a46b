/**
  The succession formulas: transmitted and taxable estate, the share each
  child receives and its taxable part, the number of children of a case and
  the case total of the duties. Amounts are `real`; the bracket schedule
  (`bareme.calc`) is an opaque function passed in by the caller.
 */
module Succession {
  import opened Roles
  import opened Aggregation

  /** Case-level inputs of one succession. */
  datatype Estate = Estate(
    partEpoux: real,
    actifDeCommunaute: real,
    passifDeCommunaute: real,
    actifPropre: real,
    passifPropre: real,
    assuranceVie: real)

  /** The roles of one individual. */
  datatype Individual = Individual(roleSuccession: RoleSuccession, roleRepresentant: Role)

  /** Net community property (assets less liabilities) of the couple. */
  function CommunityNet(e: Estate): real {
    e.actifDeCommunaute - e.passifDeCommunaute
  }

  /** Net own property (assets less liabilities) of the deceased. */
  function OwnNet(e: Estate): real {
    e.actifPropre - e.passifPropre
  }

  /** `actif_transmis`: the deceased's own net property and half the net
      community property; the other half stays with the surviving spouse. */
  function ActifTransmis(e: Estate): (r: real)
    ensures r - OwnNet(e) == CommunityNet(e) - (r - OwnNet(e))
    ensures CommunityNet(e) >= 0.0 ==> OwnNet(e) <= r <= CommunityNet(e) + OwnNet(e)
    ensures CommunityNet(e) <= 0.0 ==> CommunityNet(e) + OwnNet(e) <= r <= OwnNet(e)
  {
    (e.actifDeCommunaute - e.passifDeCommunaute) / 2.0 + e.actifPropre - e.passifPropre
  }

  /** `actif_imposable`: the transmitted estate less life insurance, less the
      spouse's share. */
  function ActifImposable(e: Estate): (r: real)
    ensures r == (1.0 - e.partEpoux) * (ActifTransmis(e) - e.assuranceVie)
    ensures e.partEpoux == 1.0 ==> r == 0.0
    ensures e.partEpoux == 0.0 ==> r == ActifTransmis(e) - e.assuranceVie
  {
    (1.0 - e.partEpoux)
      * ((e.actifDeCommunaute - e.passifDeCommunaute) / 2.0 + e.actifPropre - e.passifPropre - e.assuranceVie)
  }

  /** More assets never lower the transmitted estate, and more liabilities
      never raise it. */
  lemma TransmisMonotone(e: Estate, f: Estate)
    requires e.actifDeCommunaute <= f.actifDeCommunaute && e.actifPropre <= f.actifPropre
    requires e.passifDeCommunaute >= f.passifDeCommunaute && e.passifPropre >= f.passifPropre
    ensures ActifTransmis(e) <= ActifTransmis(f)
  {
  }

  /** The transmitted estate splits into the taxable estate, the spouse's
      share of what remains after life insurance, and life insurance. */
  lemma TransmisPartition(e: Estate)
    ensures ActifImposable(e) + e.partEpoux * (ActifTransmis(e) - e.assuranceVie) + e.assuranceVie
      == ActifTransmis(e)
  {
    var base := ActifTransmis(e) - e.assuranceVie;
    assert ActifImposable(e) == base - e.partEpoux * base;
  }

  /** With a spouse's share between 0 and 1 and life insurance covered by the
      transmitted estate, the taxable estate lies between 0 and what is
      transmitted once life insurance is set aside. */
  lemma ImposableWithinTransmis(e: Estate)
    requires 0.0 <= e.partEpoux <= 1.0
    requires 0.0 <= e.assuranceVie <= ActifTransmis(e)
    ensures 0.0 <= ActifImposable(e) <= ActifTransmis(e) - e.assuranceVie <= ActifTransmis(e)
  {
    var base := ActifTransmis(e) - e.assuranceVie;
    assert ActifImposable(e) == base - e.partEpoux * base;
    assert 0.0 <= e.partEpoux * base <= base by {
      ScaleWithinUnit(e.partEpoux, base);
    }
  }

  /** A factor between 0 and 1 keeps a non-negative amount between 0 and itself. */
  lemma ScaleWithinUnit(p: real, x: real)
    requires 0.0 <= p <= 1.0 && 0.0 <= x
    ensures 0.0 <= p * x <= x
  {
  }

  /** `part_recue`: the taxable estate shared equally between the children. */
  function PartRecue(actifImposable: real, nombreEnfants: real): (r: real)
    requires nombreEnfants != 0.0
    ensures r * nombreEnfants == actifImposable
  {
    actifImposable / nombreEnfants
  }

  /** `part_taxable`: a child's share less the allowance, floored at zero. */
  function PartTaxable(actifImposable: real, nombreEnfants: real, abattement: real): (r: real)
    requires nombreEnfants != 0.0
    ensures r >= 0.0
    ensures r >= PartRecue(actifImposable, nombreEnfants) - abattement
    ensures r == 0.0 || r == PartRecue(actifImposable, nombreEnfants) - abattement
  {
    var excess := actifImposable / nombreEnfants - abattement;
    if excess > 0.0 then excess else 0.0
  }

  /** `is_enfant`: a succeeding individual who represents as a child, so one
      whose link adds a degree of kinship. */
  predicate IsEnfant(p: Individual): (r: bool)
    ensures r ==> p.roleSuccession == Succedant && IsLineal(p.roleRepresentant)
    ensures p.roleSuccession == NonSuccedant || p.roleRepresentant != Enfant ==> !r
    ensures p.roleSuccession == Succedant && p.roleRepresentant == Enfant ==> r
  {
    p.roleSuccession == Succedant && p.roleRepresentant == Enfant
  }

  /** `is_enfant` of every individual of the arena. */
  function EnfantFlags(people: seq<Individual>): seq<bool> {
    seq(|people|, k requires 0 <= k < |people| => IsEnfant(people[k]))
  }

  /** A flag that holds for all `count` individuals. */
  function Everyone(count: nat): seq<bool> {
    seq(count, k requires 0 <= k < count => true)
  }

  /** The members of case `c` for which `is_enfant` holds. */
  function ChildrenOf(people: seq<Individual>, caseOf: seq<nat>, c: nat): set<nat>
    requires |people| == |caseOf|
  {
    MembersWhere(EnfantFlags(people), caseOf, c)
  }

  /** Every member of case `c`. */
  function MembersOf(caseOf: seq<nat>, c: nat): set<nat> {
    MembersWhere(Everyone(|caseOf|), caseOf, c)
  }

  /** `nombre_enfants`: the sum of `is_enfant` over the members of case `c`;
      0 for a case without members. */
  function NombreEnfants(people: seq<Individual>, caseOf: seq<nat>, c: nat): (r: real)
    requires |people| == |caseOf|
    ensures (forall k :: 0 <= k < |caseOf| ==> caseOf[k] != c) ==> r == 0.0
  {
    SumMembers(Indicator(EnfantFlags(people)), caseOf, c)
  }

  /** `nombre_enfants` counts exactly the children of the case. */
  lemma NombreEnfantsCountsChildren(people: seq<Individual>, caseOf: seq<nat>, c: nat)
    requires |people| == |caseOf|
    ensures NombreEnfants(people, caseOf, c) == |ChildrenOf(people, caseOf, c)| as real
    ensures NombreEnfants(people, caseOf, c)
      == |set k: nat | k < |people| && caseOf[k] == c
                       && people[k].roleSuccession == Succedant && people[k].roleRepresentant == Enfant| as real
  {
    SumIndicatorCounts(EnfantFlags(people), caseOf, c);
    assert ChildrenOf(people, caseOf, c)
      == set k: nat | k < |people| && caseOf[k] == c
                      && people[k].roleSuccession == Succedant && people[k].roleRepresentant == Enfant;
  }

  /** `droits` as the code computes it: `is_enfant` is read but not used, so
      the amount does not depend on the individual at all, and the deceased
      and the spouse are charged like a child. */
  function DroitsAsWritten(p: Individual, partTaxable: real, bareme: real -> real): real {
    bareme(partTaxable)
  }

  /** As written, two individuals of the same case owe the same `droits`,
      whatever their roles. */
  lemma AsWrittenIgnoresRoles(p: Individual, q: Individual, partTaxable: real, bareme: real -> real)
    ensures DroitsAsWritten(p, partTaxable, bareme) == DroitsAsWritten(q, partTaxable, bareme)
  {
  }

  /** `droits` of one individual, charged to children only: the code's amount
      for a child and nothing for anyone else. */
  function Droits(p: Individual, partTaxable: real, bareme: real -> real): (r: real)
    ensures p.roleSuccession == NonSuccedant ==> r == 0.0
    ensures p.roleRepresentant != Enfant ==> r == 0.0
    ensures p.roleSuccession == Succedant && p.roleRepresentant == Enfant
      ==> r == DroitsAsWritten(p, partTaxable, bareme)
    ensures 0.0 <= bareme(partTaxable) ==> 0.0 <= r <= DroitsAsWritten(p, partTaxable, bareme)
  {
    if IsEnfant(p) then bareme(partTaxable) else 0.0
  }

  /** `droits` of every individual, each reading the taxable part of its own
      case (`partTaxable[c]` is the taxable part of case `c`). */
  function DroitsOf(people: seq<Individual>, caseOf: seq<nat>, partTaxable: seq<real>, bareme: real -> real): seq<real>
    requires |people| == |caseOf|
    requires forall k :: 0 <= k < |caseOf| ==> caseOf[k] < |partTaxable|
  {
    seq(|people|, k requires 0 <= k < |people| => Droits(people[k], partTaxable[caseOf[k]], bareme))
  }

  /** `DroitsAsWritten` of every individual, each reading the taxable part of
      its own case. */
  function DroitsOfAsWritten(people: seq<Individual>, caseOf: seq<nat>, partTaxable: seq<real>, bareme: real -> real): seq<real>
    requires |people| == |caseOf|
    requires forall k :: 0 <= k < |caseOf| ==> caseOf[k] < |partTaxable|
  {
    seq(|people|, k requires 0 <= k < |people| => DroitsAsWritten(people[k], partTaxable[caseOf[k]], bareme))
  }

  /** `droits_sur_succession`: the sum of `droits` over the members of case
      `c`; 0 for a case without members. */
  function DroitsSurSuccession(people: seq<Individual>, caseOf: seq<nat>, c: nat,
                               partTaxable: seq<real>, bareme: real -> real): (r: real)
    requires |people| == |caseOf|
    requires forall k :: 0 <= k < |caseOf| ==> caseOf[k] < |partTaxable|
    ensures (forall k :: 0 <= k < |caseOf| ==> caseOf[k] != c) ==> r == 0.0
  {
    SumMembers(DroitsOf(people, caseOf, partTaxable, bareme), caseOf, c)
  }

  /** The case total of the duties is the schedule applied to the case's
      taxable part once per child of the case. */
  lemma DroitsPerChild(people: seq<Individual>, caseOf: seq<nat>, c: nat,
                       partTaxable: seq<real>, bareme: real -> real)
    requires |people| == |caseOf| && c < |partTaxable|
    requires forall k :: 0 <= k < |caseOf| ==> caseOf[k] < |partTaxable|
    ensures DroitsSurSuccession(people, caseOf, c, partTaxable, bareme)
      == Repeat(|ChildrenOf(people, caseOf, c)|, bareme(partTaxable[c]))
  {
    SumFlaggedAmount(DroitsOf(people, caseOf, partTaxable, bareme), EnfantFlags(people), caseOf, c, bareme(partTaxable[c]));
  }

  /** The same total as a product: the number of children times the
      schedule amount. */
  lemma DroitsPerChildProduct(people: seq<Individual>, caseOf: seq<nat>, c: nat,
                              partTaxable: seq<real>, bareme: real -> real)
    requires |people| == |caseOf| && c < |partTaxable|
    requires forall k :: 0 <= k < |caseOf| ==> caseOf[k] < |partTaxable|
    ensures DroitsSurSuccession(people, caseOf, c, partTaxable, bareme)
      == NombreEnfants(people, caseOf, c) * bareme(partTaxable[c])
  {
    DroitsPerChild(people, caseOf, c, partTaxable, bareme);
    RepeatIsProduct(|ChildrenOf(people, caseOf, c)|, bareme(partTaxable[c]));
    NombreEnfantsCountsChildren(people, caseOf, c);
  }

  /** `droits_sur_succession` over `DroitsAsWritten`. */
  function DroitsSurSuccessionAsWritten(people: seq<Individual>, caseOf: seq<nat>, c: nat,
                                        partTaxable: seq<real>, bareme: real -> real): (r: real)
    requires |people| == |caseOf|
    requires forall k :: 0 <= k < |caseOf| ==> caseOf[k] < |partTaxable|
    ensures (forall k :: 0 <= k < |caseOf| ==> caseOf[k] != c) ==> r == 0.0
  {
    SumMembers(DroitsOfAsWritten(people, caseOf, partTaxable, bareme), caseOf, c)
  }

  /** As written, the case total is the schedule applied to the case's
      taxable part once per member, not once per child. */
  lemma AsWrittenChargesEveryMember(people: seq<Individual>, caseOf: seq<nat>, c: nat,
                                    partTaxable: seq<real>, bareme: real -> real)
    requires |people| == |caseOf| && c < |partTaxable|
    requires forall k :: 0 <= k < |caseOf| ==> caseOf[k] < |partTaxable|
    ensures DroitsSurSuccessionAsWritten(people, caseOf, c, partTaxable, bareme)
      == Repeat(|MembersOf(caseOf, c)|, bareme(partTaxable[c]))
  {
    SumFlaggedAmount(DroitsOfAsWritten(people, caseOf, partTaxable, bareme), Everyone(|caseOf|), caseOf, c, bareme(partTaxable[c]));
  }

  /** A deceased, a spouse and two children. */
  function TwoChildCase(): seq<Individual> {
    [Individual(NonSuccedant, Decede), Individual(Succedant, Epoux),
     Individual(Succedant, Enfant), Individual(Succedant, Enfant)]
  }

  /** The two-children case has two children among four members. */
  lemma TwoChildCaseMembers()
    ensures ChildrenOf(TwoChildCase(), [0, 0, 0, 0], 0) == {2, 3}
    ensures MembersOf([0, 0, 0, 0], 0) == {0, 1, 2, 3}
  {
  }

  /** The two-children case counts two children. */
  lemma TwoChildCaseCount()
    ensures NombreEnfants(TwoChildCase(), [0, 0, 0, 0], 0) == 2.0
  {
    NombreEnfantsCountsChildren(TwoChildCase(), [0, 0, 0, 0], 0);
    TwoChildCaseMembers();
  }

  /** With two children, a taxable estate of 400,000 and an allowance of
      100,000 leave a taxable part of 100,000 per child. */
  lemma TwoChildCaseTaxablePart()
    ensures PartTaxable(ActifImposable(Estate(0.0, 0.0, 0.0, 400000.0, 0.0, 0.0)), 2.0, 100000.0) == 100000.0
  {
  }

  /** On the two-children case, as written the case total charges the
      schedule four times (once per member), where the intended total
      charges it twice (once per child). */
  lemma AsWrittenOverchargesTwoChildCase(partTaxable: real, bareme: real -> real)
    requires bareme(partTaxable) > 0.0
    ensures DroitsSurSuccession(TwoChildCase(), [0, 0, 0, 0], 0, [partTaxable], bareme) == 2.0 * bareme(partTaxable)
    ensures DroitsSurSuccessionAsWritten(TwoChildCase(), [0, 0, 0, 0], 0, [partTaxable], bareme) == 4.0 * bareme(partTaxable)
    ensures DroitsSurSuccessionAsWritten(TwoChildCase(), [0, 0, 0, 0], 0, [partTaxable], bareme)
      > DroitsSurSuccession(TwoChildCase(), [0, 0, 0, 0], 0, [partTaxable], bareme)
  {
    var tax := bareme(partTaxable);
    TwoChildCaseMembers();
    DroitsPerChild(TwoChildCase(), [0, 0, 0, 0], 0, [partTaxable], bareme);
    AsWrittenChargesEveryMember(TwoChildCase(), [0, 0, 0, 0], 0, [partTaxable], bareme);
    assert Repeat(1, tax) == tax;
    assert Repeat(2, tax) == tax + tax;
    assert Repeat(3, tax) == tax + tax + tax;
    assert Repeat(4, tax) == tax + tax + tax + tax;
  }
}
