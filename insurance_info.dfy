/** The insurance policy engine: point-in-time validity of a policy, its
    remaining deductible, the split of a charge between patient and insurer,
    and the write-time rules of the policy store (date ordering and the
    uniqueness of insurer, policy number and member). Money and percentages
    are exact reals; dates are day numbers; "today" is a parameter. */
module InsuranceInfo {
  import opened Fields

  type Date = int

  /** A snapshot of one insurance record. `insurer` is the insurer
      partner's record id. Unset monetary and percentage fields are 0.0. */
  datatype Policy = Policy(
    insurer: nat,
    policyNumber: string,
    memberId: string,
    active: bool,
    startDate: Date,
    endDate: Option<Date>,
    copayDefault: real,
    coinsurancePercentage: real,
    annualDeductible: real,
    deductibleMet: real)

  /** The explanation attached to every cost split. */
  datatype Reason = InvalidCoverage | AppliedToDeductible | NormalCalculation

  /** The text the engine reports for each reason. */
  function ReasonText(reason: Reason): (text: string)
    ensures |text| > 0
  {
    match reason
    case InvalidCoverage => "Cobertura no válida"
    case AppliedToDeductible => "Aplicado a deducible"
    case NormalCalculation => "Cálculo normal"
  }

  lemma ReasonTextsDistinct(a: Reason, b: Reason)
    requires ReasonText(a) == ReasonText(b)
    ensures a == b
  {
  }

  datatype CostSplit = CostSplit(patientPays: real, insurancePays: real, reason: Reason)

  // ---------------------------------------------------------------------
  // Computed fields

  /** Is the policy in force on `today`? The active flag is checked first,
      then the end date, then the start date; both bounds are inclusive. */
  function IsValid(p: Policy, today: Date): (valid: bool)
    ensures valid <==>
      p.active && p.startDate <= today && (p.endDate.None? || today <= p.endDate.value)
  {
    if !p.active then false
    else if p.endDate.Some? && p.endDate.value < today then false
    else if p.startDate > today then false
    else true
  }

  /** The part of the annual deductible still to be paid. It is not clamped:
      a deductible paid beyond its amount gives a negative value. */
  function RemainingDeductible(p: Policy): (remaining: real)
    ensures remaining + p.deductibleMet == p.annualDeductible
  {
    p.annualDeductible - p.deductibleMet
  }

  lemma InactiveNeverValid(p: Policy, today: Date)
    requires !p.active
    ensures !IsValid(p, today)
  {
  }

  /** The boundary cases of the validity window, each on an active policy. */
  lemma ValidityBoundaries(p: Policy, today: Date)
    requires p.active
    ensures p.startDate == today && p.endDate.None? ==> IsValid(p, today)
    ensures p.startDate <= today && p.endDate == Some(today) ==> IsValid(p, today)
    ensures p.endDate == Some(today - 1) ==> !IsValid(p, today)
    ensures p.startDate == today + 1 ==> !IsValid(p, today)
  {
  }

  lemma RemainingDeductibleNotClamped(p: Policy)
    ensures RemainingDeductible(p) < 0.0 <==> p.deductibleMet > p.annualDeductible
    ensures RemainingDeductible(p) > 0.0 <==> p.deductibleMet < p.annualDeductible
  {
  }

  /** Remaining deductible 1000 - 300 = 700; after deductible_met is
      written as 800 it is recomputed as 200. */
  lemma RemainingDeductibleExample(p: Policy)
    requires p.annualDeductible == 1000.0 && p.deductibleMet == 300.0
    ensures RemainingDeductible(p) == 700.0
    ensures RemainingDeductible(p.(deductibleMet := 800.0)) == 200.0
  {
  }

  // ---------------------------------------------------------------------
  // Cost split

  /** The deductible a charge in the normal path still has to absorb: the
      remaining deductible when positive, nothing otherwise. */
  function DeductibleShare(p: Policy): (share: real)
    ensures share >= 0.0
    ensures share >= RemainingDeductible(p)
    ensures share == 0.0 || share == RemainingDeductible(p)
  {
    if RemainingDeductible(p) > 0.0 then RemainingDeductible(p) else 0.0
  }

  /** Split `amount` between patient and insurer under policy `p` on day
      `today`. An invalid policy short-circuits; otherwise the deductible
      absorbs the charge first, then either the copay or, failing that, the
      coinsurance applies to what is left, never both. */
  function CalculatePatientCost(p: Policy, amount: real, today: Date): (r: CostSplit)
    // conservation, in every branch
    ensures r.patientPays + r.insurancePays == amount
    // the reason says which branch was taken
    ensures r.reason == InvalidCoverage <==> !IsValid(p, today)
    ensures r.reason == AppliedToDeductible <==>
      IsValid(p, today) && RemainingDeductible(p) > 0.0 && amount <= RemainingDeductible(p)
    // the two short-circuits leave the whole charge to the patient
    ensures r.reason != NormalCalculation ==> r.patientPays == amount && r.insurancePays == 0.0
    // normal path: deductible portion, then copay, else coinsurance on the rest
    ensures r.reason == NormalCalculation && p.copayDefault > 0.0 ==>
      r.patientPays == DeductibleShare(p) + p.copayDefault
    ensures r.reason == NormalCalculation && p.copayDefault <= 0.0 && p.coinsurancePercentage > 0.0 ==>
      r.patientPays == DeductibleShare(p) + (amount - DeductibleShare(p)) * p.coinsurancePercentage / 100.0
    ensures r.reason == NormalCalculation && p.copayDefault <= 0.0 && p.coinsurancePercentage <= 0.0 ==>
      r.patientPays == DeductibleShare(p)
  {
    if !IsValid(p, today) then
      CostSplit(amount, 0.0, InvalidCoverage)
    else
      var remaining := RemainingDeductible(p);
      if remaining > 0.0 && amount <= remaining then
        CostSplit(amount, 0.0, AppliedToDeductible)
      else
        var afterDeductible := if remaining > 0.0 then amount - remaining else amount;
        var deductiblePart := if remaining > 0.0 then remaining else 0.0;
        var patientPays :=
          if p.copayDefault > 0.0 then deductiblePart + p.copayDefault
          else if p.coinsurancePercentage > 0.0 then
            deductiblePart + afterDeductible * (p.coinsurancePercentage / 100.0)
          else deductiblePart;
        CostSplit(patientPays, amount - patientPays, NormalCalculation)
  }

  /** An invalid policy yields the full charge to the patient whatever its
      deductible, copay and coinsurance: two policies with the same validity
      terms give the same split. */
  lemma InvalidCoverageIgnoresTerms(p: Policy, q: Policy, amount: real, today: Date)
    requires !IsValid(p, today)
    requires q.active == p.active && q.startDate == p.startDate && q.endDate == p.endDate
    ensures CalculatePatientCost(p, amount, today) == CalculatePatientCost(q, amount, today)
    ensures CalculatePatientCost(p, amount, today) == CostSplit(amount, 0.0, InvalidCoverage)
  {
  }

  /** A positive copay excludes the coinsurance: changing the percentage
      changes nothing. */
  lemma CopayExcludesCoinsurance(p: Policy, amount: real, today: Date, percentage: real)
    requires p.copayDefault > 0.0
    ensures CalculatePatientCost(p.(coinsurancePercentage := percentage), amount, today)
         == CalculatePatientCost(p, amount, today)
  {
  }

  /** Once the deductible is met (remaining <= 0), a valid policy charges
      the patient only the copay or coinsurance on the whole amount. */
  lemma DeductibleMetChargesWholeAmount(p: Policy, amount: real, today: Date)
    requires IsValid(p, today) && RemainingDeductible(p) <= 0.0
    ensures CalculatePatientCost(p, amount, today).reason == NormalCalculation
    ensures CalculatePatientCost(p, amount, today).patientPays ==
      if p.copayDefault > 0.0 then p.copayDefault
      else if p.coinsurancePercentage > 0.0 then amount * p.coinsurancePercentage / 100.0
      else 0.0
  {
  }

  /** With no copay, a coinsurance percentage between 0 and 100 and a
      non-negative charge, neither party pays a negative amount and the
      patient never pays more than the charge. */
  lemma {:induction false} CoinsuranceSplitWithinCharge(p: Policy, amount: real, today: Date)
    requires p.copayDefault <= 0.0
    requires 0.0 <= p.coinsurancePercentage <= 100.0
    requires amount >= 0.0
    ensures 0.0 <= CalculatePatientCost(p, amount, today).patientPays <= amount
    ensures 0.0 <= CalculatePatientCost(p, amount, today).insurancePays
  {
    var r := CalculatePatientCost(p, amount, today);
    if r.reason == NormalCalculation {
      var d := DeductibleShare(p);
      var post := amount - d;
      var c := p.coinsurancePercentage / 100.0;
      assert 0.0 <= post by {
        if RemainingDeductible(p) > 0.0 {
          assert amount > RemainingDeductible(p);
        }
      }
      assert 0.0 <= c <= 1.0;
      assert 0.0 <= post * c <= post by {
        assert post * c <= post * 1.0;
      }
      assert post * p.coinsurancePercentage / 100.0 == post * c;
      assert r.patientPays == d + post * c || r.patientPays == d;
    }
  }

  /** The code does not keep the insurer's share non-negative: a copay larger
      than the post-deductible charge leaves the insurer a negative amount. */
  lemma CopayCanExceedCharge(p: Policy, today: Date)
    requires IsValid(p, today) && RemainingDeductible(p) <= 0.0
    requires p.copayDefault == 10.0
    ensures CalculatePatientCost(p, 5.0, today) == CostSplit(10.0, -5.0, NormalCalculation)
  {
  }

  /** The code has no guard against a negative charge: with 300 of the
      deductible remaining, a charge of -5 is "applied to the deductible" and
      the patient's share is -5. */
  lemma NegativeChargeUnguarded(p: Policy, today: Date)
    requires IsValid(p, today) && RemainingDeductible(p) == 300.0
    ensures CalculatePatientCost(p, -5.0, today) == CostSplit(-5.0, 0.0, AppliedToDeductible)
  {
  }

  /** A valid policy with annual deductible 500, 200 already met and 20%
      coinsurance: a charge of 100 goes entirely to the deductible; a charge
      of 500 splits 340 (300 deductible + 40 coinsurance) against 160. */
  lemma DeductibleAndCoinsuranceExample(p: Policy, today: Date)
    requires IsValid(p, today)
    requires p.annualDeductible == 500.0 && p.deductibleMet == 200.0
    requires p.copayDefault == 0.0 && p.coinsurancePercentage == 20.0
    ensures CalculatePatientCost(p, 100.0, today) == CostSplit(100.0, 0.0, AppliedToDeductible)
    ensures CalculatePatientCost(p, 500.0, today) == CostSplit(340.0, 160.0, NormalCalculation)
  {
  }

  /** A valid policy whose deductible is fully met, without copay or
      coinsurance, leaves the whole charge of 100 to the insurer. */
  lemma FullCoverageExample(p: Policy, today: Date)
    requires IsValid(p, today)
    requires p.annualDeductible == 100.0 && p.deductibleMet == 100.0
    requires p.copayDefault == 0.0 && p.coinsurancePercentage == 0.0
    ensures CalculatePatientCost(p, 100.0, today) == CostSplit(0.0, 100.0, NormalCalculation)
  {
  }

  // ---------------------------------------------------------------------
  // Write-time rules and the policy store

  /** The identity that must be unique across all stored policies. */
  datatype PolicyKey = PolicyKey(insurer: nat, policyNumber: string, memberId: string)

  function Key(p: Policy): PolicyKey
  {
    PolicyKey(p.insurer, p.policyNumber, p.memberId)
  }

  datatype PolicyError =
    | DuplicatePolicy   // (insurer, policy number, member) already registered
    | EndBeforeStart    // end date set and earlier than the start date

  /** The date constraint: an end date, when set, is not before the start. */
  function CheckDates(p: Policy): (r: Outcome<PolicyError>)
    ensures r.Pass? <==> p.endDate.None? || p.startDate <= p.endDate.value
    ensures r.Fail? ==> r.error == EndBeforeStart
  {
    if p.endDate.Some? && p.startDate > p.endDate.value then Fail(EndBeforeStart) else Pass
  }

  /** An end date equal to the start date, or no end date at all, passes;
      an end date one day before the start fails. */
  lemma CheckDatesBoundaries(p: Policy)
    ensures p.endDate == Some(p.startDate) ==> CheckDates(p) == Pass
    ensures p.endDate.None? ==> CheckDates(p) == Pass
    ensures p.endDate == Some(p.startDate - 1) ==> CheckDates(p) == Fail(EndBeforeStart)
  {
  }

  /** The store's invariant: keys are pairwise distinct and every record
      passes the date constraint. */
  predicate StoreInvariant(policies: seq<Policy>)
  {
    (forall i, j :: 0 <= i < j < |policies| ==> Key(policies[i]) != Key(policies[j])) &&
    (forall i :: 0 <= i < |policies| ==> CheckDates(policies[i]) == Pass)
  }

  /** The insurance records, with the uniqueness constraint (checked when a
      row is written) and the date constraint (checked after it). */
  class PolicyStore {
    var policies: seq<Policy>

    ghost predicate Valid()
      reads this
    {
      StoreInvariant(policies)
    }

    constructor ()
      ensures Valid() && policies == []
    {
      policies := [];
    }

    /** Register a new policy; a rejected write leaves the store unchanged. */
    method Create(p: Policy) returns (r: Outcome<PolicyError>)
      requires Valid()
      modifies this
      ensures Valid()
      ensures r == Fail(DuplicatePolicy) <==> exists q :: q in old(policies) && Key(q) == Key(p)
      ensures r == Fail(EndBeforeStart) <==>
        (forall q :: q in old(policies) ==> Key(q) != Key(p)) && CheckDates(p).Fail?
      ensures r.Pass? <==>
        (forall q :: q in old(policies) ==> Key(q) != Key(p)) && CheckDates(p).Pass?
      ensures r.Pass? ==> policies == old(policies) + [p]
      ensures r.Fail? ==> policies == old(policies)
    {
      if exists q :: q in policies && Key(q) == Key(p) {
        r := Fail(DuplicatePolicy);
      } else if CheckDates(p).Fail? {
        r := Fail(EndBeforeStart);
      } else {
        policies := policies + [p];
        r := Pass;
      }
    }

    /** Overwrite the record at `index` (for instance a new deductible_met);
      the same two constraints are checked against the other records. On an
      update the Python constraint is validated before the row is written,
      so the date rule is reported ahead of the unique key. */
    method Write(index: nat, p: Policy) returns (r: Outcome<PolicyError>)
      requires Valid() && index < |policies|
      modifies this
      ensures Valid()
      ensures r == Fail(EndBeforeStart) <==> CheckDates(p).Fail?
      ensures r == Fail(DuplicatePolicy) <==>
        CheckDates(p).Pass? &&
        exists i :: 0 <= i < |old(policies)| && i != index && Key(old(policies)[i]) == Key(p)
      ensures r.Pass? <==>
        (forall i :: 0 <= i < |old(policies)| && i != index ==> Key(old(policies)[i]) != Key(p)) &&
        CheckDates(p).Pass?
      ensures r.Pass? ==> policies == old(policies)[index := p]
      ensures r.Fail? ==> policies == old(policies)
    {
      if CheckDates(p).Fail? {
        r := Fail(EndBeforeStart);
      } else if exists i :: 0 <= i < |policies| && i != index && Key(policies[i]) == Key(p) {
        r := Fail(DuplicatePolicy);
      } else {
        policies := policies[index := p];
        r := Pass;
      }
    }
  }

  /** Registering the same (insurer, policy number, member) twice: the
      second write is rejected and the store keeps one record. */
  method DuplicateRegistrationRejected(p: Policy, q: Policy) returns (first: Outcome<PolicyError>, second: Outcome<PolicyError>)
    requires CheckDates(p) == Pass
    requires Key(q) == Key(p)
    ensures first == Pass && second == Fail(DuplicatePolicy)
  {
    var store := new PolicyStore();
    first := store.Create(p);
    assert store.policies == [p];
    second := store.Create(q);
  }
}
