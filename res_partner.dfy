/** Partners extended as patients and prescribers: patient
    codes drawn from a sequence when patients are created, the rule that a
    prescriber holds a medical licence, and the uniqueness of licences and
    patient codes across all partners. */
module ResPartner {
  import opened Fields

  /** The values given for one new partner (the fields the rules read, and
      the name standing for all the others, which pass through untouched). */
  datatype PartnerVals = PartnerVals(
    name: string,
    isPatient: bool,
    isPrescriber: bool,
    patientCode: Option<string>,
    medicalLicense: Option<string>)

  /** A patient whose values carry no (truthy) patient code. */
  predicate NeedsPatientCode(v: PartnerVals)
  {
    v.isPatient && !Truthy(v.patientCode)
  }

  // ---------------------------------------------------------------------
  // Codes issued by the patient-code sequence

  const PatientCodePrefix: string := "PAC"

  function Digit(d: nat): char
    requires d < 10
  {
    ('0' as int + d) as char
  }

  /** The decimal numeral of `n`, most significant digit first. */
  function Numeral(n: nat): (s: string)
    ensures |s| >= 1
    ensures |s| == 1 <==> n < 10
  {
    if n < 10 then [Digit(n)] else Numeral(n / 10) + [Digit(n % 10)]
  }

  lemma {:induction false} NumeralInjective(a: nat, b: nat)
    requires Numeral(a) == Numeral(b)
    ensures a == b
    decreases a
  {
    if a >= 10 && b >= 10 {
      var sa, sb := Numeral(a), Numeral(b);
      assert sa == Numeral(a / 10) + [Digit(a % 10)];
      assert sb == Numeral(b / 10) + [Digit(b % 10)];
      assert Digit(a % 10) == sa[|sa| - 1] == sb[|sb| - 1] == Digit(b % 10);
      assert Numeral(a / 10) == sa[..|sa| - 1] == sb[..|sb| - 1] == Numeral(b / 10);
      NumeralInjective(a / 10, b / 10);
    } else if a < 10 && b < 10 {
      assert Digit(a) == Numeral(a)[0] == Numeral(b)[0] == Digit(b);
    }
  }

  /** The code the sequence renders for its counter value `n`. */
  function IssuedCode(n: nat): (code: string)
    ensures |code| > |PatientCodePrefix| && code[..|PatientCodePrefix|] == PatientCodePrefix
  {
    PatientCodePrefix + Numeral(n)
  }

  /** Distinct counter values give distinct codes. */
  lemma IssuedCodeInjective(a: nat, b: nat)
    requires IssuedCode(a) == IssuedCode(b)
    ensures a == b
  {
    assert IssuedCode(a)[|PatientCodePrefix|..] == Numeral(a);
    assert IssuedCode(b)[|PatientCodePrefix|..] == Numeral(b);
    NumeralInjective(a, b);
  }

  /** The external sequence generator: a counter that renders and then
      advances on every request. */
  class PatientCodeSequence {
    var next: nat

    constructor (start: nat)
      ensures next == start
    {
      next := start;
    }

    method NextByCode() returns (code: string)
      modifies this
      ensures code == IssuedCode(old(next))
      ensures next == old(next) + 1
    {
      code := IssuedCode(next);
      next := next + 1;
    }
  }

  // ---------------------------------------------------------------------
  // Patient-code allocation on create

  /** How many of the values need a code drawn from the sequence. */
  function CodesNeeded(vs: seq<PartnerVals>): (n: nat)
    ensures n <= |vs|
  {
    if vs == [] then 0
    else (if NeedsPatientCode(vs[0]) then 1 else 0) + CodesNeeded(vs[1..])
  }

  /** The values after allocation, the sequence standing at `next`: each
      patient lacking a code gets the next counter value, in list order. */
  function AssignPatientCodes(vs: seq<PartnerVals>, next: nat): (out: seq<PartnerVals>)
    ensures |out| == |vs|
  {
    if vs == [] then []
    else if NeedsPatientCode(vs[0]) then
      [vs[0].(patientCode := Some(IssuedCode(next)))] + AssignPatientCodes(vs[1..], next + 1)
    else
      [vs[0]] + AssignPatientCodes(vs[1..], next)
  }

  lemma {:induction false} CodesNeededAppend(a: seq<PartnerVals>, b: seq<PartnerVals>)
    ensures CodesNeeded(a + b) == CodesNeeded(a) + CodesNeeded(b)
  {
    if a == [] {
      assert a + b == b;
    } else {
      assert (a + b)[0] == a[0];
      assert (a + b)[1..] == a[1..] + b;
      CodesNeededAppend(a[1..], b);
    }
  }

  /** Element by element: a patient without a code gets the counter value
      advanced once per earlier patient without a code; every other value,
      and every other field, is kept. */
  lemma {:induction false} AssignPatientCodesAt(vs: seq<PartnerVals>, next: nat, i: nat)
    requires i < |vs|
    ensures NeedsPatientCode(vs[i]) ==>
      AssignPatientCodes(vs, next)[i] == vs[i].(patientCode := Some(IssuedCode(next + CodesNeeded(vs[..i]))))
    ensures !NeedsPatientCode(vs[i]) ==> AssignPatientCodes(vs, next)[i] == vs[i]
    decreases i
  {
    if i == 0 {
      assert vs[..0] == [];
    } else {
      var k := if NeedsPatientCode(vs[0]) then 1 else 0;
      AssignPatientCodesAt(vs[1..], next + k, i - 1);
      assert vs[..i][0] == vs[0];
      assert vs[..i][1..] == vs[1..][..i - 1];
    }
  }

  /** A code drawn for one of the values lies in the batch's range of
      counter values, [next, next + CodesNeeded(vs)). */
  lemma IssuedNumberWithinBatch(vs: seq<PartnerVals>, i: nat)
    requires i < |vs| && NeedsPatientCode(vs[i])
    ensures CodesNeeded(vs[..i]) < CodesNeeded(vs)
  {
    assert vs == vs[..i] + vs[i..];
    CodesNeededAppend(vs[..i], vs[i..]);
    assert vs[i..][0] == vs[i];
  }

  /** Codes drawn within one batch are pairwise distinct. */
  lemma AssignedCodesDistinct(vs: seq<PartnerVals>, next: nat, i: nat, j: nat)
    requires i < j < |vs|
    requires NeedsPatientCode(vs[i]) && NeedsPatientCode(vs[j])
    ensures AssignPatientCodes(vs, next)[i].patientCode != AssignPatientCodes(vs, next)[j].patientCode
  {
    AssignPatientCodesAt(vs, next, i);
    AssignPatientCodesAt(vs, next, j);
    assert vs[..j] == vs[..i] + vs[i..j];
    CodesNeededAppend(vs[..i], vs[i..j]);
    assert vs[i..j][0] == vs[i];
    var x, y := next + CodesNeeded(vs[..i]), next + CodesNeeded(vs[..j]);
    assert x < y;
    if IssuedCode(x) == IssuedCode(y) {
      IssuedCodeInjective(x, y);
    }
  }

  /** A patient created without a code gets a truthy code starting with the
      sequence's prefix and consumes one counter value; a non-patient, or a
      patient whose code was supplied, is left as given and consumes none. */
  lemma SinglePartnerAllocation(v: PartnerVals, next: nat)
    ensures NeedsPatientCode(v) ==>
      Truthy(AssignPatientCodes([v], next)[0].patientCode) &&
      AssignPatientCodes([v], next)[0].patientCode.value[..3] == "PAC" &&
      CodesNeeded([v]) == 1
    ensures !NeedsPatientCode(v) ==> AssignPatientCodes([v], next) == [v] && CodesNeeded([v]) == 0
  {
    assert [v][1..] == [];
  }

  /** The loop of the create override: it rewrites the values in place and
      draws one code per patient lacking one, in list order. */
  method AssignCodes(sequence: PatientCodeSequence, vals: array<PartnerVals>)
    modifies sequence, vals
    ensures vals[..] == AssignPatientCodes(old(vals[..]), old(sequence.next))
    ensures sequence.next == old(sequence.next) + CodesNeeded(old(vals[..]))
  {
    ghost var original := vals[..];
    ghost var start := sequence.next;
    var i := 0;
    while i < vals.Length
      invariant 0 <= i <= vals.Length
      invariant vals[i..] == original[i..]
      invariant sequence.next == start + CodesNeeded(original[..i])
      invariant vals[..i] + AssignPatientCodes(original[i..], sequence.next) == AssignPatientCodes(original, start)
    {
      assert original[i..][0] == original[i] && original[i..][1..] == original[i + 1..];
      assert original[..i + 1] == original[..i] + [original[i]];
      CodesNeededAppend(original[..i], [original[i]]);
      assert [original[i]][1..] == [];
      if NeedsPatientCode(vals[i]) {
        var code := sequence.NextByCode();
        vals[i] := vals[i].(patientCode := Some(code));
      }
      assert vals[..i + 1] == vals[..i] + [vals[i]];
      i := i + 1;
    }
    assert original[..vals.Length] == original;
    assert vals[..vals.Length] == vals[..];
  }

  // ---------------------------------------------------------------------
  // Write-time rules and the partner store

  datatype PartnerError =
    | DuplicateMedicalLicense
    | DuplicatePatientCode
    | MissingMedicalLicense

  /** A prescriber must have a (truthy) medical licence; nobody else needs one. */
  function CheckPrescriberLicense(v: PartnerVals): (r: Outcome<PartnerError>)
    ensures r.Fail? <==> v.isPrescriber && (v.medicalLicense.None? || v.medicalLicense.value == "")
    ensures r.Fail? ==> r.error == MissingMedicalLicense
  {
    if v.isPrescriber && !Truthy(v.medicalLicense) then Fail(MissingMedicalLicense) else Pass
  }

  /** No two partners share a set medical licence (unset ones never clash). */
  predicate UniqueLicenses(ps: seq<PartnerVals>)
  {
    forall i, j :: 0 <= i < j < |ps| && ps[i].medicalLicense.Some? ==>
      ps[i].medicalLicense != ps[j].medicalLicense
  }

  /** No two partners share a set patient code (unset ones never clash). */
  predicate UniquePatientCodes(ps: seq<PartnerVals>)
  {
    forall i, j :: 0 <= i < j < |ps| && ps[i].patientCode.Some? ==>
      ps[i].patientCode != ps[j].patientCode
  }

  predicate PartnerStoreInvariant(ps: seq<PartnerVals>)
  {
    UniqueLicenses(ps) && UniquePatientCodes(ps) &&
    forall i :: 0 <= i < |ps| ==> CheckPrescriberLicense(ps[i]) == Pass
  }

  /** Inserting a batch: the two unique constraints are checked on the rows,
      then the licence constraint on the new records. */
  function CheckInsert(existing: seq<PartnerVals>, batch: seq<PartnerVals>): (r: Outcome<PartnerError>)
    ensures PartnerStoreInvariant(existing) ==> (r.Pass? <==> PartnerStoreInvariant(existing + batch))
    ensures r == Fail(DuplicateMedicalLicense) ==> !UniqueLicenses(existing + batch)
    ensures r == Fail(DuplicatePatientCode) ==> !UniquePatientCodes(existing + batch)
    ensures r.Fail? && r.error == MissingMedicalLicense ==>
      exists i :: 0 <= i < |batch| && CheckPrescriberLicense(batch[i]).Fail?
  {
    LicensesOfConcatenation(existing, batch);
    if !UniqueLicenses(existing + batch) then Fail(DuplicateMedicalLicense)
    else if !UniquePatientCodes(existing + batch) then Fail(DuplicatePatientCode)
    else if exists i :: 0 <= i < |batch| && CheckPrescriberLicense(batch[i]).Fail? then
      Fail(MissingMedicalLicense)
    else
      Pass
  }

  lemma LicensesOfConcatenation(a: seq<PartnerVals>, b: seq<PartnerVals>)
    ensures (forall i :: 0 <= i < |a + b| ==> CheckPrescriberLicense((a + b)[i]) == Pass) <==>
      (forall i :: 0 <= i < |a| ==> CheckPrescriberLicense(a[i]) == Pass) &&
      (forall i :: 0 <= i < |b| ==> CheckPrescriberLicense(b[i]) == Pass)
  {
    if forall i :: 0 <= i < |a + b| ==> CheckPrescriberLicense((a + b)[i]) == Pass {
      forall i | 0 <= i < |a| ensures CheckPrescriberLicense(a[i]) == Pass {
        assert (a + b)[i] == a[i];
      }
      forall i | 0 <= i < |b| ensures CheckPrescriberLicense(b[i]) == Pass {
        assert (a + b)[|a| + i] == b[i];
      }
    }
  }

  /** All partners, with the create override in front of the insertion. */
  class PartnerStore {
    var partners: seq<PartnerVals>

    ghost predicate Valid()
      reads this
    {
      PartnerStoreInvariant(partners)
    }

    constructor ()
      ensures Valid() && partners == []
    {
      partners := [];
    }

    /** Create partners from `vals`: patients lacking a code get one from
      `sequence` (the values are rewritten in place), then the batch is
      inserted as a whole or rejected as a whole. Codes drawn for a rejected
      batch stay consumed. */
    method Create(sequence: PatientCodeSequence, vals: array<PartnerVals>) returns (r: Outcome<PartnerError>)
      requires Valid()
      modifies this, sequence, vals
      ensures Valid()
      ensures vals[..] == AssignPatientCodes(old(vals[..]), old(sequence.next))
      ensures sequence.next == old(sequence.next) + CodesNeeded(old(vals[..]))
      ensures r == CheckInsert(old(partners), vals[..])
      ensures r.Pass? ==> partners == old(partners) + vals[..]
      ensures r.Fail? ==> partners == old(partners)
    {
      AssignCodes(sequence, vals);
      r := CheckInsert(partners, vals[..]);
      if r.Pass? {
        partners := partners + vals[..];
      }
    }
  }

  /** A prescriber without a licence is rejected; with one, or a
      non-prescriber without one, is accepted. */
  lemma PrescriberLicenseCases(v: PartnerVals)
    ensures v.isPrescriber && v.medicalLicense.None? ==> CheckPrescriberLicense(v) == Fail(MissingMedicalLicense)
    ensures v.isPrescriber && v.medicalLicense == Some("MED-12345") ==> CheckPrescriberLicense(v) == Pass
    ensures !v.isPrescriber ==> CheckPrescriberLicense(v) == Pass
  {
  }
}
