# Pharmacy base: insurance cost sharing and record rules

A Dafny model of the business rules that the `pharmacy_base` module adds to
its host ERP's records:

- **Insurance policies** (`insurance_info.dfy`, module `InsuranceInfo`). This part covers:
  - whether a policy is in force on a given day;
  - the remaining deductible;
  - the split of a charge between patient and insurer: an invalid policy short-circuits, the deductible absorbs the charge first, then the copay applies or, failing that, the coinsurance;
  - the write-time rules of the policy store: the end date is not before the start date, and (insurer, policy number, member) is unique.
- **Product categories** (`product_category.dfy`, module `ProductCategory`): the "requires prescription" flag derived from the pharmaceutical category.
- **Products** (`product_template.dfy`, module `ProductTemplate`): a pharmaceutical product must name its active principle. The module also covers the warning shown when a product is marked pharmaceutical under an unclassified category, and the prescription flag inherited from the category.
- **Partners** (`res_partner.dfy`, module `ResPartner`): patient codes are drawn from a sequence counter when patients are created. A prescriber must hold a medical licence. Medical licences and patient codes are unique across partners.

`fields.dfy` (module `Fields`) holds the shared shapes: optional field values, the pass/fail outcome of a validation, and the record layer's truthiness test on character fields.

Modelling choices:
- Money and percentages are exact `real`s.
- Dates are day numbers.
- The day on which validity is judged is a parameter (`today`), not a clock read.
- Computed fields are pure functions of a record snapshot.
- The creation hook of partners is imperative. `ResPartner.AssignCodes` rewrites the caller's values in place (an `array`) and advances a `PatientCodeSequence` object. It is proved equal to the specification function `AssignPatientCodes`.
- Each store (`PolicyStore`, `PartnerStore`) is a class holding a sequence of records. Its `Valid()` invariant is the uniqueness and validation rules. Each write is all-or-nothing.
- On creation, the unique constraint is checked when the row is inserted, before the Python constraints. So a creation that breaks both reports the duplicate. On an update, the Python constraints are validated before the row is written. So an update that breaks both reports the date error.

Behaviour of the code that the model keeps:
- The code has no guard against a negative charge, so `CalculatePatientCost` accepts any amount. With 300 of the deductible remaining, a charge of −5 is applied to the deductible and the patient's share is −5 (`NegativeChargeUnguarded`).
- Negative copay, coinsurance and deductible values are not rejected.
- The insurer's share can be negative when a copay exceeds the post-deductible charge (`CopayCanExceedCharge`).

## Model

| member | source | states |
|---|---|---|
| `InsuranceInfo.IsValid` | pharmacy_base/models/insurance_info.py:119-130 | valid exactly when active, start ≤ today, and the end date is absent or today ≤ end (both bounds inclusive) |
| `InsuranceInfo.InactiveNeverValid` | pharmacy_base/models/insurance_info.py:123-124 | an inactive policy is invalid whatever its dates |
| `InsuranceInfo.ValidityBoundaries` | pharmacy_base/tests/test_insurance_info.py:27-79 | an active policy starting today is valid; one ending today is valid; one that ended yesterday is invalid; one starting tomorrow is invalid |
| `InsuranceInfo.RemainingDeductible` | pharmacy_base/models/insurance_info.py:132-135 | remaining + met = annual deductible, with no clamping |
| `InsuranceInfo.RemainingDeductibleNotClamped` | pharmacy_base/models/insurance_info.py:133-135 | the remaining deductible is negative exactly when more than the deductible was met, and positive exactly when less was |
| `InsuranceInfo.RemainingDeductibleExample` | pharmacy_base/tests/test_insurance_info.py:147-164 | 1000 with 300 met leaves 700; after met is written as 800 it leaves 200 |
| `InsuranceInfo.ReasonText` | pharmacy_base/models/insurance_info.py:146-180 | every reason has a non-empty text: 'Cobertura no válida', 'Aplicado a deducible', 'Cálculo normal' |
| `InsuranceInfo.ReasonTextsDistinct` | pharmacy_base/models/insurance_info.py:146-180 | the reason text identifies the branch taken (the three texts are distinct) |
| `InsuranceInfo.DeductibleShare` | pharmacy_base/models/insurance_info.py:153-166 | the deductible portion of a normal-path charge is non-negative, at least the remaining deductible, and either 0 or the remaining deductible |
| `InsuranceInfo.CalculatePatientCost` | pharmacy_base/models/insurance_info.py:137-180 | patient + insurer = amount in every branch. The reason is 'invalid' iff the policy is invalid, and 'deductible' iff valid with 0 < remaining and amount ≤ remaining (a charge of 0 or less included). Both short-circuits leave the whole amount to the patient. In the normal path the patient pays the deductible portion plus the copay if positive, else the coinsurance percentage of the rest if positive, else nothing more |
| `InsuranceInfo.InvalidCoverageIgnoresTerms` | pharmacy_base/models/insurance_info.py:146-151 | for an invalid policy the split is (amount, 0, invalid); deductible, copay and coinsurance do not affect it |
| `InsuranceInfo.CopayExcludesCoinsurance` | pharmacy_base/models/insurance_info.py:168-172 | with a positive copay, changing the coinsurance percentage leaves the split unchanged |
| `InsuranceInfo.DeductibleMetChargesWholeAmount` | pharmacy_base/models/insurance_info.py:164-172 | when the remaining deductible is ≤ 0, a valid policy uses the normal path and applies the copay or coinsurance to the whole amount |
| `InsuranceInfo.CoinsuranceSplitWithinCharge` | pharmacy_base/models/insurance_info.py:153-174 | with no copay, a percentage in [0, 100] and a non-negative charge: 0 ≤ patient ≤ amount and the insurer's share is ≥ 0 |
| `InsuranceInfo.CopayCanExceedCharge` | pharmacy_base/models/insurance_info.py:169-174 | a valid policy with the deductible met and a copay of 10, charged 5, gives patient 10 and insurer −5 |
| `InsuranceInfo.NegativeChargeUnguarded` | pharmacy_base/models/insurance_info.py:146-160 | a valid policy with 300 of the deductible remaining, charged −5, gives (−5, 0, deductible): no negative charge is rejected |
| `InsuranceInfo.DeductibleAndCoinsuranceExample` | pharmacy_base/tests/test_insurance_info.py:100-126 | deductible 500 with 200 met and 20% coinsurance: a charge of 100 gives (100, 0, deductible); a charge of 500 gives (340, 160, normal) |
| `InsuranceInfo.FullCoverageExample` | pharmacy_base/tests/test_insurance_info.py:81-98 | deductible met, no copay or coinsurance: a charge of 100 gives (0, 100) |
| `InsuranceInfo.CheckDates` | pharmacy_base/models/insurance_info.py:182-186 | passes exactly when the end date is absent or start ≤ end; otherwise it fails with the end-before-start error |
| `InsuranceInfo.CheckDatesBoundaries` | pharmacy_base/tests/test_insurance_info.py:41-52 | an end date equal to the start date passes, as does an absent one; an end date one day before the start fails |
| `InsuranceInfo.PolicyStore.Create` | pharmacy_base/models/insurance_info.py:182-191 | keeps keys unique and dates ordered. It rejects a duplicate (insurer, policy, member) first, then bad dates. On success the policy is appended; a rejection leaves the store unchanged |
| `InsuranceInfo.PolicyStore.Write` | pharmacy_base/models/insurance_info.py:182-191 | overwriting a record checks the dates first, then the key against the other records; it keeps the invariant and a rejected write changes nothing |
| `InsuranceInfo.DuplicateRegistrationRejected` | pharmacy_base/tests/test_insurance_info.py:166-185 | in a fresh store, the first registration of a key passes and a second one with the same key is rejected as a duplicate |
| `ProductCategory.RequiresPrescription` | pharmacy_base/models/product_category.py:36-39 | true exactly when the pharmaceutical category is 'prescription' or 'controlled' |
| `ProductCategory.NoPrescriptionOutsideTheTwoClasses` | pharmacy_base/models/product_category.py:7-39 | an unset category, 'otc' and the six other classes need no prescription |
| `ProductCategory.RequiresPrescriptionDependsOnlyOnCategory` | pharmacy_base/models/product_category.py:25-39 | two categories with the same pharmaceutical category have the same flag, whatever their controlled flag and ABC class |
| `ProductTemplate.RequiresPrescription` | pharmacy_base/models/product_template.py:101-106 | a product requires a prescription exactly when its category is 'prescription' or 'controlled' |
| `ProductTemplate.CheckPharmaceuticalFields` | pharmacy_base/models/product_template.py:108-112 | fails exactly for a pharmaceutical product whose active principle is missing or empty; a non-pharmaceutical product always passes |
| `ProductTemplate.OnchangeIsPharmaceutical` | pharmacy_base/models/product_template.py:114-122 | returns the warning exactly when the product is pharmaceutical and its category has no pharmaceutical category; otherwise nothing |
| `ProductTemplate.PrescriptionAndOtcProducts` | pharmacy_base/tests/test_product_template.py:25-54 | the three test products: with a principle under 'prescription' it passes and requires a prescription; under 'otc' it passes and does not; without a principle it is rejected |
| `ResPartner.IssuedCode` | pharmacy_base/models/res_partner.py:89 | a drawn code is non-empty and starts with the prefix 'PAC' |
| `ResPartner.IssuedCodeInjective` | pharmacy_base/models/res_partner.py:78-89 | distinct counter values render distinct codes |
| `ResPartner.PatientCodeSequence.NextByCode` | pharmacy_base/models/res_partner.py:89 | returns the code of the current counter value and advances the counter by one |
| `ResPartner.AssignPatientCodes` | pharmacy_base/models/res_partner.py:86-90 | the record count is unchanged |
| `ResPartner.AssignPatientCodesAt` | pharmacy_base/models/res_partner.py:86-89 | entry i of a patient lacking a code gets the code of next + (the number of earlier entries lacking one), with its other fields kept; every other entry is unchanged |
| `ResPartner.IssuedNumberWithinBatch` | pharmacy_base/models/res_partner.py:86-89 | the counter value drawn for an entry lies within the batch's range [next, next + codes drawn) |
| `ResPartner.AssignedCodesDistinct` | pharmacy_base/models/res_partner.py:86-89 | two entries given codes in one batch get different codes |
| `ResPartner.SinglePartnerAllocation` | pharmacy_base/tests/test_res_partner.py:13-20 | a patient created without a code gets a truthy code starting with 'PAC' and consumes one counter value; a non-patient, or a patient with a supplied code, is kept and consumes none |
| `ResPartner.AssignCodes` | pharmacy_base/models/res_partner.py:85-89 | the in-place loop leaves the values equal to AssignPatientCodes of the old values at the old counter, and advances the counter once per patient lacking a code |
| `ResPartner.CheckPrescriberLicense` | pharmacy_base/models/res_partner.py:92-96 | fails, with the missing-licence error, exactly for a prescriber whose licence is missing or empty |
| `ResPartner.PrescriberLicenseCases` | pharmacy_base/tests/test_res_partner.py:22-40 | a prescriber without a licence is rejected; one with 'MED-12345' is accepted; a non-prescriber is accepted |
| `ResPartner.CheckInsert` | pharmacy_base/models/res_partner.py:78-83 | on a store that satisfies the invariant, the batch is accepted exactly when the store plus the batch still has unique licences, unique patient codes and licensed prescribers. Each rejection names the rule broken: a duplicate-licence error means two licences clash, a duplicate-code error means two patient codes clash, and a missing-licence error names a batch entry that fails the licence rule |
| `ResPartner.PartnerStore.Create` | pharmacy_base/models/res_partner.py:85-90 | assigns codes in place as AssignCodes does, then inserts the whole batch or nothing, as CheckInsert decides, and keeps the store invariant |

## Left out

- Record-layer plumbing is not modelled. This covers field labels and help texts, the default ordering, currency defaults, and the informational fields (group number, plan name, coverage level, notes). It also covers the relations between records (the patient of a policy, related products, a partner's policies), cascade deletion and the prescriber signature.
- Each `_compute_*` and constraint method loops over a recordset, setting a field or raising per record. The model states the rule for one record. `ensure_one` is not modelled.
- Floating-point rounding of money and percentages is not modelled; the arithmetic is exact.
- The clock is left out: `today` is a parameter instead of `date.today()`.
- `InsuranceInfo.CalculatePatientCost`: the split does not update `deductible_met`, and neither does the code. Accumulating the deductible across charges is not modelled.
- The sequence's prefix and padding are defined in data records that are not part of this model. A drawn code is modelled as 'PAC' followed by the decimal counter value without padding. The proofs rely only on the prefix and on distinct counter values giving distinct codes. The store's verdicts, however, depend on the unpadded rendering: a caller-supplied code 'PAC7' clashes with the code drawn for 7, where a padded sequence value such as 'PAC00007' would not.
- `ResPartner.PartnerStore.Create`: if the insert is rejected, the counter values drawn for the batch stay consumed. Whether the database transaction would give them back depends on the sequence's implementation, which is not part of this model.
- `ResPartner.AssignCodes`: two entries of the batch that share one values dict are not modelled. The values are independent array cells, so no aliasing is captured. In the code, the second visit of a shared dict sees the code written on the first visit and draws none, and the insert then fails on the patient-code constraint. The model draws two codes and can accept the batch.
- Later writes to partners, categories and products are not modelled. Neither is a store of products or categories. Their rules are modelled as checks on one record's values.
- Uniqueness is stated as a store invariant, not as SQL. As in SQL, an unset licence or patient code never clashes.
- The warning texts are kept untranslated.
- `pharmacy_base/__manifest__.py` is configuration only and is not part of this model.
