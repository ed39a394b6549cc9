/** Products extended with pharmaceutical identification: the active
    principle constraint, the warning shown when a product is marked
    pharmaceutical under an unclassified category, and the prescription
    flag taken from the product's category. */
module ProductTemplate {
  import opened Fields
  import ProductCategory

  /** The pharmacy fields of a product that the rules read. */
  datatype Product = Product(
    isPharmaceutical: bool,
    activePrinciple: Option<string>,
    category: ProductCategory.Category)

  datatype ProductError = MissingActivePrinciple

  datatype Warning = Warning(title: string, message: string)

  const PharmaceuticalCategoryWarning :=
    Warning("Advertencia", "Asegúrese de seleccionar una categoría farmacéutica apropiada.")

  /** The related field: a product requires a prescription exactly when its
      category does. */
  function RequiresPrescription(p: Product): (needed: bool)
    ensures needed <==>
      p.category.pharmaceuticalCategory == Some(ProductCategory.Prescription) ||
      p.category.pharmaceuticalCategory == Some(ProductCategory.Controlled)
  {
    ProductCategory.RequiresPrescription(p.category)
  }

  /** The write-time constraint: a pharmaceutical product names its active
      principle (set and non-empty); other products are unconstrained. */
  function CheckPharmaceuticalFields(p: Product): (r: Outcome<ProductError>)
    ensures r.Fail? <==> p.isPharmaceutical && (p.activePrinciple.None? || p.activePrinciple.value == "")
    ensures !p.isPharmaceutical ==> r == Pass
  {
    if p.isPharmaceutical && !Truthy(p.activePrinciple) then Fail(MissingActivePrinciple) else Pass
  }

  /** The warning returned when the pharmaceutical flag changes: only a
      pharmaceutical product under an unclassified category gets one. */
  function OnchangeIsPharmaceutical(p: Product): (w: Option<Warning>)
    ensures w.Some? <==> p.isPharmaceutical && p.category.pharmaceuticalCategory.None?
    ensures w.Some? ==> w.value == PharmaceuticalCategoryWarning
  {
    if p.isPharmaceutical && p.category.pharmaceuticalCategory.None? then
      Some(PharmaceuticalCategoryWarning)
    else
      None
  }

  /** A pharmaceutical product in a prescription category with an active
      principle is accepted and requires a prescription; the same product in
      an over-the-counter category does not; without an active principle it
      is rejected. */
  lemma PrescriptionAndOtcProducts(principle: string, rx: ProductCategory.Category, otc: ProductCategory.Category)
    requires principle != ""
    requires rx.pharmaceuticalCategory == Some(ProductCategory.Prescription)
    requires otc.pharmaceuticalCategory == Some(ProductCategory.Otc)
    ensures CheckPharmaceuticalFields(Product(true, Some(principle), rx)) == Pass
    ensures RequiresPrescription(Product(true, Some(principle), rx))
    ensures CheckPharmaceuticalFields(Product(true, Some(principle), otc)) == Pass
    ensures !RequiresPrescription(Product(true, Some(principle), otc))
    ensures CheckPharmaceuticalFields(Product(true, None, rx)) == Fail(MissingActivePrinciple)
  {
  }
}
