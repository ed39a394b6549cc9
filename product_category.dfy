/** Product categories extended with a pharmaceutical classification, from
    which the category's "requires prescription" flag is derived. */
module ProductCategory {
  import opened Fields

  /** The selection values of the pharmaceutical category. */
  datatype PharmaceuticalCategory =
    | Prescription | Otc | Controlled
    | Dermocosmetica | CuidadoPersonal | Nutricion
    | DispositivoMedico | Infantil | Ortopedia

  /** The key under which each selection value is stored. */
  function SelectionKey(c: PharmaceuticalCategory): string
  {
    match c
    case Prescription => "prescription"
    case Otc => "otc"
    case Controlled => "controlled"
    case Dermocosmetica => "dermocosmetica"
    case CuidadoPersonal => "cuidado_personal"
    case Nutricion => "nutricion"
    case DispositivoMedico => "dispositivo_medico"
    case Infantil => "infantil"
    case Ortopedia => "ortopedia"
  }

  datatype AbcClass = A | B | C

  /** The pharmacy fields of a category; every field may be left unset. */
  datatype Category = Category(
    pharmaceuticalCategory: Option<PharmaceuticalCategory>,
    isControlled: bool,
    abcClassification: Option<AbcClass>)

  /** The stored computed flag: the category's key is one of the two
      prescription keys. */
  function RequiresPrescription(c: Category): (needed: bool)
    ensures needed <==>
      c.pharmaceuticalCategory == Some(Prescription) || c.pharmaceuticalCategory == Some(Controlled)
  {
    c.pharmaceuticalCategory.Some? &&
    SelectionKey(c.pharmaceuticalCategory.value) in ["prescription", "controlled"]
  }

  /** Over-the-counter products, unclassified categories and the six other
      classes need no prescription. */
  lemma NoPrescriptionOutsideTheTwoClasses(c: Category)
    requires c.pharmaceuticalCategory.None? ||
      c.pharmaceuticalCategory.value in
        {Otc, Dermocosmetica, CuidadoPersonal, Nutricion, DispositivoMedico, Infantil, Ortopedia}
    ensures !RequiresPrescription(c)
  {
  }

  /** The flag depends on the pharmaceutical category alone, not on the
      controlled flag or the ABC classification. */
  lemma RequiresPrescriptionDependsOnlyOnCategory(c: Category, d: Category)
    requires c.pharmaceuticalCategory == d.pharmaceuticalCategory
    ensures RequiresPrescription(c) == RequiresPrescription(d)
  {
  }
}
