/** The two conversions of the `change-case` library the translator calls. They are a foreign
    library, so the model takes them as parameters and every property holds for any choice. */
module ChangeCase {

  /** `toCase.camel` (lower camel case) and `toCase.pascal` (upper camel case). */
  datatype CaseConverter = CaseConverter(camel: string -> string, pascal: string -> string)
}
