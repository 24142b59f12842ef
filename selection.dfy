/**
 The check made before stations are fetched: a province, a municipality and
 a fuel type must all be chosen. An unchosen drop-down holds the empty
 string, which JavaScript treats as false.
 */
module Selection {
  const PleaseSelect: string := "Please select a province, municipality, and fuel type to see the results."

  /** Whether the search may go ahead, and the text left in the results panel. */
  datatype Validation = Validation(complete: bool, message: string)

  function ValidateSelections(province: string, municipality: string, fuelType: string): (v: Validation)
    ensures v.complete <==> province != [] && municipality != [] && fuelType != []
    ensures v.complete ==> v.message == []
    ensures !v.complete ==> v.message == PleaseSelect
  {
    if province == [] || municipality == [] || fuelType == [] then Validation(false, PleaseSelect)
    else Validation(true, "")
  }

  /** The panel is cleared exactly when the search goes ahead, and otherwise asks for the missing choices. */
  lemma MessageClearedIffComplete(province: string, municipality: string, fuelType: string)
    ensures ValidateSelections(province, municipality, fuelType).message == [] <==>
      ValidateSelections(province, municipality, fuelType).complete
  {
    assert |PleaseSelect| == 73;
  }

  /** Only whether each choice is empty matters, not which value was chosen. */
  lemma OnlyEmptinessMatters(p: string, m: string, f: string, p': string, m': string, f': string)
    requires (p == []) == (p' == []) && (m == []) == (m' == []) && (f == []) == (f' == [])
    ensures ValidateSelections(p, m, f) == ValidateSelections(p', m', f')
  {
  }
}
