/**
 * The argument checks of the Hardhat scripts' utilities, run before a
 * script talks to a contract. Each check either passes (None) or throws an
 * Error, modelled as Some(message).
 */
module ScriptChecks {
  import opened Wrappers

  /** A template literal renders an absent value as "undefined". */
  function TemplateText(v: Option<string>): (r: string)
    ensures v.Some? ==> r == v.value
    ensures v.None? ==> r == "undefined"
  {
    if v.Some? then v.value else "undefined"
  }

  /**
   * `checkParameters`: fails when the list is absent or holds fewer than
   * `count - 1` entries. An entry that is itself undefined still counts
   * towards the length.
   */
  function CheckParameters(parameters: Option<seq<Option<string>>>, count: int, tip: Option<string>): (error: Option<string>)
    ensures error.Some? <==> parameters.None? || |parameters.value| < count - 1
    ensures error.Some? ==> error.value == "Parameters not provided. " + TemplateText(tip)
  {
    if parameters.None? || |parameters.value| < count - 1 then
      Some("Parameters not provided. " + TemplateText(tip))
    else
      None
  }

  /**
   * The length test is one short of `count`: a list of `count - 1` entries
   * passes, and with a `count` of 1 or less every present list passes,
   * the empty one included.
   */
  lemma CheckParametersAcceptsOneShort(parameters: seq<Option<string>>, count: int, tip: Option<string>)
    requires |parameters| == count - 1
    ensures CheckParameters(Some(parameters), count, tip).None?
  {
  }

  lemma CheckParametersSmallCount(parameters: seq<Option<string>>, count: int, tip: Option<string>)
    requires count <= 1
    ensures CheckParameters(Some(parameters), count, tip).None?
  {
  }

  /**
   * A present list with at least `count` entries always passes, however
   * many of its entries are undefined: the check looks at the list's
   * length only, never at what the entries hold.
   */
  lemma CheckParametersIgnoresEntries(parameters: seq<Option<string>>, count: int, tip: Option<string>)
    requires count <= |parameters|
    ensures CheckParameters(Some(parameters), count, tip).None?
    ensures CheckParameters(Some(seq(|parameters|, _ => None)), count, tip).None?
  {
  }

  /** `!v` for an optional string: undefined and "" are falsy. */
  predicate Missing(v: Option<string>) {
    v.None? || v.value == ""
  }

  /**
   * `checkAddress`: a missing address is reported before the address is
   * validated; `isAddress` is the library's address test.
   */
  function CheckAddress(kind: string, address: Option<string>, isAddress: string -> bool): (error: Option<string>)
    ensures Missing(address) ==> error == Some(kind + " address not provided.")
    ensures !Missing(address) ==> (error.Some? <==> !isAddress(address.value))
    ensures !Missing(address) && error.Some? ==> error.value == "Invalid " + kind + " address provided."
  {
    if Missing(address) then Some(kind + " address not provided.")
    else if !isAddress(address.value) then Some("Invalid " + kind + " address provided.")
    else None
  }

  /**
   * `checkNumber`: a missing value is reported before it is converted;
   * `isNaN` stands for `isNaN(Number(val))`.
   */
  function CheckNumber(kind: string, val: Option<string>, isNaN: string -> bool): (error: Option<string>)
    ensures Missing(val) ==> error == Some(kind + " not provided.")
    ensures !Missing(val) ==> (error.Some? <==> isNaN(val.value))
    ensures !Missing(val) && error.Some? ==> error.value == "Invalid " + kind + " provided."
  {
    if Missing(val) then Some(kind + " not provided.")
    else if isNaN(val.value) then Some("Invalid " + kind + " provided.")
    else None
  }

  /** A check passes exactly when the value is present and the validator accepts it. */
  lemma CheckAddressPasses(kind: string, address: Option<string>, isAddress: string -> bool)
    ensures CheckAddress(kind, address, isAddress).None? <==> address.Some? && address.value != "" && isAddress(address.value)
  {
  }

  lemma CheckNumberPasses(kind: string, val: Option<string>, isNaN: string -> bool)
    ensures CheckNumber(kind, val, isNaN).None? <==> val.Some? && val.value != "" && !isNaN(val.value)
  {
  }

  /**
   * The two kinds of failure are told apart by their text: a missing value
   * never produces the "Invalid" message, whatever the validator says.
   */
  lemma MissingIsNotInvalid(kind: string, address: Option<string>, isAddress: string -> bool)
    requires Missing(address)
    ensures CheckAddress(kind, address, isAddress) != Some("Invalid " + kind + " address provided.")
  {
    // The two texts always differ in length.
    assert |CheckAddress(kind, address, isAddress).value| == |kind| + 22;
  }
}
