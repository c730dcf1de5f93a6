/** `PersonStatus`, a closed enumeration with a string codec, used for enum query and path
    parameters. */
module PersonStatus {
  import opened Wrappers

  /** The `iota` constants ACTIVE (0) and SUSPENDED (1). */
  datatype PersonStatus = Active | Suspended

  /** The names, indexed by the constant's value. */
  const Names: seq<string> := ["active", "suspended"]

  function Ordinal(v: PersonStatus): (i: nat)
    ensures i < |Names|
  {
    match v
    case Active => 0
    case Suspended => 1
  }

  /** `String`: the name at the constant's index. Go's `PersonStatus` is an `int`, so any other value
      indexes out of range; the datatype has no such value. */
  function String(v: PersonStatus): (r: string)
    ensures r in Names
    ensures r == "active" <==> v == Active
  {
    Names[Ordinal(v)]
  }

  function UnknownValue(s: string): Error {
    Error("Unknown PersonStatus value: " + s)
  }

  /** `ParsePersonStatus`: the two names give their constants; anything else is an error naming it. */
  function Parse(s: string): (r: Result<PersonStatus, Error>)
    ensures r.Success? <==> s in Names
    ensures r.Failure? ==> r.error == UnknownValue(s)
  {
    if s == "active" then Success(Active)
    else if s == "suspended" then Success(Suspended)
    else Failure(UnknownValue(s))
  }

  /** Every constant survives a round trip through its name. */
  lemma ParseString(v: PersonStatus)
    ensures Parse(String(v)) == Success(v)
  {
  }

  /** Every name that parses is the name of what it parses to. */
  lemma StringParse(s: string)
    requires Parse(s).Success?
    ensures String(Parse(s).value) == s
  {
  }

  /** Distinct constants have distinct names. */
  lemma StringInjective(a: PersonStatus, b: PersonStatus)
    requires String(a) == String(b)
    ensures a == b
  {
    ParseString(a);
    ParseString(b);
  }

  /** `SerializePersonStatus`: a slice of the same length holding each value's name at its index. */
  method SerializePersonStatus(values: seq<PersonStatus>) returns (result: seq<string>)
    ensures |result| == |values|
    ensures forall i :: 0 <= i < |values| ==> result[i] == String(values[i])
  {
    var names := new string[|values|];
    for i := 0 to |values|
      invariant forall j :: 0 <= j < i ==> names[j] == String(values[j])
    {
      names[i] := String(values[i]);
    }
    result := names[..];
  }

  /** Every serialized name parses back to the value it came from. */
  lemma SerializedParse(values: seq<PersonStatus>, result: seq<string>)
    requires |result| == |values|
    requires forall i :: 0 <= i < |values| ==> result[i] == String(values[i])
    ensures forall i :: 0 <= i < |result| ==> Parse(result[i]) == Success(values[i])
  {
    forall i | 0 <= i < |result| ensures Parse(result[i]) == Success(values[i]) {
      ParseString(values[i]);
    }
  }

  /** `isMultiValue`: a status is a single value. */
  function IsMultiValue(v: PersonStatus): (r: bool)
    ensures !r
  {
    false
  }
}
