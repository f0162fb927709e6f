/** `validate`: turns the collected request-validation errors into a 400 reply. */
module Validation {
  import opened Common
  import opened Http

  /** One collected error: where it was found (`path`, or the older `param`)
      and its message. */
  datatype ValidationError = ValidationError(path: Option<string>, param: Option<string>, msg: string)

  /** `err.path || err.param`: an empty path counts as missing. */
  function FieldOf(e: ValidationError): (f: Option<string>)
    ensures e.path.Some? && e.path.value != "" ==> f == e.path
    ensures e.path.None? || e.path.value == "" ==> f == e.param
  {
    if e.path.Some? && e.path.value != "" then e.path else e.param
  }

  /** One `{field, message}` entry per error, in the same order. */
  function Entries(errors: seq<ValidationError>): (r: seq<FieldMessage>)
    ensures |r| == |errors|
    ensures forall i :: 0 <= i < |errors| ==> r[i] == FieldMessage(FieldOf(errors[i]), errors[i].msg)
  {
    if errors == [] then [] else [FieldMessage(FieldOf(errors[0]), errors[0].msg)] + Entries(errors[1..])
  }

  /** No errors: the request goes on; otherwise 400 with the entries. */
  function Validate(errors: seq<ValidationError>): (s: Step)
    ensures s.Next? <==> errors == []
    ensures s.Stop? ==> s.status == 400 && s.body == Invalid(Entries(errors))
  {
    if errors == [] then Next else Stop(400, Invalid(Entries(errors)))
  }

  /** Errors reported one after the other are reported in that order. */
  lemma EntriesAppend(a: seq<ValidationError>, b: seq<ValidationError>)
    ensures Entries(a + b) == Entries(a) + Entries(b)
  {
    assert |Entries(a + b)| == |Entries(a) + Entries(b)|;
    forall i | 0 <= i < |a + b|
      ensures Entries(a + b)[i] == (Entries(a) + Entries(b))[i]
    {
      if i >= |a| { assert (a + b)[i] == b[i - |a|]; }
    }
  }
}
