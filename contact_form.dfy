/**
 * The contact form's state and its event handlers: validation of one field
 * (writing the group's error flag and the error slot's text), blur and input
 * re-validation, and the submit handler up to and after the network call.
 *
 * The page's DOM is reduced to what the handlers read and write: per field its
 * name, value, default value, whether it sits in a `.form-group` and whether
 * that group has an `.error-message` slot, the group's `error` class and the
 * slot's text; the submit button's `disabled` property and `loading` class; the
 * success banner's `show` class; and a count of requests sent. The network
 * response arrives as a parameter.
 */
module ContactForm {
  import opened Text
  import opened Rules

  /** One entry of the form's field list, in document order. */
  datatype Field = Field(
    name: string,
    value: string,
    defaultValue: string,
    hasGroup: bool,
    hasErrorSlot: bool,
    error: bool,
    message: string)

  /** How the request ended: `response.ok`, a response that is not ok, or an
      exception from `fetch`. */
  datatype Outcome = Ok | NotOk | NetworkError

  /** What `validateField` returns for the field: a field without a group or
      without an error slot passes untouched. */
  function FieldVerdict(f: Field): Verdict {
    if f.hasGroup && f.hasErrorSlot then ValidateValue(f.name, f.value) else Pass
  }

  /** The field as `validateField` leaves it. */
  function Revalidated(f: Field): (g: Field)
    ensures g.name == f.name && g.value == f.value && g.defaultValue == f.defaultValue
    ensures g.hasGroup == f.hasGroup && g.hasErrorSlot == f.hasErrorSlot
    ensures !(f.hasGroup && f.hasErrorSlot) ==> g == f
    ensures f.hasGroup && f.hasErrorSlot ==>
      (g.error <==> FieldVerdict(f).Fail?) && g.message == (if g.error then FieldVerdict(f).message else "")
  {
    if !(f.hasGroup && f.hasErrorSlot) then f
    else match ValidateValue(f.name, f.value)
      case Pass => f.(error := false, message := "")
      case Fail(m) => f.(error := true, message := m)
  }

  /** Validating a field a second time changes nothing more. */
  lemma RevalidatedIdempotent(f: Field)
    ensures Revalidated(Revalidated(f)) == Revalidated(f)
  {
  }

  /** A field whose group shows an error after validation failed it, with the
      message of its rule. */
  lemma ErrorMeansRuleFailed(f: Field)
    requires f.error ==> f.hasGroup && f.hasErrorSlot
    requires Revalidated(f).error
    ensures f.hasGroup && f.hasErrorSlot
    ensures RuleFor(f.name).Some? && Revalidated(f).message == RuleFor(f.name).value.message
    ensures ValidateValue(f.name, f.value).Fail?
  {
  }

  /** Every field of `fields` passes validation, checked from the last one
      back. */
  predicate AllPass(fields: seq<Field>) {
    fields == [] || (AllPass(fields[..|fields| - 1]) && FieldVerdict(fields[|fields| - 1]).Pass?)
  }

  lemma {:induction false} AllPassIff(fields: seq<Field>)
    ensures AllPass(fields) <==> forall k :: 0 <= k < |fields| ==> FieldVerdict(fields[k]).Pass?
  {
    if fields != [] {
      var init := fields[..|fields| - 1];
      AllPassIff(init);
      assert forall k :: 0 <= k < |init| ==> init[k] == fields[k];
    }
  }

  /** `form.reset()` on the listed fields: every value back to its default,
      the error state untouched. */
  function Reset(fields: seq<Field>): (r: seq<Field>)
    ensures |r| == |fields|
  {
    seq(|fields|, k requires 0 <= k < |fields| => fields[k].(value := fields[k].defaultValue))
  }

  class Form {
    var fields: seq<Field>
    var buttonDisabled: bool
    var buttonLoading: bool
    var successShown: bool
    var requestsSent: nat

    /** Only a field with both a group and an error slot is ever marked in
        error, and the button's two busy marks are set and cleared together. */
    ghost predicate Valid()
      reads this
    {
      && buttonDisabled == buttonLoading
      && forall k :: 0 <= k < |fields| ==> fields[k].error ==> fields[k].hasGroup && fields[k].hasErrorSlot
    }

    /** The page as loaded: no errors shown, button idle, no banner. */
    constructor (initial: seq<Field>)
      requires forall k :: 0 <= k < |initial| ==> !initial[k].error
      ensures Valid()
      ensures fields == initial && requestsSent == 0
      ensures !buttonDisabled && !buttonLoading && !successShown
    {
      fields := initial;
      buttonDisabled, buttonLoading := false, false;
      successShown := false;
      requestsSent := 0;
    }

    /** `validateField`, also the `blur` handler. */
    method ValidateField(i: nat) returns (ok: bool)
      requires Valid() && i < |fields|
      modifies this`fields
      ensures Valid()
      ensures ok <==> FieldVerdict(old(fields[i])).Pass?
      ensures fields == old(fields)[i := Revalidated(old(fields[i]))]
    {
      var f := fields[i];
      if !f.hasGroup || !f.hasErrorSlot {
        return true;
      }
      f := f.(error := false, message := "");
      var rule := RuleFor(f.name);
      if rule.None? {
        fields := fields[i := f];
        return true;
      }
      var verdict := Check(rule.value, Trim(f.value));
      if verdict.Fail? {
        f := f.(error := true, message := verdict.message);
      }
      fields := fields[i := f];
      ok := verdict.Pass?;
    }

    /** The `input` handler: the user's edit writes the field's value, then
        the field is re-validated only when its group is in error, so a
        corrected value clears the error and a still-wrong one keeps it. */
    method OnInput(i: nat, newValue: string)
      requires Valid() && i < |fields|
      modifies this`fields
      ensures Valid()
      ensures old(fields[i].hasGroup && fields[i].error) ==>
        fields == old(fields)[i := Revalidated(old(fields[i]).(value := newValue))]
      ensures old(fields[i].hasGroup && fields[i].error) ==>
        (fields[i].error <==> FieldVerdict(old(fields[i]).(value := newValue)).Fail?)
      ensures !old(fields[i].hasGroup && fields[i].error) ==>
        fields == old(fields)[i := old(fields[i]).(value := newValue)]
    {
      fields := fields[i := fields[i].(value := newValue)];
      if fields[i].hasGroup && fields[i].error {
        var _ := ValidateField(i);
      }
    }

    /** The validation loop of the submit handler: every field is validated,
        none skipped after a failure. */
    method ValidateAll() returns (isValid: bool)
      requires Valid()
      modifies this`fields
      ensures Valid()
      ensures |fields| == |old(fields)|
      ensures forall k :: 0 <= k < |fields| ==> fields[k] == Revalidated(old(fields[k]))
      ensures isValid == AllPass(old(fields))
    {
      ghost var before := fields;
      isValid := true;
      var i := 0;
      while i < |fields|
        invariant Valid()
        invariant 0 <= i <= |fields| == |before|
        invariant forall k :: 0 <= k < i ==> fields[k] == Revalidated(before[k])
        invariant forall k :: i <= k < |fields| ==> fields[k] == before[k]
        invariant isValid == AllPass(before[..i])
      {
        ghost var pre := fields;
        var ok := ValidateField(i);
        assert fields == pre[i := Revalidated(before[i])];
        if !ok {
          isValid := false;
        }
        assert before[..i + 1][..i] == before[..i];
        i := i + 1;
      }
      assert before[..i] == before;
    }

    /** `querySelector('.form-group.error')`: the first field, in document
        order, whose group is in error. */
    method FirstError() returns (first: Option<nat>)
      ensures first.Some? ==> first.value < |fields| && fields[first.value].error
      ensures first.Some? ==> forall k :: 0 <= k < first.value ==> !fields[k].error
      ensures first.None? ==> forall k :: 0 <= k < |fields| ==> !fields[k].error
    {
      var i := 0;
      while i < |fields|
        invariant 0 <= i <= |fields|
        invariant forall k :: 0 <= k < i ==> !fields[k].error
      {
        if fields[i].error {
          return Some(i);
        }
        i := i + 1;
      }
      return None;
    }

    /** The submit handler up to the network call: validate every field; on
        any failure stop, reporting the field to scroll to, with the button
        untouched and nothing sent; otherwise mark the button busy and send. */
    method BeginSubmit() returns (sent: bool, scrollTo: Option<nat>)
      requires Valid()
      modifies this`fields, this`buttonDisabled, this`buttonLoading, this`requestsSent
      ensures Valid()
      ensures |fields| == |old(fields)|
      ensures forall k :: 0 <= k < |fields| ==> fields[k] == Revalidated(old(fields[k]))
      ensures sent == AllPass(old(fields))
      ensures !sent ==> buttonDisabled == old(buttonDisabled) && buttonLoading == old(buttonLoading)
      ensures !sent ==> requestsSent == old(requestsSent)
      ensures !sent ==> scrollTo.Some? && scrollTo.value < |fields| && fields[scrollTo.value].error
      ensures !sent ==> forall k :: 0 <= k < scrollTo.value ==> !fields[k].error
      ensures sent ==> buttonDisabled && buttonLoading && requestsSent == old(requestsSent) + 1
      ensures sent ==> scrollTo.None? && forall k :: 0 <= k < |fields| ==> !fields[k].error
    {
      var isValid := ValidateAll();
      AllPassIff(old(fields));
      if !isValid {
        ghost var k :| 0 <= k < |fields| && FieldVerdict(old(fields[k])).Fail?;
        assert fields[k].error;
        scrollTo := FirstError();
        return false, scrollTo;
      }
      buttonDisabled := true;
      buttonLoading := true;
      requestsSent := requestsSent + 1;
      return true, None;
    }

    /** The submit handler after the network call: on an ok response show the
        banner and reset the values; on any other outcome keep the values; on
        every path clear the button's busy marks. */
    method FinishSubmit(outcome: Outcome)
      requires Valid()
      modifies this`fields, this`buttonDisabled, this`buttonLoading, this`successShown
      ensures Valid()
      ensures !buttonDisabled && !buttonLoading
      ensures outcome == Ok ==> successShown && fields == Reset(old(fields))
      ensures outcome != Ok ==> successShown == old(successShown) && fields == old(fields)
    {
      if outcome == Ok {
        successShown := true;
        fields := Reset(fields);
      }
      buttonDisabled := false;
      buttonLoading := false;
    }

    /** The whole submit handler run to completion. */
    method OnSubmit(outcome: Outcome) returns (sent: bool)
      requires Valid()
      modifies this`fields, this`buttonDisabled, this`buttonLoading, this`successShown, this`requestsSent
      ensures Valid()
      ensures sent == AllPass(old(fields))
      ensures requestsSent == old(requestsSent) + (if sent then 1 else 0)
      ensures sent ==> !buttonDisabled && !buttonLoading
      ensures !sent ==> buttonDisabled == old(buttonDisabled) && buttonLoading == old(buttonLoading)
      ensures successShown == (old(successShown) || (sent && outcome == Ok))
      ensures |fields| == |old(fields)|
      ensures forall k :: 0 <= k < |fields| ==>
        fields[k] == if sent && outcome == Ok
                     then Revalidated(old(fields[k])).(value := old(fields[k]).defaultValue)
                     else Revalidated(old(fields[k]))
    {
      var scrollTo;
      sent, scrollTo := BeginSubmit();
      if sent {
        FinishSubmit(outcome);
      }
    }
  }
}
