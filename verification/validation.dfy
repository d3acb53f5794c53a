/**
  The comment form's validation messages (`formErrors`, `validationMessages`
  and `onValueChanged` in src/app/dishdetail/dishdetail.component.ts).

  On every change of the form the component rebuilds one message per tracked
  field: it clears the old text and, when the field's control is dirty and
  invalid, appends `message + ' '` for each active error key, in order.  Which
  error keys are active is decided by the form library's validators; here it is
  part of the control state the caller supplies.
 */
module Validation {
  import opened Wrappers

  /** The fields that carry a message: the keys of `formErrors`. */
  datatype Field = AuthorField | CommentField {
    /** The name of the field's control in the form. */
    function Name(): (s: string)
      ensures |s| > 0
    {
      match this
      case AuthorField => "author"
      case CommentField => "comment"
    }
  }

  /** `AuthorField` and `CommentField` are the only fields. */
  lemma EveryField(f: Field)
    ensures f == AuthorField || f == CommentField
  {
  }

  /** The tracked fields in the order the component visits them. */
  const TrackedFields: seq<Field> := [AuthorField, CommentField]

  /**
    The human-readable text of each error key, per field: the author is
    required and at least two characters long, the comment is required.
   */
  function ValidationMessages(field: Field): (m: map<string, string>)
    ensures "required" in m
    ensures "minlength" in m <==> field == AuthorField
    ensures m.Keys <= {"required", "minlength"}
  {
    match field
    case AuthorField => map[
      "required" := "Name is required.",
      "minlength" := "Name must be at least 2 characters long."]
    case CommentField => map[
      "required" := "Comment is required."]
  }

  /** What the form library reports for one control. */
  datatype Control = Control(dirty: bool, valid: bool, errors: seq<string>)

  /** The form's controls by name; `form.get(name)` is a lookup here. */
  type Controls = map<string, Control>

  /**
    The text one error key contributes, before its trailing blank.  A validator
    key with no message in the table reads `messages[key]` as `undefined`, which
    string concatenation renders as the word "undefined".  The keys are names
    the field's validators report, never names inherited by every object.
   */
  function MessageFor(field: Field, key: string): (m: string)
    ensures |m| > 0
    ensures key in ValidationMessages(field) ==> m == ValidationMessages(field)[key]
    ensures key !in ValidationMessages(field) ==> m == "undefined"
  {
    var messages := ValidationMessages(field);
    if key in messages then messages[key] else "undefined"
  }

  /**
    The accumulated message of a field whose active error keys are `keys`:
    each key's text followed by one blank, in the order of `keys`.
   */
  function ErrorText(field: Field, keys: seq<string>): (r: string)
    ensures |r| > |keys| || |r| == |keys| == 0
    ensures |keys| > 0 ==> r[|r| - 1] == ' '
  {
    if |keys| == 0 then ""
    else MessageFor(field, keys[0]) + " " + ErrorText(field, keys[1..])
  }

  /** Whether the control of `field` is present, dirty and invalid. */
  function ShowsErrors(controls: Controls, field: Field): (b: bool)
    ensures b ==> field.Name() in controls && controls[field.Name()].dirty
    ensures field.Name() !in controls ==> !b
    ensures field.Name() in controls && controls[field.Name()].valid ==> !b
    ensures field.Name() in controls && controls[field.Name()].dirty && !controls[field.Name()].valid ==> b
  {
    field.Name() in controls && controls[field.Name()].dirty && !controls[field.Name()].valid
  }

  /** The message of one tracked field given the current controls. */
  function FieldMessage(controls: Controls, field: Field): (msg: string)
    ensures msg == "" <==> !ShowsErrors(controls, field) || |controls[field.Name()].errors| == 0
    ensures ShowsErrors(controls, field) ==> msg == ErrorText(field, controls[field.Name()].errors)
  {
    if ShowsErrors(controls, field) then ErrorText(field, controls[field.Name()].errors) else ""
  }

  /**
    The fresh `formErrors` map computed from the controls.  Every tracked
    field has an entry; a field without a control, a pristine field and a
    valid field read as the empty string; a dirty invalid field reads as its
    error keys' messages in order.
   */
  function Recompute(controls: Controls): (errs: map<Field, string>)
    ensures forall f: Field :: f in errs
    ensures forall f: Field :: !ShowsErrors(controls, f) ==> errs[f] == ""
    ensures forall f: Field :: ShowsErrors(controls, f) ==> errs[f] == ErrorText(f, controls[f.Name()].errors)
  {
    var errs := map[AuthorField := FieldMessage(controls, AuthorField), CommentField := FieldMessage(controls, CommentField)];
    assert forall f: Field :: f in errs by {
      forall f: Field ensures f in errs { EveryField(f); }
    }
    errs
  }

  /**
    `onValueChanged`: before the form exists nothing happens; afterwards every
    tracked field's message is rebuilt from the controls alone.
   */
  function OnValueChanged(form: Option<Controls>, formErrors: map<Field, string>): (r: map<Field, string>)
    ensures form.None? ==> r == formErrors
    ensures form.Some? ==> forall f: Field :: f in r && r[f] == FieldMessage(form.value, f)
  {
    match form
    case None => formErrors
    case Some(controls) => Recompute(controls)
  }

  /**
    Splitting the error keys splits the message: the text of `a + b` is the
    text of `a` followed by the text of `b`.
   */
  lemma {:induction false} ErrorTextAppend(field: Field, a: seq<string>, b: seq<string>)
    ensures ErrorText(field, a + b) == ErrorText(field, a) + ErrorText(field, b)
  {
    if |a| == 0 {
      assert a + b == b;
    } else {
      assert (a + b)[1..] == a[1..] + b;
      ErrorTextAppend(field, a[1..], b);
    }
  }

  /** One error key yields its message and a blank. */
  lemma ErrorTextSingle(field: Field, key: string)
    ensures ErrorText(field, [key]) == MessageFor(field, key) + " "
  {
    assert [key][1..] == [];
  }

  /** The loop's step: the prefix of length `k + 1` adds key `k`'s text and a blank. */
  lemma ErrorTextStep(field: Field, keys: seq<string>, k: int)
    requires 0 <= k < |keys|
    ensures ErrorText(field, keys[..k + 1]) == ErrorText(field, keys[..k]) + MessageFor(field, keys[k]) + " "
  {
    assert keys[..k + 1] == keys[..k] + [keys[k]];
    ErrorTextAppend(field, keys[..k], [keys[k]]);
    ErrorTextSingle(field, keys[k]);
  }

  /**
    A message is empty exactly when the field's control is missing, pristine or
    valid, or reports no error key.
   */
  lemma MessageEmptyIff(controls: Controls, field: Field)
    ensures OnValueChanged(Some(controls), map[])[field] == ""
        <==> (!ShowsErrors(controls, field) || |controls[field.Name()].errors| == 0)
  {
  }

  /**
    Each call starts from cleared messages, so the result ignores the previous
    messages: recomputing with unchanged controls is idempotent.
   */
  lemma OnValueChangedIdempotent(controls: Controls, formErrors: map<Field, string>, other: map<Field, string>)
    ensures OnValueChanged(Some(controls), formErrors) == OnValueChanged(Some(controls), other)
    ensures OnValueChanged(Some(controls), OnValueChanged(Some(controls), formErrors))
         == OnValueChanged(Some(controls), formErrors)
  {
  }

  /** Controls that are not dirty show no message, valid or not. */
  lemma PristineHasNoMessages(controls: Controls)
    requires forall name :: name in controls ==> !controls[name].dirty
    ensures forall f: Field :: OnValueChanged(Some(controls), map[])[f] == ""
  {
  }

  /** A control the validators accept shows no message, dirty or not. */
  lemma ValidHasNoMessage(controls: Controls, f: Field, formErrors: map<Field, string>)
    requires f.Name() in controls && controls[f.Name()].valid
    ensures OnValueChanged(Some(controls), formErrors)[f] == ""
  {
  }

  /** Dirty (edited) empty author and comment fields show both "required" messages. */
  lemma EmptyDirtyForm()
    ensures OnValueChanged(Some(map[
              "author" := Control(true, false, ["required"]),
              "comment" := Control(true, false, ["required"])]), map[])
         == map[AuthorField := "Name is required. ", CommentField := "Comment is required. "]
  {
    var controls := map[
      "author" := Control(true, false, ["required"]),
      "comment" := Control(true, false, ["required"])];
    var r := OnValueChanged(Some(controls), map[]);
    ErrorTextSingle(AuthorField, "required");
    ErrorTextSingle(CommentField, "required");
    assert r[AuthorField] == "Name is required. ";
    assert r[CommentField] == "Comment is required. ";
  }

  /**
    The inner loop of `onValueChanged` for one field: clear its message, then,
    when the control is dirty and invalid, append each error key's message and
    a blank.  Only that field's entry changes, and it becomes `FieldMessage`.
   */
  method RebuildMessage(controls: Controls, field: Field, errs: map<Field, string>)
    returns (out: map<Field, string>)
    ensures out == errs[field := FieldMessage(controls, field)]
  {
    var msg := "";
    if ShowsErrors(controls, field) {
      var keys := controls[field.Name()].errors;
      var k := 0;
      while k < |keys|
        invariant 0 <= k <= |keys|
        invariant msg == ErrorText(field, keys[..k])
      {
        ErrorTextStep(field, keys, k);
        msg := msg + MessageFor(field, keys[k]) + " ";
        k := k + 1;
      }
      assert keys[..|keys|] == keys;
    }
    out := errs[field := msg];
  }

  /**
    `onValueChanged` as the component writes it: visit the keys of
    `formErrors` in order and rebuild each message in place.  It computes the
    same map as `OnValueChanged`.
   */
  method OnValueChangedLoop(form: Option<Controls>, formErrors: map<Field, string>)
    returns (errs: map<Field, string>)
    requires forall f: Field :: f in formErrors
    ensures errs == OnValueChanged(form, formErrors)
  {
    errs := formErrors;
    if form.None? {
      return;
    }
    var controls := form.value;
    var i := 0;
    while i < |TrackedFields|
      invariant 0 <= i <= |TrackedFields|
      invariant forall f: Field :: f in errs
      invariant forall j :: 0 <= j < i ==> errs[TrackedFields[j]] == FieldMessage(controls, TrackedFields[j])
    {
      errs := RebuildMessage(controls, TrackedFields[i], errs);
      i := i + 1;
    }
    assert TrackedFields[0] == AuthorField && TrackedFields[1] == CommentField;
    forall f: Field
      ensures errs[f] == FieldMessage(controls, f)
    {
      EveryField(f);
    }
  }
}
