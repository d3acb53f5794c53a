/**
  Submitting the comment form (`onSubmit` and the form defaults of
  `createForm` in src/app/dishdetail/dishdetail.component.ts).

  The component takes the form's value as the new comment, stamps it with the
  current time, appends it to the dish's comment list, sends the dish to the
  data service and resets the form at once, without waiting for the reply.
  The reply later either replaces the dish with the server's copy or clears
  it and records the error text.

  The component keeps two fields, `dish` and `dishCopy`, but every assignment
  sets both to the same object, so appending to `dishCopy.comments` also
  appends to `dish.comments`.  The model therefore keeps one `dish`.
 */
module Submission {
  import opened Wrappers
  import Validation

  /** A user's rating and remark on a dish; also the shape of the form's value. */
  datatype Comment = Comment(rating: int, comment: string, author: string, date: string)

  /** The part of a dish this component changes: its id and its comments. */
  datatype Dish = Dish(id: string, comments: seq<Comment>)

  /** The comment form: its current value and the state of its controls. */
  datatype Form = Form(value: Comment, controls: Validation.Controls)

  /** The page state that submitting touches. */
  datatype Detail = Detail(dish: Option<Dish>, errMess: Option<string>, form: Form)

  /** The form's value when it is created: a rating of 3 and empty texts. */
  const InitialValue: Comment := Comment(3, "", "", "")

  /** The form's value after a submission: a rating of 1 and empty texts. */
  const ResetValue: Comment := Comment(1, "", "", "")

  /** Why a submission stopped before reaching the data service. */
  datatype SubmitError =
    /** `dishCopy` is null after a failed save, so `dishCopy.comments` throws. */
    NoDish

  /** What a submission produces: the dish sent to the service and the new page state. */
  datatype Submitted = Submitted(request: Dish, state: Detail)

  /** The data service's reply to the save. */
  datatype PutOutcome = Saved(saved: Dish) | Rejected(message: string)

  /**
    `commentForm.reset(...)`: the value goes back to the submission defaults and
    every control becomes pristine.  The validators' verdicts are kept as they
    are; they are recomputed by the form library, which is not modelled.
   */
  function Reset(form: Form): (r: Form)
    ensures r.value == ResetValue && r.value.rating != InitialValue.rating
    ensures r.controls.Keys == form.controls.Keys
    ensures forall name :: name in r.controls ==> !r.controls[name].dirty
    ensures forall name :: name in r.controls ==>
              r.controls[name].valid == form.controls[name].valid
              && r.controls[name].errors == form.controls[name].errors
  {
    Form(ResetValue, map name | name in form.controls :: form.controls[name].(dirty := false))
  }

  /**
    `onSubmit` up to the moment the reply arrives.  The form's value, dated
    `now`, becomes the last comment of the dish; the earlier comments stay as
    they were; the dish with the new comment is what is sent; the form is reset.
    Without a dish the append throws and nothing the model tracks changes.
   */
  function Submit(s: Detail, now: string): (r: Result<Submitted, SubmitError>)
    ensures s.dish.None? <==> r.Failure?
    ensures r.Success? ==>
              var before := s.dish.value.comments;
              var sent := r.value.request;
              && sent.id == s.dish.value.id
              && |sent.comments| == |before| + 1
              && sent.comments[..|before|] == before
              && sent.comments[|before|] == Comment(s.form.value.rating, s.form.value.comment, s.form.value.author, now)
    ensures r.Success? ==>
              var t := r.value.state;
              && t.dish == Some(r.value.request)
              && t.errMess == s.errMess
              && t.form == Reset(s.form)
  {
    match s.dish
    case None => Failure(NoDish)
    case Some(d) =>
      var comment := s.form.value.(date := now);
      var sent := d.(comments := d.comments + [comment]);
      Success(Submitted(sent, s.(dish := Some(sent), form := Reset(s.form))))
  }

  /**
    The reply to the save: success replaces the dish with the server's copy;
    failure clears the dish and records the message.  The form, already reset,
    is left as it was.
   */
  function OnPutResponse(s: Detail, outcome: PutOutcome): (r: Detail)
    ensures r.form == s.form
    ensures outcome.Saved? ==> r.dish == Some(outcome.saved) && r.errMess == s.errMess
    ensures outcome.Rejected? ==> r.dish == None && r.errMess == Some(outcome.message)
  {
    match outcome
    case Saved(d) => s.(dish := Some(d))
    case Rejected(m) => s.(dish := None, errMess := Some(m))
  }

  /**
    After a submission the form shows no validation message: resetting it
    emits a value change, and every control is pristine by then.
   */
  lemma SubmitClearsMessages(s: Detail, now: string, formErrors: map<Validation.Field, string>)
    requires Submit(s, now).Success?
    ensures forall f: Validation.Field ::
              Validation.OnValueChanged(Some(Submit(s, now).value.state.form.controls), formErrors)[f] == ""
  {
    var controls := Submit(s, now).value.state.form.controls;
    Validation.PristineHasNoMessages(controls);
    Validation.OnValueChangedIdempotent(controls, formErrors, map[]);
  }

  /**
    The reset does not wait for the reply: whatever the service answers, the
    form holds the submission defaults with every control pristine.
   */
  lemma ResetRegardlessOfOutcome(s: Detail, now: string, outcome: PutOutcome)
    requires s.dish.Some?
    ensures Submit(s, now).Success?
    ensures var t := OnPutResponse(Submit(s, now).value.state, outcome);
            t.form.value == ResetValue
            && forall name :: name in t.form.controls ==> !t.form.controls[name].dirty
  {
  }

  /**
    A rejected save leaves no dish, so the next submission stops with the
    error the null `dishCopy` raises.
   */
  lemma RejectedThenSubmitFails(s: Detail, now: string, message: string, later: string)
    requires Submit(s, now).Success?
    ensures Submit(OnPutResponse(Submit(s, now).value.state, Rejected(message)), later) == Failure(NoDish)
  {
  }

  /**
    Two submissions in a row append two comments, in order, to the dish
    being edited when no reply has arrived in between.
   */
  lemma {:induction false} TwoSubmissionsAppendInOrder(s: Detail, t1: string, t2: string)
    requires s.dish.Some?
    ensures Submit(s, t1).Success?
    ensures Submit(Submit(s, t1).value.state, t2).Success?
    ensures var d2 := Submit(Submit(s, t1).value.state, t2).value.request;
            var before := s.dish.value.comments;
            && |d2.comments| == |before| + 2
            && d2.comments[..|before|] == before
            && d2.comments[|before|]
               == Comment(s.form.value.rating, s.form.value.comment, s.form.value.author, t1)
            && d2.comments[|before| + 1] == Comment(1, "", "", t2)
  {
    var r1 := Submit(s, t1).value;
    var r2 := Submit(r1.state, t2).value;
    assert r2.request.comments[..|r1.request.comments|] == r1.request.comments;
  }
}
