# Dish detail page: navigation, validation messages and comment submission

A model of the logic inside the dish detail component of a restaurant-menu
application (`DishdetailComponent`).  The component shows one dish, links to the
previous and next dish in the menu's order, and carries a comment form whose
validation messages it rebuilds on every edit.  Angular, RxJS, the HTTP-backed
dish service and the clock are abstracted away; what remains is three pieces of
deterministic logic, each written as pure functions over immutable values.

- `navigator.dfy` (module `Navigator`): `setPrevNext`.  The id is looked up with
  `indexOf` and the neighbours are read at `(n + i - 1) % n` and `(n + i + 1) % n`
  with JavaScript's truncating `%`, modelled explicitly as `JsRemainder`.  An id
  that is not in the list (index -1) is modelled, not excluded, and so is the
  empty list (a NaN index, so both links are `undefined`, here `None`).
- `validation.dfy` (module `Validation`): the `validationMessages` table and
  `onValueChanged`, once as a pure function returning a fresh message map and
  once as the nested loop the component runs, proved to compute the same map.
  The control state (dirty flag, validity, active error keys) is an input.
- `submission.dfy` (module `Submission`): `onSubmit`, the form's defaults, and
  the service's reply supplied as an input (`Saved` or `Rejected`).  The
  timestamp is a parameter.
- `wrappers.dfy` (module `Wrappers`): `Option` and `Result`.

Behaviour of the code worth knowing:

- For an id that is not in the list the neighbours are the second-to-last id
  (the only id when there is one) and the first id.
- `dish` and `dishCopy` are always assigned the same object, so appending a
  comment to `dishCopy.comments` also changes `dish`.  The model keeps a
  single `dish`.
- `onSubmit` does not check that the form is valid before appending the
  comment; only the page template could prevent an invalid submission.

## Model

| member | source | states |
|---|---|---|
| Navigator.IndexOf | src/app/dishdetail/dishdetail.component.ts:143 | the result is -1 exactly when the id is absent; otherwise it is the first position holding the id |
| Navigator.JsRemainder | src/app/dishdetail/dishdetail.component.ts:144-145 | JavaScript's `%`: magnitude below the divisor, sign of the dividend, equal to the Euclidean remainder for non-negative dividends and to minus the Euclidean remainder of the dividend's magnitude for negative ones |
| Navigator.PrevIndex | src/app/dishdetail/dishdetail.component.ts:144 | for every index `indexOf` can return the prev index is in range; for a found id it is the ring predecessor, for -1 it is `n-2` (0 when `n = 1`) |
| Navigator.NextIndex | src/app/dishdetail/dishdetail.component.ts:145 | for every index `indexOf` can return the next index is in range; for a found id it is the ring successor, for -1 it is 0 |
| Navigator.SetPrevNext | src/app/dishdetail/dishdetail.component.ts:142-146 | there are links exactly when the list is non-empty, and both links are ids of the list whether or not the current id is present |
| Navigator.IndexOfFirst | src/app/dishdetail/dishdetail.component.ts:143 | `indexOf` finds an id at its first occurrence |
| Navigator.IndexOfDistinct | src/app/dishdetail/dishdetail.component.ts:143 | in a list without repeats every id is found at its own position |
| Navigator.PresentNeighbours | src/app/dishdetail/dishdetail.component.ts:142-146 | for the id at first position `i`, prev is `ids[(i-1+n) % n]` and next is `ids[(i+1) % n]` |
| Navigator.AbsentNeighbours | src/app/dishdetail/dishdetail.component.ts:143-145 | for an absent id, prev is `ids[n-2]` (`ids[0]` when `n = 1`) and next is `ids[0]` |
| Navigator.WrapsBeforeFirst | src/app/dishdetail/dishdetail.component.ts:144 | the prev of the first id is the last id |
| Navigator.WrapsAfterLast | src/app/dishdetail/dishdetail.component.ts:145 | the next of the last id, when it occurs only there, is the first id |
| Navigator.SingletonNeighbours | src/app/dishdetail/dishdetail.component.ts:144-145 | in a one-element list both links are that element, for any current id |
| Navigator.NeighboursInverse | src/app/dishdetail/dishdetail.component.ts:144-145 | with distinct ids and a present current id, the next of prev and the prev of next are the current id |
| Navigator.NeighboursAreOthers | src/app/dishdetail/dishdetail.component.ts:144-145 | with two or more distinct ids neither link is the current id; with three or more the links differ |
| Navigator.RemaindersAgree | src/app/dishdetail/dishdetail.component.ts:144-145 | on every dividend the navigator can form, JavaScript's and Dafny's remainders agree |
| Validation.EveryField | src/app/dishdetail/dishdetail.component.ts:39-42 | case split over the two keys of `formErrors`: every field is `AuthorField` or `CommentField` |
| Validation.ValidationMessages | src/app/dishdetail/dishdetail.component.ts:44-52 | both fields have a "required" text, only the author has a "minlength" text, and no other key has a text |
| Validation.ShowsErrors | src/app/dishdetail/dishdetail.component.ts:87-88 | a field shows errors exactly when its control exists, is dirty and is not valid: a missing, pristine or valid control never does |
| Validation.FieldMessage | src/app/dishdetail/dishdetail.component.ts:86-95 | one field's rebuilt message is empty exactly when its control is missing, pristine or valid or reports no error key, and is its keys' messages otherwise |
| Validation.MessageFor | src/app/dishdetail/dishdetail.component.ts:44-52 | a key of the field's table gives its text; any other validator key gives "undefined", the rendering of a missing table entry |
| Validation.ErrorText | src/app/dishdetail/dishdetail.component.ts:89-94 | the message is empty only for no error keys, is longer than the number of keys, and ends in a blank otherwise |
| Validation.Recompute | src/app/dishdetail/dishdetail.component.ts:83-97 | every tracked field gets an entry: empty when its control is missing, pristine or valid, and its keys' messages in order when dirty and invalid |
| Validation.OnValueChanged | src/app/dishdetail/dishdetail.component.ts:78-98 | no form leaves the messages unchanged; otherwise every tracked field's message is derived from the controls alone |
| Validation.ErrorTextAppend | src/app/dishdetail/dishdetail.component.ts:90-94 | the message of concatenated key lists is the concatenation of their messages |
| Validation.ErrorTextSingle | src/app/dishdetail/dishdetail.component.ts:92 | one key contributes its message followed by one blank |
| Validation.ErrorTextStep | src/app/dishdetail/dishdetail.component.ts:90-94 | each further key appends its message and a blank to what came before |
| Validation.MessageEmptyIff | src/app/dishdetail/dishdetail.component.ts:86-95 | a field's message is empty if and only if its control is missing, pristine, valid or reports no error key |
| Validation.OnValueChangedIdempotent | src/app/dishdetail/dishdetail.component.ts:86 | the previous messages never influence the result, so recomputing with unchanged controls is idempotent |
| Validation.ValidHasNoMessage | src/app/dishdetail/dishdetail.component.ts:88 | a field whose control is valid gets the empty message, whatever the previous messages and the dirty flag |
| Validation.PristineHasNoMessages | src/app/dishdetail/dishdetail.component.ts:88 | when no control is dirty every message is empty, valid or not |
| Validation.EmptyDirtyForm | src/app/dishdetail/dishdetail.component.ts:44-52 | dirty (edited) empty author and comment fields read "Name is required. " and "Comment is required. " |
| Validation.RebuildMessage | src/app/dishdetail/dishdetail.component.ts:86-95 | clearing and re-accumulating one field's message in a loop changes only that entry and yields the functional message |
| Validation.OnValueChangedLoop | src/app/dishdetail/dishdetail.component.ts:78-98 | the component's nested loop computes exactly the map `OnValueChanged` defines |
| Submission.Reset | src/app/dishdetail/dishdetail.component.ts:116-121 | after reset the value is rating 1 with empty texts (not the creation rating of 3) and every control is pristine |
| Submission.Submit | src/app/dishdetail/dishdetail.component.ts:100-121 | without a dish the submission fails; otherwise exactly one comment, the form's value dated `now`, is appended after the unchanged earlier ones, that dish is sent and kept, and the form is reset |
| Submission.OnPutResponse | src/app/dishdetail/dishdetail.component.ts:106-114 | a saved reply installs the server's dish; a rejection clears the dish and records the message; the form is left as it was |
| Submission.SubmitClearsMessages | src/app/dishdetail/dishdetail.component.ts:70-74 | the value change the reset emits leaves every validation message empty |
| Submission.ResetRegardlessOfOutcome | src/app/dishdetail/dishdetail.component.ts:105-121 | whatever the service replies, the form afterwards holds the reset defaults with pristine controls |
| Submission.RejectedThenSubmitFails | src/app/dishdetail/dishdetail.component.ts:104-112 | after a rejected save the next submission fails because there is no dish |
| Submission.TwoSubmissionsAppendInOrder | src/app/dishdetail/dishdetail.component.ts:101-121 | two submissions without a reply between append two comments in order: the first is the form's value dated with the first time, the second the reset defaults dated with the second |

## Left out

- `ngOnInit` (the route parameter stream, `getDish`, `getDishIds` and the `visibility` flag): asynchronous streams over an HTTP service; the navigator takes the id list and the current id as inputs.
- `setPrevNext` before `getDishIds` has answered: `dishIds` is then undefined and the call throws; the model always receives a list.
- The `@Component` metadata, the constructor's injected services, the `BaseURL` token, `@ViewChild` and `commentFormDirective.resetForm()`: framework plumbing; their net effect on the form (defaults, pristine controls) is part of `Reset`.
- The form library's validators (`Validators.required`, `Validators.minLength(2)`): which error keys are active, and whether a control is valid, are inputs to the message computation.
- Reset: keeps each control's validity and error keys instead of re-running the validators, which are not modelled; the messages do not depend on them once every control is pristine.
- The `valueChanges` subscription in `createForm`: modelled as calling `OnValueChanged` after each change; the initial call sees only pristine controls (`PristineHasNoMessages`).
- `new Date().toISOString()`, `console.log` and `location.back()`: clock, logging and navigation; the timestamp is the `now` parameter.
- Fields of a dish other than its id and comments: the dish type (src/app/shared/dish.ts) is not part of this model.
- Replies arriving in any order: each reply is applied with `OnPutResponse` as it comes; there is no request ordering to model.
- JavaScript number semantics beyond the remainder: ids are strings and indices stay small integers.
