/**
 * The decisions of the add/edit credential form (PasswordFormScreen),
 * lifted out of the screen as pure functions: edit mode, the submit
 * guard, the blank-to-null mapping of the optional fields, the form
 * filled from a stored row, and the reaction to the operation state.
 */
module PasswordForm {
  import opened Wrappers
  import opened Entities
  import VM = PasswordViewModel

  /** Kotlin's `Char.isWhitespace`: Java whitespace or a Unicode space separator. */
  predicate IsWhitespace(c: char) {
    c == '\t' || c == '\n' || c == '\U{000B}' || c == '\U{000C}' || c == '\r' ||
    ('\U{001C}' <= c <= '\U{001F}') || c == ' ' || c == '\U{00A0}' || c == '\U{1680}' ||
    ('\U{2000}' <= c <= '\U{200A}') || c == '\U{2028}' || c == '\U{2029}' || c == '\U{202F}' ||
    c == '\U{205F}' || c == '\U{3000}'
  }

  /** `String.isBlank`: empty, or whitespace only. */
  function IsBlank(s: string): (b: bool)
    ensures b <==> forall i :: 0 <= i < |s| ==> IsWhitespace(s[i])
  {
    if s == [] then true else IsWhitespace(s[0]) && IsBlank(s[1..])
  }

  /** `if (x.isBlank()) null else x`: a blank optional field is sent as null, any other verbatim. */
  function OptionalField(s: string): (o: Option<string>)
    ensures o.None? <==> forall i :: 0 <= i < |s| ==> IsWhitespace(s[i])
    ensures o.Some? ==> o.value == s
  {
    if IsBlank(s) then None else Some(s)
  }

  /** The six text fields of the form. */
  datatype Fields = Fields(username: string, password: string, phone: string,
                           email: string, platform: string, note: string)

  /** The fields a new form starts with. */
  const EmptyFields := Fields("", "", "", "", "", "")

  /** `isEditMode = passwordId != null`: the screen edits exactly when it was opened on a row id. */
  function IsEditMode(passwordId: Option<int>): (b: bool)
    ensures b <==> passwordId != None
  {
    passwordId.Some?
  }

  /**
   * The button's `enabled`: username, password and platform each hold a
   * non-whitespace character, and no operation is in flight.
   */
  function SubmitEnabled(f: Fields, state: VM.OperationState): (b: bool)
    ensures b <==>
              (exists i :: 0 <= i < |f.username| && !IsWhitespace(f.username[i])) &&
              (exists i :: 0 <= i < |f.password| && !IsWhitespace(f.password[i])) &&
              (exists i :: 0 <= i < |f.platform| && !IsWhitespace(f.platform[i])) &&
              !state.Loading?
  {
    !IsBlank(f.username) && !IsBlank(f.password) && !IsBlank(f.platform) && !state.Loading?
  }

  /** The view-model call the button makes. */
  datatype FormAction = Add(c: Credential) | Update(id: int, c: Credential)

  /**
   * The button's `onClick`: `updatePassword(passwordId, …)` in edit mode,
   * `addPassword(…)` otherwise; required fields go as typed, optional ones
   * through `OptionalField`.
   */
  function Submit(f: Fields, passwordId: Option<int>): (a: FormAction)
    ensures a.Update? <==> IsEditMode(passwordId)
    ensures a.Update? ==> a.id == passwordId.value
    ensures a.c.username == f.username && a.c.password == f.password && a.c.platform == f.platform
    ensures a.c.phone.None? <==> IsBlank(f.phone)
    ensures a.c.email.None? <==> IsBlank(f.email)
    ensures a.c.note.None? <==> IsBlank(f.note)
    ensures a.c.phone.Some? ==> a.c.phone.value == f.phone
    ensures a.c.email.Some? ==> a.c.email.value == f.email
    ensures a.c.note.Some? ==> a.c.note.value == f.note
  {
    var c := Credential(f.username, f.password, OptionalField(f.phone), OptionalField(f.email),
                        f.platform, OptionalField(f.note));
    if passwordId.Some? then Update(passwordId.value, c) else Add(c)
  }

  /**
   * The form after loading `getPasswordById(passwordId)` in edit mode: a
   * stored row fills every field, null optionals as ""; a missing row
   * leaves the empty form.
   */
  function LoadedFields(existing: Option<PasswordRecord>): (f: Fields)
    ensures existing.None? ==> f == EmptyFields
    ensures existing.Some? ==>
              f.username == existing.value.username && f.password == existing.value.password &&
              f.platform == existing.value.platform
    ensures existing.Some? ==> f.phone == existing.value.phone.GetOr("")
    ensures existing.Some? ==> f.email == existing.value.email.GetOr("")
    ensures existing.Some? ==> f.note == existing.value.note.GetOr("")
  {
    match existing
    case None => EmptyFields
    case Some(r) => Fields(r.username, r.password, r.phone.GetOr(""), r.email.GetOr(""),
                           r.platform, r.note.GetOr(""))
  }

  /** What resubmitting a loaded optional field sends: null and whitespace-only become null. */
  function Resubmitted(o: Option<string>): Option<string> {
    if o.Some? && !IsBlank(o.value) then o else None
  }

  /**
   * Submitting a loaded row unchanged updates that id with its own
   * required fields, keeps each null optional null and each non-blank
   * optional as it was, and turns a whitespace-only optional into null.
   */
  lemma ResubmitLoaded(r: PasswordRecord)
    ensures var a := Submit(LoadedFields(Some(r)), Some(r.id));
            a.Update? && a.id == r.id &&
            a.c.username == r.username && a.c.password == r.password && a.c.platform == r.platform &&
            a.c.phone == Resubmitted(r.phone) && a.c.email == Resubmitted(r.email) &&
            a.c.note == Resubmitted(r.note)
  {
    assert IsBlank("");
  }

  /** Hence, when no optional of the row is whitespace-only, the update carries exactly the row's content. */
  lemma {:induction false} ResubmitKeepsContent(r: PasswordRecord)
    requires r.phone.Some? ==> !IsBlank(r.phone.value)
    requires r.email.Some? ==> !IsBlank(r.email.value)
    requires r.note.Some? ==> !IsBlank(r.note.value)
    ensures Submit(LoadedFields(Some(r)), Some(r.id)) == Update(r.id, r.Content())
  {
    ResubmitLoaded(r);
  }

  /** An enabled button never sends a blank required field. */
  lemma EnabledSubmitHasRequired(f: Fields, state: VM.OperationState, passwordId: Option<int>)
    requires SubmitEnabled(f, state)
    ensures var c := Submit(f, passwordId).c;
            !IsBlank(c.username) && !IsBlank(c.password) && !IsBlank(c.platform)
  {
  }

  /** The screen's side effects on an operation state. */
  datatype Reaction = Reaction(navigateBack: bool, snackbar: Option<string>, resetState: bool)

  /**
   * `LaunchedEffect(passwordOperationState)`: Success navigates back and
   * resets; Error shows its message and resets; Initial and Loading do
   * nothing.
   */
  function OnOperationState(state: VM.OperationState): (e: Reaction)
    ensures e.navigateBack <==> state.Success?
    ensures e.snackbar.Some? <==> state.Error?
    ensures state.Error? ==> e.snackbar.value == state.message
    ensures e.resetState <==> state.Success? || state.Error?
  {
    match state
    case Success(_) => Reaction(true, None, true)
    case Error(m) => Reaction(false, Some(m), true)
    case _ => Reaction(false, None, false)
  }
}
