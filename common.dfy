/** Values shared by the three admin controllers: optional form values, the
    outcome of a call to the remote API, and the kinds of notification the
    snackbar shows. */
module Common {

  datatype Option<+T> = None | Some(value: T)

  /** The outcome of one remote call: the body the server returned, or a
      failure (network error or non-2xx status), which the source catches. */
  datatype Reply<+T> = Delivered(body: T) | Failed

  /** The severity of a snackbar message (`showSuccess`, `showInfo`,
      `showError`); the message text and its timer are not modelled. */
  datatype Notice = Success | Info | Error

  /** A text form control: `None` stands for null or undefined. */
  type Text = Option<string>

  /** `Validators.required` on a text control: the value is neither null nor
      undefined, and not the empty string. */
  predicate RequiredText(t: Text)
  {
    t.Some? && |t.value| > 0
  }

  /** `Validators.required` on a select control whose options are numbers:
      only a missing value fails (a number has no length). */
  predicate RequiredChoice(v: Option<int>)
  {
    v.Some?
  }
}
