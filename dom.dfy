/** Values shared by every widget: an attribute that may be absent, and the
  * `"true"`/`"false"` strings that `String(bool)` writes into ARIA attributes. */
module Dom {

  /** An attribute value that may be missing (`getAttribute` returning null,
    * a `dataset` entry that is `undefined`). */
  datatype Option<T> = None | Some(value: T)

  /** `String(b)` for a boolean. */
  function BoolText(b: bool): (r: string)
    ensures r == "true" || r == "false"
  {
    if b then "true" else "false"
  }

  /** How the handlers read such an attribute back: `attr === "true"`. */
  predicate IsTrueText(s: string)
  {
    s == "true"
  }

  /** Writing a boolean and reading it back gives the boolean. */
  lemma BoolTextRoundTrip(b: bool)
    ensures IsTrueText(BoolText(b)) == b
  {
    if !b {
      assert BoolText(b)[0] == 'f';
    }
  }
}
