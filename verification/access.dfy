/** The `require_can_edit` decorator of main.py: the cookie test guarding the editing handlers. */
module Access {
  import opened Wrappers
  import opened Strings

  /**
   * Whether a request with this `can_edit` cookie (None when absent) reaches
   * the handler; otherwise the decorator answers 401 and the handler never runs.
   */
  predicate CanEdit(cookie: Option<string>) {
    Lower(cookie.GetOr("")) == "true"
  }

  /** Exactly the sixteen upper/lower-case spellings of "true" are admitted. */
  lemma CanEditSpellings(cookie: Option<string>)
    ensures CanEdit(cookie) <==>
      && cookie.Some? && |cookie.value| == 4
      && forall i :: 0 <= i < 4 ==> cookie.value[i] == "true"[i] || cookie.value[i] == "TRUE"[i]
  {
    var c := cookie.GetOr("");
    if CanEdit(cookie) {
      assert |c| == 4;
      assert forall i :: 0 <= i < 4 ==> LowerChar(c[i]) == "true"[i];
    }
  }
}
