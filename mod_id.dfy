/**
 * The check discovery makes on every mod ID before a candidate is filed:
 * the ID must be present, non-empty, and match `[a-z][a-z0-9-_]{1,63}`
 * as a whole.
 */
module ModIds {
  import opened Wrappers

  predicate LowerLetter(ch: char)
  {
    'a' <= ch <= 'z'
  }

  /** The character class `[a-z0-9-_]`. */
  predicate IdChar(ch: char)
  {
    LowerLetter(ch) || '0' <= ch <= '9' || ch == '-' || ch == '_'
  }

  /** `s` matches `[a-z0-9-_]{lo,hi}` as a whole. */
  predicate RepeatIdChars(s: string, lo: nat, hi: nat)
  {
    if s == [] then lo == 0
    else hi > 0 && IdChar(s[0]) && RepeatIdChars(s[1..], if lo == 0 then 0 else lo - 1, hi - 1)
  }

  /** `MOD_ID_PATTERN.matcher(id).matches()` for `[a-z][a-z0-9-_]{1,63}`. */
  predicate ModIdValid(id: string)
  {
    id != [] && LowerLetter(id[0]) && RepeatIdChars(id[1..], 1, 63)
  }

  lemma {:induction false} RepeatIdCharsIff(s: string, lo: nat, hi: nat)
    ensures RepeatIdChars(s, lo, hi) <==> lo <= |s| <= hi && forall i :: 0 <= i < |s| ==> IdChar(s[i])
  {
    if s != [] && hi > 0 {
      RepeatIdCharsIff(s[1..], if lo == 0 then 0 else lo - 1, hi - 1);
      assert forall i :: 1 <= i < |s| ==> s[1..][i - 1] == s[i];
    }
  }

  /**
   * A valid ID starts with a lower-case letter, is 2 to 64 characters long,
   * and every later character is a lower-case letter, a digit, `-` or `_`.
   */
  lemma ModIdValidIff(id: string)
    ensures ModIdValid(id) <==>
      && 2 <= |id| <= 64
      && LowerLetter(id[0])
      && forall i :: 1 <= i < |id| ==> IdChar(id[i])
  {
    if id != [] {
      RepeatIdCharsIff(id[1..], 1, 63);
      assert forall i :: 1 <= i < |id| ==> id[1..][i - 1] == id[i];
    }
  }

  /** Why discovery rejects a candidate's ID. */
  datatype IdError =
    /** "Mod file ... has no id" */
    | NoId
    /** "Mod id ... does not match the requirements" */
    | BadId(id: string)

  /** The ID checks of discovery, in order: present and non-empty, then the pattern. */
  function CheckModId(id: Option<string>): (r: Option<IdError>)
    ensures r.None? <==> id.Some? && ModIdValid(id.value)
    ensures r == Some(NoId) <==> id == None || id == Some("")
  {
    if id.None? || id.value == "" then Some(NoId)
    else if !ModIdValid(id.value) then Some(BadId(id.value))
    else None
  }

  /** One letter is too short: the repetition needs at least one more character. */
  lemma SingleLetterRejected(ch: char)
    requires LowerLetter(ch)
    ensures CheckModId(Some([ch])) == Some(BadId([ch]))
  {
    ModIdValidIff([ch]);
  }
}
