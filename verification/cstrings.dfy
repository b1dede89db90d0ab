/**
 * C strings at the boundary. Text is a sequence of characters (encoding is not
 * modelled); a C string is text that holds no NUL, since the NUL terminates it.
 */
module CStrings {
  import opened Options

  const NUL: char := '\0'

  predicate NoNul(s: seq<char>) {
    NUL !in s
  }

  /** The text a `char_p::Ref` or `char_p::Box` designates: never contains NUL. */
  type CStr = s: seq<char> | NoNul(s)

  /**
   * `CString::new`: succeeds exactly when the text has no interior NUL, and the
   * C string it builds holds the same characters.
   */
  function CStringNew(s: seq<char>): (r: Option<CStr>)
    ensures r.Some? <==> (forall i :: 0 <= i < |s| ==> s[i] != NUL)
    ensures r.Some? ==> r.value == s
  {
    if NoNul(s) then Some(s) else None
  }
}
