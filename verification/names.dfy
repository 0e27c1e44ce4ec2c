/**
  The folder-name and new-name check of api.php: the pattern
  `'/^[^\/\\:*?"<>|]+$/'` written in a single-quoted PHP string. PHP turns
  `\\` into one backslash, so PCRE sees the class `[^\/\:*?"<>|]`, where `\/`
  is '/' and `\:` is ':'. A backslash in the name is therefore allowed, and
  so are "." and "..".
 */
module Names {

  /** The characters the class excludes. */
  const Forbidden: set<char> := {'/', ':', '*', '?', '"', '<', '>', '|'}

  /** The name is non-empty and free of forbidden characters. */
  predicate ValidName(s: string) {
    |s| > 0 && forall i :: 0 <= i < |s| ==> s[i] !in Forbidden
  }

  /** The anchored match, scanned one character at a time as the regex
      engine does: `^`, then one or more class characters up to `$`. */
  method MatchNamePattern(s: string) returns (ok: bool)
    ensures ok <==> ValidName(s)
    ensures ok ==> forall i :: 0 <= i < |s| ==> s[i] != '/'
  {
    if |s| == 0 {
      return false;
    }
    var i := 0;
    while i < |s|
      invariant 0 <= i <= |s|
      invariant forall k :: 0 <= k < i ==> s[k] !in Forbidden
    {
      if s[i] in Forbidden {
        return false;
      }
      i := i + 1;
    }
    return true;
  }

  /** Backslash, "." and ".." pass the check. */
  lemma LaxNamesAccepted()
    ensures ValidName("a\\b")
    ensures ValidName(".")
    ensures ValidName("..")
  {
  }

  /** The empty name, a name with '/', and one with ':' fail the check. */
  lemma NamesRejected()
    ensures !ValidName("")
    ensures !ValidName("a/b")
    ensures !ValidName("c:")
  {
    assert "a/b"[1] == '/';
    assert "c:"[1] == ':';
  }
}
