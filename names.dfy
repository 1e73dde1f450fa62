/** File-name validation applied before every file command. */
module Names {
  import opened Layout

  /** Characters a file name may contain: ASCII letters, digits and '.'. */
  predicate IsNameChar(c: char)
  {
    ('a' <= c <= 'z') || ('A' <= c <= 'Z') || ('0' <= c <= '9') || c == '.'
  }

  /** A stored name: at most NameLength characters, each a name character. */
  predicate NameOk(s: string)
  {
    |s| <= NameLength && forall i :: 0 <= i < |s| ==> IsNameChar(s[i])
  }

  /** A command argument (absent when the command line had too few words) that names a file. */
  predicate ValidName(name: Option<string>)
  {
    name.Some? && NameOk(name.value)
  }

  /**
   * The validator: rejects a missing argument, then a name longer than
   * NameLength, then a name with any character other than a letter, a
   * digit or '.'.
   */
  method CheckName(name: Option<string>) returns (ok: bool)
    ensures ok <==> ValidName(name)
  {
    if name.None? {
      return false;
    }
    var s := name.value;
    if |s| > NameLength {
      return false;
    }
    var i := 0;
    while i < |s|
      invariant 0 <= i <= |s|
      invariant forall j :: 0 <= j < i ==> IsNameChar(s[j])
    {
      if !IsNameChar(s[i]) {
        return false;
      }
      i := i + 1;
    }
    return true;
  }
}
