/** Results that may be absent or carry an error code. */
module Common {

  datatype Option<+T> = None | Some(value: T)

  /** A value, or the (negative) error code a C function returned instead. */
  datatype Result<+T> = Ok(value: T) | Err(code: int)
}

/** C strings in buffers. */
module CString {
  // The bytes of a buffer up to its NUL.
  function CText(field: string): (s: string)
    ensures '\0' !in s && |s| <= |field|
  {
    if field == "" || field[0] == '\0' then "" else [field[0]] + CText(field[1..])
  }

  lemma {:induction false} CTextOf(s: string, rest: string)
    requires '\0' !in s && (rest == "" || rest[0] == '\0')
    ensures CText(s + rest) == s
  {
    if s == "" {
      assert s + rest == rest;
    } else {
      assert (s + rest)[1..] == s[1..] + rest;
      CTextOf(s[1..], rest);
      assert s == [s[0]] + s[1..];
    }
  }

  /** It is the text in front of the first NUL, or the whole buffer if there is none. */
  lemma CTextIff(field: string, s: string)
    ensures CText(field) == s <==> IsFront(field, s)
  {
    CTextIsFront(field);
    if IsFront(field, s) { FrontIsUnique(field, s, CText(field)); }
  }

  predicate IsFront(field: string, s: string) {
    s <= field && '\0' !in s && (|s| == |field| || field[|s|] == '\0')
  }

  lemma {:induction false} CTextIsFront(field: string)
    ensures IsFront(field, CText(field))
  {
    if field != "" && field[0] != '\0' { CTextIsFront(field[1..]); }
  }

  lemma FrontIsUnique(field: string, s: string, t: string)
    requires IsFront(field, s) && IsFront(field, t)
    ensures s == t
  {
    forall m, n | 0 <= m < n <= |field| && field[m] == '\0' ensures '\0' in field[..n] {
      assert field[..n][m] == '\0';
    }
    assert s == field[..|s|] && t == field[..|t|];
  }
}
