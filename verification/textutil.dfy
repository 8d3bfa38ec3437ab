/**
 * `Util.replaceIllegalCharacters` (util/Util.java): every character that may
 * not appear in a file name becomes an underscore.
 */
module TextUtil {
  import opened JavaText

  /** `ILLEGAL_CHARACTERS`: / \n \r \t \0 \f ` ? * \ < > | " : */
  const ILLEGAL_CHARACTERS: seq<JChar> :=
    [0x2F, 0x0A, 0x0D, 0x09, 0x00, 0x0C, 0x60, 0x3F, 0x2A, 0x5C, 0x3C, 0x3E, 0x7C, 0x22, 0x3A]

  const UNDERSCORE: JChar := 0x5F

  /** One character after the replacement. */
  function SafeChar(c: JChar): JChar
  {
    if c in ILLEGAL_CHARACTERS then UNDERSCORE else c
  }

  /** The string with every illegal character replaced, character by character. */
  function Sanitized(s: JString): (r: JString)
    ensures |r| == |s|
  {
    seq(|s|, i requires 0 <= i < |s| => SafeChar(s[i]))
  }

  /**
   * `replaceIllegalCharacters(str)`: one `replace(c, '_')` per illegal
   * character, in table order. The result is `Sanitized(str)`: illegal
   * characters become '_' and every other character is kept.
   */
  method ReplaceIllegalCharacters(str: JString) returns (valid: JString)
    ensures valid == Sanitized(str)
    ensures forall i :: 0 <= i < |str| ==>
      valid[i] == (if str[i] in ILLEGAL_CHARACTERS then UNDERSCORE else str[i])
  {
    valid := str;
    var n := 0;
    while n < |ILLEGAL_CHARACTERS|
      invariant 0 <= n <= |ILLEGAL_CHARACTERS| && |valid| == |str|
      invariant forall i :: 0 <= i < |str| ==>
        valid[i] == (if str[i] in ILLEGAL_CHARACTERS[..n] then UNDERSCORE else str[i])
    {
      var c := ILLEGAL_CHARACTERS[n];
      valid := ReplaceChar(valid, c, UNDERSCORE);
      assert ILLEGAL_CHARACTERS[..n + 1] == ILLEGAL_CHARACTERS[..n] + [c];
      n := n + 1;
    }
    assert ILLEGAL_CHARACTERS[..n] == ILLEGAL_CHARACTERS;
  }

  /** The replacement is idempotent: '_' is not itself illegal. */
  lemma SanitizedIdempotent(s: JString)
    ensures Sanitized(Sanitized(s)) == Sanitized(s)
    ensures forall i :: 0 <= i < |s| ==> Sanitized(s)[i] !in ILLEGAL_CHARACTERS
  {
  }
}
