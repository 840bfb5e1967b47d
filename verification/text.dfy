/**
 JavaScript's `String.prototype.trim`, used by the add-task guard to reject names
 that consist of white space only.
 */
module Text {

  /**
   The characters `trim` removes: ECMAScript WhiteSpace (tab, vertical tab, form feed,
   space, no-break space, byte order mark and the Unicode space separators) and
   LineTerminator (line feed, carriage return, line and paragraph separators).
   */
  function IsWhiteSpace(c: char): (white: bool)
    ensures c < '\U{0080}' ==>
              (white <==> c == '\t' || c == '\n' || c == '\U{000B}' || c == '\U{000C}' || c == '\r' || c == ' ')
  {
    || c == '\t' || c == '\U{000B}' || c == '\U{000C}' || c == ' '
    || c == '\U{00A0}' || c == '\U{FEFF}' || c == '\U{1680}'
    || ('\U{2000}' <= c <= '\U{200A}')
    || c == '\U{202F}' || c == '\U{205F}' || c == '\U{3000}'
    || c == '\n' || c == '\r' || c == '\U{2028}' || c == '\U{2029}'
  }

  /** `s` with its leading white space removed: the longest suffix not starting with white space. */
  function TrimStart(s: string): (r: string)
    ensures |r| <= |s| && r == s[|s| - |r|..]
    ensures forall i :: 0 <= i < |s| - |r| ==> IsWhiteSpace(s[i])
    ensures r != [] ==> !IsWhiteSpace(r[0])
  {
    if s != [] && IsWhiteSpace(s[0]) then TrimStart(s[1..]) else s
  }

  /** `s` with its trailing white space removed: the longest prefix not ending in white space. */
  function TrimEnd(s: string): (r: string)
    ensures |r| <= |s| && r == s[..|r|]
    ensures forall i :: |r| <= i < |s| ==> IsWhiteSpace(s[i])
    ensures r != [] ==> !IsWhiteSpace(r[|r| - 1])
  {
    if s != [] && IsWhiteSpace(s[|s| - 1]) then TrimEnd(s[..|s| - 1]) else s
  }

  /**
   `s.trim()`: white space removed from both ends. The result is empty exactly when
   every character of `s` is white space, and otherwise it starts and ends with a
   character that is not.
   */
  function Trim(s: string): (r: string)
    ensures |r| <= |s|
    ensures r == [] <==> forall i :: 0 <= i < |s| ==> IsWhiteSpace(s[i])
    ensures r != [] ==> !IsWhiteSpace(r[0]) && !IsWhiteSpace(r[|r| - 1])
  {
    var t := TrimStart(s);
    var r := TrimEnd(t);
    assert r == [] ==> t == [];
    assert r != [] ==> !IsWhiteSpace(r[0]) by {
      if r != [] {
        assert r[0] == t[0];
      }
    }
    r
  }

  /**
   A blank name: one the add-task guard rejects because it trims to the empty string,
   which happens exactly when every character is white space.
   */
  function IsBlank(s: string): (blank: bool)
    ensures blank <==> forall i :: 0 <= i < |s| ==> IsWhiteSpace(s[i])
  {
    Trim(s) == ""
  }
}
