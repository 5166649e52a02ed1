/** Python 2 byte strings and the whitespace handling of `str.strip()` and
    `file.readline()`. */
module ByteStrings {

  /** One byte of a Python 2 `str`, written as the character with that code. */
  type ByteChar = c: char | c as int < 256 witness 'A'

  type Bytes = seq<ByteChar>

  /** The bytes C's `isspace` accepts: space, tab, newline, vertical tab,
      form feed and carriage return. */
  predicate IsSpace(c: char)
  {
    c == ' ' || c == '\t' || c == '\n' || c == '\r' || c as int == 11 || c as int == 12
  }

  /** How many whitespace bytes `s` starts with. */
  function LeadingSpaces(s: Bytes): (n: nat)
    ensures n <= |s|
    ensures forall i :: 0 <= i < n ==> IsSpace(s[i])
    ensures n < |s| ==> !IsSpace(s[n])
    decreases |s|
  {
    if |s| > 0 && IsSpace(s[0]) then 1 + LeadingSpaces(s[1..]) else 0
  }

  /** `s.rstrip()`: drop the trailing whitespace. */
  function StripRight(s: Bytes): (r: Bytes)
    ensures |r| <= |s| && r == s[..|r|]
    ensures forall i :: |r| <= i < |s| ==> IsSpace(s[i])
    ensures |r| > 0 ==> !IsSpace(r[|r| - 1])
    decreases |s|
  {
    if |s| > 0 && IsSpace(s[|s| - 1]) then StripRight(s[..|s| - 1]) else s
  }

  /** `s.strip()`: the slice of `s` after its leading whitespace, with every
      byte after it whitespace, neither starting nor ending with whitespace. */
  function Strip(s: Bytes): (r: Bytes)
    ensures LeadingSpaces(s) + |r| <= |s|
    ensures r == s[LeadingSpaces(s)..LeadingSpaces(s) + |r|]
    ensures forall i :: LeadingSpaces(s) + |r| <= i < |s| ==> IsSpace(s[i])
    ensures |r| > 0 ==> !IsSpace(r[0]) && !IsSpace(r[|r| - 1])
  {
    StripRight(s[LeadingSpaces(s)..])
  }

  /** Stripping leaves a string alone exactly when it has no whitespace at
      either end. */
  lemma StripIdentity(s: Bytes)
    ensures Strip(s) == s <==> (|s| == 0 || (!IsSpace(s[0]) && !IsSpace(s[|s| - 1])))
  {
    if |s| > 0 && !IsSpace(s[0]) && !IsSpace(s[|s| - 1]) {
      assert LeadingSpaces(s) == 0;
      assert s[0..] == s;
    }
  }

  predicate AllSpace(s: seq<char>)
  {
    forall i :: 0 <= i < |s| ==> IsSpace(s[i])
  }

  predicate NoSpace(s: Bytes)
  {
    forall i :: 0 <= i < |s| ==> !IsSpace(s[i])
  }

  lemma NoSpaceConcat(a: Bytes, b: Bytes)
    requires NoSpace(a) && NoSpace(b)
    ensures NoSpace(a + b)
  {
    assert forall i :: |a| <= i < |a + b| ==> (a + b)[i] == b[i - |a|];
  }

  /** A text without whitespace is a single line that stripping leaves alone. */
  lemma ReadLineWithoutSpace(s: Bytes)
    requires NoSpace(s)
    ensures Strip(FirstLine(s)) == s
  {
    assert '\n' !in s;
    StripIdentity(s);
  }

  /** `f.readline()` on a file holding `content`: everything up to and
      including the first newline, or all of it when there is none. */
  function FirstLine(content: Bytes): (r: Bytes)
    ensures r <= content
    ensures |r| == 0 || '\n' !in r[..|r| - 1]
    ensures '\n' !in content ==> r == content
    ensures '\n' in content ==> |r| > 0 && r[|r| - 1] == '\n'
    decreases |content|
  {
    if |content| == 0 then []
    else if content[0] == '\n' then ['\n']
    else [content[0]] + FirstLine(content[1..])
  }
}
