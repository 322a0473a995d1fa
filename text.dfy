/**
  The whitespace trimming that both input forms rely on, in the manner of
  JavaScript's `String.prototype.trim`: strip the longest run of white space
  at each end. White space is the set of characters ECMAScript classes as
  WhiteSpace or LineTerminator.
 */
module Text {

  predicate IsSpace(c: char) {
    c == ' ' || c == '\t' || c == '\n' || c == '\r' ||
    c == '\U{000B}' || c == '\U{000C}' || c == '\U{00A0}' || c == '\U{1680}' ||
    ('\U{2000}' <= c <= '\U{200A}') ||
    c == '\U{2028}' || c == '\U{2029}' || c == '\U{202F}' || c == '\U{205F}' ||
    c == '\U{3000}' || c == '\U{FEFF}'
  }

  predicate AllSpace(s: string) {
    forall i :: 0 <= i < |s| ==> IsSpace(s[i])
  }

  /** Neither end of `s` is white space (the empty string qualifies). */
  predicate IsTrimmed(s: string) {
    s == [] || (!IsSpace(s[0]) && !IsSpace(s[|s| - 1]))
  }

  /** Length of the white-space run at the start of `s`. */
  function LeadingSpaces(s: string): (n: nat)
    ensures n <= |s|
    ensures AllSpace(s[..n])
    ensures n < |s| ==> !IsSpace(s[n])
  {
    if s == [] || !IsSpace(s[0]) then 0
    else
      var k := LeadingSpaces(s[1..]);
      assert s[..k + 1] == [s[0]] + s[1..][..k];
      k + 1
  }

  /** Length of the white-space run at the end of `s`. */
  function TrailingSpaces(s: string): (n: nat)
    ensures n <= |s|
    ensures AllSpace(s[|s| - n..])
    ensures n < |s| ==> !IsSpace(s[|s| - 1 - n])
  {
    if s == [] || !IsSpace(s[|s| - 1]) then 0
    else
      var init := s[..|s| - 1];
      var k := TrailingSpaces(init);
      assert s[|s| - (k + 1)..] == init[|init| - k..] + [s[|s| - 1]];
      k + 1
  }

  /**
    A slice of `s` cut between white-space ends, and starting and ending on
    non-white-space characters, is trimmed, and it is empty exactly when the
    whole of `s` is white space.
   */
  lemma TrimmedSlice(s: string, i: nat, j: nat)
    requires i <= j <= |s|
    requires AllSpace(s[..i]) && AllSpace(s[j..])
    requires i < |s| ==> !IsSpace(s[i])
    requires i < j ==> !IsSpace(s[j - 1])
    ensures IsTrimmed(s[i..j])
    ensures s[i..j] == [] <==> AllSpace(s)
  {
    if i == j {
      assert i == |s|;
      forall m | 0 <= m < |s| ensures IsSpace(s[m]) {
        assert s[m] == s[..i][m];
      }
    }
  }

  /**
    `s` without its leading and trailing white space: a slice of `s` whose
    cut-off ends are all white space and whose own ends are not, so it is
    empty exactly when `s` is blank.
   */
  function Trim(s: string): (r: string)
    ensures IsTrimmed(r)
    ensures r == [] <==> AllSpace(s)
    ensures exists i, j :: 0 <= i <= j <= |s| && r == s[i..j] && AllSpace(s[..i]) && AllSpace(s[j..])
  {
    var i := LeadingSpaces(s);
    var t := s[i..];
    var k := TrailingSpaces(t);
    var j := i + |t| - k;
    assert s[j..] == t[|t| - k..];
    assert i < j ==> s[j - 1] == t[|t| - 1 - k];
    TrimmedSlice(s, i, j);
    s[i..j]
  }
}
