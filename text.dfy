/** JavaScript's String.prototype.trim, used by the add handler to reject
    blank input. */
module Text {

  /** The code points trim strips: the WhiteSpace and LineTerminator
      productions of the ECMAScript lexical grammar (ECMA-262), with the
      space separators of Unicode category Zs written out. */
  predicate IsTrimmable(c: char)
  {
    // WhiteSpace: TAB, VT, FF, ZWNBSP
    || c == '\U{9}' || c == '\U{B}' || c == '\U{C}' || c == '\U{FEFF}'
    // WhiteSpace: Unicode category Zs
    || c == ' ' || c == '\U{A0}' || c == '\U{1680}'
    || ('\U{2000}' <= c <= '\U{200A}')
    || c == '\U{202F}' || c == '\U{205F}' || c == '\U{3000}'
    // LineTerminator: LF, CR, LS, PS
    || c == '\U{A}' || c == '\U{D}' || c == '\U{2028}' || c == '\U{2029}'
  }

  /** The number of trimmable code points the string starts with. */
  function Leading(s: string): (n: nat)
    ensures n <= |s|
    ensures forall k | 0 <= k < n :: IsTrimmable(s[k])
    ensures n < |s| ==> !IsTrimmable(s[n])
  {
    if s != [] && IsTrimmable(s[0]) then
      var n := 1 + Leading(s[1..]);
      assert forall k | 1 <= k < n :: s[k] == s[1..][k - 1];
      n
    else 0
  }

  /** The number of trimmable code points the string ends with. */
  function Trailing(s: string): (n: nat)
    ensures n <= |s|
    ensures forall k | |s| - n <= k < |s| :: IsTrimmable(s[k])
    ensures n < |s| ==> !IsTrimmable(s[|s| - n - 1])
  {
    if s != [] && IsTrimmable(s[|s| - 1]) then 1 + Trailing(s[..|s| - 1]) else 0
  }

  /** `s.trim()`: `s` without its leading and trailing trimmable code points.
      The result is the infix of `s` between two runs of trimmable code points
      and neither starts nor ends with one; it is empty exactly when every
      code point of `s` is trimmable. */
  function Trim(s: string): (r: string)
    ensures r == [] <==> forall k | 0 <= k < |s| :: IsTrimmable(s[k])
    ensures r != [] ==> !IsTrimmable(r[0]) && !IsTrimmable(r[|r| - 1])
    ensures var lo := Leading(s);
      && lo + |r| <= |s|
      && r == s[lo..lo + |r|]
      && (forall k | 0 <= k < lo :: IsTrimmable(s[k]))
      && (forall k | lo + |r| <= k < |s| :: IsTrimmable(s[k]))
  {
    var lo := Leading(s);
    if lo == |s| then []
    else
      var hi := |s| - Trailing(s);
      assert lo < hi;
      s[lo..hi]
  }

  /** `s.trim() === ""`: true exactly when every code point of `s` is
      trimmable. */
  function IsBlank(s: string): (b: bool)
    ensures b <==> forall k | 0 <= k < |s| :: IsTrimmable(s[k])
  {
    Trim(s) == ""
  }

  /** Trimming twice is trimming once. */
  lemma TrimIdempotent(s: string)
    ensures Trim(Trim(s)) == Trim(s)
  {
    var r := Trim(s);
    if r != [] {
      assert Leading(r) == 0;
      assert Trailing(r) == 0;
    }
  }

  /** A blank string is one made only of trimmable code points; in particular
      the empty string and all-space strings are blank. */
  lemma {:induction false} BlankIffAllTrimmable(s: string)
    ensures IsBlank(s) <==> forall c | c in s :: IsTrimmable(c)
  {
    if IsBlank(s) {
      forall c | c in s ensures IsTrimmable(c) {
        var k :| 0 <= k < |s| && s[k] == c;
      }
    }
  }
}
