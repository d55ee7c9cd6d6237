/** The string operations the contact-list controller relies on: `trim`,
    `toLowerCase`, `toUpperCase` of the first character, and `includes`. */
module Text {

  /** The characters `String.prototype.trim` strips: the ECMAScript
      WhiteSpace production (TAB, VT, FF, SP, NBSP, ZWNBSP and the Zs
      space separators) and the LineTerminator production (LF, CR, LS, PS). */
  predicate IsSpace(c: char) {
    || c == ' ' || c == '\t' || c == '\n' || c == '\r'
    || c as int == 0x0B || c as int == 0x0C
    || c as int == 0xA0 || c as int == 0x1680
    || (0x2000 <= c as int <= 0x200A)
    || c as int == 0x2028 || c as int == 0x2029
    || c as int == 0x202F || c as int == 0x205F
    || c as int == 0x3000 || c as int == 0xFEFF
  }

  predicate AllSpace(s: string) {
    forall k :: 0 <= k < |s| ==> IsSpace(s[k])
  }

  /** The number of white-space characters `s` starts with. */
  function LeadingSpaces(s: string): (n: nat)
    ensures n <= |s|
    ensures forall k :: 0 <= k < n ==> IsSpace(s[k])
    ensures n == |s| || !IsSpace(s[n])
  {
    if s != [] && IsSpace(s[0]) then 1 + LeadingSpaces(s[1..]) else 0
  }

  /** Where the trailing run of white space of `s` begins. */
  function TrailingStart(s: string): (n: nat)
    ensures n <= |s|
    ensures forall k :: n <= k < |s| ==> IsSpace(s[k])
    ensures n == 0 || !IsSpace(s[n - 1])
  {
    if s != [] && IsSpace(s[|s| - 1]) then TrailingStart(s[..|s| - 1]) else |s|
  }

  /** `r` is `s` with its leading and trailing white space removed, `r`
      starting at index `lead` of `s`. */
  ghost predicate TrimmedAt(s: string, r: string, lead: nat) {
    && lead + |r| <= |s|
    && s[lead..lead + |r|] == r
    && (forall k :: 0 <= k < lead ==> IsSpace(s[k]))
    && (forall k :: lead + |r| <= k < |s| ==> IsSpace(s[k]))
    && (r == [] || (!IsSpace(r[0]) && !IsSpace(r[|r| - 1])))
  }

  /** `String.prototype.trim`. */
  function Trim(s: string): (r: string)
    ensures exists lead: nat :: TrimmedAt(s, r, lead)
  {
    var i := LeadingSpaces(s);
    if i == |s| then
      assert TrimmedAt(s, [], i);
      []
    else
      var j := TrailingStart(s);
      assert i < j;
      assert TrimmedAt(s, s[i..j], i);
      s[i..j]
  }

  /** There is only one way to trim a string: `TrimmedAt` determines its result. */
  lemma TrimmedUnique(s: string, r1: string, lead1: nat, r2: string, lead2: nat)
    requires TrimmedAt(s, r1, lead1) && TrimmedAt(s, r2, lead2)
    ensures r1 == r2
  {
    if r1 != [] && r2 != [] {
      assert s[lead1] == r1[0] && s[lead2] == r2[0];
      assert lead1 == lead2;
      assert s[lead1 + |r1| - 1] == r1[|r1| - 1] && s[lead2 + |r2| - 1] == r2[|r2| - 1];
      assert |r1| == |r2|;
    }
  }

  /** Trimming twice is trimming once. */
  lemma TrimIdempotent(s: string)
    ensures Trim(Trim(s)) == Trim(s)
  {
    var t := Trim(s);
    assert t[0..0 + |t|] == t;
    assert TrimmedAt(t, t, 0);
    var lead: nat :| TrimmedAt(t, Trim(t), lead);
    TrimmedUnique(t, t, 0, Trim(t), lead);
  }

  /** A string trims to nothing exactly when it is all white space. */
  lemma TrimEmptyIffBlank(s: string)
    ensures Trim(s) == [] <==> AllSpace(s)
  {
    var lead: nat :| TrimmedAt(s, Trim(s), lead);
    if Trim(s) == [] {
      forall k | 0 <= k < |s| ensures IsSpace(s[k]) {
        assert k < lead || lead <= k;
      }
    }
  }

  /** `toLowerCase`, on the ASCII letters. */
  function LowerChar(c: char): char {
    if 'A' <= c <= 'Z' then (c as int + 32) as char else c
  }

  /** `toUpperCase`, on the ASCII letters. */
  function UpperChar(c: char): char {
    if 'a' <= c <= 'z' then (c as int - 32) as char else c
  }

  function ToLower(s: string): string {
    seq(|s|, i requires 0 <= i < |s| => LowerChar(s[i]))
  }

  /** No upper-case ASCII letter occurs in `s`. */
  predicate IsLower(s: string) {
    forall i :: 0 <= i < |s| ==> !('A' <= s[i] <= 'Z')
  }

  /** Lower-casing yields a lower-case string of the same length, and leaves
      an already lower-case string alone. */
  lemma ToLowerIsLower(s: string)
    ensures |ToLower(s)| == |s| && IsLower(ToLower(s))
    ensures IsLower(s) <==> ToLower(s) == s
  {
    if ToLower(s) == s {
      forall i | 0 <= i < |s| ensures !('A' <= s[i] <= 'Z') {
        assert ToLower(s)[i] == LowerChar(s[i]);
      }
    }
  }

  lemma ToLowerIdempotent(s: string)
    ensures ToLower(ToLower(s)) == ToLower(s)
  {
    ToLowerIsLower(s);
    ToLowerIsLower(ToLower(s));
  }

  /** `s.charAt(0).toUpperCase() + s.slice(1)`; the empty string stays empty. */
  function Capitalize(s: string): string {
    if s == [] then [] else [UpperChar(s[0])] + s[1..]
  }

  /** Capitalising a lower-case string loses nothing: lower-casing it again
      gives the string back. */
  lemma CapitalizeLowerRoundTrip(s: string)
    requires IsLower(s)
    ensures |Capitalize(s)| == |s|
    ensures ToLower(Capitalize(s)) == s
  {
    if s != [] {
      var c := Capitalize(s);
      forall i | 0 <= i < |s| ensures ToLower(c)[i] == s[i] {
        if i == 0 {
          assert c[0] == UpperChar(s[0]);
        } else {
          assert c[i] == s[i];
        }
      }
    }
  }

  /** `t` occurs in `s` at index `k`. */
  predicate OccursAt(s: string, t: string, k: nat) {
    k + |t| <= |s| && s[k..k + |t|] == t
  }

  /** `String.prototype.includes`: `t` occurs somewhere in `s`. */
  predicate Contains(s: string, t: string) {
    exists k: nat | k <= |s| :: OccursAt(s, t, k)
  }

  /** Every string includes the empty string. */
  lemma ContainsEmpty(s: string)
    ensures Contains(s, [])
  {
    assert OccursAt(s, [], 0);
  }
}
