/** Trimming of the text typed into the new-item field, as JavaScript's
    String.prototype.trim does it: leading and trailing white space and line
    terminators are removed, everything between them is kept. */
module Strings {

  /** ECMAScript's WhiteSpace and LineTerminator code points: TAB, LF, VT, FF,
      CR, the space separators of Unicode category Zs, LS, PS and the
      zero-width no-break space. The ASCII control characters TAB to CR and
      the space are white space; no other ASCII character is. */
  function IsWhiteSpace(c: char): (b: bool)
    ensures ('\t' <= c <= '\r' || c == ' ') ==> b
    ensures b && c as int < 0x80 ==> '\t' <= c <= '\r' || c == ' '
  {
    var n := c as int;
    n == 0x09 || n == 0x0A || n == 0x0B || n == 0x0C || n == 0x0D ||
    n == 0x20 || n == 0xA0 || n == 0x1680 || (0x2000 <= n <= 0x200A) ||
    n == 0x2028 || n == 0x2029 || n == 0x202F || n == 0x205F ||
    n == 0x3000 || n == 0xFEFF
  }

  predicate IsBlank(s: string) {
    forall i :: 0 <= i < |s| ==> IsWhiteSpace(s[i])
  }

  /** `s` neither starts nor ends with white space. */
  predicate IsTrimmed(s: string) {
    s != [] ==> !IsWhiteSpace(s[0]) && !IsWhiteSpace(s[|s| - 1])
  }

  /** The first position at or after `from` that does not hold white space,
      or |s| when there is none. */
  function SkipLeading(s: string, from: nat): (k: nat)
    requires from <= |s|
    ensures from <= k <= |s|
    ensures forall i :: from <= i < k ==> IsWhiteSpace(s[i])
    ensures k < |s| ==> !IsWhiteSpace(s[k])
    decreases |s| - from
  {
    if from < |s| && IsWhiteSpace(s[from]) then SkipLeading(s, from + 1) else from
  }

  /** The last position `e` at or before `to`, and not before `start`, such
      that `s[e - 1]` is not white space, or `start` when there is none. */
  function SkipTrailing(s: string, start: nat, to: nat): (e: nat)
    requires start <= to <= |s|
    ensures start <= e <= to
    ensures forall i :: e <= i < to ==> IsWhiteSpace(s[i])
    ensures start < e ==> !IsWhiteSpace(s[e - 1])
  {
    if start < to && IsWhiteSpace(s[to - 1]) then SkipTrailing(s, start, to - 1) else to
  }

  /** String.prototype.trim. */
  function Trim(s: string): (r: string)
    ensures |r| <= |s| && IsTrimmed(r)
  {
    var k := SkipLeading(s, 0);
    s[k..SkipTrailing(s, k, |s|)]
  }

  /** Trimming removes white space at the two ends and nothing else: the
      result is the slice of `s` that starts at `k`, with white space only
      before and after it. */
  lemma TrimIsInfix(s: string) returns (k: nat)
    ensures k + |Trim(s)| <= |s| && Trim(s) == s[k..k + |Trim(s)|]
    ensures forall i :: 0 <= i < k ==> IsWhiteSpace(s[i])
    ensures forall i :: k + |Trim(s)| <= i < |s| ==> IsWhiteSpace(s[i])
  {
    k := SkipLeading(s, 0);
  }

  /** The trimmed text is empty exactly when the input is all white space;
      this is the test that rejects a blank new item. */
  lemma TrimEmptyIffBlank(s: string)
    ensures Trim(s) == [] <==> IsBlank(s)
  {
    var k := SkipLeading(s, 0);
    var e := SkipTrailing(s, k, |s|);
    if Trim(s) == [] {
      assert e == k;
    } else {
      assert !IsWhiteSpace(s[k]);
    }
  }

  /** Trimming leaves a text unchanged exactly when it is already trimmed. */
  lemma TrimFixesTrimmed(s: string)
    ensures Trim(s) == s <==> IsTrimmed(s)
  {
    if IsTrimmed(s) && s != [] {
      assert SkipLeading(s, 0) == 0;
      assert SkipTrailing(s, 0, |s|) == |s|;
    }
  }

  /** Trimming twice is trimming once. */
  lemma TrimIdempotent(s: string)
    ensures Trim(Trim(s)) == Trim(s)
  {
    TrimFixesTrimmed(Trim(s));
  }
}
