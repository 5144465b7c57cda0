/** ASCII models of the .NET string helpers the core relies on: `String.Trim`
    and `String.ToLower`. Culture-sensitive and non-ASCII behaviour is not modelled. */
module Strings {

  /** The ASCII characters for which `Char.IsWhiteSpace` holds. */
  predicate IsWhitespace(c: char) {
    c == ' ' || c == '\t' || c == '\n' || c == '\r' || c == '\U{B}' || c == '\U{C}'
  }

  predicate AllWhitespace(s: string) {
    forall i :: 0 <= i < |s| ==> IsWhitespace(s[i])
  }

  /** No whitespace at either end. */
  predicate IsTrimmed(s: string) {
    s == [] || (!IsWhitespace(s[0]) && !IsWhitespace(s[|s| - 1]))
  }

  /** The end of the whitespace run that starts at index `k`. */
  function LeadingEnd(s: string, k: nat): (n: nat)
    requires k <= |s|
    ensures k <= n <= |s|
    ensures forall i :: k <= i < n ==> IsWhitespace(s[i])
    ensures n == |s| || !IsWhitespace(s[n])
    decreases |s| - k
  {
    if k < |s| && IsWhitespace(s[k]) then LeadingEnd(s, k + 1) else k
  }

  /** The start of the whitespace run that ends just before index `k`. */
  function TrailingStart(s: string, k: nat): (n: nat)
    requires k <= |s|
    ensures n <= k
    ensures forall i :: n <= i < k ==> IsWhitespace(s[i])
    ensures n == 0 || !IsWhitespace(s[n - 1])
  {
    if k > 0 && IsWhitespace(s[k - 1]) then TrailingStart(s, k - 1) else k
  }

  /** `String.TrimStart`. */
  function TrimStart(s: string): string {
    s[LeadingEnd(s, 0)..]
  }

  /** `String.TrimEnd`. */
  function TrimEnd(s: string): string {
    s[..TrailingStart(s, |s|)]
  }

  /** `String.Trim`: removes leading and trailing whitespace. */
  function Trim(s: string): string {
    TrimEnd(TrimStart(s))
  }

  /** Trim only removes whitespace from the ends: the input is the result with
      a whitespace prefix and a whitespace suffix around it, and the result has
      no whitespace at either end. */
  lemma TrimFactors(s: string)
    ensures IsTrimmed(Trim(s))
    ensures exists i, j :: 0 <= i <= j <= |s| && Trim(s) == s[i..j]
              && AllWhitespace(s[..i]) && AllWhitespace(s[j..])
  {
    var i := LeadingEnd(s, 0);
    var t := s[i..];
    var n := TrailingStart(t, |t|);
    var j := i + n;
    assert Trim(s) == t[..n] == s[i..j];
    assert AllWhitespace(s[..i]);
    assert AllWhitespace(s[j..]) by {
      forall k | 0 <= k < |s| - j ensures IsWhitespace(s[j..][k]) {
        assert s[j..][k] == t[n + k];
      }
    }
    if n > 0 {
      assert t[..n][0] == s[i];
      assert t[..n][n - 1] == t[n - 1];
    }
  }

  function ToLowerChar(c: char): char {
    if 'A' <= c <= 'Z' then (c as int + 32) as char else c
  }

  /** `String.ToLower`, ASCII only. */
  function ToLower(s: string): (r: string)
    ensures |r| == |s|
    ensures forall i :: 0 <= i < |s| ==> r[i] == ToLowerChar(s[i])
  {
    seq(|s|, i requires 0 <= i < |s| => ToLowerChar(s[i]))
  }

  predicate IsLowerCase(s: string) {
    ToLower(s) == s
  }

  /** Lower-casing is idempotent, so every lower-cased key is its own lower case. */
  lemma ToLowerIdempotent(s: string)
    ensures IsLowerCase(ToLower(s))
  {
    var r := ToLower(s);
    assert forall i :: 0 <= i < |r| ==> ToLowerChar(r[i]) == r[i];
  }
}
