/**
 The three string primitives the component relies on, stated over `seq<char>`:
 `String.prototype.trim`, `String.prototype.toLowerCase` (restricted to ASCII
 letters) and `String.prototype.includes`.
 */
module Text {

  /** The characters `trim` removes: ECMAScript WhiteSpace and LineTerminator. */
  predicate IsTrimmable(c: char) {
    c == '\t' || c == '\n' || c == '\U{000B}' || c == '\U{000C}' || c == '\r' || c == ' '
    || c == '\U{00A0}' || c == '\U{1680}' || ('\U{2000}' <= c <= '\U{200A}')
    || c == '\U{2028}' || c == '\U{2029}' || c == '\U{202F}' || c == '\U{205F}'
    || c == '\U{3000}' || c == '\U{FEFF}'
  }

  /** Every character of `s` at positions `lo` up to `hi` is one that `trim` removes. */
  predicate BlankBetween(s: string, lo: int, hi: int) {
    forall k :: lo <= k < hi && 0 <= k < |s| ==> IsTrimmable(s[k])
  }

  /** Every character of `s` is one that `trim` removes (vacuously true of ""). */
  predicate IsBlank(s: string) {
    BlankBetween(s, 0, |s|)
  }

  /** The first index at or after `lo` whose character `trim` keeps, or `|s|`. */
  function SkipStart(s: string, lo: nat): (r: nat)
    requires lo <= |s|
    ensures lo <= r <= |s|
    ensures BlankBetween(s, lo, r)
    ensures r == |s| || !IsTrimmable(s[r])
    decreases |s| - lo
  {
    if lo < |s| && IsTrimmable(s[lo]) then SkipStart(s, lo + 1) else lo
  }

  /** The end, going back from `hi` but not below `lo`, of the last kept character. */
  function SkipEnd(s: string, lo: nat, hi: nat): (r: nat)
    requires lo <= hi <= |s|
    ensures lo <= r <= hi
    ensures BlankBetween(s, r, hi)
    ensures r == lo || !IsTrimmable(s[r - 1])
    decreases hi - lo
  {
    if lo < hi && IsTrimmable(s[hi - 1]) then SkipEnd(s, lo, hi - 1) else hi
  }

  /**
   `String.prototype.trim`: the slice `s[lo..lo + |r|]` such that everything
   cut away is trimmable and the slice neither starts nor ends with a
   trimmable character (which makes it unique). In particular the result is
   empty exactly when `s` is blank.
   */
  function Trim(s: string): (r: string)
    ensures exists lo :: 0 <= lo <= |s| - |r| && r == s[lo..lo + |r|]
                         && BlankBetween(s, 0, lo) && BlankBetween(s, lo + |r|, |s|)
    ensures r == [] || (!IsTrimmable(r[0]) && !IsTrimmable(r[|r| - 1]))
    ensures r == [] <==> IsBlank(s)
  {
    var lo := SkipStart(s, 0);
    var hi := SkipEnd(s, lo, |s|);
    assert hi == lo ==> lo == |s|;
    s[lo..hi]
  }

  /** `toLowerCase` on one character: ASCII upper-case letters map to lower case. */
  function LowerChar(c: char): (d: char)
    ensures !('A' <= d <= 'Z')
    ensures d != c ==> 'A' <= c <= 'Z' && d as int == c as int + 32
  {
    if 'A' <= c <= 'Z' then (c as int + 32) as char else c
  }

  /** `toLowerCase`: `LowerChar` applied pointwise, length preserved. */
  function Lower(s: string): (r: string)
    ensures |r| == |s|
    ensures forall k :: 0 <= k < |s| ==> r[k] == LowerChar(s[k])
  {
    seq(|s|, k requires 0 <= k < |s| => LowerChar(s[k]))
  }

  /** `sub` occurs in `s` starting at index `i`. */
  predicate OccursAt(s: string, sub: string, i: int) {
    0 <= i <= |s| - |sub| && s[i..i + |sub|] == sub
  }

  /** `String.prototype.includes`: `sub` occurs in `s` at some position. */
  function Contains(s: string, sub: string): (b: bool)
    ensures b <==> exists i :: OccursAt(s, sub, i)
    decreases |s|
  {
    if |sub| <= |s| && s[..|sub|] == sub then
      assert OccursAt(s, sub, 0);
      true
    else if s == [] then
      assert forall i :: !OccursAt(s, sub, i);
      false
    else
      var b := Contains(s[1..], sub);
      assert b ==> exists i :: OccursAt(s, sub, i) by {
        if b {
          var i :| OccursAt(s[1..], sub, i);
          assert s[i + 1..i + 1 + |sub|] == s[1..][i..i + |sub|];
          assert OccursAt(s, sub, i + 1);
        }
      }
      assert !b ==> forall i :: !OccursAt(s, sub, i) by {
        if !b {
          forall i | OccursAt(s, sub, i) ensures false {
            assert i > 0;
            assert s[i..i + |sub|] == s[1..][i - 1..i - 1 + |sub|];
            assert OccursAt(s[1..], sub, i - 1);
          }
        }
      }
      b
  }
}
