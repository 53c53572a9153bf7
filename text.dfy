/**
 * The JavaScript string and array built-ins the pipeline calls, on
 * Dafny sequences: `Array.prototype.indexOf`, `String.prototype.replace`
 * with a string pattern, and the digit class `\d` of a regular expression.
 */
module Text {

  /** The class `\d` of a regular expression without the `u` flag: ASCII digits only. */
  predicate IsDigit(c: char)
  {
    '0' <= c <= '9'
  }

  /**
   * `Array.prototype.indexOf(x)`: the position of the first element equal to
   * `x`, or -1 when there is none.
   */
  function IndexOf<T(==)>(s: seq<T>, x: T): (r: int)
    ensures -1 <= r < |s|
    ensures r == -1 <==> x !in s
    ensures 0 <= r ==> s[r] == x && x !in s[..r]
  {
    if s == [] then -1
    else if s[0] == x then 0
    else
      var t := IndexOf(s[1..], x);
      assert s[1..][..t + 1] == s[1..t + 2] by { if t != -1 { assert t + 2 <= |s|; } }
      if t == -1 then -1 else t + 1
  }

  /** The first occurrence of `x` found at `m` is the one `IndexOf` reports. */
  lemma {:induction false} IndexOfIs<T>(s: seq<T>, x: T, m: nat)
    requires m < |s| && s[m] == x && x !in s[..m]
    ensures IndexOf(s, x) == m
  {
    if m > 0 {
      assert s[..m][0] == s[0];
      assert s[1..][..m - 1] == s[1..m] && s[..m] == [s[0]] + s[1..m];
      IndexOfIs(s[1..], x, m - 1);
    }
  }

  /**
   * `s.replace(from, to)` with a one-character string pattern: only the
   * FIRST occurrence of `from` is replaced, every other character is kept.
   */
  function ReplaceFirst(s: string, from: char, to: char): (r: string)
    ensures |r| == |s|
    ensures forall k :: 0 <= k < |s| ==> r[k] == (if k == IndexOf(s, from) then to else s[k])
  {
    if s == [] then []
    else if s[0] == from then [to] + s[1..]
    else [s[0]] + ReplaceFirst(s[1..], from, to)
  }

  /** A string with no occurrence of `from` is left as it is. */
  lemma ReplaceFirstAbsent(s: string, from: char, to: char)
    requires from !in s
    ensures ReplaceFirst(s, from, to) == s
  {
    var r := ReplaceFirst(s, from, to);
    assert forall k :: 0 <= k < |s| ==> r[k] == s[k];
  }

  /** Replacing the first `from`, found at position `m`, cuts the string there. */
  lemma ReplaceFirstAt(s: string, from: char, to: char, m: nat)
    requires m < |s| && s[m] == from && from !in s[..m]
    ensures ReplaceFirst(s, from, to) == s[..m] + [to] + s[m + 1..]
  {
    IndexOfIs(s, from, m);
    var r := ReplaceFirst(s, from, to);
    var e := s[..m] + [to] + s[m + 1..];
    assert forall k :: 0 <= k < |s| ==> r[k] == e[k];
  }

  /**
   * Replacing the first `from` with `to` and then the first `to` with
   * `from` restores the string, when `to` does not occur before the
   * first `from`.
   */
  lemma ReplaceFirstRoundTrip(s: string, from: char, to: char, m: nat)
    requires m < |s| && s[m] == from && from !in s[..m] && to !in s[..m]
    ensures ReplaceFirst(ReplaceFirst(s, from, to), to, from) == s
  {
    ReplaceFirstAt(s, from, to, m);
    var r := ReplaceFirst(s, from, to);
    assert r[..m] == s[..m];
    ReplaceFirstAt(r, to, from, m);
    assert r[..m] + [from] + r[m + 1..] == s;
  }
}
