/**
 * Extraction of the classification range from a morbidity label: the
 * leftmost match of the regular expression `/(J\d+-J\d+)/`, and the field
 * name made from it by replacing its `-` with `_`.
 */
module RangeCode {
  import opened Wrappers
  import opened Text

  ghost predicate AllDigits(t: string)
  {
    forall k :: 0 <= k < |t| ==> IsDigit(t[k])
  }

  /** `t` is `J<digits>-J<digits>` with its `-` at position `m`, both digit runs non-empty. */
  ghost predicate RangeWithDash(t: string, m: nat)
  {
    && 2 <= m && m + 2 < |t|
    && t[0] == 'J' && AllDigits(t[1..m])
    && t[m] == '-' && t[m + 1] == 'J' && AllDigits(t[m + 2..])
  }

  /** `t` is a whole match of `J\d+-J\d+`. */
  ghost predicate IsRangeToken(t: string)
  {
    exists m :: 0 <= m < |t| && RangeWithDash(t, m)
  }

  /** The length of the run of digits in `s` that starts at `i`. */
  function DigitRun(s: string, i: nat): (n: nat)
    requires i <= |s|
    ensures i + n <= |s|
    ensures forall k :: i <= k < i + n ==> IsDigit(s[k])
    ensures i + n == |s| || !IsDigit(s[i + n])
    decreases |s| - i
  {
    if i < |s| && IsDigit(s[i]) then 1 + DigitRun(s, i + 1) else 0
  }

  /**
   * The end of the match of `J\d+-J\d+` that starts at `i`, if there is one.
   * Both `\d+` are greedy; the first can only stop where a `-` follows, so
   * it takes the whole digit run, and the second ends the pattern.
   */
  function MatchAt(s: string, i: nat): (r: Option<nat>)
    requires i <= |s|
    ensures r.Some? ==> i + 5 <= r.value <= |s|
  {
    if i < |s| && s[i] == 'J' then
      var m := i + 1 + DigitRun(s, i + 1);
      if m > i + 1 && m + 1 < |s| && s[m] == '-' && s[m + 1] == 'J' then
        var n := DigitRun(s, m + 2);
        if n > 0 then Some(m + 2 + n) else None
      else None
    else None
  }

  /**
   * `MatchAt` is the regular expression's match at `i`: when it answers
   * `Some(j)`, `s[i..j]` is a range token and no longer one starts at `i`;
   * when it answers `None`, no range token starts at `i`.
   */
  lemma MatchAtIsLongestToken(s: string, i: nat)
    requires i <= |s|
    ensures MatchAt(s, i).Some? ==>
      var j := MatchAt(s, i).value;
      && i < j <= |s| && IsRangeToken(s[i..j])
      && forall j' :: j < j' <= |s| ==> !IsRangeToken(s[i..j'])
    ensures MatchAt(s, i).None? ==> forall j :: i <= j <= |s| ==> !IsRangeToken(s[i..j])
  {
    if MatchAt(s, i).Some? {
      MatchIsLongestToken(s, i);
    } else {
      forall j | i <= j <= |s| ensures !IsRangeToken(s[i..j]) {
        var t := s[i..j];
        if m :| 0 <= m < |t| && RangeWithDash(t, m) {
          DashIsAfterDigitRun(s, i, j, m);
        }
      }
    }
  }

  lemma MatchIsLongestToken(s: string, i: nat)
    requires i <= |s| && MatchAt(s, i).Some?
    ensures
      var j := MatchAt(s, i).value;
      && i < j <= |s| && IsRangeToken(s[i..j])
      && forall j' :: j < j' <= |s| ==> !IsRangeToken(s[i..j'])
  {
    var j := MatchAt(s, i).value;
    var m := i + 1 + DigitRun(s, i + 1);
    var t := s[i..j];
    assert t[1..m - i] == s[i + 1..m];
    assert t[m - i + 2..] == s[m + 2..j];
    assert RangeWithDash(t, m - i);
    forall j' | j < j' <= |s| ensures !IsRangeToken(s[i..j']) {
      var t' := s[i..j'];
      if m' :| 0 <= m' < |t'| && RangeWithDash(t', m') {
        DashIsAfterDigitRun(s, i, j', m');
      }
    }
  }

  /** In a range token starting at `i`, the dash is right after the first digit run. */
  lemma DashIsAfterDigitRun(s: string, i: nat, j: nat, m: nat)
    requires i <= j <= |s| && RangeWithDash(s[i..j], m)
    ensures i + m == i + 1 + DigitRun(s, i + 1)
  {
    var t := s[i..j];
    var n := DigitRun(s, i + 1);
    forall k | i + 1 <= k < i + m ensures IsDigit(s[k]) {
      assert t[1..m][k - i - 1] == s[k];
    }
    assert s[i + m] == t[m] == '-';
  }

  /** The leftmost `(start, end)` at or after `i` where a range token matches. */
  function FindFrom(s: string, i: nat): (r: Option<(nat, nat)>)
    requires i <= |s|
    ensures r.Some? ==> i <= r.value.0 < r.value.1 <= |s| && MatchAt(s, r.value.0) == Some(r.value.1)
    ensures r.Some? ==> forall k :: i <= k < r.value.0 ==> MatchAt(s, k).None?
    ensures r.None? ==> forall k :: i <= k <= |s| ==> MatchAt(s, k).None?
    decreases |s| - i
  {
    if i == |s| then None
    else if MatchAt(s, i).Some? then Some((i, MatchAt(s, i).value))
    else FindFrom(s, i + 1)
  }

  /** `caption.match(/(J\d+-J\d+)/)?.[1]`: the leftmost range token in the label. */
  function ExtractRange(caption: string): Option<string>
  {
    match FindFrom(caption, 0)
    case None => None
    case Some((i, j)) => Some(caption[i..j])
  }

  /**
   * `ExtractRange` answers the regular expression's question: nothing when
   * no substring is a range token, and otherwise the leftmost range token,
   * taken as long as it goes.
   */
  lemma ExtractRangeIsLeftmostLongest(caption: string)
    ensures ExtractRange(caption).None? <==>
      forall i, j :: 0 <= i <= j <= |caption| ==> !IsRangeToken(caption[i..j])
    ensures ExtractRange(caption).Some? ==>
      exists i, j :: 0 <= i < j <= |caption| && ExtractRange(caption).value == caption[i..j]
        && IsRangeToken(caption[i..j])
        && (forall i', j' :: 0 <= i' < i && i' <= j' <= |caption| ==> !IsRangeToken(caption[i'..j']))
        && (forall j' :: j < j' <= |caption| ==> !IsRangeToken(caption[i..j']))
  {
    match FindFrom(caption, 0)
    case None =>
      forall i, j | 0 <= i <= j <= |caption| ensures !IsRangeToken(caption[i..j]) {
        MatchAtIsLongestToken(caption, i);
      }
    case Some((i, j)) =>
      MatchAtIsLongestToken(caption, i);
      forall i', j' | 0 <= i' < i && i' <= j' <= |caption| ensures !IsRangeToken(caption[i'..j']) {
        MatchAtIsLongestToken(caption, i');
      }
  }

  /** `code.replace("-", "_")`: the field name a range token is stored under. */
  function KeyOf(token: string): string
  {
    ReplaceFirst(token, '-', '_')
  }

  /** Outside its dash, a range token holds only `J` and digits. */
  lemma RangeTokenChars(t: string, m: nat)
    requires RangeWithDash(t, m)
    ensures forall k :: 0 <= k < |t| && k != m ==> t[k] == 'J' || IsDigit(t[k])
    ensures forall k :: 0 <= k < |t| && k != m ==> t[k] != '-' && t[k] != '_'
  {
    forall k | 0 <= k < |t| && k != m ensures t[k] == 'J' || IsDigit(t[k]) {
      if 1 <= k < m {
        assert t[1..m][k - 1] == t[k];
      } else if m + 2 <= k {
        assert t[m + 2..][k - m - 2] == t[k];
      }
    }
  }

  /**
   * The field name of a range token is the token with its one `-` turned
   * into `_`, and it has no `-` left.
   */
  lemma KeyOfRangeToken(t: string, m: nat)
    requires RangeWithDash(t, m)
    ensures KeyOf(t) == t[..m] + "_" + t[m + 1..]
    ensures '-' !in KeyOf(t)
  {
    RangeTokenChars(t, m);
    assert '-' !in t[..m];
    ReplaceFirstAt(t, '-', '_', m);
    var key := KeyOf(t);
    assert forall k :: 0 <= k < |key| ==> key[k] == if k == m then '_' else t[k];
  }

  /** Turning the `_` of a field name back into `-` gives the range token again. */
  lemma KeyOfRoundTrip(t: string, m: nat)
    requires RangeWithDash(t, m)
    ensures ReplaceFirst(KeyOf(t), '_', '-') == t
  {
    RangeTokenChars(t, m);
    assert '-' !in t[..m] && '_' !in t[..m];
    ReplaceFirstRoundTrip(t, '-', '_', m);
  }

  /** The label of the acute respiratory infections in the morbidity file yields the range `J00-J06`. */
  lemma AcuteInfectionsRange()
    ensures ExtractRange("J00-J06 INFECCIONES AGUDAS") == Some("J00-J06")
  {
    var s := "J00-J06 INFECCIONES AGUDAS";
    assert DigitRun(s, 7) == 0;
    assert DigitRun(s, 5) == 2;
    assert DigitRun(s, 1) == 2;
    assert MatchAt(s, 0) == Some(7);
    assert s[0..7] == "J00-J06";
  }

  /** The range `J00-J06` is stored under the field `J00_J06`. */
  lemma AcuteInfectionsKey()
    ensures KeyOf("J00-J06") == "J00_J06"
  {
    var t := "J00-J06";
    assert t[..3] == "J00";
    ReplaceFirstAt(t, '-', '_', 3);
    assert t[..3] + "_" + t[4..] == "J00_J06";
  }
}
