/** Ruby string operations the adapter relies on: `split` with a literal
    delimiter, `strip`, ActiveSupport's `present?`, and the decimal rendering
    of an integer inside `"attachment#{n}"`. */
module Strings {
  import opened Wrappers

  // ---------------------------------------------------------------------------
  // Occurrences of a delimiter
  // ---------------------------------------------------------------------------

  /** `d` occurs in `s` starting at index `k`. */
  predicate OccursAt(s: string, d: string, k: int) {
    0 <= k && k + |d| <= |s| && s[k..k + |d|] == d
  }

  /** `d` occurs somewhere in `s`. */
  ghost predicate Contains(s: string, d: string) {
    exists k :: OccursAt(s, d, k)
  }

  /** The leftmost occurrence of `d` in `s` at or after `from`. */
  function IndexFrom(s: string, d: string, from: nat): (r: Option<nat>)
    ensures r.Some? ==> from <= r.value && OccursAt(s, d, r.value)
    ensures forall k :: from <= k && (r.None? || k < r.value) ==> !OccursAt(s, d, k)
    decreases |s| - from
  {
    if from + |d| > |s| then None
    else if s[from..from + |d|] == d then Some(from)
    else IndexFrom(s, d, from + 1)
  }

  /** A one-character delimiter occurs exactly where that character does. */
  lemma ContainsChar(s: string, c: char)
    ensures Contains(s, [c]) <==> c in s
  {
    if c in s {
      var k :| 0 <= k < |s| && s[k] == c;
      assert OccursAt(s, [c], k);
    }
    if Contains(s, [c]) {
      var k :| OccursAt(s, [c], k);
      assert s[k] == s[k..k + 1][0];
    }
  }

  // ---------------------------------------------------------------------------
  // Joining and splitting
  // ---------------------------------------------------------------------------

  /** The pieces glued back together with `d` between neighbours (Ruby's `join`). */
  function Join(p: seq<string>, d: string): string
  {
    if |p| == 0 then ""
    else if |p| == 1 then p[0]
    else p[0] + d + Join(p[1..], d)
  }

  lemma {:induction false} JoinSnoc(p: seq<string>, x: string, d: string)
    requires |p| >= 1
    ensures Join(p + [x], d) == Join(p, d) + d + x
    decreases |p|
  {
    if |p| == 1 {
      assert (p + [x])[1..] == [x];
    } else {
      assert (p + [x])[1..] == p[1..] + [x];
      JoinSnoc(p[1..], x, d);
    }
  }

  /** No occurrence of `d` before index `i` leaves `s[..i]` free of `d`. */
  lemma PrefixBeforeFirst(s: string, d: string, i: nat)
    requires |d| > 0 && i <= |s|
    requires forall k :: 0 <= k < i ==> !OccursAt(s, d, k)
    ensures !Contains(s[..i], d)
  {
    if Contains(s[..i], d) {
      var k :| OccursAt(s[..i], d, k);
      assert s[..i][k..k + |d|] == s[k..k + |d|];
      assert OccursAt(s, d, k);
    }
  }

  /** Every piece between two consecutive delimiters, empty ones included
      (Ruby's `split(d, -1)`). */
  function SplitAll(s: string, d: string): (r: seq<string>)
    requires |d| > 0
    ensures |r| >= 1
    decreases |s|
  {
    match IndexFrom(s, d, 0)
    case None => [s]
    case Some(i) => [s[..i]] + SplitAll(s[i + |d|..], d)
  }

  /** The first piece is what precedes the leftmost delimiter. */
  lemma SplitAllFirst(s: string, d: string, i: nat)
    requires |d| > 0 && IndexFrom(s, d, 0) == Some(i)
    ensures SplitAll(s, d) == [s[..i]] + SplitAll(s[i + |d|..], d)
    ensures s == s[..i] + d + s[i + |d|..]
    ensures !Contains(s[..i], d)
  {
    PrefixBeforeFirst(s, d, i);
    assert s[i..i + |d|] == d;
    assert s == s[..i] + s[i..i + |d|] + s[i + |d|..];
  }

  /** Joining the pieces again gives back `s`, and no piece holds `d`. */
  lemma {:induction false} SplitAllJoin(s: string, d: string)
    requires |d| > 0
    ensures Join(SplitAll(s, d), d) == s
    ensures forall i :: 0 <= i < |SplitAll(s, d)| ==> !Contains(SplitAll(s, d)[i], d)
    decreases |s|
  {
    var idx := IndexFrom(s, d, 0);
    if idx.None? {
      assert SplitAll(s, d) == [s];
      assert !Contains(s, d);
    } else {
      var i := idx.value;
      SplitAllFirst(s, d, i);
      var rest := SplitAll(s[i + |d|..], d);
      SplitAllJoin(s[i + |d|..], d);
      var r := [s[..i]] + rest;
      assert r[1..] == rest;
      assert Join(r, d) == s[..i] + d + Join(rest, d);
      forall k | 1 <= k < |r|
        ensures !Contains(r[k], d)
      {
        assert r[k] == rest[k - 1];
      }
    }
  }

  /** `p` without the run of empty strings at its end. */
  function DropTrailingEmpty(p: seq<string>): (r: seq<string>)
    ensures r <= p
    ensures |r| == 0 || r[|r| - 1] != ""
    ensures forall i :: |r| <= i < |p| ==> p[i] == ""
  {
    if |p| > 0 && p[|p| - 1] == "" then DropTrailingEmpty(p[..|p| - 1]) else p
  }

  /** Ruby's `s.split(d)` for a literal, non-blank delimiter `d`: the pieces
      between delimiters, leading and interior empty pieces kept, trailing
      empty pieces dropped. */
  function Split(s: string, d: string): (r: seq<string>)
    requires |d| > 0
    ensures forall i :: 0 <= i < |r| ==> !Contains(r[i], d)
    ensures |r| == 0 || r[|r| - 1] != ""
    ensures s == "" ==> r == []
    ensures s != "" && !Contains(s, d) ==> r == [s]
  {
    SplitAllJoin(s, d);
    DropTrailingEmpty(SplitAll(s, d))
  }

  /** `s` without the run of `c` at its end. */
  function TrimTrailing(s: string, c: char): string
  {
    if |s| > 0 && s[|s| - 1] == c then TrimTrailing(s[..|s| - 1], c) else s
  }

  lemma {:induction false} JoinDropTrailingEmpty(p: seq<string>, c: char)
    requires |p| >= 1
    requires forall i :: 0 <= i < |p| ==> c !in p[i]
    ensures Join(DropTrailingEmpty(p), [c]) == TrimTrailing(Join(p, [c]), c)
    decreases |p|
  {
    var n := |p|;
    var last := p[n - 1];
    if last != "" {
      var j := Join(p, [c]);
      if n == 1 {
        assert j == last;
      } else {
        assert p == p[..n - 1] + [last];
        JoinSnoc(p[..n - 1], last, [c]);
      }
      assert j[|j| - 1] == last[|last| - 1];
      assert last[|last| - 1] in last;
    } else if n == 1 {
    } else {
      var init := p[..n - 1];
      assert p == init + [last];
      JoinSnoc(init, last, [c]);
      var j := Join(init, [c]);
      assert Join(p, [c]) == j + [c];
      assert (j + [c])[..|j + [c]| - 1] == j;
      JoinDropTrailingEmpty(init, c);
    }
  }

  /** Splitting on a single character and joining again gives back the
      string without its trailing run of that character. */
  lemma SplitCharJoin(s: string, c: char)
    ensures Join(Split(s, [c]), [c]) == TrimTrailing(s, c)
  {
    var p := SplitAll(s, [c]);
    SplitAllJoin(s, [c]);
    forall i | 0 <= i < |p|
      ensures c !in p[i]
    {
      ContainsChar(p[i], c);
    }
    JoinDropTrailingEmpty(p, c);
  }

  // ---------------------------------------------------------------------------
  // Whitespace: String#strip and ActiveSupport's present?
  // ---------------------------------------------------------------------------

  /** The characters Ruby's `String#strip` removes: NUL, horizontal tab,
      line feed, vertical tab, form feed, carriage return and space. */
  predicate IsStripSpace(c: char) {
    c == '\0' || c == '\t' || c == '\n' || c == '\U{0B}' || c == '\U{0C}' || c == '\r' || c == ' '
  }

  predicate AllStripSpace(s: string) {
    forall k :: 0 <= k < |s| ==> IsStripSpace(s[k])
  }

  /** Neither end of `s` is whitespace. */
  predicate Unpadded(s: string) {
    s == "" || (!IsStripSpace(s[0]) && !IsStripSpace(s[|s| - 1]))
  }

  /** `s` without its leading whitespace. */
  function TrimLeft(s: string): string
  {
    if |s| > 0 && IsStripSpace(s[0]) then TrimLeft(s[1..]) else s
  }

  /** `s` without its trailing whitespace. */
  function TrimRight(s: string): string
  {
    if |s| > 0 && IsStripSpace(s[|s| - 1]) then TrimRight(s[..|s| - 1]) else s
  }

  lemma {:induction false} TrimLeftSpec(s: string)
    ensures var r := TrimLeft(s);
            && |r| <= |s| && r == s[|s| - |r|..]
            && AllStripSpace(s[..|s| - |r|])
            && (r == "" || !IsStripSpace(r[0]))
    decreases |s|
  {
    if |s| > 0 && IsStripSpace(s[0]) {
      TrimLeftSpec(s[1..]);
      var r := TrimLeft(s[1..]);
      assert s[..|s| - |r|] == [s[0]] + s[1..][..|s| - 1 - |r|];
    }
  }

  lemma {:induction false} TrimRightSpec(s: string)
    ensures var r := TrimRight(s);
            && r <= s
            && AllStripSpace(s[|r|..])
            && (r == "" || !IsStripSpace(r[|r| - 1]))
    decreases |s|
  {
    if |s| > 0 && IsStripSpace(s[|s| - 1]) {
      TrimRightSpec(s[..|s| - 1]);
      var r := TrimRight(s[..|s| - 1]);
      assert s[|r|..] == s[..|s| - 1][|r|..] + [s[|s| - 1]];
    }
  }

  /** Ruby's `String#strip`: `s` with the whitespace at both ends removed. */
  function Strip(s: string): string
  {
    TrimRight(TrimLeft(s))
  }

  /** What `strip` leaves is a slice of `s` with whitespace at neither end,
      and everything it removed is whitespace. */
  lemma StripSpec(s: string)
    ensures var r := Strip(s);
            && Unpadded(r)
            && exists i :: 0 <= i && i + |r| <= |s| && r == s[i..i + |r|]
                           && AllStripSpace(s[..i]) && AllStripSpace(s[i + |r|..])
  {
    var t := TrimLeft(s);
    TrimLeftSpec(s);
    TrimRightSpec(t);
    var r := TrimRight(t);
    var i := |s| - |t|;
    assert r == s[i..i + |r|];
    assert s[i + |r|..] == t[|r|..];
  }

  lemma {:induction false} TrimLeftPadded(lead: string, x: string)
    requires AllStripSpace(lead)
    requires x == "" || !IsStripSpace(x[0])
    ensures TrimLeft(lead + x) == x
    decreases |lead|
  {
    if |lead| == 0 {
      assert lead + x == x;
    } else {
      assert (lead + x)[0] == lead[0];
      assert (lead + x)[1..] == lead[1..] + x;
      TrimLeftPadded(lead[1..], x);
    }
  }

  /** Stripping undoes padding an unpadded string with leading whitespace. */
  lemma StripPadded(lead: string, x: string)
    requires AllStripSpace(lead)
    requires Unpadded(x)
    ensures Strip(lead + x) == x
  {
    TrimLeftPadded(lead, x);
  }

  /** The characters of POSIX class `[[:space:]]` in a Unicode string, which
      ActiveSupport's `blank?` accepts. */
  predicate IsBlankChar(c: char) {
    c == ' ' || c == '\t' || c == '\n' || c == '\U{0B}' || c == '\U{0C}' || c == '\r'
    || c == '\U{85}' || c == '\U{A0}' || c == '\U{1680}'
    || ('\U{2000}' <= c <= '\U{200A}')
    || c == '\U{2028}' || c == '\U{2029}' || c == '\U{202F}' || c == '\U{205F}' || c == '\U{3000}'
  }

  /** ActiveSupport's `String#present?`: some character is not blank. */
  predicate Present(s: string) {
    exists k :: 0 <= k < |s| && !IsBlankChar(s[k])
  }

  // ---------------------------------------------------------------------------
  // Decimal rendering of naturals (Ruby's `"#{n}"`)
  // ---------------------------------------------------------------------------

  predicate IsDigit(c: char) {
    '0' <= c <= '9'
  }

  function DigitChar(d: nat): (c: char)
    requires d < 10
  {
    ('0' as int + d) as char
  }

  /** The decimal numeral of `n`, without leading zeros. */
  function DecimalString(n: nat): (r: string)
    ensures |r| >= 1
    ensures forall i :: 0 <= i < |r| ==> IsDigit(r[i])
  {
    if n < 10 then [DigitChar(n)] else DecimalString(n / 10) + [DigitChar(n % 10)]
  }

  /** The value of a numeral of decimal digits, read most significant first. */
  function DecimalValue(s: string): nat
    requires forall i :: 0 <= i < |s| ==> IsDigit(s[i])
  {
    if |s| == 0 then 0
    else
      assert IsDigit(s[|s| - 1]);
      DecimalValue(s[..|s| - 1]) * 10 + (s[|s| - 1] as int - '0' as int)
  }

  lemma {:induction false} DecimalRoundTrip(n: nat)
    ensures DecimalValue(DecimalString(n)) == n
  {
    if n >= 10 {
      var s := DecimalString(n);
      assert s[..|s| - 1] == DecimalString(n / 10);
      DecimalRoundTrip(n / 10);
    }
  }

  /** Different naturals have different numerals. */
  lemma DecimalInjective(a: nat, b: nat)
    ensures DecimalString(a) == DecimalString(b) ==> a == b
  {
    DecimalRoundTrip(a);
    DecimalRoundTrip(b);
  }
}
