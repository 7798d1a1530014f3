/** `email_without_name`: the bare address inside a token such as
    `Name <a@b.com>`, used only to compare tokens with envelope entries.
    The token is first matched against `/<.+>/`; when that matches, the result
    is group 1 of `/[^<>]+<(.+)>/`, and a token that passes the first test but
    not the second makes Ruby call `[1]` on `nil`. */
module Address {
  import opened Wrappers

  /** The exception raised for a token the second pattern does not match. */
  datatype Error = NoAddressIn(token: string)

  predicate IsAngle(c: char) {
    c == '<' || c == '>'
  }

  /** `/<.+>/` matches somewhere in `s`: a `<`, then at least one character,
      then a `>`. */
  ghost predicate HasBracketed(s: string) {
    exists i, j :: 0 <= i && i + 2 <= j < |s| && s[i] == '<' && s[j] == '>'
  }

  /** `/[^<>]+<(.+)>/` matches `s[p..j + 1]` with its `<` at `q`; group 1 is
      then `s[q + 1..j]`. */
  ghost predicate MatchAt(s: string, p: int, q: int, j: int) {
    && 0 <= p < q
    && q + 2 <= j < |s|
    && s[q] == '<'
    && s[j] == '>'
    && forall k :: p <= k < q ==> !IsAngle(s[k])
  }

  /** The match a backtracking engine reports: the leftmost start, and for
      that start the greedy choice for each repetition. */
  ghost predicate FirstMatch(s: string, p: int, q: int, j: int) {
    && MatchAt(s, p, q, j)
    && forall p', q', j' :: MatchAt(s, p', q', j') ==> p < p' || (p == p' && q == q' && j' <= j)
  }

  // ---------------------------------------------------------------------------
  // Searches
  // ---------------------------------------------------------------------------

  /** The first index at or after `from` holding `c`. */
  function FirstOf(s: string, c: char, from: nat): (r: Option<nat>)
    ensures r.Some? ==> from <= r.value < |s| && s[r.value] == c
    ensures forall k :: from <= k < |s| && (r.None? || k < r.value) ==> s[k] != c
    decreases |s| - from
  {
    if from >= |s| then None
    else if s[from] == c then Some(from)
    else FirstOf(s, c, from + 1)
  }

  /** The last index before `upto` holding `c`. */
  function LastOf(s: string, c: char, upto: nat): (r: Option<nat>)
    requires upto <= |s|
    ensures r.Some? ==> r.value < upto && s[r.value] == c
    ensures forall k :: 0 <= k < upto && (r.None? || r.value < k) ==> s[k] != c
    decreases upto
  {
    if upto == 0 then None
    else if s[upto - 1] == c then Some(upto - 1)
    else LastOf(s, c, upto - 1)
  }

  /** A `<` that the pattern's `[^<>]+<` can reach: preceded by a character
      other than an angle bracket. */
  predicate Opens(s: string, q: int) {
    1 <= q < |s| && s[q] == '<' && !IsAngle(s[q - 1])
  }

  /** The first index at or after `from` where `Opens` holds. */
  function FirstOpening(s: string, from: nat): (r: Option<nat>)
    requires from >= 1
    ensures r.Some? ==> from <= r.value && Opens(s, r.value)
    ensures forall q :: from <= q && (r.None? || q < r.value) ==> !Opens(s, q)
    decreases |s| - from
  {
    if from >= |s| then None
    else if Opens(s, from) then Some(from)
    else FirstOpening(s, from + 1)
  }

  // ---------------------------------------------------------------------------
  // The two patterns
  // ---------------------------------------------------------------------------

  /** The test `s =~ /<.+>/`, computed from the first `<` and the last `>`. */
  function Bracketed(s: string): bool {
    match (FirstOf(s, '<', 0), LastOf(s, '>', |s|))
    case (Some(i), Some(j)) => i + 2 <= j
    case _ => false
  }

  /** Group 1 of `s.match(/[^<>]+<(.+)>/)`, `None` when there is no match:
      from the first reachable `<` to the last `>`. */
  function Capture(s: string): Option<string> {
    match (FirstOpening(s, 1), LastOf(s, '>', |s|))
    case (Some(q), Some(j)) => if q + 2 <= j then Some(s[q + 1..j]) else None
    case _ => None
  }

  /** `email_without_name(s)`; `None` is the `nil[1]` crash.  A token
      without `<` is already a bare address, and only a token holding both
      angle brackets can make the second pattern fail. */
  function EmailWithoutName(s: string): (r: Option<string>)
    ensures '<' !in s ==> r == Some(s)
    ensures r.None? ==> '<' in s && '>' in s
  {
    if Bracketed(s) then Capture(s) else Some(s)
  }

  // ---------------------------------------------------------------------------
  // Correctness against the patterns
  // ---------------------------------------------------------------------------

  lemma BracketedSpec(s: string)
    ensures Bracketed(s) <==> HasBracketed(s)
  {
    if HasBracketed(s) {
      var i, j :| 0 <= i && i + 2 <= j < |s| && s[i] == '<' && s[j] == '>';
      var fi := FirstOf(s, '<', 0);
      var lj := LastOf(s, '>', |s|);
      assert fi.Some? && fi.value <= i;
      assert lj.Some? && j <= lj.value;
    }
    if Bracketed(s) {
      var fi := FirstOf(s, '<', 0).value;
      var lj := LastOf(s, '>', |s|).value;
      assert 0 <= fi && fi + 2 <= lj < |s| && s[fi] == '<' && s[lj] == '>';
    }
  }

  /** The start of the run of non-angle characters that ends just before `q`. */
  ghost function RunStart(s: string, q: nat): (p: nat)
    requires q <= |s|
    ensures p <= q
    ensures forall k :: p <= k < q ==> !IsAngle(s[k])
    ensures p == 0 || IsAngle(s[p - 1])
    decreases q
  {
    if q > 0 && !IsAngle(s[q - 1]) then RunStart(s, q - 1) else q
  }

  /** Every match uses a reachable `<` and ends at or before the last `>`. */
  lemma MatchBounds(s: string, p: int, q: int, j: int)
    requires MatchAt(s, p, q, j)
    ensures Opens(s, q)
    ensures LastOf(s, '>', |s|).Some? && j <= LastOf(s, '>', |s|).value
  {
    assert !IsAngle(s[q - 1]);
  }

  /** No run of non-angle characters ending before `q` starts earlier than
      `RunStart(s, q)`. */
  lemma {:induction false} RunStartLeast(s: string, q: nat, p: nat)
    requires p <= q <= |s|
    requires forall k :: p <= k < q ==> !IsAngle(s[k])
    ensures RunStart(s, q) <= p
    decreases q
  {
    if p < q {
      RunStartLeast(s, q - 1, p);
    }
  }

  /** The match starting at the run before the first reachable `<` and ending
      at the last `>` is the one the engine reports. */
  lemma FirstMatchAt(s: string, q: nat, j: nat)
    requires FirstOpening(s, 1) == Some(q)
    requires LastOf(s, '>', |s|) == Some(j) && q + 2 <= j
    ensures FirstMatch(s, RunStart(s, q), q, j)
  {
    var p := RunStart(s, q);
    assert p < q;
    assert MatchAt(s, p, q, j);
    forall p', q', j' | MatchAt(s, p', q', j')
      ensures p < p' || (p == p' && q == q' && j' <= j)
    {
      MatchBounds(s, p', q', j');
      if p' <= q {
        RunStartLeast(s, q, p');
      }
    }
  }

  lemma CaptureSpec(s: string)
    ensures Capture(s).None? <==> forall p, q, j :: !MatchAt(s, p, q, j)
    ensures Capture(s).Some? ==>
              exists p, q, j :: FirstMatch(s, p, q, j) && Capture(s).value == s[q + 1..j]
  {
    var fq := FirstOpening(s, 1);
    var lj := LastOf(s, '>', |s|);
    if fq.Some? && lj.Some? && fq.value + 2 <= lj.value {
      var q, j := fq.value, lj.value;
      FirstMatchAt(s, q, j);
      assert FirstMatch(s, RunStart(s, q), q, j);
    } else {
      forall p, q, j | MatchAt(s, p, q, j)
        ensures false
      {
        MatchBounds(s, p, q, j);
      }
    }
  }

  /** `email_without_name` returns a token without `<.+>` unchanged; for any
      other token it returns group 1 of the leftmost, greedy match of
      `[^<>]+<(.+)>`, and fails exactly when that pattern does not match. */
  lemma EmailWithoutNameSpec(s: string)
    ensures !HasBracketed(s) ==> EmailWithoutName(s) == Some(s)
    ensures HasBracketed(s) ==> (EmailWithoutName(s).None? <==> forall p, q, j :: !MatchAt(s, p, q, j))
    ensures HasBracketed(s) && EmailWithoutName(s).Some? ==>
              exists p, q, j :: FirstMatch(s, p, q, j) && EmailWithoutName(s).value == s[q + 1..j]
  {
    BracketedSpec(s);
    CaptureSpec(s);
  }

  /** The reported match is unique: start, `<` and end are all determined. */
  lemma FirstMatchUnique(s: string, p: int, q: int, j: int, p': int, q': int, j': int)
    requires FirstMatch(s, p, q, j) && FirstMatch(s, p', q', j')
    ensures p == p' && q == q' && j == j'
  {
  }

  // ---------------------------------------------------------------------------
  // The token shapes that occur in mail headers
  // ---------------------------------------------------------------------------

  /** `s` holds no angle bracket. */
  predicate AngleFree(s: string) {
    '<' !in s && '>' !in s
  }

  /** A display name followed by an address in angle brackets yields the
      address, whatever characters the address holds. */
  lemma NamedAddress(name: string, addr: string)
    requires |name| >= 1 && AngleFree(name)
    requires |addr| >= 1
    ensures EmailWithoutName(name + "<" + addr + ">") == Some(addr)
  {
    var s := name + "<" + addr + ">";
    var q, j := |name|, |s| - 1;
    assert s[q] == '<' && s[j] == '>';
    assert s[q - 1] == name[q - 1];
    assert !IsAngle(s[q - 1]);
    assert FirstOf(s, '<', 0).Some? && FirstOf(s, '<', 0).value <= q;
    assert LastOf(s, '>', |s|) == Some(j);
    assert Bracketed(s);
    forall k | 1 <= k < q
      ensures !Opens(s, k)
    {
      assert s[k] == name[k] && name[k] in name;
    }
    assert Opens(s, q);
    assert FirstOpening(s, 1) == Some(q);
    assert s[q + 1..j] == addr;
  }

  /** An address in angle brackets with no display name passes the first
      pattern and fails the second: `email_without_name` raises. */
  lemma UnnamedAddress(addr: string)
    requires |addr| >= 1 && '<' !in addr
    ensures EmailWithoutName("<" + addr + ">") == None
  {
    var s := "<" + addr + ">";
    assert s[0] == '<' && s[|s| - 1] == '>';
    assert FirstOf(s, '<', 0) == Some(0);
    assert LastOf(s, '>', |s|) == Some(|s| - 1);
    forall k | 1 <= k < |s|
      ensures s[k] != '<'
    {
      if k <= |addr| {
        assert s[k] == addr[k - 1];
      }
    }
    assert FirstOpening(s, 1).None?;
  }
}
