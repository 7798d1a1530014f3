/** `recipients(key)`: the address tokens of a `to` or `cc` field.  A field
    with a `>` is taken to hold display-named addresses and is split at each
    `>,`; any other field is split on every comma. */
module Recipients {
  import opened Wrappers
  import opened Strings

  /** A piece of a `>`-bearing field made into a token: stripped, with a `>`
      put back when the delimiter took the only one. */
  function CloseToken(piece: string): string
  {
    var s := Strip(piece);
    if '>' in s then s else s + ">"
  }

  /** A token holds a `>` and has no whitespace at either end. */
  lemma CloseTokenShape(piece: string)
    ensures '>' in CloseToken(piece) && Unpadded(CloseToken(piece))
  {
    var s := Strip(piece);
    StripSpec(piece);
    if '>' !in s {
      assert (s + ">")[|s|] == '>';
    }
  }

  /** Every piece made into a token, in order. */
  function CloseAll(p: seq<string>): (r: seq<string>)
    ensures |r| == |p|
  {
    if |p| == 0 then [] else [CloseToken(p[0])] + CloseAll(p[1..])
  }

  /** Token `i` is piece `i` made into a token. */
  lemma {:induction false} CloseAllShape(p: seq<string>)
    ensures forall i :: 0 <= i < |p| ==> CloseAll(p)[i] == CloseToken(p[i])
    ensures forall i :: 0 <= i < |p| ==> '>' in CloseAll(p)[i] && Unpadded(CloseAll(p)[i])
  {
    if |p| > 0 {
      CloseTokenShape(p[0]);
      CloseAllShape(p[1..]);
      forall i | 1 <= i < |p|
        ensures CloseAll(p)[i] == CloseAll(p[1..])[i - 1] && p[1..][i - 1] == p[i]
      {
      }
    }
  }

  lemma CloseAllCons(x: string, q: seq<string>)
    ensures CloseAll([x] + q) == [CloseToken(x)] + CloseAll(q)
  {
    assert ([x] + q)[1..] == q;
  }

  /** The tokens of one raw field value (`params[key] || ''`). */
  function Parse(raw: string): (r: seq<string>)
    ensures raw == "" ==> r == []
    ensures '>' in raw ==> |r| == |Split(raw, ">,")|
  {
    if '>' in raw then CloseAll(Split(raw, ">,")) else Split(raw, ",")
  }

  /** Without `>` the tokens are Ruby's `split(',')`: untrimmed, free of
      commas, trailing empty tokens dropped, and joined with `,` they give
      back the field.  With `>` token `i` is the `i`-th `>,`-separated piece
      stripped, with a `>` appended when the piece has none left; so every
      token holds a `>` and has no whitespace at either end. */
  lemma ParseSpec(raw: string)
    ensures '>' !in raw ==> Join(Parse(raw), ",") == TrimTrailing(raw, ',')
    ensures '>' !in raw ==> var r := Parse(raw);
              (forall i :: 0 <= i < |r| ==> ',' !in r[i]) && (|r| == 0 || r[|r| - 1] != "")
    ensures '>' in raw ==> var r, pieces := Parse(raw), Split(raw, ">,");
              forall i :: 0 <= i < |r| ==>
                r[i] == (if '>' in Strip(pieces[i]) then Strip(pieces[i]) else Strip(pieces[i]) + ">")
    ensures '>' in raw ==> var r := Parse(raw);
              forall i :: 0 <= i < |r| ==> '>' in r[i] && Unpadded(r[i])
  {
    if '>' in raw {
      CloseAllShape(Split(raw, ">,"));
    } else {
      SplitCharJoin(raw, ',');
      var r := Split(raw, ",");
      forall i | 0 <= i < |r| ensures ',' !in r[i] {
        ContainsChar(r[i], ',');
      }
    }
  }

  /** A token the `>` encoding carries unchanged: its only `>` is its last
      character, and whitespace borders neither it nor its address part. */
  predicate Closed(t: string) {
    && |t| >= 1
    && t[|t| - 1] == '>'
    && '>' !in t[..|t| - 1]
    && !IsStripSpace(t[0])
    && (|t| == 1 || !IsStripSpace(t[|t| - 2]))
  }

  /** A display name and an address, written `name<addr>`, form a closed
      token when neither holds a `>` and no whitespace borders them. */
  lemma ClosedNamed(name: string, addr: string)
    requires |name| >= 1 && !IsStripSpace(name[0]) && '>' !in name
    requires |addr| >= 1 && !IsStripSpace(addr[|addr| - 1]) && '>' !in addr
    ensures Closed(name + "<" + addr + ">")
  {
    var t := name + "<" + addr + ">";
    assert t[..|t| - 1] == name + "<" + addr;
    assert t[|t| - 2] == addr[|addr| - 1];
  }

  /** The first `>,` after a `>`-free prefix `a` is the one that follows it. */
  lemma SplitAfterFree(a: string, b: string)
    requires '>' !in a
    ensures SplitAll(a + ">," + b, ">,") == [a] + SplitAll(b, ">,")
  {
    var s := a + ">," + b;
    assert OccursAt(s, ">,", |a|) by {
      assert s[|a|..|a| + 2] == ">,";
    }
    forall k | 0 <= k < |a|
      ensures !OccursAt(s, ">,", k)
    {
      assert s[k] == a[k] != '>';
      if k + 2 <= |s| {
        assert s[k..k + 2][0] == s[k];
      }
    }
    assert IndexFrom(s, ">,", 0) == Some(|a|);
    assert s[..|a|] == a;
    assert s[|a| + 2..] == b;
  }

  /** A `>,` needs a `>` that is not the last character. */
  lemma NoDelimiter(s: string)
    requires |s| >= 1 && '>' !in s[..|s| - 1]
    ensures SplitAll(s, ">,") == [s]
  {
    forall k | 0 <= k
      ensures !OccursAt(s, ">,", k)
    {
      if k + 2 <= |s| {
        assert s[k..k + 2][0] == s[k] == s[..|s| - 1][k];
      }
    }
    assert IndexFrom(s, ">,", 0).None?;
  }

  lemma NoAngleInSpace(lead: string)
    requires AllStripSpace(lead)
    ensures '>' !in lead
  {
    forall k | 0 <= k < |lead|
      ensures lead[k] != '>'
    {
      assert IsStripSpace(lead[k]);
    }
  }

  /** A padded piece holding an unpadded address part becomes its token. */
  lemma CloseTokenPadded(lead: string, x: string)
    requires AllStripSpace(lead) && Unpadded(x)
    ensures CloseToken(lead + x) == if '>' in x then x else x + ">"
  {
    StripPadded(lead, x);
  }

  /** A closed token splits into its address part and the final `>`. */
  lemma ClosedParts(t: string)
    requires Closed(t)
    ensures t == t[..|t| - 1] + ">"
    ensures Unpadded(t) && Unpadded(t[..|t| - 1]) && '>' in t
  {
    assert t[|t| - 1] in t;
  }

  /** The last token of a joined field is its own piece. */
  lemma SplitClosedLast(lead: string, ts: seq<string>)
    requires AllStripSpace(lead) && |ts| == 1 && Closed(ts[0])
    ensures SplitAll(lead + Join(ts, ", "), ">,") == [lead + ts[0]]
    ensures CloseToken(lead + ts[0]) == ts[0]
  {
    var t := ts[0];
    ClosedParts(t);
    NoAngleInSpace(lead);
    var s := lead + t;
    assert Join(ts, ", ") == t;
    assert s[..|s| - 1] == lead + t[..|t| - 1];
    NoDelimiter(s);
    CloseTokenPadded(lead, t);
  }

  /** A token followed by `", "` ends its piece at its `>`. */
  lemma SplitClosedCons(lead: string, ts: seq<string>)
    requires AllStripSpace(lead) && |ts| > 1 && Closed(ts[0])
    ensures var u := ts[0][..|ts[0]| - 1];
            && SplitAll(lead + Join(ts, ", "), ">,") == [lead + u] + SplitAll(" " + Join(ts[1..], ", "), ">,")
            && CloseToken(lead + u) == ts[0]
  {
    var t := ts[0];
    ClosedParts(t);
    NoAngleInSpace(lead);
    var u := t[..|t| - 1];
    var tail := " " + Join(ts[1..], ", ");
    assert Join(ts, ", ") == t + ", " + Join(ts[1..], ", ");
    assert lead + Join(ts, ", ") == (lead + u) + ">," + tail;
    SplitAfterFree(lead + u, tail);
    CloseTokenPadded(lead, u);
  }

  /** Every token of `ts` is closed. */
  predicate AllClosed(ts: seq<string>) {
    forall i :: 0 <= i < |ts| ==> Closed(ts[i])
  }

  lemma {:induction false} SplitClosed(lead: string, ts: seq<string>)
    requires AllStripSpace(lead)
    requires |ts| >= 1 && AllClosed(ts)
    ensures var p := SplitAll(lead + Join(ts, ", "), ">,");
            CloseAll(p) == ts && p[|p| - 1] != ""
    decreases |ts|
  {
    if |ts| == 1 {
      SplitClosedLast(lead, ts);
      CloseAllCons(lead + ts[0], []);
      assert [lead + ts[0]] + [] == [lead + ts[0]];
    } else {
      var rest := ts[1..];
      assert AllStripSpace(" ");
      assert AllClosed(rest) by {
        forall i | 0 <= i < |rest| ensures Closed(rest[i]) {
          assert rest[i] == ts[i + 1];
        }
      }
      SplitClosed(" ", rest);
      SplitClosedCons(lead, ts);
      var q := SplitAll(" " + Join(rest, ", "), ">,");
      CloseAllCons(lead + ts[0][..|ts[0]| - 1], q);
      assert [ts[0]] + rest == ts;
    }
  }

  /** A joined list of closed tokens holds a `>`. */
  lemma JoinedHasAngle(ts: seq<string>)
    requires |ts| >= 1 && Closed(ts[0])
    ensures '>' in Join(ts, ", ")
  {
    var t := ts[0];
    var raw := Join(ts, ", ");
    if |ts| > 1 {
      assert raw == t + (", " + Join(ts[1..], ", "));
    }
    assert raw[|t| - 1] == t[|t| - 1];
  }

  /** Parsing inverts joining display-named tokens with `", "`: commas inside
      display names do not split a token. */
  lemma ParseJoined(ts: seq<string>)
    requires AllClosed(ts)
    ensures Parse(Join(ts, ", ")) == ts
  {
    if |ts| > 0 {
      var raw := Join(ts, ", ");
      JoinedHasAngle(ts);
      SplitClosed("", ts);
      assert "" + raw == raw;
      var p := SplitAll(raw, ">,");
      assert Split(raw, ">,") == p;
    }
  }

  /** A field with neither `>` nor `,` is a single token, kept as it is. */
  lemma SingleToken(raw: string)
    requires raw != "" && '>' !in raw && ',' !in raw
    ensures Parse(raw) == [raw]
  {
    ContainsChar(raw, ',');
    assert "," == [','];
  }
}
