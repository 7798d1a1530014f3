/** `get_bcc`: the envelope's `to` list with every address that a `to` or
    `cc` token names taken out.  Tokens are reduced to their bare address by
    `email_without_name`; envelope entries are compared as they are. */
module Bcc {
  import opened Wrappers
  import opened Lists
  import opened Address

  /** `tokens.map { |t| email_without_name(t) }`, or the error for the first
      token it fails on. */
  function CanonicalAll(tokens: seq<string>): (r: Result<seq<string>, Error>)
    ensures r.Ok? <==> forall i :: 0 <= i < |tokens| ==> EmailWithoutName(tokens[i]).Some?
    ensures r.Ok? ==> |r.value| == |tokens|
    ensures r.Ok? ==> forall i :: 0 <= i < |tokens| ==> Some(r.value[i]) == EmailWithoutName(tokens[i])
    ensures r.Fail? ==> exists i :: && 0 <= i < |tokens|
                                   && r.error == NoAddressIn(tokens[i])
                                   && EmailWithoutName(tokens[i]).None?
                                   && forall k :: 0 <= k < i ==> EmailWithoutName(tokens[k]).Some?
  {
    if |tokens| == 0 then Ok([])
    else
      match EmailWithoutName(tokens[0])
      case None => Fail(NoAddressIn(tokens[0]))
      case Some(a) =>
        match CanonicalAll(tokens[1..])
        case Fail(e) =>
          assert forall k :: 1 <= k < |tokens| ==> tokens[k] == tokens[1..][k - 1];
          Fail(e)
        case Ok(rest) =>
          assert forall k :: 1 <= k < |tokens| ==> tokens[k] == tokens[1..][k - 1];
          Ok([a] + rest)
  }

  /** `bcc - addresses`: every occurrence of every listed address removed. */
  function Remove(bcc: seq<string>, addresses: seq<string>): seq<string> {
    Filter(bcc, x => x !in addresses)
  }

  /** `get_bcc`, given the envelope's parsed `to` list (`None` when the
      envelope is blank or has no `to` member) and the `to` and `cc` tokens. */
  function GetBcc(envelopeTo: Option<seq<string>>, to: seq<string>, cc: seq<string>): (r: Result<seq<string>, Error>)
    ensures envelopeTo.None? ==> r == Ok([])
    ensures r.Fail? ==> && envelopeTo.Some?
                        && exists t :: (t in to || t in cc) && r.error == NoAddressIn(t) && EmailWithoutName(t).None?
  {
    match envelopeTo
    case None => Ok([])
    case Some(bcc) =>
      match CanonicalAll(to)
      case Fail(e) => Fail(e)
      case Ok(toAddresses) =>
        match CanonicalAll(cc)
        case Fail(e) => Fail(e)
        case Ok(ccAddresses) => Ok(Remove(Remove(bcc, toAddresses), ccAddresses))
  }

  /** Some token among `tokens` has the bare address `x`. */
  ghost predicate Names(tokens: seq<string>, x: string) {
    exists t :: t in tokens && EmailWithoutName(t) == Some(x)
  }

  /** Some token among `tokens` has no bare address. */
  ghost predicate HasUnreadable(tokens: seq<string>) {
    exists t :: t in tokens && EmailWithoutName(t).None?
  }

  /** No token among `to` or `cc` has the bare address `x`. */
  ghost predicate Unnamed(to: seq<string>, cc: seq<string>, x: string) {
    !Names(to, x) && !Names(cc, x)
  }

  lemma CanonicalMembers(tokens: seq<string>, x: string)
    requires CanonicalAll(tokens).Ok?
    ensures x in CanonicalAll(tokens).value <==> Names(tokens, x)
  {
    var c := CanonicalAll(tokens).value;
    if x in c {
      var i :| 0 <= i < |c| && c[i] == x;
      assert tokens[i] in tokens;
    }
    if Names(tokens, x) {
      var t :| t in tokens && EmailWithoutName(t) == Some(x);
      var i :| 0 <= i < |tokens| && tokens[i] == t;
      assert c[i] == x;
    }
  }

  lemma CanonicalFails(tokens: seq<string>)
    ensures CanonicalAll(tokens).Fail? <==> HasUnreadable(tokens)
  {
    if HasUnreadable(tokens) {
      var t :| t in tokens && EmailWithoutName(t).None?;
      var i :| 0 <= i < |tokens| && tokens[i] == t;
    }
    if CanonicalAll(tokens).Fail? {
      var i :| 0 <= i < |tokens| && EmailWithoutName(tokens[i]).None?;
      assert tokens[i] in tokens;
    }
  }

  /** bcc is `[]` without an envelope `to` list.  Otherwise it fails exactly
      when some `to` or `cc` token has no bare address, and it is the envelope
      list, in order, keeping every occurrence of each entry that no `to` or
      `cc` token names and no occurrence of any other entry. */
  lemma GetBccSpec(envelopeTo: Option<seq<string>>, to: seq<string>, cc: seq<string>)
    ensures envelopeTo.None? ==> GetBcc(envelopeTo, to, cc) == Ok([])
    ensures envelopeTo.Some? ==>
              (GetBcc(envelopeTo, to, cc).Fail? <==> HasUnreadable(to) || HasUnreadable(cc))
    ensures envelopeTo.Some? && GetBcc(envelopeTo, to, cc).Ok? ==>
              var bcc, r := envelopeTo.value, GetBcc(envelopeTo, to, cc).value;
              && IsSubsequence(r, bcc)
              && forall x :: && (x in r <==> x in bcc && !Names(to, x) && !Names(cc, x))
                             && multiset(r)[x] == if Names(to, x) || Names(cc, x) then 0 else multiset(bcc)[x]
  {
    CanonicalFails(to);
    CanonicalFails(cc);
    if envelopeTo.Some? && GetBcc(envelopeTo, to, cc).Ok? {
      var bcc := envelopeTo.value;
      var ta, ca := CanonicalAll(to).value, CanonicalAll(cc).value;
      var keep := x => x !in ta;
      var also := x => x !in ca;
      var both := x => x !in ta && x !in ca;
      FilterFilter(bcc, keep, also, both);
      FilterSpec(bcc, both);
      forall x
        ensures x in ta <==> Names(to, x)
        ensures x in ca <==> Names(cc, x)
      {
        CanonicalMembers(to, x);
        CanonicalMembers(cc, x);
      }
    }
  }

  /** A successful bcc is the selection of the envelope entries that no `to`
      or `cc` token names. */
  lemma GetBccSelection(bcc: seq<string>, to: seq<string>, cc: seq<string>)
    requires GetBcc(Some(bcc), to, cc).Ok?
    ensures GetBcc(Some(bcc), to, cc).value == Filter(bcc, x => Unnamed(to, cc, x))
  {
    var ta, ca := CanonicalAll(to).value, CanonicalAll(cc).value;
    forall x
      ensures x in ta <==> Names(to, x)
      ensures x in ca <==> Names(cc, x)
    {
      CanonicalMembers(to, x);
      CanonicalMembers(cc, x);
    }
    FilterFilter(bcc, x => x !in ta, x => x !in ca, x => Unnamed(to, cc, x));
  }
}
