/** `normalize_params`: the SendGrid payload with `to`, `cc` and `bcc` turned
    into address lists, the uploads gathered into `attachments`, and those
    split into `included_attachments` and `embedded_attachments`. */
module Adapter {
  import opened Wrappers
  import opened Strings
  import opened Lists
  import opened Payload
  import opened Recipients
  import opened Address
  import opened Bcc
  import opened Attachments

  /** The fields `normalize_params` merges into the payload. */
  const OutputKeys: set<string> :=
    {"to", "cc", "bcc", "attachments", "included_attachments", "embedded_attachments"}

  /** What the adapter needs of a payload to run to the end: the fields it
      reads as strings hold strings or `nil`, and every counted upload is
      there.  `attachment-info` is read only for the first upload, so it
      matters only when there is one. */
  predicate Accepts(params: Params, dec: Decoders) {
    && TextOrNil(params, "to")
    && TextOrNil(params, "cc")
    && TextOrNil(params, "envelope")
    && TextOrNil(params, CountKey)
    && (Iterations(Count(params, dec)) >= 1 ==> TextOrNil(params, InfoKey))
    && UploadsFrom(params, 0, Iterations(Count(params, dec)))
  }

  /** `recipients(key)` on the payload: a missing or `nil` field reads as `''`. */
  function RecipientsOf(params: Params, key: string): seq<string> {
    Parse(TextOf(params, key).GetOr(""))
  }

  /** `bcc_from_envelope(params[:envelope])`: the envelope's `to` list when
      the envelope is `present?`, nothing otherwise. */
  function EnvelopeTo(params: Params, dec: Decoders): Option<seq<string>> {
    match TextOf(params, "envelope")
    case Some(t) => if Present(t) then dec.envelopeTo(t) else None
    case None => None
  }

  /** The payload after `attachment_files` has run: the counted upload fields
      gone, and `attachment-info` gone if it was read, which happens only
      when there is at least one upload. */
  function Remaining(params: Params, dec: Decoders): Params
    requires Accepts(params, dec)
  {
    var left := AttachmentFiles(params, Info(params, dec), Count(params, dec)).0;
    if Count(params, dec) >= 1 then left - {InfoKey} else left
  }

  /** The attachments, in index order. */
  function AttachmentList(params: Params, dec: Decoders): seq<File>
    requires Accepts(params, dec)
  {
    AttachmentFiles(params, Info(params, dec), Count(params, dec)).1
  }

  /** `params.merge(...)` with the six computed fields. */
  function Merged(rest: Params, to: seq<string>, cc: seq<string>, bcc: seq<string>, files: seq<File>): (r: Params)
    ensures r.Keys == rest.Keys + OutputKeys
    ensures forall k :: k in rest && k !in OutputKeys ==> r[k] == rest[k]
    ensures r["to"] == Addresses(to) && r["cc"] == Addresses(cc) && r["bcc"] == Addresses(bcc)
    ensures r["attachments"] == Value.Files(files)
    ensures r["included_attachments"] == Value.Files(Included(files))
    ensures r["embedded_attachments"] == Value.Files(Embedded(files))
  {
    rest + map[
      "to" := Addresses(to),
      "cc" := Addresses(cc),
      "bcc" := Addresses(bcc),
      "attachments" := Value.Files(files),
      "included_attachments" := Value.Files(Included(files)),
      "embedded_attachments" := Value.Files(Embedded(files))]
  }

  /** `normalize_params`, failing with the token that `email_without_name`
      cannot read. */
  function Normalize(params: Params, dec: Decoders): (r: Result<Params, Error>)
    requires Accepts(params, dec)
    ensures EnvelopeTo(params, dec).None? ==> r.Ok?
    ensures r.Ok? ==> OutputKeys <= r.value.Keys
  {
    var to := RecipientsOf(params, "to");
    var cc := RecipientsOf(params, "cc");
    match GetBcc(EnvelopeTo(params, dec), to, cc)
    case Fail(e) => Fail(e)
    case Ok(bcc) => Ok(Merged(Remaining(params, dec), to, cc, bcc, AttachmentList(params, dec)))
  }

  /** A successful run is the merge of its parts. */
  lemma NormalizeOk(params: Params, dec: Decoders)
    requires Accepts(params, dec) && Normalize(params, dec).Ok?
    ensures var to, cc := RecipientsOf(params, "to"), RecipientsOf(params, "cc");
            && GetBcc(EnvelopeTo(params, dec), to, cc).Ok?
            && Normalize(params, dec).value ==
                 Merged(Remaining(params, dec), to, cc, GetBcc(EnvelopeTo(params, dec), to, cc).value, AttachmentList(params, dec))
  {
  }

  // ---------------------------------------------------------------------------
  // Properties of the normalized payload
  // ---------------------------------------------------------------------------

  /** Normalizing fails exactly when the envelope holds a `to` list and some
      `to` or `cc` token has no address `email_without_name` can read. */
  lemma NormalizeFails(params: Params, dec: Decoders)
    requires Accepts(params, dec)
    ensures Normalize(params, dec).Fail? <==>
              && EnvelopeTo(params, dec).Some?
              && (HasUnreadable(RecipientsOf(params, "to")) || HasUnreadable(RecipientsOf(params, "cc")))
  {
    GetBccSpec(EnvelopeTo(params, dec), RecipientsOf(params, "to"), RecipientsOf(params, "cc"));
  }

  /** The six output fields are set; the counted upload fields are removed,
      `attachment-info` is removed exactly when the count is at least one,
      and every other field keeps its value. */
  lemma NormalizeKeys(params: Params, dec: Decoders, k: string)
    requires Accepts(params, dec) && Normalize(params, dec).Ok?
    ensures var r := Normalize(params, dec).value;
            && (k in OutputKeys ==> k in r)
            && (k !in OutputKeys ==>
                  && (k in r <==> && k in params
                                  && (forall n: nat :: 1 <= n <= Count(params, dec) ==> k != Key(n))
                                  && (k == InfoKey ==> Count(params, dec) < 1))
                  && (k in r ==> r[k] == params[k]))
  {
    NormalizeOk(params, dec);
    AttachmentFilesKeys(params, Info(params, dec), Count(params, dec), k);
  }

  /** No upload field is one of the output fields. */
  lemma KeyNotOutput(n: nat)
    ensures Key(n) !in OutputKeys
  {
    var k := Key(n);
    assert k[10] == DecimalString(n)[0];
    assert IsDigit(k[10]);
  }

  /** Field `attachment{n}` survives exactly when `n` exceeds the count. */
  lemma NormalizeUploadKeys(params: Params, dec: Decoders, n: nat)
    requires Accepts(params, dec) && Normalize(params, dec).Ok?
    ensures Key(n) in Normalize(params, dec).value <==> Key(n) in params && (n < 1 || n > Count(params, dec))
  {
    var k := Key(n);
    KeyDistinct(n);
    KeyNotOutput(n);
    NormalizeKeys(params, dec, k);
    KeyWithin(n, Count(params, dec));
  }

  /** `attachment-info` survives exactly when there are no uploads to read it for. */
  lemma NormalizeInfoKey(params: Params, dec: Decoders)
    requires Accepts(params, dec) && Normalize(params, dec).Ok?
    ensures InfoKey in Normalize(params, dec).value <==> InfoKey in params && Count(params, dec) < 1
  {
    forall n: nat
      ensures InfoKey != Key(n)
    {
      KeyDistinct(n);
    }
    NormalizeKeys(params, dec, InfoKey);
  }

  /** `to` and `cc` are the parsed fields; `bcc` is `[]` when there is no
      envelope list, and otherwise the envelope entries that no `to` or `cc`
      token names, in envelope order and with every occurrence. */
  lemma NormalizeRecipients(params: Params, dec: Decoders)
    requires Accepts(params, dec) && Normalize(params, dec).Ok?
    ensures var r := Normalize(params, dec).value;
            var to, cc := RecipientsOf(params, "to"), RecipientsOf(params, "cc");
            && r["to"] == Addresses(to)
            && r["cc"] == Addresses(cc)
            && (EnvelopeTo(params, dec).None? ==> r["bcc"] == Addresses([]))
            && (EnvelopeTo(params, dec).Some? ==>
                  r["bcc"] == Addresses(Filter(EnvelopeTo(params, dec).value, x => Unnamed(to, cc, x))))
  {
    var to, cc, env := RecipientsOf(params, "to"), RecipientsOf(params, "cc"), EnvelopeTo(params, dec);
    NormalizeOk(params, dec);
    if env.Some? {
      GetBccSelection(env.value, to, cc);
    }
  }

  /** The attachment list in closed form: one file per counted upload, the
      `i`-th being upload `i + 1` relabelled from its metadata. */
  lemma AttachmentListSpec(params: Params, dec: Decoders)
    requires Accepts(params, dec)
    ensures var files := AttachmentList(params, dec);
            && |files| == Iterations(Count(params, dec))
            && forall i :: 0 <= i < |files| ==>
                 files[i] == Relabel(params[Key(i + 1)].file, MetaFor(Info(params, dec), i + 1))
  {
    ExtractFromSpec(params, Info(params, dec), 0, Iterations(Count(params, dec)));
  }

  /** `attachments` has one file per counted upload, in index order: file
      `i` is upload `i + 1` under the metadata's file name and content-id
      where these are present, and under its own otherwise. */
  lemma NormalizeAttachments(params: Params, dec: Decoders)
    requires Accepts(params, dec) && Normalize(params, dec).Ok?
    ensures var r := Normalize(params, dec).value;
            && r["attachments"].Files?
            && |r["attachments"].files| == Iterations(Count(params, dec))
            && forall i :: 0 <= i < |r["attachments"].files| ==>
                 var meta, original := MetaFor(Info(params, dec), i + 1), params[Key(i + 1)].file;
                 && r["attachments"].files[i].name ==
                      (if Given(meta.filename) then meta.filename.value else original.name)
                 && r["attachments"].files[i].contentId ==
                      (if Given(meta.contentId) then meta.contentId else original.contentId)
  {
    NormalizeOk(params, dec);
    AttachmentListSpec(params, dec);
    var files := AttachmentList(params, dec);
    forall i | 0 <= i < |files|
      ensures var meta, original := MetaFor(Info(params, dec), i + 1), params[Key(i + 1)].file;
              && files[i].name == (if Given(meta.filename) then meta.filename.value else original.name)
              && files[i].contentId == (if Given(meta.contentId) then meta.contentId else original.contentId)
    {
      RelabelSpec(params[Key(i + 1)].file, MetaFor(Info(params, dec), i + 1));
    }
  }

  /** `included_attachments` and `embedded_attachments` partition
      `attachments` by content-id, each in the order of `attachments`. */
  lemma NormalizePartition(params: Params, dec: Decoders)
    requires Accepts(params, dec) && Normalize(params, dec).Ok?
    ensures var r := Normalize(params, dec).value;
            && r["attachments"].Files? && r["included_attachments"].Files? && r["embedded_attachments"].Files?
            && var files, included, embedded :=
                 r["attachments"].files, r["included_attachments"].files, r["embedded_attachments"].files;
            && IsInterleaving(files, included, embedded)
            && (forall f :: f in included <==> f in files && !HasContentId(f))
            && (forall f :: f in embedded <==> f in files && HasContentId(f))
  {
    NormalizeOk(params, dec);
    Partition(AttachmentList(params, dec));
  }

  /** There is no envelope list exactly when the envelope is absent, `nil`
      or blank, or its JSON has no `to` list. */
  lemma EnvelopeToNone(params: Params, dec: Decoders)
    ensures var text := TextOf(params, "envelope");
            EnvelopeTo(params, dec).None? <==>
              text.None? || !Present(text.value) || dec.envelopeTo(text.value).None?
  {
  }

  /** An absent, `nil` or blank envelope gives an empty bcc, and normalizing
      cannot fail, whatever the `to` and `cc` tokens are. */
  lemma NormalizeBlankEnvelope(params: Params, dec: Decoders)
    requires Accepts(params, dec)
    requires TextOf(params, "envelope").None? || !Present(TextOf(params, "envelope").value)
    ensures Normalize(params, dec).Ok?
    ensures Normalize(params, dec).value["bcc"] == Addresses([])
  {
    NormalizeOk(params, dec);
  }

  /** Without an `attachments` count there are no attachments, and every
      field other than the six outputs is kept as it was, uploads and
      `attachment-info` included. */
  lemma NormalizeWithoutCount(params: Params, dec: Decoders)
    requires Accepts(params, dec) && Normalize(params, dec).Ok?
    requires TextOf(params, CountKey).None?
    ensures var r := Normalize(params, dec).value;
            && r["attachments"] == Value.Files([])
            && r["included_attachments"] == Value.Files([])
            && r["embedded_attachments"] == Value.Files([])
            && forall k :: k !in OutputKeys ==> (k in r <==> k in params) && (k in r ==> r[k] == params[k])
  {
    NormalizeOk(params, dec);
    AttachmentListSpec(params, dec);
    forall k | k !in OutputKeys
      ensures var r := Normalize(params, dec).value;
              (k in r <==> k in params) && (k in r ==> r[k] == params[k])
    {
      NormalizeKeys(params, dec, k);
    }
  }

  /** Without `attachment-info` every upload keeps its own file name and
      content-id: each lookup falls back to `{}`. */
  lemma NormalizeWithoutInfo(params: Params, dec: Decoders)
    requires Accepts(params, dec) && Normalize(params, dec).Ok?
    requires TextOf(params, InfoKey).None?
    ensures var r := Normalize(params, dec).value;
            && r["attachments"].Files?
            && |r["attachments"].files| == Iterations(Count(params, dec))
            && forall i :: 0 <= i < |r["attachments"].files| ==> r["attachments"].files[i] == params[Key(i + 1)].file
  {
    NormalizeOk(params, dec);
    AttachmentListSpec(params, dec);
    var files := AttachmentList(params, dec);
    forall i | 0 <= i < |files|
      ensures files[i] == params[Key(i + 1)].file
    {
      RelabelSpec(params[Key(i + 1)].file, MetaFor(Info(params, dec), i + 1));
    }
  }
}
