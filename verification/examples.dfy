/** The adapter's documented behaviour on concrete payloads.  The JSON
    parser and `String#to_i` are left abstract: each scenario holds for any
    decoders that read the scenario's texts as Ruby does. */
module Examples {
  import opened Wrappers
  import opened Strings
  import opened Lists
  import opened Payload
  import opened Recipients
  import opened Address
  import opened Bcc
  import opened Attachments
  import opened Adapter

  // ---------------------------------------------------------------------------
  // The default payload
  // ---------------------------------------------------------------------------

  const FugushimaName := "\"Mr Fugushima at Fugu, Inc\" "
  const FugushimaAddress := "hi@example.com"
  const Fugushima := FugushimaName + "<" + FugushimaAddress + ">"
  const FooName := "Foo bar "
  const FooAddress := "foo@example.com"
  const Foo := FooName + "<" + FooAddress + ">"
  const DefaultTo := Fugushima + ", " + Foo
  const DefaultCc := "cc@example.com"
  const Johny := "johny@example.com"
  /** The envelope JSON object, written out around the address it lists. */
  const DefaultEnvelope := "{" + "\"to\":[\"" + Johny + "\"], \"from\": [\"there@example.com\"]}"

  const DefaultParams: Params := map[
    "text" := Text("hi"),
    "to" := Text(DefaultTo),
    "cc" := Text(DefaultCc),
    "from" := Text("there@example.com"),
    "envelope" := Text(DefaultEnvelope)]

  /** The display-named `to` field splits into its two tokens, the comma in
      the quoted name notwithstanding. */
  lemma DefaultToTokens()
    ensures Parse(DefaultTo) == [Fugushima, Foo]
  {
    ClosedNamed(FugushimaName, FugushimaAddress);
    ClosedNamed(FooName, FooAddress);
    assert Join([Fugushima, Foo], ", ") == DefaultTo by {
      assert [Fugushima, Foo][1..] == [Foo];
    }
    ParseJoined([Fugushima, Foo]);
  }

  /** A single address without commas is its own token. */
  lemma DefaultCcTokens()
    ensures Parse(DefaultCc) == [DefaultCc]
  {
    SingleToken(DefaultCc);
  }

  /** The bare addresses of the default `to` tokens. */
  lemma DefaultToAddresses()
    ensures CanonicalAll([Fugushima, Foo]) == Ok([FugushimaAddress, FooAddress])
  {
    NamedAddress(FugushimaName, FugushimaAddress);
    NamedAddress(FooName, FooAddress);
    var tokens := [Fugushima, Foo];
    assert EmailWithoutName(tokens[0]).Some? && EmailWithoutName(tokens[1]).Some?;
    var r := CanonicalAll(tokens).value;
    assert r[0] == FugushimaAddress && r[1] == FooAddress;
    assert r == [FugushimaAddress, FooAddress];
  }

  /** The default `cc` token is already a bare address. */
  lemma DefaultCcAddresses()
    ensures CanonicalAll([DefaultCc]) == Ok([DefaultCc])
  {
    var tokens := [DefaultCc];
    assert EmailWithoutName(tokens[0]).Some?;
    var r := CanonicalAll(tokens).value;
    assert r == [DefaultCc];
  }

  /** The fields of the default payload the adapter reads. */
  lemma DefaultFields()
    ensures TextOf(DefaultParams, "to") == Some(DefaultTo)
    ensures TextOf(DefaultParams, "cc") == Some(DefaultCc)
    ensures TextOf(DefaultParams, "envelope") == Some(DefaultEnvelope)
    ensures CountKey !in DefaultParams && InfoKey !in DefaultParams
  {
  }

  lemma DefaultAccepted(dec: Decoders)
    ensures Accepts(DefaultParams, dec)
    ensures RecipientsOf(DefaultParams, "to") == [Fugushima, Foo]
    ensures RecipientsOf(DefaultParams, "cc") == [DefaultCc]
  {
    DefaultFields();
    DefaultToTokens();
    DefaultCcTokens();
  }

  /** A payload whose `to` and `cc` tokens all have bare addresses
      normalizes without error. */
  lemma ReadableOk(params: Params, dec: Decoders)
    requires Accepts(params, dec)
    requires CanonicalAll(RecipientsOf(params, "to")).Ok? && CanonicalAll(RecipientsOf(params, "cc")).Ok?
    ensures Normalize(params, dec).Ok?
  {
    NormalizeFails(params, dec);
    CanonicalFails(RecipientsOf(params, "to"));
    CanonicalFails(RecipientsOf(params, "cc"));
  }

  /** The default payload normalizes, with its `to` and `cc` tokens and, for
      an envelope `to` list, the bcc that list yields. */
  lemma DefaultNormalized(dec: Decoders)
    ensures Accepts(DefaultParams, dec) && Normalize(DefaultParams, dec).Ok?
    ensures var r := Normalize(DefaultParams, dec).value;
            && r["to"] == Addresses([Fugushima, Foo])
            && r["cc"] == Addresses([DefaultCc])
  {
    DefaultAccepted(dec);
    DefaultToAddresses();
    DefaultCcAddresses();
    ReadableOk(DefaultParams, dec);
    NormalizeOk(DefaultParams, dec);
  }

  /** The default tokens take their bare addresses out of an envelope list. */
  lemma DefaultBcc(envelope: seq<string>)
    ensures GetBcc(Some(envelope), [Fugushima, Foo], [DefaultCc]) ==
              Ok(Remove(Remove(envelope, [FugushimaAddress, FooAddress]), [DefaultCc]))
  {
    DefaultToAddresses();
    DefaultCcAddresses();
  }

  /** The bcc of a successful run is what `GetBcc` computes. */
  lemma BccField(params: Params, dec: Decoders)
    requires Accepts(params, dec) && Normalize(params, dec).Ok?
    ensures var to, cc := RecipientsOf(params, "to"), RecipientsOf(params, "cc");
            Normalize(params, dec).value["bcc"] == Addresses(GetBcc(EnvelopeTo(params, dec), to, cc).value)
  {
    NormalizeOk(params, dec);
  }

  /** The default envelope is `present?`. */
  lemma DefaultEnvelopePresent()
    ensures Present(DefaultEnvelope)
  {
    assert !IsBlankChar(DefaultEnvelope[0]);
  }

  /** An address none of the default tokens names survives both removals. */
  lemma JohnyKept()
    ensures Remove(Remove([Johny], [FugushimaAddress, FooAddress]), [DefaultCc]) == [Johny]
  {
    assert |Johny| != |FugushimaAddress| && |Johny| != |FooAddress| && |Johny| != |DefaultCc|;
    FilterKeepsAll([Johny], x => x !in [FugushimaAddress, FooAddress]);
    FilterKeepsAll([Johny], x => x !in [DefaultCc]);
  }

  /** `'wraps bcc in an array'`: the envelope recipient not named in `to` or
      `cc` is the bcc. */
  lemma WrapsBcc(dec: Decoders)
    requires dec.envelopeTo(DefaultEnvelope) == Some([Johny])
    ensures Accepts(DefaultParams, dec) && Normalize(DefaultParams, dec).Ok?
    ensures Normalize(DefaultParams, dec).value["bcc"] == Addresses([Johny])
  {
    DefaultNormalized(dec);
    DefaultEnvelopePresent();
    assert EnvelopeTo(DefaultParams, dec) == Some([Johny]);
    BccField(DefaultParams, dec);
    DefaultBcc([Johny]);
    JohnyKept();
  }

  /** A payload with the default `to` field, no attachments, and `cc`
      tokens with bare addresses normalizes; its bcc is the envelope list
      without the addresses the tokens name. */
  lemma DefaultToOk(params: Params, dec: Decoders, cc: seq<string>)
    requires TextOrNil(params, "cc") && TextOrNil(params, "envelope")
    requires TextOf(params, "to") == Some(DefaultTo)
    requires CountKey !in params && InfoKey !in params
    requires RecipientsOf(params, "cc") == cc && CanonicalAll(cc).Ok?
    ensures Accepts(params, dec) && Normalize(params, dec).Ok?
    ensures RecipientsOf(params, "to") == [Fugushima, Foo]
    ensures Normalize(params, dec).value["cc"] == Addresses(cc)
    ensures Normalize(params, dec).value["bcc"] == Addresses(GetBcc(EnvelopeTo(params, dec), [Fugushima, Foo], cc).value)
  {
    DefaultToTokens();
    DefaultToAddresses();
    ReadableOk(params, dec);
    NormalizeOk(params, dec);
  }

  /** `'returns an array even if cc is empty'`: a `nil` cc gives no tokens. */
  lemma NilCc(dec: Decoders)
    ensures var params := DefaultParams["cc" := Nil];
            && Accepts(params, dec) && Normalize(params, dec).Ok?
            && Normalize(params, dec).value["cc"] == Addresses([])
  {
    var params := DefaultParams["cc" := Nil];
    DefaultFields();
    assert TextOf(params, "to") == Some(DefaultTo);
    assert RecipientsOf(params, "cc") == [];
    DefaultToOk(params, dec, []);
  }

  /** Without an envelope `to` list the bcc is empty. */
  lemma NoEnvelopeList(params: Params, dec: Decoders)
    requires TextOrNil(params, "envelope") && TextOf(params, "to") == Some(DefaultTo)
    requires TextOf(params, "cc") == Some(DefaultCc) && CountKey !in params && InfoKey !in params
    requires EnvelopeTo(params, dec).None?
    ensures Accepts(params, dec) && Normalize(params, dec).Ok?
    ensures Normalize(params, dec).value["bcc"] == Addresses([])
  {
    DefaultCcTokens();
    DefaultCcAddresses();
    DefaultToOk(params, dec, [DefaultCc]);
  }

  /** `'returns an array even if bcc is an empty string'`. */
  lemma EmptyEnvelope(dec: Decoders)
    ensures var params := DefaultParams["envelope" := Text("")];
            && Accepts(params, dec) && Normalize(params, dec).Ok?
            && Normalize(params, dec).value["bcc"] == Addresses([])
  {
    var params := DefaultParams["envelope" := Text("")];
    DefaultFields();
    assert TextOf(params, "to") == Some(DefaultTo) && TextOf(params, "cc") == Some(DefaultCc);
    assert !Present("");
    NoEnvelopeList(params, dec);
  }

  /** `'returns an array even if bcc is empty'`: a `nil` envelope. */
  lemma NilEnvelope(dec: Decoders)
    ensures var params := DefaultParams["envelope" := Nil];
            && Accepts(params, dec) && Normalize(params, dec).Ok?
            && Normalize(params, dec).value["bcc"] == Addresses([])
  {
    var params := DefaultParams["envelope" := Nil];
    DefaultFields();
    assert TextOf(params, "to") == Some(DefaultTo) && TextOf(params, "cc") == Some(DefaultCc);
    NoEnvelopeList(params, dec);
  }

  const SameToEnvelope := "{" + "\"to\":[\"" + FugushimaAddress + "\"]}"

  /** An envelope list naming only a `to` address. */
  lemma FugushimaDropped()
    ensures Remove(Remove([FugushimaAddress], [FugushimaAddress, FooAddress]), [DefaultCc]) == []
  {
    FilterDropsAll([FugushimaAddress], x => x !in [FugushimaAddress, FooAddress]);
  }

  /** `'returns an empty array when the envelope to is the same as the base
      to'`: the display-named `to` token removes its bare address. */
  lemma SameTo(dec: Decoders)
    requires dec.envelopeTo(SameToEnvelope) == Some([FugushimaAddress])
    ensures var params := DefaultParams["envelope" := Text(SameToEnvelope)];
            && Accepts(params, dec) && Normalize(params, dec).Ok?
            && Normalize(params, dec).value["bcc"] == Addresses([])
  {
    var params := DefaultParams["envelope" := Text(SameToEnvelope)];
    DefaultFields();
    assert TextOf(params, "to") == Some(DefaultTo) && TextOf(params, "cc") == Some(DefaultCc);
    assert !IsBlankChar(SameToEnvelope[0]);
    assert EnvelopeTo(params, dec) == Some([FugushimaAddress]);
    DefaultCcTokens();
    DefaultCcAddresses();
    DefaultToOk(params, dec, [DefaultCc]);
    DefaultBcc([FugushimaAddress]);
    FugushimaDropped();
  }

  // ---------------------------------------------------------------------------
  // Attachments
  // ---------------------------------------------------------------------------

  /** The first two upload fields are `attachment1` and `attachment2`. */
  lemma FirstKeys()
    ensures Key(1) == "attachment1" && Key(2) == "attachment2"
  {
    assert DigitChar(1) == '1' && DigitChar(2) == '2';
  }

  /** The default payload with two uploads, a count of `"2"` and the
      `attachment-info` text `info`. */
  function TwoUploads(u1: File, u2: File, info: string): Params {
    DefaultParams["attachments" := Text("2")]["attachment1" := Upload(u1)]["attachment2" := Upload(u2)]["attachment-info" := Text(info)]
  }

  /** The metadata of the scenarios: both uploads renamed, the first given a
      content-id. */
  function TwoMetas(name1: string, name2: string, cid: string): map<string, Meta> {
    map["attachment2" := Meta(Some(name2), None), "attachment1" := Meta(Some(name1), Some(cid))]
  }

  lemma TwoUploadsFields(u1: File, u2: File, info: string, dec: Decoders)
    requires dec.toInteger("2") == 2
    ensures var params := TwoUploads(u1, u2, info);
            && Accepts(params, dec)
            && Count(params, dec) == 2
            && Info(params, dec) == dec.attachmentInfo(info)
            && params[Key(1)] == Upload(u1) && params[Key(2)] == Upload(u2)
            && RecipientsOf(params, "to") == [Fugushima, Foo]
            && RecipientsOf(params, "cc") == [DefaultCc]
  {
    var params := TwoUploads(u1, u2, info);
    DefaultFields();
    FirstKeys();
    assert TextOf(params, "to") == Some(DefaultTo) && TextOf(params, "cc") == Some(DefaultCc);
    assert TextOf(params, CountKey) == Some("2");
    assert TextOf(params, InfoKey) == Some(info);
    assert UploadsFrom(params, 0, 2) by {
      forall n: nat | 0 < n <= 2
        ensures Key(n) in params && params[Key(n)].Upload?
      {
        if n == 1 {
        } else {
          assert n == 2;
        }
      }
    }
    DefaultToTokens();
    DefaultCcTokens();
  }

  /** With the metadata of the scenarios, the uploads are renamed and the
      first carries the content-id. */
  lemma TwoUploadsList(u1: File, u2: File, info: string, dec: Decoders, name1: string, name2: string, cid: string)
    requires dec.toInteger("2") == 2 && dec.attachmentInfo(info) == TwoMetas(name1, name2, cid)
    requires Present(name1) && Present(name2) && Present(cid) && u2.contentId.None?
    ensures Accepts(TwoUploads(u1, u2, info), dec)
    ensures AttachmentList(TwoUploads(u1, u2, info), dec) == [File(name1, Some(cid)), File(name2, None)]
  {
    var params := TwoUploads(u1, u2, info);
    TwoUploadsFields(u1, u2, info, dec);
    FirstKeys();
    AttachmentListSpec(params, dec);
    var files := AttachmentList(params, dec);
    var metas := TwoMetas(name1, name2, cid);
    assert MetaFor(metas, 1) == Meta(Some(name1), Some(cid));
    assert MetaFor(metas, 2) == Meta(Some(name2), None);
    RelabelSpec(u1, MetaFor(metas, 1));
    RelabelSpec(u2, MetaFor(metas, 2));
    assert files[0] == File(name1, Some(cid));
    assert files[1] == File(name2, None);
  }

  /** Two files, the first with a content-id and the second without. */
  lemma SplitPair(a: File, b: File)
    requires HasContentId(a) && !HasContentId(b)
    ensures Included([a, b]) == [b] && Embedded([a, b]) == [a]
  {
    assert [a, b][1..] == [b];
    assert [b][1..] == [];
    assert Included([]) == [] && Embedded([]) == [];
    assert [b] + [] == [b];
    assert Included([b]) == [b];
    assert Embedded([b]) == [];
    assert Included([a, b]) == Included([b]);
    assert Embedded([a, b]) == [a] + Embedded([b]);
  }

  /** Two uploads with metadata: `attachments` holds both, renamed and in
      order; the one with a content-id is embedded, the other included; the
      upload fields and `attachment-info` are gone. */
  lemma TwoAttachments(u1: File, u2: File, info: string, dec: Decoders, name1: string, name2: string, cid: string)
    requires dec.toInteger("2") == 2 && dec.attachmentInfo(info) == TwoMetas(name1, name2, cid)
    requires Present(name1) && Present(name2) && Present(cid) && u2.contentId.None?
    ensures var params := TwoUploads(u1, u2, info);
            && Accepts(params, dec) && Normalize(params, dec).Ok?
            && var r := Normalize(params, dec).value;
            && r["attachments"] == Value.Files([File(name1, Some(cid)), File(name2, None)])
            && r["included_attachments"] == Value.Files([File(name2, None)])
            && r["embedded_attachments"] == Value.Files([File(name1, Some(cid))])
            && "attachment1" !in r && "attachment2" !in r && "attachment-info" !in r
  {
    var params := TwoUploads(u1, u2, info);
    TwoUploadsFields(u1, u2, info, dec);
    TwoUploadsList(u1, u2, info, dec, name1, name2, cid);
    DefaultToAddresses();
    DefaultCcAddresses();
    ReadableOk(params, dec);
    NormalizeOk(params, dec);
    SplitPair(File(name1, Some(cid)), File(name2, None));
    FirstKeys();
    NormalizeUploadKeys(params, dec, 1);
    NormalizeUploadKeys(params, dec, 2);
    NormalizeInfoKey(params, dec);
  }

  /** The content-id the scenarios give the first upload. */
  const ContentId := "5866e4a943fd8" + "_43f946d853108373ab" + "@4ae2c7be-dbe3-46b7-9d15-0a69e63689b2.mail"

  /** `'changes attachments to an array of files'`. */
  lemma ChangesAttachments(u1: File, u2: File, info: string, dec: Decoders)
    requires dec.toInteger("2") == 2
    requires dec.attachmentInfo(info) == TwoMetas("photo1.jpg", "photo2.jpg", ContentId)
    requires u2.contentId.None?
    ensures var params := TwoUploads(u1, u2, info);
            && Accepts(params, dec) && Normalize(params, dec).Ok?
            && var r := Normalize(params, dec).value;
            && r["attachments"] == Value.Files([File("photo1.jpg", Some(ContentId)), File("photo2.jpg", None)])
            && "attachment1" !in r && "attachment2" !in r && "attachment-info" !in r
  {
    assert !IsBlankChar("photo1.jpg"[0]) && !IsBlankChar("photo2.jpg"[0]) && !IsBlankChar(ContentId[0]);
    TwoAttachments(u1, u2, info, dec, "photo1.jpg", "photo2.jpg", ContentId);
  }

  /** `'uses sendgrid attachment info for filename'`, `'only included
      attachments'` and `'only embedded attachments'`. */
  lemma SendgridFilenames(u1: File, u2: File, info: string, dec: Decoders)
    requires dec.toInteger("2") == 2
    requires dec.attachmentInfo(info) == TwoMetas("sendgrid-filename1.jpg", "sendgrid-filename2.jpg", ContentId)
    requires u2.contentId.None?
    ensures var params := TwoUploads(u1, u2, info);
            && Accepts(params, dec) && Normalize(params, dec).Ok?
            && var r := Normalize(params, dec).value;
            && r["attachments"].Files? && |r["attachments"].files| == 2
            && r["attachments"].files[0].name == "sendgrid-filename1.jpg"
            && r["attachments"].files[1].name == "sendgrid-filename2.jpg"
            && r["included_attachments"].Files? && |r["included_attachments"].files| == 1
            && r["included_attachments"].files[0].name == "sendgrid-filename2.jpg"
            && r["embedded_attachments"].Files? && |r["embedded_attachments"].files| == 1
            && r["embedded_attachments"].files[0].name == "sendgrid-filename1.jpg"
  {
    assert !IsBlankChar("sendgrid-filename1.jpg"[0]) && !IsBlankChar("sendgrid-filename2.jpg"[0]);
    assert !IsBlankChar(ContentId[0]);
    TwoAttachments(u1, u2, info, dec, "sendgrid-filename1.jpg", "sendgrid-filename2.jpg", ContentId);
  }

  lemma NoUploadsFields(dec: Decoders)
    requires dec.toInteger("0") == 0
    ensures var params := DefaultParams["attachments" := Text("0")];
            && Accepts(params, dec)
            && Count(params, dec) == 0
            && RecipientsOf(params, "to") == [Fugushima, Foo]
            && RecipientsOf(params, "cc") == [DefaultCc]
  {
    var params := DefaultParams["attachments" := Text("0")];
    DefaultFields();
    assert TextOf(params, "to") == Some(DefaultTo) && TextOf(params, "cc") == Some(DefaultCc);
    assert TextOf(params, CountKey) == Some("0") && InfoKey !in params;
    DefaultToTokens();
    DefaultCcTokens();
  }

  /** `'has no attachments'`: a count of `"0"` gives no files. */
  lemma NoAttachments(dec: Decoders)
    requires dec.toInteger("0") == 0
    ensures var params := DefaultParams["attachments" := Text("0")];
            && Accepts(params, dec) && Normalize(params, dec).Ok?
            && Normalize(params, dec).value["attachments"] == Value.Files([])
  {
    var params := DefaultParams["attachments" := Text("0")];
    NoUploadsFields(dec);
    DefaultToAddresses();
    DefaultCcAddresses();
    ReadableOk(params, dec);
    NormalizeOk(params, dec);
    AttachmentListSpec(params, dec);
  }
}
