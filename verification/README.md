# Griddler SendGrid adapter: `normalize_params` in Dafny

This project models `Griddler::Sendgrid::Adapter#normalize_params`
(`lib/griddler/sendgrid/adapter.rb`). The method turns a SendGrid
inbound-parse payload into the shape Griddler expects.

- `to` and `cc` become lists of address tokens. A field holding a `>` is split
  at each `>,`. Each piece is stripped and given a `>` if it has none left.
  Any other field is split on every comma.
- `bcc` is the envelope's `to` list with every address that a `to` or `cc`
  token names removed. Tokens are reduced to their bare address by
  `email_without_name`.
- `attachment1` … `attachmentN` are taken out of the payload in order. An
  upload takes the file name from its `attachment-info` entry when that name
  is `present?`. It takes the content-id the same way. Otherwise it keeps
  its own. Together the uploads form `attachments`.
- `included_attachments` holds the files without a content-id and
  `embedded_attachments` those with one.

The payload is a `map<string, Value>`; an uploaded file is the record
`File(name, contentId)`. Every step is a pure function:

| module | file | models |
|---|---|---|
| `Wrappers` | `wrappers.dfy` | `Option` and `Result` |
| `Strings` | `strings.dfy` | Ruby's `String#split` with a literal delimiter, `strip`, ActiveSupport's `present?`, decimal numerals |
| `Lists` | `lists.dfy` | order-preserving selection (`select`, `reject`, `Array#-`) and interleavings |
| `Payload` | `payload.dfy` | the payload values and the library calls the adapter makes on them |
| `Recipients` | `recipients.dfy` | `recipients` |
| `Address` | `address.dfy` | `email_without_name`, as the exact leftmost-greedy match of its two patterns |
| `Bcc` | `bcc.dfy` | `get_bcc`, `remove_addresses_from_bcc`, `bcc_from_envelope` after parsing |
| `Attachments` | `attachments.dfy` | `attachment_files`, `extract_file_at`, `attachment_info`, `attachment_filename`, `attachment_content_id`, `included_attachments`, `embedded_attachments` |
| `Adapter` | `adapter.dfy` | `normalize_params` |
| `Examples` | `examples.dfy` | the RSpec examples of `spec/griddler/sendgrid/adapter_spec.rb` |

Ruby raises where `email_without_name` finds no match for its second
pattern. This happens for a token like `<a@b.com>` that has `<…>` but no
display name before it. The raise surfaces as `Normalize` returning
`Fail(NoAddressIn(token))`. It can only happen when the envelope carries a
`to` list, because only then are the tokens reduced.

`JSON.parse` and `String#to_i` are parameters (`Decoders`). Each scenario in
`Examples` holds for every parser that reads the scenario's texts as Ruby
does.

Some consequences of the code:

- `Array#-` removes every occurrence of an excluded address. `Bcc.GetBccSpec`
  states this through the multiset counts.
- A token from the `>` branch always contains a `>`. It need not end with one:
  in `a <b> c` the `>` is inside the token.
- `attachment-info` is read, and so removed from the payload, only when the
  count is at least one.
- Upload fields beyond the count are left in place.
- A counted upload that is missing makes Ruby raise on `nil`, at line 90, at
  line 94 or in `included_attachments`. The model makes the presence of counted
  uploads a precondition (`Adapter.Accepts`).

## Model

| member | source | states |
|---|---|---|
| `Strings.SplitAllJoin` | lib/griddler/sendgrid/adapter.rb:38 | splitting on a delimiter and joining the pieces back gives the original string, and no piece holds the delimiter |
| `Strings.Split` | lib/griddler/sendgrid/adapter.rb:38 | Ruby `split`: no piece holds the delimiter, the last piece is non-empty, `''` splits into no pieces, and a string without the delimiter is one piece |
| `Strings.SplitCharJoin` | lib/griddler/sendgrid/adapter.rb:38 | joining the pieces of `split(',')` with `,` gives the string without its trailing commas (leading and inner empty pieces survive) |
| `Strings.StripSpec` | lib/griddler/sendgrid/adapter.rb:33 | `strip` leaves no whitespace at either end and returns a contiguous slice of its input |
| `Strings.StripPadded` | lib/griddler/sendgrid/adapter.rb:33 | stripping removes exactly the leading whitespace added in front of an unpadded string |
| `Strings.DecimalRoundTrip` | lib/griddler/sendgrid/adapter.rb:88 | reading back the decimal numeral interpolated into `"attachment#{index + 1}"` gives the number |
| `Lists.FilterSpec` | lib/griddler/sendgrid/adapter.rb:63 | `Array#-` as a selection: an element is in the result iff it is in the list and accepted, each accepted element keeps all its occurrences, and the order is kept |
| `Lists.FilterFilter` | lib/griddler/sendgrid/adapter.rb:52-55 | removing the `to` addresses and then the `cc` addresses is one selection by both tests |
| `Lists.FilterInterleaving` | lib/griddler/sendgrid/adapter.rb:111-117 | the accepted and the rejected elements interleave back into the list |
| `Lists.InterleavingMultiset` | lib/griddler/sendgrid/adapter.rb:111-117 | two interleaved lists together hold exactly the elements of the whole, counted with multiplicity |
| `Recipients.Parse` | lib/griddler/sendgrid/adapter.rb:29-40 | an empty or missing field gives no tokens; a field with `>` gives one token per `>,`-separated piece |
| `Recipients.ParseSpec` | lib/griddler/sendgrid/adapter.rb:29-40 | without `>` the tokens hold no comma, the last is non-empty, and they join back with `,` into the field minus trailing commas; with `>` token `i` is piece `i` stripped, with `>` appended when none is left, so each token holds a `>` and has no whitespace at either end |
| `Recipients.ParseJoined` | lib/griddler/sendgrid/adapter.rb:31-36 | tokens of the form `name <addr>` joined with `", "` parse back into exactly those tokens, even when names hold commas |
| `Recipients.SingleToken` | lib/griddler/sendgrid/adapter.rb:38 | a non-empty field without `>` or `,` is one token, unchanged |
| `Recipients.ClosedNamed` | lib/griddler/sendgrid/adapter.rb:32-36 | a display name and an address written `name<addr>` form a token that the `>` branch reproduces unchanged |
| `Address.BracketedSpec` | lib/griddler/sendgrid/adapter.rb:43 | the computed test agrees with the pattern `/<.+>/`: a `<`, at least one character, then a `>` |
| `Address.CaptureSpec` | lib/griddler/sendgrid/adapter.rb:44 | the computed capture is `nil` iff `/[^<>]+<(.+)>/` has no match, and is otherwise group 1 of the leftmost, greedy match |
| `Address.EmailWithoutNameSpec` | lib/griddler/sendgrid/adapter.rb:42-48 | a token without `<.+>` is returned unchanged; any other token gives group 1 of the leftmost greedy match, and fails iff there is no match |
| `Address.NamedAddress` | lib/griddler/sendgrid/adapter.rb:42-48 | `name <addr>` with an angle-free, non-empty name yields `addr` |
| `Address.EmailWithoutName` | lib/griddler/sendgrid/adapter.rb:42-48 | a token without `<` is its own address; only a token holding both `<` and `>` can fail to yield one |
| `Address.UnnamedAddress` | lib/griddler/sendgrid/adapter.rb:44 | `<addr>` without a display name has no match, so Ruby raises |
| `Bcc.CanonicalAll` | lib/griddler/sendgrid/adapter.rb:63 | the `map` succeeds iff every token has a bare address; on success it gives the addresses position by position; on failure it names the first unreadable token |
| `Bcc.CanonicalMembers` | lib/griddler/sendgrid/adapter.rb:63 | an address is among the mapped addresses iff some token names it |
| `Bcc.CanonicalFails` | lib/griddler/sendgrid/adapter.rb:63 | the `map` fails iff some token has no bare address |
| `Bcc.GetBcc` | lib/griddler/sendgrid/adapter.rb:50-68 | no envelope list gives `Ok([])`; a failure happens only with an envelope list, and it names a `to` or `cc` token without a bare address |
| `Bcc.GetBccSelection` | lib/griddler/sendgrid/adapter.rb:50-68 | a successful bcc is exactly the envelope list filtered to the entries that no `to` or `cc` token names, so the two successive `Array#-` steps act as one selection |
| `Bcc.GetBccSpec` | lib/griddler/sendgrid/adapter.rb:50-68 | bcc is `[]` without an envelope list; otherwise it fails iff a `to` or `cc` token is unreadable, and it keeps, in order, every occurrence of each envelope entry that no token names and no occurrence of the others |
| `Attachments.KeyInjective` | lib/griddler/sendgrid/adapter.rb:88 | distinct positions have distinct `attachmentN` fields |
| `Attachments.KeyDistinct` | lib/griddler/sendgrid/adapter.rb:81-108 | no `attachmentN` field is `attachment-info` or `attachments` |
| `Attachments.KeyWithin` | lib/griddler/sendgrid/adapter.rb:75-88 | `attachmentN` is among the fields of the first `count` uploads iff `1 <= N <= count` |
| `Attachments.MetaFor` | lib/griddler/sendgrid/adapter.rb:99-105 | the metadata of upload `n` is its `attachmentN` entry, and a missing entry (`fetch` falling back to `{}`) gives neither a file name nor a content-id |
| `Attachments.RelabelSpec` | lib/griddler/sendgrid/adapter.rb:89-95 | an upload takes the metadata's file name and content-id exactly when these are `present?`, and keeps its own otherwise |
| `Attachments.ExtractFromSpec` | lib/griddler/sendgrid/adapter.rb:74-97 | the delete-and-relabel loop yields one file per index in order, the `j`-th being upload `j+1` relabelled from its metadata, and leaves the payload without exactly those upload fields |
| `Attachments.AttachmentFilesKeys` | lib/griddler/sendgrid/adapter.rb:84-88 | a field survives extraction iff it is not the field of a counted upload, and keeps its value |
| `Attachments.Partition` | lib/griddler/sendgrid/adapter.rb:111-117 | included and embedded files interleave into the file list, split it by content-id, and hold each file as often as the list does |
| `Adapter.Merged` | lib/griddler/sendgrid/adapter.rb:13-23 | the merge sets the six output fields and leaves every other field of the payload as it is |
| `Adapter.Normalize` | lib/griddler/sendgrid/adapter.rb:13-23 | without an envelope list normalizing cannot fail, and a normalized payload holds all six output fields |
| `Adapter.EnvelopeToNone` | lib/griddler/sendgrid/adapter.rb:70-72 | there is no envelope list iff the envelope is absent, `nil` or not `present?`, or its parsed JSON has no `to` list |
| `Adapter.NormalizeBlankEnvelope` | lib/griddler/sendgrid/adapter.rb:50-58 | an absent, `nil` or blank envelope gives bcc `[]` and no failure, whatever the `to` and `cc` fields hold |
| `Adapter.NormalizeWithoutCount` | lib/griddler/sendgrid/adapter.rb:80-82 | with no `attachments` field the count is 0: all three attachment lists are empty, and every non-output field, uploads and `attachment-info` included, keeps its value |
| `Adapter.NormalizeWithoutInfo` | lib/griddler/sendgrid/adapter.rb:107-109 | with no `attachment-info` field each attachment is its upload unchanged |
| `Adapter.NormalizeFails` | lib/griddler/sendgrid/adapter.rb:50-59 | normalizing fails iff the envelope has a `to` list and some `to` or `cc` token has no bare address |
| `Adapter.NormalizeKeys` | lib/griddler/sendgrid/adapter.rb:13-23 | the six output fields are set; counted upload fields are removed; `attachment-info` is removed iff the count is at least one; every other field keeps its value |
| `Adapter.NormalizeUploadKeys` | lib/griddler/sendgrid/adapter.rb:84-88 | `attachmentN` survives iff it was there and `N` is outside `1..count` |
| `Adapter.NormalizeInfoKey` | lib/griddler/sendgrid/adapter.rb:107-109 | `attachment-info` survives iff it was there and the count is below one |
| `Adapter.NormalizeRecipients` | lib/griddler/sendgrid/adapter.rb:14-17 | `to` and `cc` are the parsed tokens; `bcc` is `[]` without an envelope list, and otherwise the envelope list filtered to the entries that no token names |
| `Adapter.AttachmentListSpec` | lib/griddler/sendgrid/adapter.rb:74-78 | there is one attachment per iteration of `count.times`, the `i`-th being upload `i+1` relabelled |
| `Adapter.NormalizeAttachments` | lib/griddler/sendgrid/adapter.rb:84-105 | each file takes the metadata's file name and content-id where these are `present?`, and keeps its own otherwise |
| `Adapter.NormalizePartition` | lib/griddler/sendgrid/adapter.rb:18-20 | `included_attachments` and `embedded_attachments` partition `attachments` by content-id, each in the order of `attachments` |
| `Examples.DefaultToTokens` | spec/griddler/sendgrid/adapter_spec.rb:138-142 | the default `to` field splits into `"Mr Fugushima at Fugu, Inc" <hi@example.com>` and `Foo bar <foo@example.com>` |
| `Examples.DefaultNormalized` | spec/griddler/sendgrid/adapter_spec.rb:138-148 | the default payload normalizes, with those two `to` tokens and `cc` wrapped in a list |
| `Examples.NilCc` | spec/griddler/sendgrid/adapter_spec.rb:150-155 | a `nil` cc gives `[]` |
| `Examples.EmptyEnvelope` | spec/griddler/sendgrid/adapter_spec.rb:157-162 | an empty envelope gives bcc `[]` |
| `Examples.WrapsBcc` | spec/griddler/sendgrid/adapter_spec.rb:164-168 | the envelope recipient not in `to` or `cc` is the bcc |
| `Examples.NilEnvelope` | spec/griddler/sendgrid/adapter_spec.rb:170-175 | a `nil` envelope gives bcc `[]` |
| `Examples.SameTo` | spec/griddler/sendgrid/adapter_spec.rb:177-182 | an envelope naming only the display-named `to` address gives bcc `[]` |
| `Examples.TwoAttachments` | spec/griddler/sendgrid/adapter_spec.rb:19-128 | two uploads with metadata give both files renamed and in order; the one with a content-id is embedded and the other included; the upload fields and `attachment-info` are gone |
| `Examples.ChangesAttachments` | spec/griddler/sendgrid/adapter_spec.rb:19-46 | `attachments` is the two uploads in order, and `attachment1`, `attachment2` and `attachment-info` are absent |
| `Examples.SendgridFilenames` | spec/griddler/sendgrid/adapter_spec.rb:48-129 | the files carry the metadata's file names; exactly the second is included and exactly the first embedded |
| `Examples.NoAttachments` | spec/griddler/sendgrid/adapter_spec.rb:131-136 | a count of `"0"` gives no attachments |

## Left out

- `JSON.parse` (adapter.rb lines 71 and 108) is a library call. It appears as `Decoders.envelopeTo` and `Decoders.attachmentInfo`. Malformed JSON, and an envelope `to` member that is not a list of strings, are not modelled.
- `String#to_i` (line 81) is a library call. It appears as `Decoders.toInteger`.
- The `elsif` branch of `remove_addresses_from_bcc` (lines 64-66) is not modelled. `recipients` always returns an array, so that branch cannot run.
- The class-wide `module_eval { attr_accessor :content_id }` (line 93) is not modelled. The content-id is an `Option` field of `File`, so every upload answers `content_id`. In Ruby, `included_attachments` raises on an upload whose class never received that reader.
- Ruby's crashes are not reproduced for these payloads: a missing or non-upload `attachmentN`; a `to`, `cc`, `envelope` or `attachments` field that is not a string or `nil`; and an `attachment-info` field that is not a string or `nil` when the count is at least one. `Adapter.Accepts` excludes those payloads instead. With a count below one, `attachment-info` is never read, so any value is accepted.
- Ruby changes things in place. It deletes `attachmentN` and `attachment-info` from the caller's own hash (lines 88 and 108), and it sets `original_filename` and `content_id` on the caller's upload objects. The model computes a new map and new `File` values, and the caller's payload is not modelled as changing.
- Address.EmailWithoutNameSpec: `.` in both patterns is taken to match any character. Ruby's `.` does not match a newline, so the model is exact only for tokens without newlines.
- `present?` on metadata values that are not strings (a JSON number as a file name, say) is not modelled. File names and content-ids are strings.
- Symbol and string keys are treated alike. The payload is keyed by the field names as strings.
- Object identity is not modelled. The test at lines 42-45 of `adapter_spec.rb` compares the very upload objects, and it checks for the key `:attachment_info`. The model compares file values and checks the key `attachment-info`.
- Adapter registration and the shared `'Griddler adapter'` example group (lines 4-17 of `adapter_spec.rb`) belong to the host library. Uploaded file contents and streaming are not modelled either.
