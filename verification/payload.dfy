/** The inbound-parse payload: a flat map from field name to value, and the
    library calls (JSON parsing, `String#to_i`) the adapter applies to some of
    its text fields. */
module Payload {
  import opened Wrappers

  /** An uploaded attachment as the adapter sees it: its file name and the
      content-id the adapter may attach to it.  Its bytes play no part. */
  datatype File = File(name: string, contentId: Option<string>)

  /** One entry of `attachment-info`: the `filename` and `content-id`
      members of the object stored under an `attachmentN` key. */
  datatype Meta = Meta(filename: Option<string>, contentId: Option<string>)

  /** A payload value.  `Nil` is a key present with value `nil`; `Text` a form
      field; `Upload` an uploaded file; `Addresses` and `Files` are the lists
      the adapter stores in the normalized payload. */
  datatype Value =
    | Nil
    | Text(text: string)
    | Upload(file: File)
    | Addresses(addresses: seq<string>)
    | Files(files: seq<File>)

  type Params = map<string, Value>

  /** The library calls the adapter makes on payload text:
      `toInteger` is `String#to_i`,
      `envelopeTo` is `JSON.parse(envelope)["to"]` (`None` for a missing or null member),
      `attachmentInfo` is `JSON.parse(attachment_info)`, read as a map from
      `attachmentN` keys to their metadata. */
  datatype Decoders = Decoders(
    toInteger: string -> int,
    envelopeTo: string -> Option<seq<string>>,
    attachmentInfo: string -> map<string, Meta>)

  /** The text of a field, `None` when it is absent or `nil`. */
  function TextOf(params: Params, key: string): (r: Option<string>)
    ensures r.Some? <==> key in params && params[key].Text?
    ensures r.Some? ==> params[key] == Text(r.value)
  {
    if key in params && params[key].Text? then Some(params[key].text) else None
  }

  /** A field the adapter reads as a string is absent, `nil` or text. */
  predicate TextOrNil(params: Params, key: string) {
    key !in params || params[key].Nil? || params[key].Text?
  }
}
