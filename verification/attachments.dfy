/** `attachment_files`, `extract_file_at`, `attachment_info`,
    `included_attachments` and `embedded_attachments`: the uploads
    `attachment1` … `attachmentN` are taken out of the payload in index order,
    relabelled from the `attachment-info` metadata, and split by whether they
    carry a content-id. */
module Attachments {
  import opened Wrappers
  import opened Strings
  import opened Lists
  import opened Payload

  /** The field holding the number of uploads, and the output field the
      adapter later overwrites with the uploads themselves. */
  const CountKey := "attachments"

  /** The JSON metadata field, removed from the payload when first read. */
  const InfoKey := "attachment-info"

  /** `"attachment#{n}"`, the field of the `n`-th upload (1-based). */
  function Key(n: nat): string {
    "attachment" + DecimalString(n)
  }

  /** Different positions have different fields. */
  lemma KeyInjective(m: nat, n: nat)
    ensures Key(m) == Key(n) <==> m == n
  {
    if Key(m) == Key(n) {
      assert DecimalString(m) == Key(m)[10..];
      assert DecimalString(n) == Key(n)[10..];
      DecimalInjective(m, n);
    }
  }

  /** No upload field is the metadata field or the count field. */
  lemma KeyDistinct(n: nat)
    ensures Key(n) != InfoKey && Key(n) != CountKey
  {
    assert Key(n)[10] == DecimalString(n)[0];
    assert IsDigit(Key(n)[10]);
    assert InfoKey[10] == '-' && CountKey[10] == 's';
  }

  /** `attachment{n}` is one of the first `count` upload fields exactly when
      `n` is between 1 and `count`. */
  lemma KeyWithin(n: nat, count: int)
    ensures (forall m: nat :: 1 <= m <= count ==> Key(n) != Key(m)) <==> n < 1 || n > count
  {
    if 1 <= n <= count {
      assert Key(n) == Key(n);
    } else {
      forall m: nat | 1 <= m <= count
        ensures Key(n) != Key(m)
      {
        KeyInjective(m, n);
      }
    }
  }

  /** `attachment_count`: `params[:attachments].to_i`, where `nil.to_i` is 0. */
  function Count(params: Params, dec: Decoders): (r: int)
    ensures TextOf(params, CountKey).None? ==> r == 0
  {
    match TextOf(params, CountKey)
    case Some(t) => dec.toInteger(t)
    case None => 0
  }

  /** The number of iterations of `attachment_count.times`. */
  function Iterations(count: int): nat {
    if count > 0 then count else 0
  }

  /** `attachment_info`: the parsed `attachment-info` field, or the parse of
      `"{}"` when the field is absent or `nil`. */
  function Info(params: Params, dec: Decoders): (r: map<string, Meta>)
    ensures TextOf(params, InfoKey).None? ==> r == map[]
  {
    match TextOf(params, InfoKey)
    case Some(t) => dec.attachmentInfo(t)
    case None => map[]
  }

  /** `attachment_info.fetch("attachment#{n}", {})`, read for its `filename`
      and `content-id` members. */
  function MetaFor(info: map<string, Meta>, n: nat): (m: Meta)
    ensures Key(n) in info ==> m == info[Key(n)]
    ensures Key(n) !in info ==> m.filename.None? && m.contentId.None?
  {
    if Key(n) in info then info[Key(n)] else Meta(None, None)
  }

  /** An optional metadata string that is `present?`. */
  predicate Given(o: Option<string>) {
    o.Some? && Present(o.value)
  }

  /** The body of the `tap` in `extract_file_at`. */
  function Relabel(f: File, m: Meta): File {
    var named := if Given(m.filename) then f.(name := m.filename.value) else f;
    if Given(m.contentId) then named.(contentId := m.contentId) else named
  }

  /** A relabelled upload takes the metadata's file name and content-id
      exactly when these are present, and keeps its own otherwise. */
  lemma RelabelSpec(f: File, m: Meta)
    ensures Given(m.filename) ==> Relabel(f, m).name == m.filename.value
    ensures !Given(m.filename) ==> Relabel(f, m).name == f.name
    ensures Given(m.contentId) ==> Relabel(f, m).contentId == m.contentId
    ensures !Given(m.contentId) ==> Relabel(f, m).contentId == f.contentId
  {
  }

  /** Fields `attachment{from+1}` … `attachment{count}` all hold uploads. */
  predicate UploadsFrom(params: Params, from: nat, count: nat) {
    forall n: nat :: from < n <= count ==> Key(n) in params && params[Key(n)].Upload?
  }

  /** The fields of uploads `from+1` … `count`. */
  function KeysFrom(from: nat, count: nat): set<string> {
    set n: nat | from < n <= count :: Key(n)
  }

  /** The `times.map` loop of `attachment_files` from iteration `index` on:
      each iteration deletes the next upload field and relabels its file.
      Returns the payload left over and the files, in index order. */
  function ExtractFrom(params: Params, info: map<string, Meta>, index: nat, count: nat): (Params, seq<File>)
    requires index <= count && UploadsFrom(params, index, count)
    decreases count - index
  {
    if index == count then (params, [])
    else
      var key := Key(index + 1);
      var file := params[key].file;
      var rest := params - {key};
      assert UploadsFrom(rest, index + 1, count) by {
        forall n: nat | index + 1 < n <= count
          ensures Key(n) in rest && rest[Key(n)].Upload?
        {
          KeyInjective(n, index + 1);
        }
      }
      var (left, files) := ExtractFrom(rest, info, index + 1, count);
      (left, [Relabel(file, MetaFor(info, index + 1))] + files)
  }

  /** The loop's outcome in closed form: one file per remaining index, the
      `j`-th taken from field `attachment{index+j+1}` and relabelled from its
      metadata, and the payload without exactly those fields. */
  lemma {:induction false} ExtractFromSpec(params: Params, info: map<string, Meta>, index: nat, count: nat)
    requires index <= count && UploadsFrom(params, index, count)
    ensures var (left, files) := ExtractFrom(params, info, index, count);
            && |files| == count - index
            && (forall j :: 0 <= j < |files| ==>
                  files[j] == Relabel(params[Key(index + j + 1)].file, MetaFor(info, index + j + 1)))
            && left == params - KeysFrom(index, count)
    decreases count - index
  {
    if index < count {
      var key := Key(index + 1);
      var rest := params - {key};
      var (left, files) := ExtractFrom(params, info, index, count);
      assert UploadsFrom(rest, index + 1, count) by {
        forall n: nat | index + 1 < n <= count
          ensures Key(n) in rest && rest[Key(n)].Upload?
        {
          KeyInjective(n, index + 1);
        }
      }
      ExtractFromSpec(rest, info, index + 1, count);
      var (left', files') := ExtractFrom(rest, info, index + 1, count);
      assert files == [Relabel(params[key].file, MetaFor(info, index + 1))] + files';
      forall j | 1 <= j < |files|
        ensures files[j] == Relabel(params[Key(index + j + 1)].file, MetaFor(info, index + j + 1))
      {
        assert files[j] == files'[j - 1];
        assert Key(index + j + 1) != key by {
          KeyInjective(index + j + 1, index + 1);
        }
      }
      assert KeysFrom(index, count) == {key} + KeysFrom(index + 1, count);
    } else {
      assert KeysFrom(index, count) == {};
    }
  }

  /** `attachment_files`: the uploads, and the payload with their fields
      deleted. */
  function AttachmentFiles(params: Params, info: map<string, Meta>, count: int): (Params, seq<File>)
    requires UploadsFrom(params, 0, Iterations(count))
  {
    ExtractFrom(params, info, 0, Iterations(count))
  }

  /** An upload field is deleted exactly when its position is within the
      count; every other field is kept. */
  lemma AttachmentFilesKeys(params: Params, info: map<string, Meta>, count: int, k: string)
    requires UploadsFrom(params, 0, Iterations(count))
    ensures var left := AttachmentFiles(params, info, count).0;
            && (k in left <==> k in params && forall n: nat :: 1 <= n <= count ==> k != Key(n))
            && (k in left ==> left[k] == params[k])
  {
    ExtractFromSpec(params, info, 0, Iterations(count));
    if k in KeysFrom(0, Iterations(count)) {
      var n: nat :| 0 < n <= Iterations(count) && k == Key(n);
    }
  }

  /** The `content_id.present?` test of `included_attachments` and
      `embedded_attachments`. */
  predicate HasContentId(f: File) {
    Given(f.contentId)
  }

  /** `included_attachments`: the files without a content-id. */
  function Included(files: seq<File>): seq<File> {
    Filter(files, f => !HasContentId(f))
  }

  /** `embedded_attachments`: the files with a content-id. */
  function Embedded(files: seq<File>): seq<File> {
    Filter(files, HasContentId)
  }

  /** Included and embedded files partition the files: each keeps the order
      of `files`, none of the first and all of the second have a content-id,
      and together they hold every file exactly as often as `files` does. */
  lemma Partition(files: seq<File>)
    ensures IsInterleaving(files, Included(files), Embedded(files))
    ensures multiset(files) == multiset(Included(files)) + multiset(Embedded(files))
    ensures forall f :: f in Included(files) <==> f in files && !HasContentId(f)
    ensures forall f :: f in Embedded(files) <==> f in files && HasContentId(f)
  {
    FilterSpec(files, f => !HasContentId(f));
    FilterSpec(files, HasContentId);
    FilterInterleaving(files, f => !HasContentId(f), HasContentId);
    InterleavingMultiset(files, Included(files), Embedded(files));
  }
}
