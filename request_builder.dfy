/**
 * Building the body of `POST /api/scrape/bulk-perfumes` in `handleSubmit`: one
 * `{ brandName, perfumeLinks }` element per entry, in entry order, with the links
 * parsed from that entry's file.
 */
module RequestBuilder {
  import opened Wrappers
  import opened LinkParser
  import opened BrandEntries

  /** One element of the request's `brands` array. */
  datatype BrandPayload = BrandPayload(brandName: string, perfumeLinks: seq<string>)

  /** The entry has a file and reading that file gives its text. */
  predicate EntryReadable(e: BrandEntry) {
    e.file.Some? && e.file.value.text.Some?
  }

  predicate Readable(items: seq<BrandEntry>) {
    forall i :: 0 <= i < |items| ==> EntryReadable(items[i])
  }

  /**
   * The element for one readable entry: its stored brand name and the links of its file.
   * `parseJson` stands for `JSON.parse` applied to the file's text.
   */
  function PayloadFor(e: BrandEntry, parseJson: string -> JsonOutcome): BrandPayload
    requires EntryReadable(e)
  {
    var content := e.file.value.text.value;
    BrandPayload(e.brandName, ParsedLinks(content, parseJson(content)))
  }

  /** `brands` holds the elements for the first `n` entries, in entry order. */
  predicate PayloadPrefix(items: seq<BrandEntry>, n: int, parseJson: string -> JsonOutcome, brands: seq<BrandPayload>) {
    0 <= n <= |items| && |brands| == n
    && forall j :: 0 <= j < n ==> EntryReadable(items[j]) && brands[j] == PayloadFor(items[j], parseJson)
  }

  /** `brands` is the payload for `items`: same length, same order, element by element. */
  predicate IsPayloadFor(items: seq<BrandEntry>, parseJson: string -> JsonOutcome, brands: seq<BrandPayload>) {
    PayloadPrefix(items, |items|, parseJson, brands)
  }

  /**
   * The loop of `handleSubmit` that awaits `parseFileContent` for each entry and pushes
   * the result. A missing file or a failed read rejects the awaited promise, which
   * abandons the whole request (`None`).
   */
  method BuildRequest(items: seq<BrandEntry>, parseJson: string -> JsonOutcome)
    returns (brands: Option<seq<BrandPayload>>)
    ensures brands.Some? <==> Readable(items)
    ensures brands.Some? ==> IsPayloadFor(items, parseJson, brands.value)
  {
    var brandData: seq<BrandPayload> := [];
    var i := 0;
    while i < |items|
      invariant PayloadPrefix(items, i, parseJson, brandData)
    {
      var item := items[i];
      if item.file.None? || item.file.value.text.None? {
        assert !EntryReadable(items[i]);
        return None;
      }
      var content := item.file.value.text.value;
      var links := ParseFileContent(content, parseJson(content));
      var element := BrandPayload(item.brandName, links);
      PushPayload(items, i, parseJson, brandData, element);
      brandData := brandData + [element];
      i := i + 1;
    }
    return Some(brandData);
  }

  /** One more pushed element extends the payload prefix by one entry. */
  lemma PushPayload(items: seq<BrandEntry>, i: int, parseJson: string -> JsonOutcome,
                    brandData: seq<BrandPayload>, element: BrandPayload)
    requires 0 <= i < |items| && PayloadPrefix(items, i, parseJson, brandData)
    requires EntryReadable(items[i]) && element == PayloadFor(items[i], parseJson)
    ensures PayloadPrefix(items, i + 1, parseJson, brandData + [element])
  {
    var next := brandData + [element];
    assert forall j :: 0 <= j < i ==> next[j] == brandData[j];
  }

  /** Every link of a payload is a product link. */
  lemma PayloadLinksAreProductLinks(items: seq<BrandEntry>, parseJson: string -> JsonOutcome, brands: seq<BrandPayload>)
    requires IsPayloadFor(items, parseJson, brands)
    ensures forall i, u :: 0 <= i < |brands| && u in brands[i].perfumeLinks ==> IsProductLink(u)
  {
    forall i | 0 <= i < |brands|
      ensures forall u :: u in brands[i].perfumeLinks ==> IsProductLink(u)
    {
      var content := items[i].file.value.text.value;
      ParsedLinksAreProductLinks(content, parseJson(content));
    }
  }

  /** A brand name typed over the derived one is what is sent. */
  lemma EditedNameIsSent(items: seq<BrandEntry>, k: int, name: string,
                         parseJson: string -> JsonOutcome, brands: seq<BrandPayload>)
    requires UniqueIds(items) && 0 <= k < |items|
    requires IsPayloadFor(UpdateItem(items, items[k].id, SetBrandName(name)), parseJson, brands)
    ensures brands[k].brandName == name
  {
  }

  /** After an upload, the row sends the name derived from the file name and that file's links. */
  lemma UploadedFileIsSent(items: seq<BrandEntry>, k: int, file: UploadedFile,
                           parseJson: string -> JsonOutcome, brands: seq<BrandPayload>)
    requires UniqueIds(items) && 0 <= k < |items| && file.text.Some?
    requires IsPayloadFor(FileUpload(items, items[k].id, file), parseJson, brands)
    ensures brands[k].brandName == BrandName.BrandNameOf(file.name)
    ensures brands[k].perfumeLinks == ParsedLinks(file.text.value, parseJson(file.text.value))
  {
  }

  /** A readable list passes validation: the request is built only for a complete form. */
  lemma ReadableIsValid(items: seq<BrandEntry>)
    requires Readable(items)
    ensures Validate(items)
  {
  }
}
