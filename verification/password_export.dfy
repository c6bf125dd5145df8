/**
 * The export file format and the mapping between stored rows and exported
 * items (PasswordExport). An exported item drops `id` and `userId`; an
 * imported item gets id 0 (to be assigned by the table) and the importing
 * user's id.
 */
module PasswordExport {
  import opened Wrappers
  import opened Entities

  /** One credential in the export file, timestamps as epoch milliseconds. */
  datatype ExportItem = ExportItem(
    username: string,
    password: string,
    phone: Option<string>,
    email: Option<string>,
    platform: string,
    note: Option<string>,
    createTime: int,
    updateTime: int)

  /** The whole export file. */
  datatype ExportData = ExportData(passwords: seq<ExportItem>, exportTime: int, version: int)

  /** The format version written, and assumed when a file does not say. */
  const DefaultVersion := 1

  /** `PasswordEntity.toExportItem()`. */
  function ToExportItem(e: PasswordRecord): (i: ExportItem)
    ensures i.username == e.username && i.password == e.password && i.platform == e.platform
    ensures i.phone == e.phone && i.email == e.email && i.note == e.note
    ensures i.createTime == e.createTime && i.updateTime == e.updateTime
  {
    ExportItem(e.username, e.password, e.phone, e.email, e.platform, e.note, e.createTime, e.updateTime)
  }

  /** `PasswordExportItem.toEntity(userId)`: a new row owned by `userId`, keeping the item's timestamps. */
  function ToEntity(i: ExportItem, userId: int): (e: PasswordRecord)
    ensures e.id == 0 && e.userId == userId
    ensures e.username == i.username && e.password == i.password && e.platform == i.platform
    ensures e.phone == i.phone && e.email == i.email && e.note == i.note
    ensures e.createTime == i.createTime && e.updateTime == i.updateTime
  {
    PasswordRecord(0, i.username, i.password, i.phone, i.email, i.platform, i.note,
                   i.createTime, i.updateTime, userId)
  }

  /** Exporting then importing a row gives the row back, with id 0 and the importing user. */
  lemma EntityRoundTrip(e: PasswordRecord, userId: int)
    ensures ToEntity(ToExportItem(e), userId) == e.(id := 0, userId := userId)
  {
  }

  /** Importing then exporting an item gives the item back, whoever imports it. */
  lemma ItemRoundTrip(i: ExportItem, userId: int)
    ensures ToExportItem(ToEntity(i, userId)) == i
  {
  }

  /** `passwords.map { it.toExportItem() }`. */
  function ExportItems(records: seq<PasswordRecord>): (items: seq<ExportItem>)
    ensures |items| == |records|
    ensures forall k :: 0 <= k < |records| ==> items[k] == ToExportItem(records[k])
  {
    if records == [] then [] else [ToExportItem(records[0])] + ExportItems(records[1..])
  }

  /** `exportData.passwords.map { it.toEntity(userId) }`. */
  function ToEntities(items: seq<ExportItem>, userId: int): (records: seq<PasswordRecord>)
    ensures |records| == |items|
    ensures forall k :: 0 <= k < |items| ==> records[k] == ToEntity(items[k], userId)
  {
    if items == [] then [] else [ToEntity(items[0], userId)] + ToEntities(items[1..], userId)
  }

  /** The document written by an export made at time `now`. */
  function ExportDocument(records: seq<PasswordRecord>, now: int): (d: ExportData)
    ensures d.passwords == ExportItems(records)
    ensures d.exportTime == now && d.version == DefaultVersion
  {
    ExportData(ExportItems(records), now, DefaultVersion)
  }

  /**
   * Export then import reproduces every row in order, field for field,
   * except that each gets id 0 and the importing user's id.
   */
  lemma {:induction false} ExportImportRoundTrip(records: seq<PasswordRecord>, now: int, userId: int)
    ensures var back := ToEntities(ExportDocument(records, now).passwords, userId);
            |back| == |records| &&
            forall k :: 0 <= k < |records| ==> back[k] == records[k].(id := 0, userId := userId)
  {
    forall k | 0 <= k < |records|
      ensures ToEntities(ExportItems(records), userId)[k] == records[k].(id := 0, userId := userId)
    {
      EntityRoundTrip(records[k], userId);
    }
  }

  /** Import then export gives back exactly the items of the file. */
  lemma {:induction false} ImportExportRoundTrip(items: seq<ExportItem>, userId: int)
    ensures ExportItems(ToEntities(items, userId)) == items
  {
    forall k | 0 <= k < |items|
      ensures ExportItems(ToEntities(items, userId))[k] == items[k]
    {
      ItemRoundTrip(items[k], userId);
    }
  }

  // ---------------------------------------------------------------------
  // Decoding defaults
  // ---------------------------------------------------------------------

  /** A member of a JSON object, which the file may leave out. */
  datatype Field<T> = Missing | Present(value: T)

  /** An item as it appears in a file: the three optional members may be missing. */
  datatype RawItem = RawItem(
    username: string,
    password: string,
    phone: Field<Option<string>>,
    email: Field<Option<string>>,
    platform: string,
    note: Field<Option<string>>,
    createTime: int,
    updateTime: int)

  /** A document as it appears in a file: `exportTime` and `version` may be missing. */
  datatype RawDocument = RawDocument(passwords: seq<RawItem>, exportTime: Field<int>, version: Field<int>)

  /** A missing member takes its declared default. */
  function OrDefault<T>(f: Field<T>, default: T): T {
    match f
    case Missing => default
    case Present(v) => v
  }

  /** Decoding one item: a missing `phone`, `email` or `note` becomes null. */
  function DecodeItem(raw: RawItem): (i: ExportItem)
    ensures raw.phone.Missing? ==> i.phone.None?
    ensures raw.email.Missing? ==> i.email.None?
    ensures raw.note.Missing? ==> i.note.None?
    ensures raw.phone.Present? ==> i.phone == raw.phone.value
    ensures raw.email.Present? ==> i.email == raw.email.value
    ensures raw.note.Present? ==> i.note == raw.note.value
  {
    ExportItem(raw.username, raw.password, OrDefault(raw.phone, None), OrDefault(raw.email, None),
               raw.platform, OrDefault(raw.note, None), raw.createTime, raw.updateTime)
  }

  function DecodeItems(raws: seq<RawItem>): (items: seq<ExportItem>)
    ensures |items| == |raws|
    ensures forall k :: 0 <= k < |raws| ==> items[k] == DecodeItem(raws[k])
  {
    if raws == [] then [] else [DecodeItem(raws[0])] + DecodeItems(raws[1..])
  }

  /**
   * Decoding a document at time `now`: a missing `version` is 1, and a
   * missing `exportTime` is the clock reading at decoding time.
   */
  function DecodeDocument(raw: RawDocument, now: int): (d: ExportData)
    ensures raw.version.Missing? ==> d.version == DefaultVersion
    ensures raw.version.Present? ==> d.version == raw.version.value
    ensures raw.exportTime.Missing? ==> d.exportTime == now
    ensures raw.exportTime.Present? ==> d.exportTime == raw.exportTime.value
    ensures d.passwords == DecodeItems(raw.passwords) && |d.passwords| == |raw.passwords|
  {
    ExportData(DecodeItems(raw.passwords), OrDefault(raw.exportTime, now), OrDefault(raw.version, DefaultVersion))
  }

  /** Encoding with defaults written out: every member is present. */
  function EncodeItem(i: ExportItem): RawItem {
    RawItem(i.username, i.password, Present(i.phone), Present(i.email), i.platform, Present(i.note),
            i.createTime, i.updateTime)
  }

  function EncodeItems(items: seq<ExportItem>): (raws: seq<RawItem>)
    ensures |raws| == |items|
    ensures forall k :: 0 <= k < |items| ==> raws[k] == EncodeItem(items[k])
  {
    if items == [] then [] else [EncodeItem(items[0])] + EncodeItems(items[1..])
  }

  function EncodeDocument(d: ExportData): RawDocument {
    RawDocument(EncodeItems(d.passwords), Present(d.exportTime), Present(d.version))
  }

  /** A written file decodes to the document that was written, whatever the clock says. */
  lemma {:induction false} DecodeEncodeRoundTrip(d: ExportData, now: int)
    ensures DecodeDocument(EncodeDocument(d), now) == d
  {
    assert DecodeItems(EncodeItems(d.passwords)) == d.passwords;
  }
}
