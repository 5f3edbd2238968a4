/** The blob inspector of BUP_generator.py: reading a blob back, and the blob round trip. */
module BupReader {
  import opened Options
  import opened Bytes
  import opened BupWriter
  import opened BupLayout

  /** blob_header_dict without the accessory. */
  datatype Header = Header(magic: seq<byte>, version: nat, blobSize: nat, headerSize: nat, entryCount: nat,
                           kindCode: nat, uncompSize: nat)

  /** blob_entry_dict: the two strings still carry their NUL padding. */
  datatype Entry = Entry(partName: seq<byte>, offset: nat, partSize: nat, version: nat, opMode: nat, tnspec: seq<byte>)

  /** An element of blob_entry_list: the parsed entry, or the bare index where parsing failed. */
  datatype Slot = Parsed(entry: Entry) | Unparsed(idx: nat)

  datatype Inspection = Inspection(header: Header, accessory: Option<nat>, slots: seq<Slot>)

  function ParseHeader(b: seq<byte>): Header
    requires |b| == HEADER_LEN
  {
    Header(b[..16], LeValue(b[16..20]), LeValue(b[20..24]), LeValue(b[24..28]), LeValue(b[28..32]), LeValue(b[32..36]),
           LeValue(b[36..40]))
  }

  function ParseEntry(b: seq<byte>): Entry
    requires |b| == 120
  {
    Entry(b[..40], LeValue(b[40..44]), LeValue(b[44..48]), LeValue(b[48..52]), LeValue(b[52..56]), b[56..120])
  }

  /** The record that the i-th read of the table yields, starting from position pos. */
  function SlotAt(c: seq<byte>, pos: nat, i: nat): Slot
  {
    if pos + 120 * (i + 1) <= |c| then Parsed(ParseEntry(c[pos + 120 * i..pos + 120 * i + 120])) else Unparsed(i)
  }

  function Slots(c: seq<byte>, pos: nat, n: nat): (slots: seq<Slot>)
    ensures |slots| == n
  {
    seq(n, i requires 0 <= i => SlotAt(c, pos, i))
  }

  /** The number of records looked at: range(max) of a negative max is empty. */
  function Limit(count: nat, max: int): nat
  {
    if count > max then (if max < 0 then 0 else max) else count
  }

  /** What the inspector makes of a file; None where struct.unpack raises on the header or the accessory. */
  function Inspect(c: seq<byte>, max: int): Option<Inspection>
  {
    if |c| < HEADER_LEN then None else
    var h := ParseHeader(c[..HEADER_LEN]);
    if h.headerSize > HEADER_LEN && |c| < HEADER_LEN + 8 then None else
    Some(Inspection(h,
                    if h.headerSize > HEADER_LEN then Some(LeValue(c[40..48])) else None,
                    Slots(c, h.headerSize, Limit(h.entryCount, max))))
  }

  /** inspect_update_payload. */
  class InspectUpdatePayload {
    const blobFile: BlobFile
    var header: Header
    var accessory: Option<nat>
    var entryList: seq<Slot>

    constructor (blobFile: BlobFile)
      ensures this.blobFile == blobFile
    {
      this.blobFile := blobFile;
      header, accessory, entryList := Header([], 0, 0, 0, 0, 0, 0), None, [];
    }

    /** The reading part of __init__; not ok where it raises. */
    method Load(max: int) returns (ok: bool)
      requires blobFile.pos == 0
      modifies this, blobFile`pos
      ensures ok <==> Inspect(blobFile.content, max).Some?
      ensures ok ==> Inspect(blobFile.content, max) == Some(Inspection(header, accessory, entryList))
      ensures ok ==> |entryList| == if max < 0 then 0 else if header.entryCount <= max then header.entryCount else max
    {
      var b := blobFile.Read(HEADER_LEN);
      if |b| < HEADER_LEN {
        return false;
      }
      header := ParseHeader(b);
      accessory := None;
      if header.headerSize > HEADER_LEN {
        b := blobFile.Read(8);
        if |b| < 8 {
          return false;
        }
        accessory := Some(LeValue(b));
      }
      var n := if header.entryCount > max then (if max < 0 then 0 else max) else header.entryCount;
      blobFile.Seek(header.headerSize);
      GenerateEntryList(n);
      ok := true;
    }

    /** _generate_entry_list: a record that is cut short by the end of the file stays unparsed. */
    method GenerateEntryList(n: nat)
      modifies this`entryList, blobFile`pos
      ensures entryList == Slots(blobFile.content, old(blobFile.pos), n)
    {
      hide ParseEntry;
      var c, pos := blobFile.content, blobFile.pos;
      entryList := [];
      for idx := 0 to n
        invariant entryList == Slots(c, pos, idx)
        invariant blobFile.pos == pos + 120 * idx || (pos + 120 * idx > |c| && blobFile.pos >= |c|)
      {
        var b := blobFile.Read(120);
        if |b| == 120 {
          entryList := entryList + [Parsed(ParseEntry(b))];
        } else {
          entryList := entryList + [Unparsed(idx)];
        }
        assert Slots(c, pos, idx + 1) == Slots(c, pos, idx) + [SlotAt(c, pos, idx)];
      }
    }
  }

  // ----- the round trip

  /** The displayed name and spec of an entry: padding and outer blanks removed. */
  function PartName(e: Entry): seq<byte>
  {
    Strip(e.partName)
  }

  function Spec(e: Entry): seq<byte>
  {
    Strip(e.tnspec)
  }

  /** parse_entry_list lets only names up to 36 and specs up to 64 bytes through. */
  predicate LengthsOk(e: EntryInfo)
  {
    e.UpdateInfo? && |e.partName| <= 36 && |e.specInfo| <= 64
  }

  /** The entry that reading back e's record yields. */
  function Expected(e: EntryInfo, u: EntryUpdate): Entry
    requires e.UpdateInfo?
  {
    Entry(Fixed(40, e.partName), u.offset, u.length, e.version, e.opMode, Fixed(64, e.specInfo))
  }

  lemma EntryCuts(n: seq<byte>, o: seq<byte>, l: seq<byte>, v: seq<byte>, m: seq<byte>, s: seq<byte>)
    requires |n| == 40 && |o| == |l| == |v| == |m| == 4 && |s| == 64
    ensures var b := n + o + l + v + m + s;
      && |b| == 120 && b[..40] == n && b[40..44] == o && b[44..48] == l && b[48..52] == v && b[52..56] == m
      && b[56..120] == s
  {
    var a, b := n + o + l, n + o + l + v + m + s;
    assert b == a + v + m + s;
    FourParts(a, v, m, s);
    FourParts(n, o, l, v + m + s);
    assert b == n + o + l + (v + m + s);
    assert b[56..120] == b[56..];
  }

  lemma ParsePacked(e: EntryInfo, u: EntryUpdate)
    requires e.UpdateInfo? && u.offset < WORD && u.length < WORD && e.version < WORD && e.opMode < WORD
    ensures |PackEntry(e, u)| == 120
    ensures ParseEntry(PackEntry(e, u)) == Expected(e, u)
  {
    hide Le;
    hide LeValue;
    hide Fixed;
    EntryCuts(Fixed(40, e.partName), Le(4, u.offset), Le(4, u.length), Le(4, e.version), Le(4, e.opMode),
              Fixed(64, e.specInfo));
    WordFits(u.offset);
    WordFits(u.length);
    WordFits(e.version);
    WordFits(e.opMode);
  }

  /** A packed header reads back field by field, also when the two sizes differ. */
  lemma ParsePackedHeader(kind: Kind, size: nat, hs: nat, count: nat, uncomp: nat)
    requires size < WORD && hs < WORD && count < WORD && uncomp < WORD
    ensures ParseHeader(PackHeader(kind, size, hs, count, uncomp))
         == Header(MAGIC, VERSION, size, hs, count, KindCode(kind), uncomp)
  {
    hide LeValue;
    hide PackHeader;
    var h := PackHeader(kind, size, hs, count, uncomp);
    assert h[..HEADER_LEN] == h;
    HeaderWords(kind, size, hs, count, uncomp, h);
  }

  lemma HeaderReadsBack(accessory: Option<seq<byte>>, es: seq<EntryInfo>)
    requires Packable(Update, accessory, es)
    ensures var blob := FinalBlob(Update, accessory, es);
      |blob| >= HEADER_LEN && ParseHeader(blob[..HEADER_LEN])
        == Header(MAGIC, VERSION, |blob|, HeaderSize(accessory), |es|, 0, |blob|)
  {
    hide FinalBlob;
    hide LeValue;
    hide PackHeader;
    hide Table;
    hide Images;
    var blob := FinalBlob(Update, accessory, es);
    BlobParts(Update, accessory, es);
    CountFits(Update, accessory, es);
    var h := blob[..HEADER_LEN];
    assert h[..HEADER_LEN] == h;
    HeaderWords(Update, |blob|, HeaderSize(accessory), |es|, |blob|, h);
  }

  lemma SlotReadsBack(accessory: Option<seq<byte>>, es: seq<EntryInfo>, i: nat)
    requires Packable(Update, accessory, es) && i < |es|
    ensures es[i].UpdateInfo?
    ensures SlotAt(FinalBlob(Update, accessory, es), HeaderSize(accessory), i)
         == Parsed(Expected(es[i], Placement(es, FirstImage(Update, accessory, es))[i]))
  {
    hide FinalBlob;
    hide PackEntry;
    hide ParseEntry;
    hide Images;
    var u := Placement(es, FirstImage(Update, accessory, es))[i];
    assert OfKind(Update, es[i]);
    EntryInBlob(Update, accessory, es, i);
    PlacementEnd(es, FirstImage(Update, accessory, es), i);
    ParsePacked(es[i], u);
  }

  /**
   * The blob round trip. The inspector reads every blob that the writer makes, except one with an
   * accessory of 1 to 7 bytes and nothing behind it; and it reads back the counts and sizes, the
   * first 8 bytes behind the header as the accessory, and every entry up to the limit.
   */
  lemma RoundTrip(accessory: Option<seq<byte>>, es: seq<EntryInfo>, max: int)
    requires Packable(Update, accessory, es)
    ensures var blob, acc := FinalBlob(Update, accessory, es), AccessoryBytes(accessory);
      var r := Inspect(blob, max);
      && (r.None? <==> es == [] && 0 < |acc| < 8)
      && (r.Some? ==>
            && r.value.header == Header(MAGIC, VERSION, |blob|, HeaderSize(accessory), |es|, 0, |blob|)
            && (r.value.accessory.None? <==> acc == [])
            && (|acc| >= 8 ==> r.value.accessory == Some(LeValue(acc[..8])))
            && |r.value.slots| == (if max < 0 then 0 else if |es| <= max then |es| else max)
            && forall i | 0 <= i < |r.value.slots| :: i < |es| && es[i].UpdateInfo?
                 && r.value.slots[i] == Parsed(Expected(es[i], Placement(es, FirstImage(Update, accessory, es))[i])))
  {
    hide FinalBlob;
    hide LeValue;
    hide Images;
    hide Table;
    hide PackHeader;
    hide SlotAt;
    var blob, acc := FinalBlob(Update, accessory, es), AccessoryBytes(accessory);
    BlobParts(Update, accessory, es);
    HeaderReadsBack(accessory, es);
    if es == [] {
      NoImages(es);
      assert es[..0] == es;
    }
    if |acc| >= 8 {
      SliceOfSlice(blob, HEADER_LEN, HeaderSize(accessory), 0, 8);
      assert acc[0..8] == acc[..8];
    }
    forall i | 0 <= i < Limit(|es|, max)
      ensures i < |es| && es[i].UpdateInfo? && SlotAt(blob, HeaderSize(accessory), i)
         == Parsed(Expected(es[i], Placement(es, FirstImage(Update, accessory, es))[i]))
    {
      SlotReadsBack(accessory, es, i);
    }
  }

  /**
   * What a user of the inspector sees of entry i: the numbers as given, the window of part_size
   * bytes at offset is the image, and the name and spec are the given ones without outer blanks.
   */
  lemma EntryRoundTrip(accessory: Option<seq<byte>>, es: seq<EntryInfo>, i: nat)
    requires Packable(Update, accessory, es) && i < |es| && LengthsOk(es[i])
    ensures var blob := FinalBlob(Update, accessory, es);
      var e := Expected(es[i], Placement(es, FirstImage(Update, accessory, es))[i]);
      && e.version == es[i].version && e.opMode == es[i].opMode
      && ReadAt(blob, e.offset, e.partSize) == es[i].image && e.partSize == |es[i].image|
      && PartName(e) == Strip(es[i].partName) && Spec(e) == Strip(es[i].specInfo)
      && (forall k | 0 <= k < |es[i].partName| :: e.partName[k] == es[i].partName[k])
      && (forall k | |es[i].partName| <= k < 40 :: e.partName[k] == 0)
      && (PartName(e) == es[i].partName <==> Trimmed(es[i].partName))
      && (Spec(e) == es[i].specInfo <==> Trimmed(es[i].specInfo))
  {
    hide FinalBlob;
    hide Strip;
    hide Trimmed;
    hide Fixed;
    hide Images;
    ImageInBlob(Update, accessory, es, i);
    FixedIs(40, es[i].partName);
    StripFixed(40, es[i].partName);
    StripFixed(64, es[i].specInfo);
    StripFixpoint(es[i].partName);
    StripFixpoint(es[i].specInfo);
  }
}
