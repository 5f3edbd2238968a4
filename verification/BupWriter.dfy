/** The blob writer of BUP_generator.py: the payload classes and the file they write and patch. */
module BupWriter {
  import opened Options
  import opened Bytes

  // ----- the file a payload writes into, and the inspector reads from

  /** The file contents after writing b at position p; a gap before p reads as NUL bytes. */
  function Overwrite(c: seq<byte>, p: nat, b: seq<byte>): (r: seq<byte>)
    ensures p + |b| <= |c| ==> |r| == |c|
  {
    if b == [] then c else
    (if p <= |c| then c[..p] else c + Zeros(p - |c|)) + b + (if p + |b| <= |c| then c[p + |b|..] else [])
  }

  /** What read(n) returns at position p: shorter than n only at the end of the file. */
  function ReadAt(c: seq<byte>, p: nat, n: nat): (b: seq<byte>)
    ensures |b| <= n
  {
    if p >= |c| then [] else if p + n <= |c| then c[p..p + n] else c[p..]
  }

  /** Reading byte by byte: up to n bytes from p on, fewer at the end of the file. */
  lemma ReadAtIs(c: seq<byte>, p: nat, n: nat)
    ensures |ReadAt(c, p, n)| == (if p >= |c| then 0 else if n <= |c| - p then n else |c| - p)
    ensures forall i | 0 <= i < |ReadAt(c, p, n)| :: ReadAt(c, p, n)[i] == c[p + i]
  {
  }

  /** Writing byte by byte: the new bytes from p on, zeros in a gap, everything else as before. */
  lemma OverwriteIs(c: seq<byte>, p: nat, b: seq<byte>)
    requires b != []
    ensures |Overwrite(c, p, b)| == if p + |b| <= |c| then |c| else p + |b|
    ensures var r := Overwrite(c, p, b);
      forall i | 0 <= i < |r| :: r[i] == if p <= i < p + |b| then b[i - p] else if i < |c| then c[i] else 0
  {
    var r := Overwrite(c, p, b);
    if p > |c| {
      var gap := Zeros(p - |c|);
      assert r == c + gap + b;
    }
  }

  lemma OverwriteInside(front: seq<byte>, rest: seq<byte>, b: seq<byte>)
    requires |b| <= |rest|
    ensures Overwrite(front + rest, |front|, b) == front + b + rest[|b|..]
  {
    assert (front + rest)[..|front|] == front;
    assert (front + rest)[|front| + |b|..] == rest[|b|..];
  }

  class BlobFile {
    var content: seq<byte>
    var pos: nat

    constructor ()
      ensures content == [] && pos == 0
    {
      content, pos := [], 0;
    }

    method Seek(p: nat)
      modifies this`pos
      ensures pos == p
    {
      pos := p;
    }

    method Write(b: seq<byte>)
      modifies this
      ensures content == Overwrite(old(content), old(pos), b)
      ensures pos == old(pos) + |b|
      ensures old(pos) == |old(content)| ==> content == old(content) + b
    {
      content := Overwrite(content, pos, b);
      pos := pos + |b|;
    }

    method Read(n: nat) returns (b: seq<byte>)
      modifies this`pos
      ensures b == ReadAt(content, old(pos), n)
      ensures pos == old(pos) + |b|
    {
      b := ReadAt(content, pos, n);
      pos := pos + |b|;
    }
  }

  // ----- entries and their packed form

  /** A Python 2 string: names, specs and file names are byte strings. */
  type Name = seq<byte>

  const SEMICOLON: byte := 0x3b

  /** "common" */
  const COMMON: Name := [0x63, 0x6f, 0x6d, 0x6d, 0x6f, 0x6e]

  /** blob_type: 0 for update payloads, 1 for bmp payloads. */
  datatype Kind = Update | Bmp

  /** One parsed entry tuple. The image is the content of the file the tuple names. */
  datatype EntryInfo =
    | UpdateInfo(image: seq<byte>, partName: Name, version: nat, opMode: nat, specInfo: Name)
    | BmpInfo(image: seq<byte>, tp: nat, res: nat)

  /** Where an image went: an element of entry_update_list. */
  datatype EntryUpdate = EntryUpdate(offset: nat, length: nat)

  const HEADER_LEN: nat := 40
  const BLOB_SIZE_POS: nat := 20
  const UNCOMP_SIZE_POS: nat := 36
  const VERSION: nat := 0x0102_0621
  const WORD: nat := 0x1_0000_0000

  /** "NVIDIA__BLOB__V2" */
  const MAGIC: seq<byte> :=
    [0x4e, 0x56, 0x49, 0x44, 0x49, 0x41, 0x5f, 0x5f, 0x42, 0x4c, 0x4f, 0x42, 0x5f, 0x5f, 0x56, 0x32]

  function KindCode(kind: Kind): nat
  {
    if kind.Update? then 0 else 1
  }

  function EntrySize(kind: Kind): nat
  {
    if kind.Update? then 120 else 52
  }

  /** n * EntrySize(kind). */
  function TableSize(kind: Kind, n: nat): nat
  {
    if kind.Update? then 120 * n else 52 * n
  }

  function PackHeader(kind: Kind, blobSize: nat, headerSize: nat, count: nat, uncompSize: nat): (h: seq<byte>)
    ensures |h| == HEADER_LEN
  {
    HeaderFront() + Le(4, blobSize) + HeaderMiddle(kind, headerSize, count) + Le(4, uncompSize)
  }

  /** magic, version */
  function HeaderFront(): (h: seq<byte>)
    ensures |h| == 20
  {
    MAGIC + Le(4, VERSION)
  }

  /** header_size, entry_count, type */
  function HeaderMiddle(kind: Kind, headerSize: nat, count: nat): (h: seq<byte>)
    ensures |h| == 12
  {
    Le(4, headerSize) + Le(4, count) + Le(4, KindCode(kind))
  }

  predicate OfKind(kind: Kind, e: EntryInfo)
  {
    kind.Update? == e.UpdateInfo?
  }

  predicate AllOfKind(kind: Kind, es: seq<EntryInfo>)
  {
    forall e | e in es :: OfKind(kind, e)
  }

  function PackEntry(e: EntryInfo, u: EntryUpdate): (b: seq<byte>)
    ensures e.UpdateInfo? ==> |b| == 120
    ensures e.BmpInfo? ==> |b| == 52
  {
    match e
    case UpdateInfo(_, partName, version, opMode, specInfo) =>
      Fixed(40, partName) + Le(4, u.offset) + Le(4, u.length) + Le(4, version) + Le(4, opMode) + Fixed(64, specInfo)
    case BmpInfo(_, tp, res) =>
      Le(4, tp) + Le(4, u.offset) + Le(4, u.length) + Le(4, res) + Fixed(36, [])
  }

  /** The packed entry_tuple of the class: the placeholder that fill_entry writes. */
  function EmptyEntry(kind: Kind): (b: seq<byte>)
    ensures |b| == EntrySize(kind)
  {
    if kind.Update? then PackEntry(UpdateInfo([], [], 0, 0, []), EntryUpdate(0, 0))
    else PackEntry(BmpInfo([], 0, 0), EntryUpdate(0, 0))
  }

  /** A placeholder is all zeros, in the size of the class. */
  lemma EmptyEntryIs(kind: Kind)
    ensures |EmptyEntry(kind)| == if kind == Update then 120 else 52
    ensures forall i | 0 <= i < |EmptyEntry(kind)| :: EmptyEntry(kind)[i] == 0
  {
    hide LeValue;
    ZeroWord();
    FixedIs(40, []);
    FixedIs(64, []);
    FixedIs(36, []);
  }

  lemma ZeroWord()
    ensures Le(4, 0) == [0, 0, 0, 0]
  {
    assert Le(1, 0) == [0] + Le(0, 0) && Le(2, 0) == [0] + Le(1, 0) && Le(3, 0) == [0] + Le(2, 0);
    assert Le(4, 0) == [0] + Le(3, 0);
  }

  // ----- the one-pass description of a finished blob

  function Images(es: seq<EntryInfo>): seq<byte>
  {
    if es == [] then [] else Images(es[..|es| - 1]) + es[|es| - 1].image
  }

  /** Every image directly behind the previous one, from position off on. */
  function Placement(es: seq<EntryInfo>, off: nat): (us: seq<EntryUpdate>)
    ensures |us| == |es|
  {
    seq(|es|, i requires 0 <= i < |es| => EntryUpdate(off + |Images(es[..i])|, |es[i].image|))
  }

  lemma NoImages(es: seq<EntryInfo>)
    ensures Images(es[..0]) == []
  {
  }

  lemma ImagesNext(es: seq<EntryInfo>, i: nat, off: nat)
    requires i < |es|
    ensures Images(es[..i + 1]) == Images(es[..i]) + es[i].image
    ensures Placement(es, off)[i] == EntryUpdate(off + |Images(es[..i])|, |es[i].image|)
  {
    assert es[..i + 1][..i] == es[..i];
  }

  function Table(es: seq<EntryInfo>, us: seq<EntryUpdate>): seq<byte>
    requires |us| == |es|
  {
    if es == [] then [] else
    var n := |es| - 1;
    Table(es[..n], us[..n]) + PackEntry(es[n], us[n])
  }

  function AccessoryBytes(accessory: Option<seq<byte>>): seq<byte>
  {
    match accessory
    case None => []
    case Some(b) => b
  }

  function HeaderSize(accessory: Option<seq<byte>>): nat
  {
    HEADER_LEN + |AccessoryBytes(accessory)|
  }

  /** Where the first image starts. */
  function FirstImage(kind: Kind, accessory: Option<seq<byte>>, es: seq<EntryInfo>): nat
  {
    HeaderSize(accessory) + TableSize(kind, |es|)
  }

  function BlobSize(kind: Kind, accessory: Option<seq<byte>>, es: seq<EntryInfo>): nat
  {
    FirstImage(kind, accessory, es) + |Images(es)|
  }

  /** The finished blob, written down in one pass with every number already known. */
  function FinalBlob(kind: Kind, accessory: Option<seq<byte>>, es: seq<EntryInfo>): seq<byte>
  {
    var size := BlobSize(kind, accessory, es);
    PackHeader(kind, size, HeaderSize(accessory), |es|, size)
    + AccessoryBytes(accessory)
    + Table(es, Placement(es, FirstImage(kind, accessory, es)))
    + Images(es)
  }

  function EmptyTable(kind: Kind, n: nat): (b: seq<byte>)
    ensures |b| == TableSize(kind, n)
  {
    if n == 0 then [] else EmptyTable(kind, n - 1) + EmptyEntry(kind)
  }

  /** The blob as fill_image leaves it: sizes zero, entries empty. */
  function DraftBlob(kind: Kind, accessory: Option<seq<byte>>, es: seq<EntryInfo>): seq<byte>
  {
    PackHeader(kind, 0, HeaderSize(accessory), |es|, 0)
    + AccessoryBytes(accessory)
    + EmptyTable(kind, |es|)
    + Images(es)
  }

  lemma {:induction false} TableLength(kind: Kind, es: seq<EntryInfo>, us: seq<EntryUpdate>)
    requires |us| == |es| && AllOfKind(kind, es)
    ensures |Table(es, us)| == TableSize(kind, |es|)
  {
    if es != [] {
      TableLength(kind, es[..|es| - 1], us[..|es| - 1]);
      assert OfKind(kind, es[|es| - 1]);
    }
  }

  /** update_blob_size's effect on the file: both size fields change, no other byte does. */
  function PatchSizes(c: seq<byte>, size: nat): (r: seq<byte>)
    requires |c| >= HEADER_LEN
    ensures |r| == |c|
    ensures r[..20] == c[..20] && r[20..24] == Le(4, size) && r[24..36] == c[24..36]
    ensures r[36..40] == Le(4, size) && r[40..] == c[40..]
  {
    OverwriteTwice(c, Le(4, size));
    Overwrite(Overwrite(c, BLOB_SIZE_POS, Le(4, size)), UNCOMP_SIZE_POS, Le(4, size))
  }

  lemma OverwriteTwice(c: seq<byte>, w: seq<byte>)
    requires |c| >= 40 && |w| == 4
    ensures var r := Overwrite(Overwrite(c, 20, w), 36, w);
      && |r| == |c| && r[..20] == c[..20] && r[20..24] == w && r[24..36] == c[24..36] && r[36..40] == w
      && r[40..] == c[40..]
  {
    var half := Overwrite(c, 20, w);
    assert half[..20] == c[..20] && half[20..24] == w && half[24..] == c[24..];
    var r := Overwrite(half, 36, w);
    assert r[..36] == half[..36] && r[36..40] == w && r[40..] == half[40..];
    assert r[..20] == r[..36][..20] && r[20..24] == r[..36][20..24] && r[24..36] == r[..36][24..];
  }

  /** update_entry's effect on the file: the entry table behind the header is replaced. */
  function PatchTable(c: seq<byte>, kind: Kind, headerSize: nat, es: seq<EntryInfo>, us: seq<EntryUpdate>): seq<byte>
    requires |us| == |es| && headerSize + TableSize(kind, |es|) <= |c|
  {
    c[..headerSize] + Table(es, us) + c[headerSize + TableSize(kind, |es|)..]
  }

  /** Replacing the second and the fourth of four parts. */
  lemma SwapParts(c: seq<byte>, r: seq<byte>, a: seq<byte>, z: seq<byte>, b: seq<byte>, w: seq<byte>)
    requires |a| == 20 && |z| == 4 && |b| == 12 && |w| == 4 && |c| == |r| >= 40
    requires c[..40] == a + z + b + z
    requires r[..20] == c[..20] && r[20..24] == w && r[24..36] == c[24..36] && r[36..40] == w
    ensures r[..40] == a + w + b + w
  {
    assert c[..20] == c[..40][..20] == a;
    assert c[24..36] == c[..40][24..36] == b;
    assert r[..40] == r[..20] + r[20..24] + r[24..36] + r[36..40];
  }

  /** Patching the draft in two passes gives the blob of the one-pass description. */
  lemma PatchDraft(kind: Kind, accessory: Option<seq<byte>>, es: seq<EntryInfo>)
    requires AllOfKind(kind, es)
    ensures |DraftBlob(kind, accessory, es)| == BlobSize(kind, accessory, es)
    ensures PatchTable(PatchSizes(DraftBlob(kind, accessory, es), BlobSize(kind, accessory, es)), kind,
                       HeaderSize(accessory), es, Placement(es, FirstImage(kind, accessory, es)))
         == FinalBlob(kind, accessory, es)
  {
    hide Le;
    hide Table;
    hide EmptyTable;
    hide Images;
    var size, hs := BlobSize(kind, accessory, es), HeaderSize(accessory);
    var draft, us := DraftBlob(kind, accessory, es), Placement(es, FirstImage(kind, accessory, es));
    var patched := PatchSizes(draft, size);
    DraftParts(draft, PackHeader(kind, 0, hs, |es|, 0), AccessoryBytes(accessory), EmptyTable(kind, |es|), Images(es),
               patched, Table(es, us));
    SwapParts(draft, patched, HeaderFront(), Le(4, 0), HeaderMiddle(kind, hs, |es|), Le(4, size));
    assert patched[..40] == PackHeader(kind, size, hs, |es|, size);
  }

  lemma DraftParts(c: seq<byte>, h: seq<byte>, acc: seq<byte>, t: seq<byte>, images: seq<byte>, r: seq<byte>,
                   t': seq<byte>)
    requires c == h + acc + t + images && |h| == 40 && |r| == |c| && r[40..] == c[40..]
    ensures c[..40] == h
    ensures r[..40 + |acc|] + t' + r[40 + |acc| + |t|..] == r[..40] + acc + t' + images
  {
    assert c[40..] == acc + t + images;
    assert r[40..][..|acc|] == acc;
    assert r == r[..40] + r[40..];
    assert r[..40 + |acc|] == r[..40] + acc;
    assert r[40 + |acc| + |t|..] == r[40..][|acc| + |t|..] == images;
  }

  lemma TableStep(es: seq<EntryInfo>, us: seq<EntryUpdate>, i: nat)
    requires |us| == |es| && i < |es|
    ensures Table(es[..i + 1], us[..i + 1]) == Table(es[..i], us[..i]) + PackEntry(es[i], us[i])
  {
    assert es[..i + 1][..i] == es[..i] && us[..i + 1][..i] == us[..i];
  }

  /** Writing the next packed entry behind the ones written so far. */
  lemma PatchTableStep(c: seq<byte>, kind: Kind, hs: nat, es: seq<EntryInfo>, us: seq<EntryUpdate>, i: nat)
    requires |us| == |es| && i < |es| && OfKind(kind, es[i])
    requires |Table(es[..i], us[..i])| == TableSize(kind, i) && hs + TableSize(kind, |es|) <= |c|
    ensures |Table(es[..i + 1], us[..i + 1])| == TableSize(kind, i + 1)
    ensures Overwrite(PatchTable(c, kind, hs, es[..i], us[..i]), hs + TableSize(kind, i), PackEntry(es[i], us[i]))
         == PatchTable(c, kind, hs, es[..i + 1], us[..i + 1])
  {
    hide PackEntry;
    hide Overwrite;
    TableStep(es, us, i);
    OverwriteNext(c, hs, Table(es[..i], us[..i]), PackEntry(es[i], us[i]));
  }

  lemma PatchTableNone(c: seq<byte>, kind: Kind, hs: nat, es: seq<EntryInfo>, us: seq<EntryUpdate>)
    requires |us| == |es| && hs <= |c|
    ensures Table(es[..0], us[..0]) == [] && PatchTable(c, kind, hs, es[..0], us[..0]) == c
  {
  }

  lemma OverwriteNext(c: seq<byte>, hs: nat, t: seq<byte>, b: seq<byte>)
    requires hs + |t| + |b| <= |c|
    ensures Overwrite(c[..hs] + t + c[hs + |t|..], hs + |t|, b) == c[..hs] + (t + b) + c[hs + |t| + |b|..]
  {
    OverwriteInside(c[..hs] + t, c[hs + |t|..], b);
    assert c[hs + |t|..][|b|..] == c[hs + |t| + |b|..];
    assert c[..hs] + t + b == c[..hs] + (t + b);
  }

  lemma BlobLength(kind: Kind, accessory: Option<seq<byte>>, es: seq<EntryInfo>)
    requires AllOfKind(kind, es)
    ensures |FinalBlob(kind, accessory, es)| == BlobSize(kind, accessory, es)
  {
    TableLength(kind, es, Placement(es, FirstImage(kind, accessory, es)));
  }

  /** struct.pack's demands: every number is a 32-bit word, and the entries belong to this payload class. */
  ghost predicate Packable(kind: Kind, accessory: Option<seq<byte>>, es: seq<EntryInfo>)
  {
    && AllOfKind(kind, es)
    && BlobSize(kind, accessory, es) < WORD
    && forall e | e in es ::
        match e
        case UpdateInfo(_, _, version, opMode, _) => version < WORD && opMode < WORD
        case BmpInfo(_, tp, res) => tp < WORD && res < WORD
  }

  // ----- the payload classes

  /** payload, update_payload and bmp_payload: the subclasses differ in blob_type and entry_packing only. */
  class Payload {
    const kind: Kind
    const accessory: Option<seq<byte>>
    var headerSize: nat
    var entryInfoList: seq<EntryInfo>
    var entryUpdateList: seq<EntryUpdate>
    var blobSize: nat

    constructor (kind: Kind, accessory: Option<seq<byte>>, es: seq<EntryInfo>)
      ensures this.kind == kind && this.accessory == accessory && entryInfoList == es
    {
      this.kind, this.accessory, entryInfoList := kind, accessory, es;
      headerSize, entryUpdateList, blobSize := 0, [], 0;
    }

    /** fill_header: a header with both sizes zero, then the accessory file. */
    method FillHeader(blob: BlobFile)
      requires blob.content == [] && blob.pos == 0
      requires Packable(kind, accessory, entryInfoList)
      modifies blob, this`headerSize
      ensures headerSize == HeaderSize(accessory)
      ensures blob.content == PackHeader(kind, 0, headerSize, |entryInfoList|, 0) + AccessoryBytes(accessory)
      ensures blob.pos == |blob.content|
    {
      hide PackHeader;
      headerSize := HEADER_LEN;
      if accessory.Some? {
        headerSize := headerSize + |accessory.value|;
      }
      blob.Write(PackHeader(kind, 0, headerSize, |entryInfoList|, 0));
      if accessory.Some? {
        blob.Write(accessory.value);
      }
    }

    /** fill_entry: one placeholder per entry. */
    method FillEntry(blob: BlobFile)
      requires blob.pos == |blob.content|
      modifies blob
      ensures blob.content == old(blob.content) + EmptyTable(kind, |entryInfoList|)
      ensures blob.pos == |blob.content|
    {
      hide EmptyEntry;
      var empty := EmptyEntry(kind);
      for i := 0 to |entryInfoList|
        invariant blob.content == old(blob.content) + EmptyTable(kind, i)
        invariant blob.pos == |blob.content|
      {
        blob.Write(empty);
      }
    }

    /** fill_image: appends every image and remembers where it went. */
    method FillImage(blob: BlobFile)
      requires blob.pos == |blob.content|
      modifies blob, this`entryUpdateList, this`blobSize
      ensures blob.content == old(blob.content) + Images(entryInfoList)
      ensures blob.pos == |blob.content|
      ensures entryUpdateList == Placement(entryInfoList, |old(blob.content)|)
      ensures blobSize == |blob.content|
    {
      hide Images;
      hide Placement;
      var es := entryInfoList;
      ghost var base := blob.content;
      entryUpdateList := [];
      NoImages(es);
      for i := 0 to |es|
        invariant blob.content == base + Images(es[..i]) && blob.pos == |blob.content|
        invariant |entryUpdateList| == i
        invariant forall j | 0 <= j < i :: entryUpdateList[j] == Placement(es, |base|)[j]
      {
        var image, offset := es[i].image, blob.pos;
        ImagesNext(es, i, |base|);
        assert base + Images(es[..i]) + image == base + (Images(es[..i]) + image);
        blob.Write(image);
        entryUpdateList := entryUpdateList + [EntryUpdate(offset, |image|)];
      }
      assert es[..|es|] == es;
      blobSize := blob.pos;
    }

    /** update_blob_size: patches both size fields of the header. */
    method UpdateBlobSize(blob: BlobFile)
      requires |blob.content| >= HEADER_LEN && blobSize < WORD
      modifies blob
      ensures blob.content == PatchSizes(old(blob.content), blobSize)
    {
      blob.Seek(BLOB_SIZE_POS);
      var packed := Le(4, blobSize);
      blob.Write(packed);
      blob.Seek(UNCOMP_SIZE_POS);
      blob.Write(packed);
    }

    /** update_entry: overwrites the table of placeholders. */
    method UpdateEntry(blob: BlobFile)
      requires |entryUpdateList| == |entryInfoList| && AllOfKind(kind, entryInfoList)
      requires headerSize + TableSize(kind, |entryInfoList|) <= |blob.content|
      modifies blob
      ensures blob.content == PatchTable(old(blob.content), kind, headerSize, entryInfoList, entryUpdateList)
    {
      hide PackEntry;
      hide Table;
      hide PatchTable;
      var es, us := entryInfoList, entryUpdateList;
      blob.Seek(headerSize);
      ghost var was, hs := blob.content, headerSize;
      PatchTableNone(was, kind, hs, es, us);
      for i := 0 to |es|
        invariant |Table(es[..i], us[..i])| == TableSize(kind, i)
        invariant blob.content == PatchTable(was, kind, hs, es[..i], us[..i])
        invariant blob.pos == hs + TableSize(kind, i)
      {
        assert OfKind(kind, es[i]);
        PatchTableStep(was, kind, hs, es, us, i);
        blob.Write(PackEntry(es[i], us[i]));
      }
      assert es[..|es|] == es && us[..|es|] == us;
    }
  }

  /**
   * generate_BUP: two passes over one file. The result is the blob that a single pass with all
   * sizes and offsets known in advance would have written.
   */
  method GenerateBup(kind: Kind, accessory: Option<seq<byte>>, es: seq<EntryInfo>) returns (blob: BlobFile)
    requires Packable(kind, accessory, es)
    ensures fresh(blob) && blob.content == FinalBlob(kind, accessory, es)
  {
    var payload := new Payload(kind, accessory, es);
    blob := new BlobFile();
    payload.FillHeader(blob);
    payload.FillEntry(blob);
    assert |blob.content| == FirstImage(kind, accessory, es);
    payload.FillImage(blob);
    ghost var draft := blob.content;
    assert draft == DraftBlob(kind, accessory, es);
    PatchDraft(kind, accessory, es);
    payload.UpdateBlobSize(blob);
    ghost var patched := blob.content;
    assert patched == PatchSizes(draft, BlobSize(kind, accessory, es));
    payload.UpdateEntry(blob);
    ghost var us := Placement(es, FirstImage(kind, accessory, es));
    assert blob.content == PatchTable(patched, kind, HeaderSize(accessory), es, us);
  }
}
