/** Where everything lies in a finished blob, and what the two patch passes may touch. */
module BupLayout {
  import opened Options
  import opened Bytes
  import opened BupWriter

  lemma SliceOfSlice<T>(s: seq<T>, lo: nat, hi: nat, i: nat, j: nat)
    requires lo <= hi <= |s| && i <= j <= hi - lo
    ensures s[lo..hi][i..j] == s[lo + i..lo + j]
  {
    var t, u, v := s[lo..hi], s[lo..hi][i..j], s[lo + i..lo + j];
    forall k | 0 <= k < j - i
      ensures u[k] == v[k]
    {
      assert u[k] == t[i + k] == s[lo + (i + k)];
    }
    assert u == v;
  }

  lemma {:induction false} ImagesPrefix(es: seq<EntryInfo>, i: nat)
    requires i <= |es|
    ensures Images(es[..i]) <= Images(es)
    decreases |es| - i
  {
    if i == |es| {
      assert es[..i] == es;
    } else {
      ImagesPrefix(es, i + 1);
      ImagesNext(es, i, 0);
    }
  }

  lemma {:induction false} TablePrefix(kind: Kind, es: seq<EntryInfo>, us: seq<EntryUpdate>, i: nat)
    requires |us| == |es| && i <= |es| && AllOfKind(kind, es)
    ensures |Table(es[..i], us[..i])| == TableSize(kind, i)
    ensures Table(es[..i], us[..i]) <= Table(es, us)
    decreases |es| - i
  {
    hide PackEntry;
    hide Table;
    TableLength(kind, es[..i], us[..i]);
    if i == |es| {
      assert es[..i] == es && us[..i] == us;
    } else {
      TablePrefix(kind, es, us, i + 1);
      TableStep(es, us, i);
    }
  }

  /** The i-th record of the table. */
  lemma TableAt(kind: Kind, es: seq<EntryInfo>, us: seq<EntryUpdate>, i: nat)
    requires |us| == |es| && i < |es| && AllOfKind(kind, es)
    ensures |Table(es, us)| == TableSize(kind, |es|)
    ensures Table(es, us)[TableSize(kind, i)..TableSize(kind, i) + EntrySize(kind)] == PackEntry(es[i], us[i])
  {
    hide PackEntry;
    hide Table;
    TableLength(kind, es, us);
    TablePrefix(kind, es, us, i);
    TablePrefix(kind, es, us, i + 1);
    TableStep(es, us, i);
    var t, a, p := Table(es, us), Table(es[..i], us[..i]), PackEntry(es[i], us[i]);
    assert OfKind(kind, es[i]);
    PrefixCut(t, a, p);
  }

  lemma PrefixCut<T>(t: seq<T>, a: seq<T>, p: seq<T>)
    requires a + p <= t
    ensures t[|a|..|a| + |p|] == p
  {
    assert t[..|a| + |p|] == a + p;
    assert t[|a|..|a| + |p|] == t[..|a| + |p|][|a|..];
  }

  /** Windows laid end to end from lo to hi: each starts where the previous one ended. */
  ghost predicate Tiles(us: seq<EntryUpdate>, lo: nat, hi: nat)
  {
    if us == [] then lo == hi else
    && us[0].offset == lo
    && (forall i | 0 < i < |us| :: us[i].offset == us[i - 1].offset + us[i - 1].length)
    && us[|us| - 1].offset + us[|us| - 1].length == hi
  }

  lemma PlacementEnd(es: seq<EntryInfo>, off: nat, i: nat)
    requires i < |es|
    ensures var u := Placement(es, off)[i];
      u.offset + u.length == off + |Images(es[..i + 1])| <= off + |Images(es)|
  {
    ImagesNext(es, i, 0);
    ImagesPrefix(es, i + 1);
  }

  lemma PlacementTiles(es: seq<EntryInfo>, off: nat)
    ensures Tiles(Placement(es, off), off, off + |Images(es)|)
  {
    hide Images;
    hide Placement;
    var us := Placement(es, off);
    if es != [] {
      ImagesNext(es, 0, off);
    }
    NoImages(es);
    forall i | 0 < i < |us|
      ensures us[i].offset == us[i - 1].offset + us[i - 1].length
    {
      ImagesNext(es, i, off);
      PlacementEnd(es, off, i - 1);
    }
    if us != [] {
      PlacementEnd(es, off, |us| - 1);
      assert es[..|es|] == es;
    }
  }

  /** The four parts of a finished blob. */
  lemma BlobParts(kind: Kind, accessory: Option<seq<byte>>, es: seq<EntryInfo>)
    requires AllOfKind(kind, es)
    ensures var blob := FinalBlob(kind, accessory, es);
      var size, hs, first := BlobSize(kind, accessory, es), HeaderSize(accessory), FirstImage(kind, accessory, es);
      && |blob| == size && HEADER_LEN <= hs <= first <= size
      && blob[..HEADER_LEN] == PackHeader(kind, size, hs, |es|, size)
      && blob[HEADER_LEN..hs] == AccessoryBytes(accessory)
      && blob[hs..first] == Table(es, Placement(es, first))
      && blob[first..] == Images(es)
  {
    hide PackHeader;
    hide Table;
    hide Images;
    BlobLength(kind, accessory, es);
    var size, hs, first := BlobSize(kind, accessory, es), HeaderSize(accessory), FirstImage(kind, accessory, es);
    TableLength(kind, es, Placement(es, first));
    FourParts(PackHeader(kind, size, hs, |es|, size), AccessoryBytes(accessory), Table(es, Placement(es, first)),
              Images(es));
  }

  lemma FourParts<T>(a: seq<T>, b: seq<T>, c: seq<T>, d: seq<T>)
    ensures var s := a + b + c + d;
      var i, j, k := |a|, |a| + |b|, |a| + |b| + |c|;
      s[..i] == a && s[i..j] == b && s[j..k] == c && s[k..] == d
  {
  }

  /** The window an entry points at holds exactly that entry's image. */
  lemma ImageInBlob(kind: Kind, accessory: Option<seq<byte>>, es: seq<EntryInfo>, i: nat)
    requires AllOfKind(kind, es) && i < |es|
    ensures var blob := FinalBlob(kind, accessory, es);
      var u := Placement(es, FirstImage(kind, accessory, es))[i];
      u.offset + u.length <= |blob| && blob[u.offset..u.offset + u.length] == es[i].image
  {
    hide FinalBlob;
    hide PackHeader;
    hide Table;
    hide Images;
    var blob, first := FinalBlob(kind, accessory, es), FirstImage(kind, accessory, es);
    BlobParts(kind, accessory, es);
    PlacementEnd(es, first, i);
    ImagesNext(es, i, 0);
    ImagesPrefix(es, i + 1);
    var a := Images(es[..i]);
    PrefixCut(Images(es), a, es[i].image);
    SliceOfSlice(blob, first, |blob|, |a|, |a| + |es[i].image|);
    assert blob[first..|blob|] == blob[first..];
  }

  /** The i-th record of the entry table, in the blob. */
  lemma EntryInBlob(kind: Kind, accessory: Option<seq<byte>>, es: seq<EntryInfo>, i: nat)
    requires AllOfKind(kind, es) && i < |es|
    ensures var blob, hs := FinalBlob(kind, accessory, es), HeaderSize(accessory);
      var at := hs + TableSize(kind, i);
      && at + EntrySize(kind) <= |blob|
      && blob[at..at + EntrySize(kind)] == PackEntry(es[i], Placement(es, FirstImage(kind, accessory, es))[i])
  {
    hide FinalBlob;
    hide PackEntry;
    hide PackHeader;
    hide Table;
    hide Placement;
    hide Images;
    var blob, hs, first := FinalBlob(kind, accessory, es), HeaderSize(accessory), FirstImage(kind, accessory, es);
    BlobParts(kind, accessory, es);
    TableAt(kind, es, Placement(es, first), i);
    SliceOfSlice(blob, hs, first, TableSize(kind, i), TableSize(kind, i) + EntrySize(kind));
  }

  /**
   * Header, accessory, table and images tile the blob: no gap, no overlap, and the size fields of
   * the header hold the real lengths.
   */
  ghost predicate Tiled(blob: seq<byte>, kind: Kind, accessory: Option<seq<byte>>, es: seq<EntryInfo>)
  {
    var hs, first := HeaderSize(accessory), FirstImage(kind, accessory, es);
    var us := Placement(es, first);
    && HEADER_LEN <= hs <= first <= |blob|
    && LeValue(blob[20..24]) == |blob| && LeValue(blob[36..40]) == |blob|
    && LeValue(blob[24..28]) == hs && LeValue(blob[28..32]) == |es|
    && blob[HEADER_LEN..hs] == AccessoryBytes(accessory)
    && |Table(es, us)| == first - hs && blob[hs..first] == Table(es, us)
    && Tiles(us, first, |blob|)
  }

  lemma Tiling(kind: Kind, accessory: Option<seq<byte>>, es: seq<EntryInfo>)
    requires Packable(kind, accessory, es)
    ensures Tiled(FinalBlob(kind, accessory, es), kind, accessory, es)
  {
    hide FinalBlob;
    hide PackHeader;
    hide PackEntry;
    hide Table;
    hide Images;
    hide LeValue;
    hide Tiles;
    var blob, first := FinalBlob(kind, accessory, es), FirstImage(kind, accessory, es);
    BlobParts(kind, accessory, es);
    PlacementTiles(es, first);
    CountFits(kind, accessory, es);
    HeaderWords(kind, |blob|, HeaderSize(accessory), |es|, |blob|, blob);
  }

  /** The text of a byte string. */
  function CharsOf(b: seq<byte>): (s: string)
    ensures |s| == |b|
  {
    seq(|b|, i requires 0 <= i < |b| => b[i] as char)
  }

  /**
   * The header in plain numbers: the magic, the version with minor and major version, release and
   * date in its fields, the sizes, the number of entries, and the type, 0 for update and 1 for bmp.
   */
  lemma HeaderIs(kind: Kind, accessory: Option<seq<byte>>, es: seq<EntryInfo>)
    requires Packable(kind, accessory, es)
    ensures var blob := FinalBlob(kind, accessory, es);
      && |blob| >= 40
      && CharsOf(blob[..16]) == "NVIDIA__BLOB__V2"
      && LeValue(blob[16..20]) == 0x21 + 0x6 * 0x100 + 0x2 * 0x1_0000 + 0x1 * 0x100_0000
      && LeValue(blob[20..24]) == |blob| && LeValue(blob[36..40]) == |blob|
      && LeValue(blob[24..28]) == 40 + |AccessoryBytes(accessory)|
      && LeValue(blob[28..32]) == |es|
      && LeValue(blob[32..36]) == match kind case Update => 0 case Bmp => 1
  {
    hide FinalBlob;
    hide PackHeader;
    hide Table;
    hide Images;
    hide LeValue;
    var blob := FinalBlob(kind, accessory, es);
    BlobParts(kind, accessory, es);
    CountFits(kind, accessory, es);
    HeaderWords(kind, |blob|, HeaderSize(accessory), |es|, |blob|, blob);
    MagicIs();
  }

  lemma MagicIs()
    ensures CharsOf(MAGIC) == "NVIDIA__BLOB__V2"
  {
  }

  /** Record i of a bmp blob: type, place and resolution in four words, the rest zero. */
  ghost predicate BmpRecord(blob: seq<byte>, at: nat, e: EntryInfo)
    requires e.BmpInfo?
  {
    && at + 52 <= |blob|
    && LeValue(blob[at..at + 4]) == e.tp && LeValue(blob[at + 12..at + 16]) == e.res
    && (forall i | at + 16 <= i < at + 52 :: blob[i] == 0)
    && var offset, length := LeValue(blob[at + 4..at + 8]), LeValue(blob[at + 8..at + 12]);
       offset + length <= |blob| && blob[offset..offset + length] == e.image
  }

  /** Every entry of a bmp blob reads back from its 52 bytes, and the window named there is its image. */
  lemma BmpReadsBack(accessory: Option<seq<byte>>, es: seq<EntryInfo>, i: nat)
    requires Packable(Bmp, accessory, es) && i < |es|
    ensures es[i].BmpInfo?
    ensures BmpRecord(FinalBlob(Bmp, accessory, es), 40 + |AccessoryBytes(accessory)| + 52 * i, es[i])
  {
    hide FinalBlob;
    hide PackEntry;
    hide Images;
    hide LeValue;
    var blob, u := FinalBlob(Bmp, accessory, es), Placement(es, FirstImage(Bmp, accessory, es))[i];
    var at := 40 + |AccessoryBytes(accessory)| + 52 * i;
    assert OfKind(Bmp, es[i]) && es[i] in es;
    EntryInBlob(Bmp, accessory, es, i);
    ImageInBlob(Bmp, accessory, es, i);
    PlacementEnd(es, FirstImage(Bmp, accessory, es), i);
    BlobLength(Bmp, accessory, es);
    BmpWords(blob, at, es[i], u);
  }

  lemma BmpWords(blob: seq<byte>, at: nat, e: EntryInfo, u: EntryUpdate)
    requires e.BmpInfo? && at + 52 <= |blob| && blob[at..at + 52] == PackEntry(e, u)
    requires u.offset < WORD && u.length < WORD && e.tp < WORD && e.res < WORD
    ensures LeValue(blob[at..at + 4]) == e.tp && LeValue(blob[at + 4..at + 8]) == u.offset
    ensures LeValue(blob[at + 8..at + 12]) == u.length && LeValue(blob[at + 12..at + 16]) == e.res
    ensures forall i | at + 16 <= i < at + 52 :: blob[i] == 0
  {
    hide Le;
    hide LeValue;
    hide Fixed;
    WordFits(e.tp);
    WordFits(u.offset);
    WordFits(u.length);
    WordFits(e.res);
    FixedIs(36, []);
    var b := blob[at..at + 52];
    FiveParts(Le(4, e.tp), Le(4, u.offset), Le(4, u.length), Le(4, e.res), Fixed(36, []));
    SliceOfSlice(blob, at, at + 52, 0, 4);
    SliceOfSlice(blob, at, at + 52, 4, 8);
    SliceOfSlice(blob, at, at + 52, 8, 12);
    SliceOfSlice(blob, at, at + 52, 12, 16);
    forall i | at + 16 <= i < at + 52
      ensures blob[i] == 0
    {
      assert blob[i] == b[i - at] == b[16..52][i - at - 16];
    }
  }

  lemma FiveParts(a: seq<byte>, b: seq<byte>, c: seq<byte>, d: seq<byte>, e: seq<byte>)
    requires |a| == |b| == |c| == |d| == 4 && |e| == 36
    ensures var s := a + b + c + d + e;
      |s| == 52 && s[0..4] == a && s[4..8] == b && s[8..12] == c && s[12..16] == d && s[16..52] == e
  {
  }

  lemma CountFits(kind: Kind, accessory: Option<seq<byte>>, es: seq<EntryInfo>)
    ensures |es| <= BlobSize(kind, accessory, es)
  {
  }

  /** The words of a packed header read back. */
  lemma HeaderWords(kind: Kind, size: nat, hs: nat, count: nat, uncomp: nat, c: seq<byte>)
    requires |c| >= HEADER_LEN && c[..HEADER_LEN] == PackHeader(kind, size, hs, count, uncomp)
    requires size < WORD && hs < WORD && count < WORD && uncomp < WORD
    ensures c[..16] == MAGIC && LeValue(c[16..20]) == VERSION
    ensures LeValue(c[20..24]) == size && LeValue(c[24..28]) == hs && LeValue(c[28..32]) == count
    ensures LeValue(c[32..36]) == KindCode(kind) && LeValue(c[36..40]) == uncomp
  {
    hide Le;
    hide LeValue;
    HeaderCuts(c, MAGIC, Le(4, VERSION), Le(4, size), Le(4, hs), Le(4, count), Le(4, KindCode(kind)), Le(4, uncomp));
    WordFits(VERSION);
    WordFits(size);
    WordFits(hs);
    WordFits(count);
    WordFits(uncomp);
    WordFits(KindCode(kind));
  }

  lemma WordFits(v: nat)
    requires v < WORD
    ensures LeValue(Le(4, v)) == v
  {
    Pow256Four();
    LeFits(4, v);
  }

  lemma HeaderCuts(c: seq<byte>, m: seq<byte>, v: seq<byte>, s: seq<byte>, h: seq<byte>, n: seq<byte>, t: seq<byte>,
                   u: seq<byte>)
    requires |m| == 16 && |v| == |s| == |h| == |n| == |t| == |u| == 4 && |c| >= 40
    requires c[..40] == (m + v) + s + (h + n + t) + u
    ensures c[..16] == m && c[16..20] == v && c[20..24] == s && c[24..28] == h && c[28..32] == n && c[32..36] == t
    ensures c[36..40] == u
  {
    var front, middle := m + v, h + n + t;
    FourParts(front, s, middle, u);
    assert c[..20] == c[..40][..20] && c[20..24] == c[..40][20..24] && c[24..36] == c[..40][24..36];
    assert c[36..40] == c[..40][36..];
    assert c[..16] == c[..20][..16] == m && c[16..20] == c[..20][16..] == v;
    assert c[24..28] == c[24..36][..4] && c[28..32] == c[24..36][4..8] && c[32..36] == c[24..36][8..];
  }

  /**
   * The two later passes of generate_BUP keep the length and change only bytes 20-23, bytes 36-39
   * and the entry table of the draft that the first pass left.
   */
  lemma PatchesAreFramed(kind: Kind, accessory: Option<seq<byte>>, es: seq<EntryInfo>)
    requires AllOfKind(kind, es)
    ensures var draft, final := DraftBlob(kind, accessory, es), FinalBlob(kind, accessory, es);
      && |draft| == |final|
      && forall i | 0 <= i < |draft| && draft[i] != final[i] ::
          20 <= i < 24 || 36 <= i < 40 || HeaderSize(accessory) <= i < FirstImage(kind, accessory, es)
  {
    hide FinalBlob;
    hide DraftBlob;
    hide Placement;
    hide PatchTable;
    hide PatchSizes;
    hide Images;
    PatchDraft(kind, accessory, es);
    var draft, us := DraftBlob(kind, accessory, es), Placement(es, FirstImage(kind, accessory, es));
    var half := PatchSizes(draft, BlobSize(kind, accessory, es));
    SizesFrame(draft, half);
    TablePatch(half, kind, HeaderSize(accessory), es, us);
  }

  /** Patching the table changes nothing but the table. */
  lemma TablePatch(c: seq<byte>, kind: Kind, headerSize: nat, es: seq<EntryInfo>, us: seq<EntryUpdate>)
    requires AllOfKind(kind, es) && |us| == |es| && headerSize + TableSize(kind, |es|) <= |c|
    ensures var r := PatchTable(c, kind, headerSize, es, us);
      |r| == |c| && forall i | 0 <= i < |c| && !(headerSize <= i < headerSize + TableSize(kind, |es|)) :: r[i] == c[i]
  {
    hide Table;
    TableLength(kind, es, us);
    TableFrame(c, headerSize, Table(es, us));
  }

  lemma SizesFrame(c: seq<byte>, r: seq<byte>)
    requires |c| == |r| >= 40 && r[..20] == c[..20] && r[24..36] == c[24..36] && r[40..] == c[40..]
    ensures forall i | 0 <= i < |c| && !(20 <= i < 24) && !(36 <= i < 40) :: r[i] == c[i]
  {
    forall i | 0 <= i < |c| && !(20 <= i < 24) && !(36 <= i < 40)
      ensures r[i] == c[i]
    {
      if i < 20 {
        assert r[i] == r[..20][i];
      } else if i < 36 {
        assert r[i] == r[24..36][i - 24];
      } else {
        assert r[i] == r[40..][i - 40];
      }
    }
  }

  lemma TableFrame(c: seq<byte>, lo: nat, t: seq<byte>)
    requires lo + |t| <= |c|
    ensures var r := c[..lo] + t + c[lo + |t|..];
      |r| == |c| && forall i | 0 <= i < |c| && !(lo <= i < lo + |t|) :: r[i] == c[i]
  {
  }
}
