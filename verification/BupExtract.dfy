/** extract_binaries of BUP_generator.py: cutting the images out of a blob again. */
module BupExtract {
  import opened Options
  import opened Bytes
  import opened Text
  import opened BupWriter
  import opened BupLayout
  import opened BupReader
  import opened BupCheck

  const DELIM: byte := 0x5f
  const ALL: Name := [0x61, 0x6c, 0x6c]
  const DEV: Name := [0x64, 0x65, 0x76]
  const PROD: Name := [0x70, 0x72, 0x6f, 0x64]
  const EXT: Name := [0x2e, 0x72, 0x61, 0x77, 0x2e, 0x62, 0x69, 0x6e]

  /** "_".join(filter(None, parts)): empty parts are left out. */
  function JoinNonEmpty(parts: seq<Name>): Name
  {
    if parts == [] then [] else
    var rest := JoinNonEmpty(parts[1..]);
    if parts[0] == [] then rest else if rest == [] then parts[0] else parts[0] + [DELIM] + rest
  }

  /** <part_name>[_<op_str>][_<tnspec>].raw.bin; None where an operating mode above 2 makes the join raise. */
  function OutName(e: Entry): Option<Name>
  {
    if e.opMode > 2 then None else
    var opStr := if e.opMode == 0 then [] else if e.opMode == 1 then DEV else PROD;
    var tnspec := if Spec(e) == COMMON then [] else Spec(e);
    Some(JoinNonEmpty([PartName(e), opStr, tnspec]) + EXT)
  }

  predicate Selected(requested: set<Name>, e: Entry)
  {
    PartName(e) in requested || ALL in requested
  }

  /** The distinct names of the -x argument. */
  function Requested(raw: seq<byte>): set<Name>
  {
    set p | p in Split(raw, SEMICOLON) :: Strip(p)
  }

  /** The bytes of a text. */
  function BytesOf(text: string): (b: seq<byte>)
    requires forall i | 0 <= i < |text| :: text[i] < 128 as char
    ensures |b| == |text|
  {
    seq(|text|, i requires 0 <= i < |text| => text[i] as byte)
  }

  /** The middle of a file name: development and production images are told apart, and specs other than "common". */
  function Middle(mode: nat, spec: Name): Name
  {
    (if mode == 1 then BytesOf("_dev") else if mode == 2 then BytesOf("_prod") else [])
    + if spec == [] || spec == BytesOf("common") then [] else BytesOf("_") + spec
  }

  /** File names: the part name, the mode and the spec, with underscores in front; none at the beginning. */
  lemma OutNameIs(e: Entry)
    ensures OutName(e).Some? <==> e.opMode <= 2
    ensures OutName(e).Some? ==>
      var name := PartName(e) + Middle(e.opMode, Spec(e)) + BytesOf(".raw.bin");
      OutName(e).value == if PartName(e) == [] && Middle(e.opMode, Spec(e)) != [] then name[1..] else name
  {
    hide PartName;
    hide Spec;
    hide JoinNonEmpty;
    hide Middle;
    if e.opMode <= 2 {
      var opStr := if e.opMode == 0 then [] else if e.opMode == 1 then DEV else PROD;
      var tnspec := if Spec(e) == COMMON then [] else Spec(e);
      MiddleIs(e.opMode, Spec(e), opStr, tnspec);
      JoinThree(PartName(e), opStr, tnspec);
      NameBytes();
      var m := Middle(e.opMode, Spec(e));
      if m != [] {
        assert ([] + m + EXT)[1..] == m[1..] + EXT;
      }
    }
  }

  lemma MiddleIs(mode: nat, spec: Name, opStr: Name, tnspec: Name)
    requires mode <= 2 && opStr == (if mode == 0 then [] else if mode == 1 then DEV else PROD)
    requires tnspec == if spec == COMMON then [] else spec
    ensures Middle(mode, spec) == Behind(opStr) + Behind(tnspec)
  {
    NameBytes();
  }

  lemma NameBytes()
    ensures BytesOf("_dev") == [DELIM] + DEV && BytesOf("_prod") == [DELIM] + PROD && BytesOf("_") == [DELIM]
    ensures BytesOf(".raw.bin") == EXT && BytesOf("common") == COMMON && BytesOf("all") == ALL
  {
  }

  lemma JoinThree(a: Name, b: Name, c: Name)
    ensures var rest := Behind(b) + Behind(c);
      JoinNonEmpty([a, b, c]) == if a == [] && rest != [] then rest[1..] else a + rest
  {
    JoinTwo(b, c);
    assert [a, b, c][1..] == [b, c];
    var rest, joined := Behind(b) + Behind(c), JoinNonEmpty([b, c]);
    assert rest == Behind(joined);
    if joined != [] {
      assert rest[1..] == joined;
      assert a + [DELIM] + joined == a + rest;
    }
  }

  /** A part with an underscore in front, if there is one. */
  function Behind(part: Name): Name
  {
    if part == [] then [] else [DELIM] + part
  }

  lemma JoinTwo(b: Name, c: Name)
    ensures Behind(JoinNonEmpty([b, c])) == Behind(b) + Behind(c)
  {
    assert [b, c][1..] == [c] && [c][1..] == [];
    assert JoinNonEmpty([c]) == c;
    if b != [] && c != [] {
      assert [DELIM] + (b + [DELIM] + c) == [DELIM] + b + ([DELIM] + c);
    }
  }

  /** An argument that is cut at semicolons selects the parts it names, and all of them if it says so. */
  lemma SelectedIs(raw: seq<byte>, parts: seq<Name>, e: Entry)
    requires |parts| >= 1 && raw == Join(parts, 0x3b) && forall p | p in parts :: 0x3b !in p
    ensures forall x :: x in Requested(raw) <==> exists p | p in parts :: Strip(p) == x
    ensures Selected(Requested(raw), e) <==>
      exists p | p in parts :: Strip(p) == PartName(e) || Strip(p) == BytesOf("all")
  {
    hide PartName;
    hide Strip;
    SplitJoin(parts, 0x3b);
    NameBytes();
    var requested := Requested(raw);
    assert forall x :: x in requested <==> exists p :: p in parts && Strip(p) == x;
  }

  /** The argument "a; b" asks for two parts. */
  lemma TwoSelected(e: Entry)
    ensures Selected(Requested(BytesOf("a; b")), e) <==> PartName(e) == BytesOf("a") || PartName(e) == BytesOf("b")
  {
    hide PartName;
    hide Requested;
    hide Selected;
    var a, b := BytesOf("a"), BytesOf(" b");
    assert BytesOf("a; b") == a + [0x3b] + b && Join([a, b], 0x3b) == a + [0x3b] + b by {
      assert [a, b][1..] == [b];
    }
    SelectedIs(BytesOf("a; b"), [a, b], e);
    StripTwo();
    NameBytes();
    assert [a, b][0] == a && [a, b][1] == b;
  }

  lemma StripTwo()
    ensures Strip(BytesOf("a")) == BytesOf("a") && Strip(BytesOf(" b")) == BytesOf("b")
  {
    StripFixpoint(BytesOf("a"));
    StripFixpoint(BytesOf("b"));
    assert BytesOf(" b")[1..] == BytesOf("b");
  }

  predicate Extractable(requested: set<Name>, slots: seq<Slot>)
  {
    forall s | s in slots :: s.Parsed? && (Selected(requested, s.entry) ==> OutName(s.entry).Some?)
  }

  /** Entry i is the last selected entry that is saved under its file name. */
  ghost predicate LastUnderName(requested: set<Name>, es: seq<Entry>, i: nat)
  {
    && i < |es| && Selected(requested, es[i])
    && forall j | i < j < |es| && Selected(requested, es[j]) :: OutName(es[j]) != OutName(es[i])
  }

  /** What the output directory holds after the entries es were looked at. */
  ghost predicate Extracted(blob: seq<byte>, requested: set<Name>, es: seq<Entry>,
                            before: map<Name, seq<byte>>, after: map<Name, seq<byte>>)
  {
    && (forall i: nat | LastUnderName(requested, es, i) ::
          && OutName(es[i]).Some? && OutName(es[i]).value in after
          && after[OutName(es[i]).value] == ReadAt(blob, es[i].offset, es[i].partSize))
    && (forall n | n in before && n !in OutNames(requested, es) :: n in after && after[n] == before[n])
    && after.Keys == before.Keys + OutNames(requested, es)
  }

  function PartNames(es: seq<Entry>): set<Name>
  {
    set e | e in es :: PartName(e)
  }

  function OutNames(requested: set<Name>, es: seq<Entry>): set<Name>
  {
    set e | e in es && Selected(requested, e) && OutName(e).Some? :: OutName(e).value
  }

  lemma MissingStep<T>(missing: set<T>, requested: set<T>, names: set<T>, p: T, keyword: set<T>)
    requires missing - keyword == requested - names - keyword
    ensures missing - {p} - keyword == requested - (names + {p}) - keyword
    ensures p !in requested ==> missing - keyword == requested - (names + {p}) - keyword
  {
    var step := requested - (names + {p}) - keyword;
    assert missing - {p} - keyword == missing - keyword - {p};
    assert requested - names - keyword - {p} == step;
    if p !in requested {
      assert requested - names - keyword == step;
    }
  }

  lemma NamesStepOut(requested: set<Name>, es: seq<Entry>, e: Entry)
    ensures PartNames(es + [e]) == PartNames(es) + {PartName(e)}
    ensures OutNames(requested, es + [e]) == OutNames(requested, es)
              + if Selected(requested, e) && OutName(e).Some? then {OutName(e).value} else {}
  {
    hide PartName;
    hide OutName;
    hide Selected;
    assert forall x :: x in es + [e] <==> x in es || x == e;
  }

  /** An earlier entry stays the last under its name if the new one is not saved under that name. */
  lemma LastStep(requested: set<Name>, es: seq<Entry>, e: Entry, i: nat)
    requires LastUnderName(requested, es + [e], i)
    ensures i < |es| ==> LastUnderName(requested, es, i) && (es + [e])[i] == es[i]
    ensures i < |es| && Selected(requested, e) ==> OutName(e) != OutName(es[i])
    ensures i >= |es| ==> (es + [e])[i] == e
  {
    hide OutName;
    hide Selected;
    var all := es + [e];
    assert all[|es|] == e;
    if i < |es| {
      forall j | i < j < |es| && Selected(requested, es[j])
        ensures OutName(es[j]) != OutName(es[i])
      {
        assert all[j] == es[j];
      }
    }
  }

  /** One iteration keeps the statement true for one more entry. */
  lemma ExtractStep(blob: seq<byte>, requested: set<Name>, es: seq<Entry>, e: Entry,
                    before: map<Name, seq<byte>>, after: map<Name, seq<byte>>)
    requires Extracted(blob, requested, es, before, after)
    requires Selected(requested, e) ==> OutName(e).Some?
    ensures Extracted(blob, requested, es + [e], before,
                      if Selected(requested, e) then after[OutName(e).value := ReadAt(blob, e.offset, e.partSize)]
                      else after)
    ensures PartNames(es + [e]) == PartNames(es) + {PartName(e)}
  {
    hide PartNames;
    hide OutName;
    hide OutNames;
    hide Selected;
    hide ReadAt;
    hide LastUnderName;
    NamesStepOut(requested, es, e);
    var all := es + [e];
    var after' :=
      if Selected(requested, e) then after[OutName(e).value := ReadAt(blob, e.offset, e.partSize)] else after;
    forall i: nat | LastUnderName(requested, all, i)
      ensures i < |all| && OutName(all[i]).Some? && OutName(all[i]).value in after'
      ensures after'[OutName(all[i]).value] == ReadAt(blob, all[i].offset, all[i].partSize)
    {
      LastIsSelected(requested, all, i);
      LastStep(requested, es, e, i);
    }
  }

  lemma LastIsSelected(requested: set<Name>, es: seq<Entry>, i: nat)
    requires LastUnderName(requested, es, i)
    ensures i < |es| && Selected(requested, es[i])
  {
  }

  lemma NothingExtracted(blob: seq<byte>, requested: set<Name>, before: map<Name, seq<byte>>)
    ensures Extracted(blob, requested, [], before, before) && PartNames([]) == {}
  {
  }

  /**
   * extract_binaries. Not ok where Python raises: on an entry that was never parsed, and on a
   * selected entry whose operating mode has no name. The missing names are the requested ones that
   * no entry has, except the keyword "all".
   */
  method ExtractBinaries(blobFile: BlobFile, slots: seq<Slot>, raw: seq<byte>, before: map<Name, seq<byte>>)
      returns (ok: bool, after: map<Name, seq<byte>>, missing: set<Name>)
    modifies blobFile`pos
    ensures ok <==> Extractable(Requested(raw), slots)
    ensures ok ==> AllParsed(slots) && Extracted(blobFile.content, Requested(raw), Entries(slots), before, after)
    ensures ok ==> missing == Requested(raw) - PartNames(Entries(slots)) - {ALL}
  {
    hide PartName;
    hide Spec;
    hide OutName;
    hide ReadAt;
    hide Extracted;
    hide PartNames;
    hide Requested;
    var requested := Requested(raw);
    after, missing := before, requested;
    var es: seq<Entry> := [];
    ghost var c := blobFile.content;
    NothingExtracted(c, requested, before);
    for i := 0 to |slots|
      invariant Extractable(requested, slots[..i]) && AllParsed(slots[..i]) && es == Entries(slots[..i])
      invariant Extracted(c, requested, es, before, after)
      invariant missing - {ALL} == requested - PartNames(es) - {ALL}
    {
      assert slots[i] in slots;
      if slots[i].Unparsed? {
        return false, after, missing;
      }
      var e := slots[i].entry;
      if Selected(requested, e) && OutName(e).None? {
        return false, after, missing;
      }
      ExtractStep(c, requested, es, e, before, after);
      MissingStep(missing, requested, PartNames(es), PartName(e), {ALL});
      if Selected(requested, e) {
        blobFile.Seek(e.offset);
        var image := blobFile.Read(e.partSize);
        after := after[OutName(e).value := image];
        missing := missing - {PartName(e)};
      }
      es := es + [e];
    }
    assert slots[..|slots|] == slots;
    missing := missing - {ALL};
    ok := true;
  }

  /**
   * Writing a blob, inspecting it and extracting from it gives the images back: the file saved for
   * entry i, unless a later selected entry is saved under the same name, is its source image.
   */
  lemma ExtractionRoundTrip(accessory: Option<seq<byte>>, es: seq<EntryInfo>, max: int, inspection: Inspection,
                            requested: set<Name>, before: map<Name, seq<byte>>, after: map<Name, seq<byte>>, i: nat)
    requires Packable(Update, accessory, es) && forall e | e in es :: LengthsOk(e)
    requires Inspect(FinalBlob(Update, accessory, es), max) == Some(inspection)
    ensures AllParsed(inspection.slots)
    ensures (Extracted(FinalBlob(Update, accessory, es), requested, Entries(inspection.slots), before, after)
             && LastUnderName(requested, Entries(inspection.slots), i)) ==>
         && i < |es| && OutName(Entries(inspection.slots)[i]).Some?
         && OutName(Entries(inspection.slots)[i]).value in after
         && after[OutName(Entries(inspection.slots)[i]).value] == es[i].image
  {
    hide FinalBlob;
    hide Inspect;
    hide OutName;
    hide ReadAt;
    hide PartName;
    hide Spec;
    RoundTrip(accessory, es, max);
    var slots := inspection.slots;
    assert AllParsed(slots);
    if i < |slots| {
      assert es[i] in es;
      EntryRoundTrip(accessory, es, i);
    }
  }

  /** The image of entry i is found in the file named after the entry. */
  ghost predicate Survives(e: Entry, image: seq<byte>, after: map<Name, seq<byte>>)
  {
    OutName(e).Some? && OutName(e).value in after && after[OutName(e).value] == image
  }

  /** The last entry that is saved under the name of entry i. */
  lemma LastOf(requested: set<Name>, es: seq<Entry>, i: nat) returns (j: nat)
    requires i < |es| && Selected(requested, es[i])
    ensures i <= j < |es| && LastUnderName(requested, es, j) && OutName(es[j]) == OutName(es[i])
    decreases |es| - i
  {
    hide Selected;
    hide OutName;
    if LastUnderName(requested, es, i) {
      return i;
    }
    var k: nat :| i < k < |es| && Selected(requested, es[k]) && OutName(es[k]) == OutName(es[i]);
    j := LastOf(requested, es, k);
  }

  /** Entries that are saved under one name have equal images. */
  ghost predicate NoneOverwritten(requested: set<Name>, got: seq<Entry>, es: seq<EntryInfo>)
    requires |got| <= |es|
  {
    forall i, j | 0 <= i < j < |got| && Selected(requested, got[i]) && Selected(requested, got[j])
        && OutName(got[i]) == OutName(got[j]) ::
      es[i].image == es[j].image
  }

  /**
   * After writing, inspecting and extracting, every selected image is found under its entry's name
   * exactly when entries that share a name have equal images.
   */
  lemma AllSurvive(accessory: Option<seq<byte>>, es: seq<EntryInfo>, max: int, inspection: Inspection,
                   requested: set<Name>, before: map<Name, seq<byte>>, after: map<Name, seq<byte>>)
    requires Packable(Update, accessory, es) && forall e | e in es :: LengthsOk(e)
    requires Inspect(FinalBlob(Update, accessory, es), max) == Some(inspection) && AllParsed(inspection.slots)
    requires Extracted(FinalBlob(Update, accessory, es), requested, Entries(inspection.slots), before, after)
    ensures var got := Entries(inspection.slots);
      && |got| <= |es|
      && ((forall i | 0 <= i < |got| && Selected(requested, got[i]) :: Survives(got[i], es[i].image, after))
          <==> NoneOverwritten(requested, got, es))
  {
    hide FinalBlob;
    hide Inspect;
    hide Extracted;
    hide LastUnderName;
    hide Selected;
    hide OutName;
    hide Packable;
    hide LengthsOk;
    RoundTripLength(accessory, es, max, inspection);
    var got := Entries(inspection.slots);
    if NoneOverwritten(requested, got, es) {
      forall i | 0 <= i < |got| && Selected(requested, got[i])
        ensures Survives(got[i], es[i].image, after)
      {
        var j := LastOf(requested, got, i);
        LastIsSelected(requested, got, j);
        ExtractionRoundTrip(accessory, es, max, inspection, requested, before, after, j);
      }
    }
  }

  lemma RoundTripLength(accessory: Option<seq<byte>>, es: seq<EntryInfo>, max: int, inspection: Inspection)
    requires Packable(Update, accessory, es) && Inspect(FinalBlob(Update, accessory, es), max) == Some(inspection)
    ensures |inspection.slots| <= |es|
  {
    hide FinalBlob;
    hide Inspect;
    hide Packable;
    RoundTrip(accessory, es, max);
  }
}
