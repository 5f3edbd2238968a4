/** The BPMP device-tree trimmer: strap ids, table selection, strap rewriting and the line filter. */
module DtbTrimmer {
  import opened Options
  import opened Text
  import opened DtbDetect

  const ZERO: string := "0x0"
  const EMC_STRAP: string := "emc-strap"
  const PHANDLE: string := "phandle"
  const LINUX: string := "linux"

  // ----- tegraflash_bpmp_get_strap_handles

  datatype Strap = Strap(lineNum: nat, ids: seq<string>)

  predicate IsEmcStrap(l: string)
  {
    Contains(l, EMC_STRAP)
  }

  lemma EmcStrapIs(l: string)
    ensures IsEmcStrap(l) <==> Holds(l, "emc-strap")
  {
    ContainsIs(l, EMC_STRAP);
  }

  /** The strap ids on a line. */
  function IdsOf(line: string): Option<seq<string>>
  {
    match AngleGroup(line)
    case None => None
    case Some(g) => Some(Split(g, ' '))
  }

  /** The first emc-strap line from line i on; its ids stand on the next line. */
  function FindStrap(lines: seq<string>, i: nat): Option<Strap>
    requires i <= |lines|
    decreases |lines| - i
  {
    if i == |lines| then None
    else if !IsEmcStrap(lines[i]) then FindStrap(lines, i + 1)
    else if i + 1 >= |lines| then None
    else match IdsOf(lines[i + 1]) case None => None case Some(ids) => Some(Strap(i + 1, ids))
  }

  /** None where no ids are found: the code returns -1 or raises, and its caller stops. */
  method GetStrapHandles(lines: seq<string>) returns (r: Option<Strap>)
    ensures r == FindStrap(lines, 0)
  {
    for i := 0 to |lines|
      invariant FindStrap(lines, 0) == FindStrap(lines, i)
    {
      if IsEmcStrap(lines[i]) {
        if i + 1 >= |lines| {
          return None;
        }
        var g := AngleGroup(lines[i + 1]);
        if g.None? {
          return None;
        }
        return Some(Strap(i + 1, Split(g.value, ' ')));
      }
    }
    r := None;
  }

  // ----- tegraflash_bpmp_update_valid_entries

  predicate IsPhandle(l: string)
  {
    Contains(l, PHANDLE) && !Contains(l, LINUX)
  }

  /** The lines that tell a table's phandle: "linux,phandle" lines do not. */
  lemma PhandleIs(l: string)
    ensures IsPhandle(l) <==> Holds(l, "phandle") && !Holds(l, "linux")
  {
    ContainsIs(l, PHANDLE);
    ContainsIs(l, LINUX);
  }

  /** One flag for each phandle line in lines lo..hi; None where such a line has no <...> group. */
  function BlockFlags(lines: seq<string>, lo: nat, hi: nat, sel: string): Option<seq<bool>>
    requires hi <= |lines|
    decreases hi
  {
    if hi <= lo then Some([]) else
    match BlockFlags(lines, lo, hi - 1, sel)
    case None => None
    case Some(flags) =>
      if !IsPhandle(lines[hi - 1]) then Some(flags) else
      match AngleGroup(lines[hi - 1])
      case None => None
      case Some(g) => Some(flags + [g == sel])
  }

  predicate TablesFit(lines: seq<string>, t: Tables)
  {
    |t.starts| == |t.ends| && forall i | 0 <= i < |t.ends| :: t.ends[i] <= |lines|
  }

  /** The flags of the first n tables. */
  function AllFlags(lines: seq<string>, t: Tables, n: nat, sel: string): Option<seq<bool>>
    requires TablesFit(lines, t) && n <= |t.starts|
  {
    if n == 0 then Some([]) else
    match AllFlags(lines, t, n - 1, sel)
    case None => None
    case Some(flags) =>
      match BlockFlags(lines, t.starts[n - 1], t.ends[n - 1], sel)
      case None => None
      case Some(more) => Some(flags + more)
  }

  method UpdateValidEntries(ramcode: nat, lines: seq<string>, t: Tables, ids: seq<string>)
      returns (r: Option<seq<bool>>)
    requires TablesFit(lines, t) && ramcode < |ids|
    ensures r == AllFlags(lines, t, |t.starts|, ids[ramcode])
  {
    hide IsPhandle;
    hide AngleGroup;
    var validEntry: seq<bool> := [];
    for i := 0 to |t.starts|
      invariant AllFlags(lines, t, i, ids[ramcode]) == Some(validEntry)
    {
      ghost var before, flags: seq<bool> := validEntry, [];
      var lo, hi := t.starts[i], t.ends[i];
      var lineNum := lo;
      while lineNum < hi
        invariant lo == lineNum > hi || lo <= lineNum <= hi
        invariant validEntry == before + flags
        invariant if lineNum <= hi then BlockFlags(lines, lo, lineNum, ids[ramcode]) == Some(flags) else flags == []
      {
        if IsPhandle(lines[lineNum]) {
          var g := AngleGroup(lines[lineNum]);
          if g.None? {
            FlagsRaise(lines, lo, lineNum, hi, ids[ramcode]);
            FlagsStop(lines, t, i, ids[ramcode], |t.starts|);
            return None;
          }
          validEntry := validEntry + [g.value == ids[ramcode]];
          flags := flags + [g.value == ids[ramcode]];
        }
        lineNum := lineNum + 1;
      }
    }
    r := Some(validEntry);
  }

  lemma {:induction false} FlagsRaise(lines: seq<string>, lo: nat, j: nat, hi: nat, sel: string)
    requires lo <= j < hi <= |lines| && IsPhandle(lines[j]) && AngleGroup(lines[j]) == None
    ensures BlockFlags(lines, lo, hi, sel) == None
    decreases hi
  {
    if hi > j + 1 {
      FlagsRaise(lines, lo, j, hi - 1, sel);
    }
  }

  lemma {:induction false} FlagsStop(lines: seq<string>, t: Tables, i: nat, sel: string, n: nat)
    requires TablesFit(lines, t) && i < n <= |t.starts|
    requires BlockFlags(lines, t.starts[i], t.ends[i], sel) == None
    ensures AllFlags(lines, t, n, sel) == None
    decreases n
  {
    if n > i + 1 {
      FlagsStop(lines, t, i, sel, n - 1);
    }
  }

  // ----- tegraflash_bpmp_remove_unused_phandles

  function Interleave(s: string): string
  {
    if s == [] then ZERO else ZERO + [s[0]] + Interleave(s[1..])
  }

  /** re.sub(id, '0x0', line), for ids without regular-expression metacharacters. */
  function Substitute(line: string, id: string): string
  {
    if id == "" then Interleave(line) else ReplaceAll(line, id, ZERO)
  }

  lemma {:induction false} InterleaveIs(s: string)
    ensures |Interleave(s)| == 4 * |s| + 3
    ensures forall i | 0 <= i <= |s| :: Interleave(s)[4 * i..4 * i + 3] == "0x0"
    ensures forall i | 0 <= i < |s| :: Interleave(s)[4 * i + 3] == s[i]
  {
    if s != [] {
      var t, r := s[1..], Interleave(s);
      InterleaveIs(t);
      assert r == "0x0" + [s[0]] + Interleave(t);
      forall i | 0 <= i <= |s|
        ensures r[4 * i..4 * i + 3] == "0x0"
        ensures i < |s| ==> r[4 * i + 3] == s[i]
      {
        if i > 0 {
          assert r[4 * i..4 * i + 3] == Interleave(t)[4 * (i - 1)..4 * (i - 1) + 3];
          assert i < |s| ==> r[4 * i + 3] == Interleave(t)[4 * (i - 1) + 3];
        }
      }
    }
  }

  /** An empty id is found in front of every character and at the end; another one, leftmost and not overlapping. */
  lemma SubstituteIs(line: string, id: string, i: nat)
    requires id != "" ==> OccursAt(line, id, i) && forall k | 0 <= k < i :: !OccursAt(line, id, k)
    ensures id != "" ==> Substitute(line, id) == line[..i] + "0x0" + Substitute(line[i + |id|..], id)
    ensures id == "" ==> |Substitute(line, id)| == 4 * |line| + 3
    ensures id == "" && i <= |line| ==> Substitute(line, id)[4 * i..4 * i + 3] == "0x0"
    ensures id == "" && i < |line| ==> Substitute(line, id)[4 * i + 3] == line[i]
  {
    if id == "" {
      InterleaveIs(line);
    } else {
      ReplaceSkip(line, id, ZERO, i);
      var rest := line[i..];
      assert rest[..|id|] == id && rest[|id|..] == line[i + |id|..];
      ReplaceMatch(rest, id, ZERO);
    }
  }

  /** The strap line after the first k ids were looked at. */
  function RewriteTo(line: string, ids: seq<string>, sel: string, k: nat): string
    requires k <= |ids|
  {
    if k == 0 then line else
    var l := RewriteTo(line, ids, sel, k - 1);
    if ids[k - 1] != sel then Substitute(l, ids[k - 1]) else l
  }

  function Rewritten(lines: seq<string>, strap: Strap, sel: string): (r: seq<string>)
    ensures |r| == |lines|
  {
    if strap.lineNum >= |lines| then lines else
    lines[strap.lineNum := RewriteTo(lines[strap.lineNum], strap.ids, sel, |strap.ids|)]
  }

  datatype Verdict = Keep | Drop | Raise

  /** What the inner loop finds for line j, from table i on; valid_entry may be too short. */
  function VerdictFrom(t: Tables, valid: seq<bool>, j: nat, i: nat): Verdict
    requires |t.starts| == |t.ends| && i <= |t.starts|
    decreases |t.starts| - i
  {
    if i == |t.starts| then Keep
    else if t.starts[i] <= j <= t.ends[i] then
      if i >= |valid| then Raise else if !valid[i] then Drop else VerdictFrom(t, valid, j, i + 1)
    else VerdictFrom(t, valid, j, i + 1)
  }

  /** The text in the file, and whether the loop came through; after a raise the text stays as it is. */
  datatype Filtered = Filtered(text: seq<string>, whole: bool)

  /** What is written for the first k lines. */
  function FilterTo(lines: seq<string>, t: Tables, valid: seq<bool>, k: nat): Filtered
    requires |t.starts| == |t.ends| && k <= |lines|
  {
    if k == 0 then Filtered([], true) else
    var w := FilterTo(lines, t, valid, k - 1);
    if !w.whole then w else
    match VerdictFrom(t, valid, k - 1, 0)
    case Raise => Filtered(w.text, false)
    case Drop => w
    case Keep => Filtered(w.text + [lines[k - 1]], true)
  }

  /** Not whole where the code returns False after a partly written file. */
  method RemoveUnusedPhandles(ramcode: nat, lines: seq<string>, valid: seq<bool>, strap: Strap, t: Tables)
      returns (newLines: seq<string>, written: Filtered)
    requires |t.starts| == |t.ends| && ramcode < |strap.ids|
    ensures newLines == Rewritten(lines, strap, strap.ids[ramcode])
    ensures written == FilterTo(newLines, t, valid, |lines|)
  {
    hide Substitute;
    newLines := lines;
    var sel := strap.ids[ramcode];
    for lineNum := 0 to |lines|
      invariant |newLines| == |lines|
      invariant newLines == if lineNum <= strap.lineNum then lines else Rewritten(lines, strap, sel)
    {
      if lineNum == strap.lineNum {
        for k := 0 to |strap.ids|
          invariant |newLines| == |lines|
          invariant newLines == lines[lineNum := RewriteTo(lines[lineNum], strap.ids, sel, k)]
        {
          if strap.ids[k] != sel {
            newLines := newLines[lineNum := Substitute(newLines[lineNum], strap.ids[k])];
          }
        }
      }
    }
    var out: seq<string> := [];
    var invalid := false;
    for lineNum := 0 to |newLines|
      invariant FilterTo(newLines, t, valid, lineNum) == Filtered(out, true)
      invariant |t.starts| == 0 ==> !invalid
    {
      var i := 0;
      while i < |t.starts|
        invariant 0 <= i <= |t.starts|
        invariant VerdictFrom(t, valid, lineNum, 0) == VerdictFrom(t, valid, lineNum, i)
        invariant i > 0 || |t.starts| == 0 ==> !invalid
      {
        if t.starts[i] <= lineNum <= t.ends[i] && i >= |valid| {
          FilterRaises(newLines, t, valid, lineNum, |newLines|);
          return newLines, Filtered(out, false);
        }
        if t.starts[i] <= lineNum <= t.ends[i] && !valid[i] {
          invalid := true;
          break;
        } else {
          invalid := false;
        }
        i := i + 1;
      }
      if !invalid {
        out := out + [newLines[lineNum]];
      }
    }
    written := Filtered(out, true);
  }

  lemma {:induction false} FilterRaises(lines: seq<string>, t: Tables, valid: seq<bool>, j: nat, k: nat)
    requires |t.starts| == |t.ends| && j < k <= |lines| && VerdictFrom(t, valid, j, 0) == Raise
    requires FilterTo(lines, t, valid, j).whole
    ensures FilterTo(lines, t, valid, k) == Filtered(FilterTo(lines, t, valid, j).text, false)
    decreases k
  {
    if k > j + 1 {
      FilterRaises(lines, t, valid, j, k - 1);
    }
  }

  // ----- the filter is exact

  /** Line j lies in the closed interval of a table that is not selected. */
  predicate Dropped(t: Tables, valid: seq<bool>, j: nat)
    requires |t.starts| == |t.ends|
  {
    DroppedFrom(t, valid, j, 0)
  }

  predicate DroppedFrom(t: Tables, valid: seq<bool>, j: nat, n: nat)
    requires |t.starts| == |t.ends|
  {
    exists i | n <= i < |t.starts| && i < |valid| :: t.starts[i] <= j <= t.ends[i] && !valid[i]
  }

  /** Line j lies in the closed interval of a table without a flag. */
  predicate UnflaggedFrom(t: Tables, valid: seq<bool>, j: nat, n: nat)
    requires |t.starts| == |t.ends|
  {
    exists i | n <= i < |t.starts| && i >= |valid| :: t.starts[i] <= j <= t.ends[i]
  }

  /** The loop raises on line j: it gets to a table without a flag. */
  predicate Raises(t: Tables, valid: seq<bool>, j: nat)
    requires |t.starts| == |t.ends|
  {
    !Dropped(t, valid, j) && UnflaggedFrom(t, valid, j, 0)
  }

  /** The lines that remain of the first k, in order. */
  function Kept(lines: seq<string>, t: Tables, valid: seq<bool>, k: nat): seq<string>
    requires |t.starts| == |t.ends| && k <= |lines|
  {
    if k == 0 then [] else
    var w := Kept(lines, t, valid, k - 1);
    if Dropped(t, valid, k - 1) then w else w + [lines[k - 1]]
  }

  lemma {:induction false} VerdictExact(t: Tables, valid: seq<bool>, j: nat, i: nat)
    requires |t.starts| == |t.ends| && i <= |t.starts|
    ensures VerdictFrom(t, valid, j, i)
         == if DroppedFrom(t, valid, j, i) then Drop else if UnflaggedFrom(t, valid, j, i) then Raise else Keep
    decreases |t.starts| - i
  {
    if i < |t.starts| {
      VerdictExact(t, valid, j, i + 1);
    }
  }

  /**
   * As long as no line is in a table without a flag, a line is dropped exactly when it lies between
   * the start and the end position of some table that is not selected, both included, although the
   * loop keeps a single flag.
   */
  lemma {:induction false} FilterExact(lines: seq<string>, t: Tables, valid: seq<bool>, k: nat)
    requires |t.starts| == |t.ends| && k <= |lines| && forall j | 0 <= j < k :: !Raises(t, valid, j)
    ensures FilterTo(lines, t, valid, k) == Filtered(Kept(lines, t, valid, k), true)
  {
    hide VerdictFrom;
    hide Dropped;
    if k > 0 {
      FilterExact(lines, t, valid, k - 1);
      VerdictIs(t, valid, k - 1);
    }
  }

  lemma VerdictIs(t: Tables, valid: seq<bool>, j: nat)
    requires |t.starts| == |t.ends|
    ensures VerdictFrom(t, valid, j, 0)
         == if Dropped(t, valid, j) then Drop else if Raises(t, valid, j) then Raise else Keep
  {
    hide VerdictFrom;
    VerdictExact(t, valid, j, 0);
  }

  /** With too few flags the text is cut off at the first line that lies in a table without one. */
  lemma FilterStops(lines: seq<string>, t: Tables, valid: seq<bool>, j: nat)
    requires |t.starts| == |t.ends| && j < |lines|
    requires Raises(t, valid, j) && forall i | 0 <= i < j :: !Raises(t, valid, i)
    ensures FilterTo(lines, t, valid, |lines|) == Filtered(Kept(lines, t, valid, j), false)
  {
    hide FilterTo;
    hide VerdictFrom;
    FilterExact(lines, t, valid, j);
    VerdictIs(t, valid, j);
    FilterRaises(lines, t, valid, j, |lines|);
  }

  lemma AllFlagged(t: Tables, valid: seq<bool>)
    requires |t.starts| == |t.ends| <= |valid|
    ensures forall j: nat :: !Raises(t, valid, j)
  {
  }

  // ----- the whole step

  /**
   * The text that is left for dtc to compile, which may be cut off; None where the code gives up before
   * it writes, or raises.
   */
  function Trim(lines: seq<string>, ramcode: nat): Option<seq<string>>
  {
    match FindStrap(lines, 0)
    case None => None
    case Some(strap) =>
      if ramcode >= |strap.ids| then None else
      match Detect(lines)
      case None => None
      case Some(t) =>
        if !TablesFit(lines, t) then None else
        match AllFlags(lines, t, |t.starts|, strap.ids[ramcode])
        case None => None
        case Some(valid) => Some(FilterTo(Rewritten(lines, strap, strap.ids[ramcode]), t, valid, |lines|).text)
  }

  /** The part of tegraflash_bpmp_generate_dtb between reading and writing the dts file. */
  method TrimDts(lines: seq<string>, ramcode: nat) returns (written: Option<seq<string>>)
    ensures written == Trim(lines, ramcode)
  {
    var strap := GetStrapHandles(lines);
    if strap.None? || ramcode >= |strap.value.ids| {
      return None;
    }
    var t := SaveTablePos(lines);
    if t.None? {
      return None;
    }
    ScanFits(lines, |lines|);
    var valid := UpdateValidEntries(ramcode, lines, t.value, strap.value.ids);
    if valid.None? {
      return None;
    }
    var newLines, out := RemoveUnusedPhandles(ramcode, lines, valid.value, strap.value, t.value);
    written := Some(out.text);
  }

  lemma {:induction false} ScanFits(lines: seq<string>, k: nat)
    requires k <= |lines|
    ensures forall i | 0 <= i < |ScanTo(lines, k).ends| :: ScanTo(lines, k).ends[i] <= k
  {
    hide IsMarker;
    if k > 0 {
      ScanFits(lines, k - 1);
      var st, st' := ScanTo(lines, k - 1), ScanTo(lines, k);
      assert st' == StepLine(st, lines[k - 1], k - 1);
      assert st'.ends == st.ends || st'.ends == st.ends + [k];
    }
  }
}
