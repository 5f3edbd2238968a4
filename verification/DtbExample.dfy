/** Texts the trimmer is meant for, and texts on which it goes wrong. */
module DtbExample {
  import opened Options
  import opened Text
  import opened DtbDetect
  import opened DtbTrimmer
  import opened DtbTrimProof
  import opened DtbTrimResult
  import opened DtbStrap
  import opened DtbTrimTheorem

  const TABLE: string := "external-memory-0 {"
  const NEXT: string := "external-memory-1 {"
  const HANDLE: string := "phandle = <0xa>;"
  const OTHER: string := "phandle = <0xb>;"
  const LINUXA: string := "linux,phandle = <0xa>;"
  const LINUXB: string := "linux,phandle = <0xb>;"
  const STRAP: string := "emc-strap {"
  const SELECT: string := "select = <0xa 0xb>;"

  /** Two tables with their handles written twice, and the strap node. */
  function Example(): (lines: seq<string>)
    ensures |lines| == 15
  {
    ["/ {", TABLE, LINUXA, HANDLE, "};", "", NEXT, LINUXB, OTHER, "};", "", STRAP, SELECT, "};", "};"]
  }

  const POSITIONS: Tables := Tables([1, 6], [5, 10])

  function ExampleShape(): Shape
  {
    Shape(POSITIONS, ["0xa", "0xb"], "select = ", ["0xa", "0xb"], ";", 12)
  }

  lemma Lacks(s: string, p: string, c: char)
    requires c in p && c !in s
    ensures !Contains(s, p)
  {
    var k :| 0 <= k < |p| && p[k] == c;
    forall i | 0 <= i <= |s| && OccursAt(s, p, i)
      ensures i + k < |s| && s[i + k] == c
    {
      OccursChar(s, p, i, k);
    }
  }

  lemma OccursChar(s: string, p: string, i: nat, k: nat)
    requires OccursAt(s, p, i) && k < |p|
    ensures s[i + k] == p[k]
  {
    assert s[i..i + |p|][k] == s[i + k];
  }

  lemma Markers()
    ensures forall i | 0 <= i < 15 :: IsMarker(Example()[i]) <==> i == 1 || i == 6
  {
    hide Contains;
    MarkerLines();
    Lacks("/ {", MARKER, 'm');
    Lacks(HANDLE, MARKER, 'm');
    Lacks(OTHER, MARKER, 'm');
    Lacks(LINUXA, MARKER, 'm');
    Lacks(LINUXB, MARKER, 'm');
    Lacks("};", MARKER, 'm');
    Lacks("", MARKER, 'm');
    Lacks(STRAP, MARKER, 'x');
    Lacks(SELECT, MARKER, 'm');
  }

  lemma MarkerLines()
    ensures IsMarker(TABLE) && IsMarker(NEXT)
  {
    assert OccursAt(TABLE, MARKER, 0) && OccursAt(NEXT, MARKER, 0);
  }

  lemma Opening()
    ensures forall i | 0 <= i < 15 :: '{' in Example()[i] <==> i == 0 || i == 1 || i == 6 || i == 11
  {
    hide IsMarker;
    var lines := Example();
    assert lines[0][2] == '{' && lines[1][18] == '{' && lines[6][18] == '{' && lines[11][10] == '{';
  }

  lemma Closing()
    ensures forall i | 0 <= i < 15 :: '}' in Example()[i] <==> i == 4 || i == 9 || i == 13 || i == 14
  {
    hide IsMarker;
    assert Example()[4][0] == '}' && "};"[0] == '}';
  }

  lemma Singles()
    ensures forall i | 0 <= i < 15 :: AtMostOne(Example()[i])
  {
    hide IsMarker;
    SingleAtEnd("/ {");
    SingleAtEnd(TABLE);
    SingleAtEnd(NEXT);
    SingleAtEnd(STRAP);
  }

  lemma SingleAtEnd(l: string)
    requires l != [] && '{' !in l[..|l| - 1] && '}' !in l
    ensures AtMostOne(l)
  {
    forall i, j | 0 <= i < j < |l| && l[i] == l[j]
      ensures l[i] != '{' && l[i] != '}'
    {
      assert l[..|l| - 1][i] == l[i];
    }
  }

  lemma Braces()
    ensures forall i | 0 <= i < 15 :: AtMostOne(Example()[i])
    ensures forall i | 0 <= i < 15 :: '{' in Example()[i] <==> i == 0 || i == 1 || i == 6 || i == 11
    ensures forall i | 0 <= i < 15 :: '}' in Example()[i] <==> i == 4 || i == 9 || i == 13 || i == 14
  {
    hide Example;
    hide AtMostOne;
    Singles();
    Opening();
    Closing();
  }

  lemma Depths()
    ensures var lines := Example();
      && Depth(lines, 0) == 0 && Depth(lines, 1) == 1 && Depth(lines, 2) == 2 && Depth(lines, 3) == 2
      && Depth(lines, 4) == 2 && Depth(lines, 5) == 1 && Depth(lines, 6) == 1 && Depth(lines, 7) == 2
      && Depth(lines, 8) == 2 && Depth(lines, 9) == 2 && Depth(lines, 10) == 1 && Depth(lines, 11) == 1
      && Depth(lines, 12) == 2 && Depth(lines, 13) == 2 && Depth(lines, 14) == 1 && Depth(lines, 15) == 0
  {
    hide IsMarker;
    hide Delta;
    hide AtMostOne;
    hide Example;
    Braces();
    var lines := Example();
    forall i | 0 <= i < 15
      ensures Depth(lines, i + 1) == Depth(lines, i)
        + (if i == 0 || i == 1 || i == 6 || i == 11 then 1 else 0)
        - (if i == 4 || i == 9 || i == 13 || i == 14 then 1 else 0)
    {
      DeltaOf(lines[i]);
    }
  }

  lemma IsWellFormed()
    ensures WellFormed(Example())
  {
    hide IsMarker;
    hide AtMostOne;
    hide Depth;
    hide Example;
    Markers();
    Braces();
    Depths();
    assert forall l | l in Example() :: exists i :: 0 <= i < 15 && l == Example()[i];
  }

  /** The scan of the example, told from its markers and braces. */
  lemma Detected()
    ensures Detect(Example()) == Some(POSITIONS)
  {
    hide IsMarker;
    hide AtMostOne;
    hide Example;
    Markers();
    Braces();
    var lines := Example();
    assert ScanTo(lines, 1) == Scan(0, [], []);
    assert ScanTo(lines, 2) == Scan(1, [1], []);
    assert ScanTo(lines, 3) == Scan(1, [1], []);
    assert ScanTo(lines, 4) == Scan(1, [1], []);
    assert ScanTo(lines, 5) == Scan(0, [1], [5]);
    assert ScanTo(lines, 6) == Scan(0, [1], [5]);
    assert ScanTo(lines, 7) == Scan(1, [1, 6], [5]);
    assert ScanTo(lines, 8) == Scan(1, [1, 6], [5]);
    assert ScanTo(lines, 9) == Scan(1, [1, 6], [5]);
    assert ScanTo(lines, 10) == Scan(0, [1, 6], [5, 10]);
    assert ScanTo(lines, 11) == Scan(0, [1, 6], [5, 10]);
    assert ScanTo(lines, 12) == Scan(1, [1, 6], [5, 10]);
    assert ScanTo(lines, 13) == Scan(1, [1, 6], [5, 10]);
    assert ScanTo(lines, 14) == Scan(0, [1, 6], [5, 10]);
  }

  lemma HandleLines()
    ensures !IsPhandle(TABLE) && !IsPhandle(NEXT) && !IsPhandle("};")
    ensures IsPhandle(HANDLE) && IsPhandle(OTHER) && !IsPhandle(LINUXA) && !IsPhandle(LINUXB)
  {
    hide Contains;
    Lacks(TABLE, PHANDLE, 'p');
    Lacks(NEXT, PHANDLE, 'p');
    Lacks("};", PHANDLE, 'p');
    Lacks(HANDLE, LINUX, 'u');
    Lacks(OTHER, LINUX, 'u');
    HandlesHold();
  }

  lemma HandlesHold()
    ensures Contains(HANDLE, PHANDLE) && Contains(OTHER, PHANDLE)
    ensures Contains(LINUXA, LINUX) && Contains(LINUXB, LINUX)
  {
    assert OccursAt(HANDLE, PHANDLE, 0) && OccursAt(OTHER, PHANDLE, 0);
    assert OccursAt(LINUXA, LINUX, 0) && OccursAt(LINUXB, LINUX, 0);
  }

  lemma HandleGroups()
    ensures AngleGroup(HANDLE) == Some("0xa") && AngleGroup(OTHER) == Some("0xb")
  {
    assert HANDLE == "phandle = " + ['<'] + "0xa" + ['>'] + ";";
    assert OTHER == "phandle = " + ['<'] + "0xb" + ['>'] + ";";
    AngleGroupOf("phandle = ", "0xa", ";");
    AngleGroupOf("phandle = ", "0xb", ";");
  }

  lemma Handles()
    ensures OnePhandle(Example(), 1, 5, "0xa") && OnePhandle(Example(), 6, 10, "0xb")
  {
    hide IsPhandle;
    hide AngleGroup;
    var lines := Example();
    HandleLines();
    HandleGroups();
    assert lines[1] == TABLE && lines[2] == LINUXA && lines[3] == HANDLE && lines[4] == "};";
    assert lines[6] == NEXT && lines[7] == LINUXB && lines[8] == OTHER && lines[9] == "};";
    assert OnlyPhandle(lines, 1, 5, "0xa", 3);
    assert OnlyPhandle(lines, 6, 10, "0xb", 8);
  }

  lemma Select()
    ensures SELECT == StrapText("select = ", ["0xa", "0xb"], ";") && '<' !in "select = "
    ensures PlainIds(["0xa", "0xb"]) && IdsOf(SELECT) == Some(["0xa", "0xb"])
  {
    var ids := ["0xa", "0xb"];
    assert Join(ids, ' ') == "0xa 0xb";
    StrapIds("select = ", ids, ";");
  }

  lemma StrapIsFound()
    ensures FindStrap(Example(), 0) == Some(Strap(12, ["0xa", "0xb"]))
  {
    hide IsEmcStrap;
    hide IdsOf;
    NoStrapLines();
    Select();
    assert Example()[11] == STRAP && Example()[12] == SELECT;
    FindsStrap(Example(), 0, 11, ["0xa", "0xb"]);
  }

  lemma NoStrapLines()
    ensures (forall i | 0 <= i < 11 :: !IsEmcStrap(Example()[i])) && IsEmcStrap(STRAP)
  {
    hide Contains;
    Lacks("/ {", EMC_STRAP, 'c');
    Lacks(TABLE, EMC_STRAP, 'c');
    Lacks(NEXT, EMC_STRAP, 'c');
    Lacks(HANDLE, EMC_STRAP, 'c');
    Lacks(OTHER, EMC_STRAP, 'c');
    Lacks(LINUXA, EMC_STRAP, 'c');
    Lacks(LINUXB, EMC_STRAP, 'c');
    Lacks("};", EMC_STRAP, 'c');
    Lacks("", EMC_STRAP, 'c');
    StrapLine();
  }

  lemma StrapLine()
    ensures Contains(STRAP, EMC_STRAP)
  {
    assert OccursAt(STRAP, EMC_STRAP, 0);
  }

  lemma IdsAreIndependent()
    ensures Independent("select = ", ";", ["0xa", "0xb"], "0xb")
  {
    hide Contains;
    Lacks("select = ", "0xa", 'a');
    Lacks(";", "0xa", 'a');
    Lacks(ZERO, "0xa", 'a');
    Lacks("0xb", "0xa", 'a');
  }

  lemma SelectIsNeutral()
    ensures Neutral(SELECT)
  {
    hide IsMarker;
    Markers();
    assert Example()[12] == SELECT;
  }

  lemma TablesFitExample()
    ensures Setting(Example(), POSITIONS, [false, true]) && Phandles(Example(), POSITIONS, ["0xa", "0xb"])
  {
    hide WellFormed;
    hide Detect;
    hide OnePhandle;
    IsWellFormed();
    Detected();
    Handles();
    assert Example()[5] == "";
  }

  lemma OutsideExample()
    ensures Outside(POSITIONS, [false, true], 11) && Outside(POSITIONS, [false, true], 12)
  {
  }

  lemma ExampleLine()
    ensures Example()[12] == SELECT
  {
  }

  lemma ExampleFlags()
    ensures FlagsFor(ExampleShape(), 1) == [false, true]
  {
    assert "0xa"[2] != "0xb"[2];
  }

  /** The assumptions of the trimming theorems hold of the example. */
  lemma ExampleFits()
    ensures TrimInput(Example(), ExampleShape(), 1)
  {
    hide Setting;
    hide Phandles;
    hide FindStrap;
    hide Independent;
    hide StrapText;
    hide Neutral;
    hide PlainIds;
    hide Example;
    hide Outside;
    hide FlagsFor;
    ExampleFlags();
    OutsideExample();
    TablesFitExample();
    StrapIsFound();
    Select();
    IdsAreIndependent();
    SelectIsNeutral();
    ExampleLine();
  }

  const MASKED: string := "select = <0x0 0xb>;"

  lemma MaskedSelect()
    ensures StrapText("select = ", Masked(["0xa", "0xb"], "0xb"), ";") == MASKED
  {
    assert "0xa"[2] != "0xb"[2];
    assert Masked(["0xa", "0xb"], "0xb") == ["0x0", "0xb"];
    assert Join(["0x0", "0xb"], ' ') == "0x0 0xb";
  }

  lemma ExampleKept()
    ensures Kept(Example()[12 := MASKED], POSITIONS, [false, true], 15) == ["/ {"] + Example()[12 := MASKED][6..]
  {
    hide MASKED;
    var lines, t, valid := Example()[12 := MASKED], POSITIONS, [false, true];
    assert !valid[0] && t.starts[0] == 1 && t.ends[0] == 5 && t.starts[1] == 6;
    assert Kept(lines, t, valid, 1) == ["/ {"];
    assert Kept(lines, t, valid, 2) == ["/ {"];
    assert Kept(lines, t, valid, 3) == ["/ {"];
    assert Kept(lines, t, valid, 4) == ["/ {"];
    assert Kept(lines, t, valid, 5) == ["/ {"];
    KeptRun(lines, t, valid, 6, 15);
    assert lines[6..15] == lines[6..];
  }

  /** With the second handle selected, the first table goes and the second stays, handles and all. */
  lemma ExampleTrimmed()
    ensures Trim(Example(), 1)
         == Some(["/ {", NEXT, LINUXB, OTHER, "};", "", STRAP, "select = <0x0 0xb>;", "};", "};"])
  {
    hide Trim;
    hide Kept;
    hide Detect;
    hide WellFormed;
    hide Setting;
    hide StrapText;
    hide FlagsFor;
    hide Selected;
    hide TrimInput;
    ExampleFits();
    ExampleFlags();
    MaskedSelect();
    hide Example;
    TrimKeepsRightTables(Example(), ExampleShape(), 1);
    assert Restrapped(Example(), ExampleShape(), 1) == Example()[12 := MASKED];
    ExampleKept();
    ExampleRest();
  }

  lemma ExampleRest()
    ensures ["/ {"] + Example()[12 := MASKED][6..]
         == ["/ {", NEXT, LINUXB, OTHER, "};", "", STRAP, "select = <0x0 0xb>;", "};", "};"]
  {
    assert Example()[12 := MASKED][6..] == [NEXT, LINUXB, OTHER, "};", "", STRAP, MASKED, "};", "};"];
  }

  // ----- a dropped table in front of the end of the root

  const ONLY: string := "select = <0xb>;"

  /** The strap selects 0xb, and the only table, which has 0xa, ends right in front of the root's end. */
  function Tight(): (lines: seq<string>)
    ensures |lines| == 8
  {
    ["/ {", STRAP, ONLY, "};", TABLE, HANDLE, "};", "};"]
  }

  lemma OnlyIds()
    ensures IdsOf(ONLY) == Some(["0xb"])
  {
    hide IdsOf;
    var ids := ["0xb"];
    assert ONLY == StrapText("select = ", ids, ";");
    StrapIds("select = ", ids, ";");
  }

  lemma OnlyPlain()
    ensures !IsMarker(ONLY) && AtMostOne(ONLY) && '{' !in ONLY && '}' !in ONLY
  {
    hide Contains;
    Lacks(ONLY, MARKER, 'm');
  }

  lemma TightLines()
    ensures forall i | 0 <= i < 8 :: AtMostOne(Tight()[i])
    ensures forall i | 0 <= i < 8 :: IsMarker(Tight()[i]) <==> i == 4
    ensures forall i | 0 <= i < 8 :: '{' in Tight()[i] <==> i == 0 || i == 1 || i == 4
    ensures forall i | 0 <= i < 8 :: '}' in Tight()[i] <==> i == 3 || i >= 6
  {
    hide IsMarker;
    hide AtMostOne;
    Markers();
    Braces();
    OnlyPlain();
    var lines, l := Example(), Tight();
    assert lines[0] == l[0] && lines[11] == l[1] && l[2] == ONLY && lines[4] == l[3];
    assert lines[1] == l[4] && lines[3] == l[5] && lines[13] == l[6] && lines[14] == l[7];
  }

  lemma TightDepths()
    ensures var lines := Tight();
      && Depth(lines, 0) == 0 && Depth(lines, 1) == 1 && Depth(lines, 2) == 2 && Depth(lines, 3) == 2
      && Depth(lines, 4) == 1 && Depth(lines, 5) == 2 && Depth(lines, 6) == 2 && Depth(lines, 7) == 1
      && Depth(lines, 8) == 0
  {
    hide IsMarker;
    hide Delta;
    hide AtMostOne;
    hide Tight;
    TightLines();
    var lines := Tight();
    forall i | 0 <= i < 8
      ensures Depth(lines, i + 1) == Depth(lines, i)
        + (if i == 0 || i == 1 || i == 4 then 1 else 0) - (if i == 3 || i >= 6 then 1 else 0)
    {
      DeltaOf(lines[i]);
    }
  }

  lemma TightIsWellFormed()
    ensures WellFormed(Tight())
  {
    hide IsMarker;
    hide AtMostOne;
    hide Depth;
    hide Tight;
    TightLines();
    TightDepths();
    assert forall l | l in Tight() :: exists i :: 0 <= i < 8 && l == Tight()[i];
  }

  lemma TightDetected()
    ensures Detect(Tight()) == Some(Tables([4], [7]))
  {
    hide IsMarker;
    hide AtMostOne;
    hide Tight;
    TightLines();
    var lines := Tight();
    assert ScanTo(lines, 1) == Scan(0, [], []);
    assert ScanTo(lines, 2) == Scan(1, [], []);
    assert ScanTo(lines, 3) == Scan(1, [], []);
    assert ScanTo(lines, 4) == Scan(0, [], []);
    assert ScanTo(lines, 5) == Scan(1, [4], []);
    assert ScanTo(lines, 6) == Scan(1, [4], []);
    assert ScanTo(lines, 7) == Scan(0, [4], [7]);
    assert ScanTo(lines, 8) == Scan(-1, [4], [7]);
  }

  lemma TightStrap()
    ensures FindStrap(Tight(), 0) == Some(Strap(2, ["0xb"]))
  {
    hide Contains;
    hide IdsOf;
    Lacks("/ {", EMC_STRAP, 'c');
    StrapLine();
    OnlyIds();
    FindsStrap(Tight(), 0, 1, ["0xb"]);
  }

  lemma TightFlags()
    ensures AllFlags(Tight(), Tables([4], [7]), 1, "0xb") == Some([false])
  {
    hide IsPhandle;
    hide AngleGroup;
    var lines, t, phs := Tight(), Tables([4], [7]), ["0xa"];
    HandleLines();
    HandleGroups();
    assert lines[4] == TABLE && lines[5] == HANDLE && lines[6] == "};";
    assert OnlyPhandle(lines, 4, 7, "0xa", 5);
    FlagsAre(lines, t, phs, 1, "0xb");
    assert phs[..1] == phs && Flags(phs, "0xb") == [false];
  }

  lemma TightKept()
    ensures Kept(Tight(), Tables([4], [7]), [false], 8) == Tight()[..4]
  {
    hide Tight;
    var lines, t, valid := Tight(), Tables([4], [7]), [false];
    KeptRun(lines, t, valid, 0, 4);
    assert !valid[0] && t.starts[0] == 4 && t.ends[0] == 7;
    assert Kept(lines, t, valid, 5) == Kept(lines, t, valid, 4);
    assert Kept(lines, t, valid, 6) == Kept(lines, t, valid, 4);
    assert Kept(lines, t, valid, 7) == Kept(lines, t, valid, 4);
  }

  lemma TightTrim()
    ensures Trim(Tight(), 0) == Some(Tight()[..4])
  {
    hide FindStrap;
    hide Detect;
    hide AllFlags;
    hide FilterTo;
    hide Tight;
    var lines, strap, t := Tight(), Strap(2, ["0xb"]), Tables([4], [7]);
    TightStrap();
    TightDetected();
    TightFlags();
    assert RewriteTo(lines[2], strap.ids, "0xb", 1) == lines[2];
    assert Rewritten(lines, strap, "0xb") == lines;
    AllFlagged(t, [false]);
    FilterExact(lines, t, [false], 8);
    TightKept();
  }

  /** Trimming takes the root's closing line along, and what is written is not balanced. */
  lemma RootCloseIsLost()
    ensures WellFormed(Tight()) && Trim(Tight(), 0) == Some(Tight()[..4]) && !WellFormed(Tight()[..4])
  {
    hide WellFormed;
    hide Detect;
    hide Trim;
    hide Tight;
    var lines, t := Tight(), Tables([4], [7]);
    TightIsWellFormed();
    TightDetected();
    TightTrim();
    TightKept();
    TightLines();
    FlaggedOf(lines, t, [false]);
    LastLostDecides(lines, t, [false], 0);
  }

  // ----- a table with two phandle lines

  /** Two tables; the first holds two phandle lines, the second the selected one. */
  function Doubled(): (lines: seq<string>)
    ensures |lines| == 3
  {
    [OTHER, HANDLE, OTHER]
  }

  /** The second table has the selected phandle, and the flag that decides on it says otherwise. */
  lemma FlagsShift()
    ensures BlockFlags(Doubled(), 2, 3, "0xb") == Some([true])
    ensures AllFlags(Doubled(), Tables([0, 2], [2, 3]), 2, "0xb") == Some([true, false, true])
  {
    hide IsPhandle;
    hide AngleGroup;
    var lines, t := Doubled(), Tables([0, 2], [2, 3]);
    HandleLines();
    HandleGroups();
    var none: seq<bool> := [];
    assert none + [true] == [true] && none + [true, false] == [true, false];
    assert [true] + [false] == [true, false] && [true, false] + [true] == [true, false, true];
    assert "0xa"[2] != "0xb"[2];
    assert BlockFlags(lines, 0, 0, "0xb") == Some(none) == BlockFlags(lines, 2, 2, "0xb");
    assert lines[0] == OTHER && lines[1] == HANDLE && lines[2] == OTHER;
    assert BlockFlags(lines, 0, 1, "0xb") == Some([true]);
    assert BlockFlags(lines, 0, 2, "0xb") == Some([true, false]);
    assert AllFlags(lines, t, 0, "0xb") == Some(none);
    assert AllFlags(lines, t, 1, "0xb") == Some([true, false]);
  }
}
