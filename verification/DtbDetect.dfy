/** tegraflash_bpmp_save_table_pos: finding the external-memory tables of a dts text by counting braces. */
module DtbDetect {
  import opened Options
  import opened Text

  const MARKER: string := "external-memory-"

  predicate IsMarker(l: string)
  {
    Contains(l, MARKER)
  }

  /** The lines that start a table. */
  lemma MarkerIs(l: string)
    ensures IsMarker(l) <==> Holds(l, "external-memory-")
  {
    ContainsIs(l, MARKER);
  }

  // ----- the code

  datatype Tables = Tables(starts: seq<nat>, ends: seq<nat>)

  datatype Scan = Scan(count: int, starts: seq<nat>, ends: seq<nat>)

  /** The effect of line number i on the loop's variables. */
  function StepLine(st: Scan, l: string, i: nat): Scan
  {
    if IsMarker(l) then Scan(st.count + 1, st.starts + [i], st.ends) else
    var count := st.count + (if '{' in l then 1 else 0) - (if '}' in l then 1 else 0);
    Scan(count, st.starts,
         if count == 0 && (|st.starts| + |st.ends|) % 2 == 1 then st.ends + [i + 1] else st.ends)
  }

  /** The loop's variables after the first k lines. */
  function ScanTo(lines: seq<string>, k: nat): Scan
    requires k <= |lines|
  {
    if k == 0 then Scan(-1, [], []) else StepLine(ScanTo(lines, k - 1), lines[k - 1], k - 1)
  }

  function Found(st: Scan): Option<Tables>
  {
    if |st.starts| == 0 || |st.ends| == 0 || |st.starts| != |st.ends| then None else Some(Tables(st.starts, st.ends))
  }

  /** None stands for the result (-1, -1). */
  function Detect(lines: seq<string>): Option<Tables>
  {
    Found(ScanTo(lines, |lines|))
  }

  method SaveTablePos(lines: seq<string>) returns (r: Option<Tables>)
    ensures r == Detect(lines)
  {
    hide IsMarker;
    var starts: seq<nat>, ends: seq<nat>, count := [], [], -1;
    for i := 0 to |lines|
      invariant ScanTo(lines, i) == Scan(count, starts, ends)
    {
      if IsMarker(lines[i]) {
        starts := starts + [i];
        count := count + 1;
        continue;
      }
      if '{' in lines[i] {
        count := count + 1;
      }
      if '}' in lines[i] {
        count := count - 1;
      }
      if count == 0 && (|starts| + |ends|) % 2 == 1 {
        ends := ends + [i + 1];
      }
    }
    if |starts| == 0 || |ends| == 0 || |starts| != |ends| {
      return None;
    }
    r := Some(Tables(starts, ends));
  }

  // ----- braces, character by character

  /** Opening minus closing braces. */
  function Delta(s: string): int
  {
    if s == [] then 0 else
    Delta(s[..|s| - 1]) + (if s[|s| - 1] == '{' then 1 else if s[|s| - 1] == '}' then -1 else 0)
  }

  /** Nesting depth in front of line k. */
  function Depth(lines: seq<string>, k: nat): int
    requires k <= |lines|
  {
    if k == 0 then 0 else Depth(lines, k - 1) + Delta(lines[k - 1])
  }

  /** Somewhere on line k, between two characters or at either end, the nesting depth is d. */
  ghost predicate Reaches(lines: seq<string>, k: nat, d: int)
    requires k < |lines|
  {
    exists p: nat :: p <= |lines[k]| && Depth(lines, k) + Delta(lines[k][..p]) == d
  }

  /**
   * The brace opened on line s is closed on line m: m is the first line behind s on which the depth
   * falls back to the depth in front of line s.
   */
  ghost predicate Closes(lines: seq<string>, s: nat, m: nat)
  {
    && s < m < |lines|
    && Reaches(lines, m, Depth(lines, s))
    && forall k | s < k < m :: !Reaches(lines, k, Depth(lines, s))
  }

  ghost predicate AtMostOne(l: string)
  {
    forall i, j | 0 <= i < j < |l| && l[i] == l[j] :: l[i] != '{' && l[i] != '}'
  }

  /** A line with both braces opens before it closes. */
  ghost predicate OpenFirst(l: string)
  {
    forall i, j | 0 <= i < j < |l| && l[i] == '}' :: l[j] != '{'
  }

  /**
   * A dts text: balanced, at most one brace of each kind on a line, and the marker only on lines
   * that open a direct child of the root node.
   */
  ghost predicate LinesOk(lines: seq<string>)
  {
    forall l | l in lines :: AtMostOne(l) && (IsMarker(l) ==> '{' in l && '}' !in l)
  }

  ghost predicate WellFormed(lines: seq<string>)
  {
    && LinesOk(lines)
    && (forall k: nat | k <= |lines| :: Depth(lines, k) >= 0)
    && Depth(lines, |lines|) == 0
    && (forall k | 0 <= k < |lines| && IsMarker(lines[k]) :: Depth(lines, k) == 1)
  }

  /** No line that is directly inside a table closes the table's brace and opens another one. */
  ghost predicate NoReopen(lines: seq<string>)
  {
    forall s: nat, m: nat | s < m < |lines| && IsMarker(lines[s]) && Inside(lines, s, m) && Depth(lines, m) == 2 ::
      OpenFirst(lines[m])
  }

  /** From behind line s up to the end of line m, line ends stay at depth 2 or more. */
  ghost predicate Inside(lines: seq<string>, s: nat, m: nat)
    requires m < |lines|
  {
    forall j | s < j <= m + 1 :: Depth(lines, j) >= 2
  }

  /** The found intervals are the tables of the text, in order, disjoint and bracket-matched. */
  ghost predicate TablesMatch(lines: seq<string>, starts: seq<nat>, ends: seq<nat>)
  {
    && |starts| == |ends|
    && (forall k: nat :: k in starts <==> k < |lines| && IsMarker(lines[k]))
    && (forall i | 0 <= i < |starts| :: starts[i] < ends[i] && Closes(lines, starts[i], ends[i] - 1))
    && (forall i, j | 0 <= i < j < |starts| :: ends[i] <= starts[j])
  }

  lemma {:induction false} DeltaOf(s: string)
    requires AtMostOne(s)
    ensures Delta(s) == (if '{' in s then 1 else 0) - (if '}' in s then 1 else 0)
  {
    if s != [] {
      var n := |s| - 1;
      var init := s[..n];
      DeltaOf(init);
      assert s == init + [s[n]];
      if s[n] in init {
        var i :| 0 <= i < n && init[i] == s[n];
        assert s[i] == s[n];
      }
    }
  }

  /** Depth along a line: at most one below its start, and below both line ends only on a "} {" line. */
  lemma PrefixDelta(l: string, p: nat)
    requires AtMostOne(l) && p <= |l|
    ensures Delta(l[..p]) >= -1
    ensures OpenFirst(l) ==> Delta(l[..p]) >= 0 || Delta(l[..p]) >= Delta(l)
  {
    var a := l[..p];
    assert forall i | 0 <= i < p :: a[i] == l[i];
    DeltaOf(a);
    DeltaOf(l);
    if '}' in a {
      var i :| 0 <= i < p && a[i] == '}';
      assert l[i] == '}';
      if OpenFirst(l) && '{' in l {
        var j :| 0 <= j < |l| && l[j] == '{';
        assert j < i;
        assert a[j] == '{';
      }
    }
  }

  /** A "} {" line dips one below its start. */
  lemma ReopenDips(l: string)
    requires AtMostOne(l) && !OpenFirst(l)
    ensures exists p: nat :: p <= |l| && Delta(l[..p]) == -1
    ensures Delta(l) == 0
  {
    var i, j :| 0 <= i < j < |l| && l[i] == '}' && l[j] == '{';
    var a := l[..i + 1];
    assert a[i] == '}';
    assert forall k | 0 <= k <= i :: a[k] == l[k];
    assert '{' !in a;
    DeltaOf(a);
    DeltaOf(l);
  }

  // ----- what the loop keeps

  ghost predicate StartsAre(lines: seq<string>, k: nat, starts: seq<nat>)
    requires k <= |lines|
  {
    forall j: nat :: j in starts <==> j < k && IsMarker(lines[j])
  }

  /** The finished tables: in order, disjoint, and nested two deep or more in between. */
  ghost predicate Spans(lines: seq<string>, k: nat, starts: seq<nat>, ends: seq<nat>)
    requires k <= |lines|
  {
    && |ends| <= |starts|
    && (forall i | 0 <= i < |ends| :: starts[i] < ends[i] <= k && Depth(lines, ends[i]) == 1)
    && (forall i, j | 0 <= i < |ends| && starts[i] < j < ends[i] :: Depth(lines, j) >= 2)
    && (forall i, j | 0 <= i < |ends| && i < j < |starts| :: ends[i] <= starts[j])
  }

  /** Behind the start of an unfinished table the text has stayed inside it. */
  ghost predicate Pending(lines: seq<string>, k: nat, s: nat)
    requires k <= |lines|
  {
    s < k && forall j | s < j <= k :: Depth(lines, j) >= 2
  }

  ghost predicate LineInv(lines: seq<string>, k: nat, st: Scan)
    requires k <= |lines|
  {
    && st.count == Depth(lines, k) - 1
    && |st.ends| <= |st.starts| <= |st.ends| + 1
    && StartsAre(lines, k, st.starts)
    && Spans(lines, k, st.starts, st.ends)
    && (|st.starts| > |st.ends| ==> Pending(lines, k, st.starts[|st.ends|]))
  }

  lemma StepMarker(lines: seq<string>, k: nat, st: Scan)
    requires WellFormed(lines) && k < |lines| && LineInv(lines, k, st) && IsMarker(lines[k])
    ensures LineInv(lines, k + 1, StepLine(st, lines[k], k))
  {
    hide IsMarker;
    hide Depth;
    DepthStep(lines, k);
    assert |st.starts| == |st.ends|;
    var starts := st.starts + [k];
    assert forall j: nat :: j in starts <==> j in st.starts || j == k;
  }

  lemma StepEnd(lines: seq<string>, k: nat, st: Scan)
    requires WellFormed(lines) && k < |lines| && LineInv(lines, k, st) && !IsMarker(lines[k])
    requires Depth(lines, k + 1) == 1 && |st.starts| > |st.ends|
    ensures LineInv(lines, k + 1, StepLine(st, lines[k], k))
  {
    hide IsMarker;
    hide Depth;
    hide Spans;
    CountStep(lines, k, st);
    assert StartsAre(lines, k + 1, st.starts);
    SpansEnd(lines, k, st.starts, st.ends);
    assert StepLine(st, lines[k], k).ends == st.ends + [k + 1];
  }

  /** Ending the one unfinished table in front of line k. */
  lemma SpansEnd(lines: seq<string>, k: nat, starts: seq<nat>, ends: seq<nat>)
    requires k < |lines| && |starts| == |ends| + 1
    requires Spans(lines, k, starts, ends) && Pending(lines, k, starts[|ends|]) && Depth(lines, k + 1) == 1
    ensures Spans(lines, k + 1, starts, ends + [k + 1])
  {
    hide Depth;
  }

  lemma StepOther(lines: seq<string>, k: nat, st: Scan)
    requires WellFormed(lines) && k < |lines| && LineInv(lines, k, st) && !IsMarker(lines[k])
    requires Depth(lines, k + 1) != 1 || |st.starts| == |st.ends|
    ensures LineInv(lines, k + 1, StepLine(st, lines[k], k))
  {
    hide IsMarker;
    hide Depth;
    hide Spans;
    hide Pending;
    CountStep(lines, k, st);
    assert StartsAre(lines, k + 1, st.starts);
    SpansKeep(lines, k, st.starts, st.ends);
    if |st.starts| > |st.ends| {
      PendingKeeps(lines, k, st.starts[|st.ends|]);
    }
  }

  lemma SpansKeep(lines: seq<string>, k: nat, starts: seq<nat>, ends: seq<nat>)
    requires k < |lines| && Spans(lines, k, starts, ends)
    ensures Spans(lines, k + 1, starts, ends)
  {
    hide Depth;
  }

  lemma PendingKeeps(lines: seq<string>, k: nat, s: nat)
    requires LinesOk(lines) && k < |lines| && Pending(lines, k, s)
    requires Depth(lines, k + 1) != 1
    ensures Pending(lines, k + 1, s)
  {
    hide IsMarker;
    hide Depth;
    DepthStep(lines, k);
  }

  lemma CountStep(lines: seq<string>, k: nat, st: Scan)
    requires LinesOk(lines) && k < |lines| && st.count == Depth(lines, k) - 1
    ensures StepLine(st, lines[k], k).count == Depth(lines, k + 1) - 1
  {
    hide IsMarker;
    assert lines[k] in lines;
    DeltaOf(lines[k]);
  }

  lemma {:induction false} LineInvariant(lines: seq<string>, k: nat)
    requires WellFormed(lines) && k <= |lines|
    ensures LineInv(lines, k, ScanTo(lines, k))
  {
    hide IsMarker;
    hide LineInv;
    hide WellFormed;
    if k == 0 {
      LineInvStart(lines);
    } else {
      LineInvariant(lines, k - 1);
      var st := ScanTo(lines, k - 1);
      if IsMarker(lines[k - 1]) {
        StepMarker(lines, k - 1, st);
      } else if Depth(lines, k) == 1 && |st.starts| > |st.ends| {
        StepEnd(lines, k - 1, st);
      } else {
        LineInvSizes(lines, k - 1, st);
        StepOther(lines, k - 1, st);
      }
    }
  }

  lemma LineInvSizes(lines: seq<string>, k: nat, st: Scan)
    requires k <= |lines| && LineInv(lines, k, st)
    ensures |st.ends| <= |st.starts| <= |st.ends| + 1
  {
  }

  lemma LineInvStart(lines: seq<string>)
    ensures LineInv(lines, 0, Scan(-1, [], []))
  {
  }

  lemma DepthStep(lines: seq<string>, k: nat)
    requires LinesOk(lines) && k < |lines|
    ensures Depth(lines, k) - 1 <= Depth(lines, k + 1) <= Depth(lines, k) + 1
    ensures IsMarker(lines[k]) ==> Depth(lines, k + 1) == Depth(lines, k) + 1
  {
    assert lines[k] in lines;
    DeltaOf(lines[k]);
  }

  /**
   * At every point of the run the count is the nesting depth minus one, and as many tables have
   * ended as have started, or one less.
   */
  lemma CountIsDepth(lines: seq<string>, k: nat)
    requires WellFormed(lines) && k <= |lines|
    ensures var st := ScanTo(lines, k);
      st.count == Depth(lines, k) - 1 && 0 <= |st.starts| - |st.ends| <= 1
  {
    LineInvariant(lines, k);
  }

  ghost predicate CharInv(lines: seq<string>, k: nat, st: Scan)
    requires k <= |lines|
  {
    && |st.ends| <= |st.starts|
    && (forall i | 0 <= i < |st.ends| :: st.starts[i] < st.ends[i] && Closes(lines, st.starts[i], st.ends[i] - 1))
    && (|st.starts| > |st.ends| ==> forall j | st.starts[|st.ends|] < j < k :: !Reaches(lines, j, 1))
  }

  lemma {:induction false} CharInvariant(lines: seq<string>, k: nat)
    requires WellFormed(lines) && NoReopen(lines) && k <= |lines|
    ensures CharInv(lines, k, ScanTo(lines, k))
  {
    hide IsMarker;
    hide Depth;
    hide LineInv;
    hide WellFormed;
    hide NoReopen;
    hide CharInv;
    if k == 0 {
      CharInvStart(lines);
    } else {
      CharInvariant(lines, k - 1);
      LineInvariant(lines, k - 1);
      LineInvariant(lines, k);
      CharStep(lines, k - 1, ScanTo(lines, k - 1));
    }
  }

  lemma CharInvStart(lines: seq<string>)
    ensures CharInv(lines, 0, Scan(-1, [], []))
  {
  }

  lemma CharStep(lines: seq<string>, k: nat, st: Scan)
    requires WellFormed(lines) && NoReopen(lines) && k < |lines|
    requires CharInv(lines, k, st) && LineInv(lines, k, st) && LineInv(lines, k + 1, StepLine(st, lines[k], k))
    ensures CharInv(lines, k + 1, StepLine(st, lines[k], k))
  {
    hide IsMarker;
    hide Depth;
    hide NoReopen;
    hide Reaches;
    hide LineInv;
    hide WellFormed;
    if |st.starts| > |st.ends| {
      PendingTable(lines, k, st);
      PendingNext(lines, k, st);
      var s := st.starts[|st.ends|];
      if |StepLine(st, lines[k], k).ends| > |st.ends| {
        EndReaches(lines, k);
        assert Closes(lines, s, k);
      } else {
        StaysAbove(lines, s, k);
      }
    }
  }

  lemma PendingTable(lines: seq<string>, k: nat, st: Scan)
    requires WellFormed(lines) && k <= |lines| && LineInv(lines, k, st) && |st.starts| > |st.ends|
    ensures |st.starts| == |st.ends| + 1
    ensures var s := st.starts[|st.ends|];
      s < k && IsMarker(lines[s]) && Depth(lines, s) == 1 && forall j | s < j <= k :: Depth(lines, j) >= 2
  {
    hide IsMarker;
    hide Depth;
    assert st.starts[|st.ends|] in st.starts;
  }

  lemma PendingNext(lines: seq<string>, k: nat, st: Scan)
    requires k < |lines| && |st.starts| == |st.ends| + 1
    requires LineInv(lines, k + 1, StepLine(st, lines[k], k))
    ensures |StepLine(st, lines[k], k).ends| > |st.ends| ==> Depth(lines, k + 1) == 1
    ensures |StepLine(st, lines[k], k).ends| == |st.ends| ==> Inside(lines, st.starts[|st.ends|], k)
  {
    hide IsMarker;
    hide Depth;
  }

  lemma EndReaches(lines: seq<string>, k: nat)
    requires k < |lines|
    ensures Reaches(lines, k, Depth(lines, k + 1))
  {
    assert lines[k][..|lines[k]|] == lines[k];
  }

  lemma StaysAbove(lines: seq<string>, s: nat, k: nat)
    requires WellFormed(lines) && NoReopen(lines)
    requires s < k < |lines| && IsMarker(lines[s]) && Inside(lines, s, k)
    ensures !Reaches(lines, k, 1)
  {
    hide IsMarker;
    hide Delta;
    var l := lines[k];
    assert l in lines;
    assert Depth(lines, k + 1) == Depth(lines, k) + Delta(l);
    forall p: nat | p <= |l|
      ensures Depth(lines, k) + Delta(l[..p]) >= 2
    {
      PrefixDelta(l, p);
    }
  }

  lemma ScanIsFinished(lines: seq<string>)
    requires WellFormed(lines)
    ensures var st := ScanTo(lines, |lines|); |st.starts| == |st.ends|
  {
    hide IsMarker;
    LineInvariant(lines, |lines|);
  }

  /**
   * Table detection is bracket matching exactly when no line directly inside a table closes it and
   * opens another node on the same line.
   */
  lemma DetectionIsBracketMatching(lines: seq<string>)
    requires WellFormed(lines)
    ensures var st := ScanTo(lines, |lines|);
      TablesMatch(lines, st.starts, st.ends) <==> NoReopen(lines)
  {
    hide IsMarker;
    hide Depth;
    hide WellFormed;
    hide ScanTo;
    hide Closes;
    hide OpenFirst;
    hide LineInv;
    hide Inside;
    var n := |lines|;
    var st := ScanTo(lines, n);
    LineInvariant(lines, n);
    ScanIsFinished(lines);
    if NoReopen(lines) {
      CharInvariant(lines, n);
      MatchFromInvariants(lines, st);
    }
    if TablesMatch(lines, st.starts, st.ends) {
      forall s: nat, m: nat | s < m < n && IsMarker(lines[s]) && Inside(lines, s, m) && Depth(lines, m) == 2
        ensures OpenFirst(lines[m])
      {
        MatchedReopen(lines, st, s, m);
      }
    }
  }

  lemma MatchFromInvariants(lines: seq<string>, st: Scan)
    requires LineInv(lines, |lines|, st) && CharInv(lines, |lines|, st) && |st.starts| == |st.ends|
    ensures TablesMatch(lines, st.starts, st.ends)
  {
    hide IsMarker;
    hide Depth;
    hide Closes;
  }

  lemma MatchedReopen(lines: seq<string>, st: Scan, s: nat, m: nat)
    requires WellFormed(lines) && LineInv(lines, |lines|, st) && TablesMatch(lines, st.starts, st.ends)
    requires s < m < |lines| && IsMarker(lines[s]) && Inside(lines, s, m) && Depth(lines, m) == 2
    ensures OpenFirst(lines[m])
  {
    hide IsMarker;
    hide Depth;
    hide WellFormed;
    hide Closes;
    hide OpenFirst;
    assert s in st.starts;
    var i :| 0 <= i < |st.starts| && st.starts[i] == s;
    MatchRefusesReopen(lines, s, st.ends[i] - 1, m);
  }

  lemma MatchRefusesReopen(lines: seq<string>, s: nat, e: nat, m: nat)
    requires WellFormed(lines) && Closes(lines, s, e) && Depth(lines, e + 1) == 1
    requires s < m < |lines| && IsMarker(lines[s]) && Inside(lines, s, m) && Depth(lines, m) == 2
    ensures OpenFirst(lines[m])
  {
    hide IsMarker;
    hide Depth;
    assert Depth(lines, s) == 1;
    assert e > m;
    assert !Reaches(lines, m, 1);
    if !OpenFirst(lines[m]) {
      ReopenReaches(lines, m);
    }
  }

  lemma ReopenReaches(lines: seq<string>, m: nat)
    requires LinesOk(lines) && m < |lines| && !OpenFirst(lines[m])
    ensures Reaches(lines, m, Depth(lines, m) - 1)
  {
    hide IsMarker;
    assert lines[m] in lines;
    ReopenDips(lines[m]);
  }

  /** A table is found exactly when some line carries the marker. */
  lemma DetectFinds(lines: seq<string>)
    requires WellFormed(lines)
    ensures Detect(lines).Some? <==> exists k :: 0 <= k < |lines| && IsMarker(lines[k])
  {
    hide IsMarker;
    var st := ScanTo(lines, |lines|);
    LineInvariant(lines, |lines|);
    ScanIsFinished(lines);
    if st.starts != [] {
      assert st.starts[0] in st.starts;
    }
  }

  /** A text on which detection goes wrong: the line "}; b {" ends the table and the loop misses it. */
  lemma ReopenIsMissed()
    ensures WellFormed(Reopening()) && !NoReopen(Reopening())
    ensures var st := ScanTo(Reopening(), 5); !TablesMatch(Reopening(), st.starts, st.ends)
  {
    hide Contains;
    hide Delta;
    hide ScanTo;
    hide TablesMatch;
    var lines := Reopening();
    ReopeningMarkers();
    ReopeningLines();
    ReopeningDepths();
    assert Inside(lines, 1, 2);
    assert lines[2][0] == '}' && lines[2][5] == '{';
    assert !OpenFirst(lines[2]);
    DetectionIsBracketMatching(lines);
  }

  function Reopening(): seq<string>
  {
    ["/ {", "external-memory-0 {", "}; b {", "};", "};"]
  }

  lemma ReopeningMarkers()
    ensures forall i | 0 <= i < 5 :: IsMarker(Reopening()[i]) <==> i == 1
  {
    assert OccursAt("external-memory-0 {", MARKER, 0);
  }

  lemma ReopeningLines()
    ensures LinesOk(Reopening())
  {
    hide IsMarker;
    hide AtMostOne;
    ReopeningMarkers();
    ReopeningBraces();
    assert Reopening()[1][18] == '{';
    assert forall l | l in Reopening() :: exists i :: 0 <= i < 5 && l == Reopening()[i];
  }

  lemma ReopeningBraces()
    ensures forall i | 0 <= i < 5 :: AtMostOne(Reopening()[i])
  {
    hide IsMarker;
    var lines := Reopening();
    forall i | 0 <= i < 5
      ensures AtMostOne(lines[i])
    {
      if i == 1 {
        assert forall j | 0 <= j < 18 :: lines[1][j] != '{' && lines[1][j] != '}';
      }
    }
  }

  lemma ReopeningDepths()
    ensures var lines := Reopening();
      Depth(lines, 0) == 0 && Depth(lines, 1) == 1 && Depth(lines, 2) == 2 && Depth(lines, 3) == 2
        && Depth(lines, 4) == 1 && Depth(lines, 5) == 0
  {
    hide Delta;
    hide IsMarker;
    ReopeningLines();
    var lines := Reopening();
    DeltaOf(lines[0]);
    DeltaOf(lines[1]);
    DeltaOf(lines[2]);
    DeltaOf(lines[3]);
    assert lines[0][2] == '{' && lines[1][18] == '{' && lines[2][0] == '}' && lines[2][5] == '{' && lines[3][0] == '}';
  }
}
