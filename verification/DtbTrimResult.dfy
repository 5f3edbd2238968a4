/** What the trimmed text looks like: well-formed, the right lines, and exactly the selected tables. */
module DtbTrimResult {
  import opened Options
  import opened Text
  import opened DtbDetect
  import opened DtbTrimmer
  import opened DtbTrimProof

  lemma FlaggedOf(lines: seq<string>, t: Tables, valid: seq<bool>)
    requires WellFormed(lines) && Detect(lines) == Some(t) && |valid| == |t.starts|
    ensures Flagged(lines, t, valid)
  {
    hide IsMarker;
    hide ScanTo;
    hide LineInv;
    hide WellFormed;
    TablesAre(lines, t);
    NearHolds(lines, t, |lines|);
    EndsBefore(lines, |lines|);
  }

  // ----- balance

  lemma {:induction false} KeptAreLines(lines: seq<string>, t: Tables, valid: seq<bool>, k: nat)
    requires |t.starts| == |t.ends| <= |valid| && k <= |lines|
    ensures forall l | l in Kept(lines, t, valid, k) :: l in lines
  {
    hide Dropped;
    if k > 0 {
      KeptAreLines(lines, t, valid, k - 1);
    }
  }

  /** Which line of the input the p-th remaining line is. */
  lemma {:induction false} KeptAt(lines: seq<string>, t: Tables, valid: seq<bool>, n: nat, p: nat) returns (k: nat)
    requires |t.starts| == |t.ends| <= |valid| && n <= |lines| && p < |Kept(lines, t, valid, n)|
    ensures k < n && !Dropped(t, valid, k)
    ensures Kept(lines, t, valid, k) == Kept(lines, t, valid, n)[..p] && Kept(lines, t, valid, n)[p] == lines[k]
    decreases n
  {
    hide Dropped;
    var w := Kept(lines, t, valid, n - 1);
    if p < |w| {
      k := KeptAt(lines, t, valid, n - 1, p);
      assert Kept(lines, t, valid, n)[..p] == w[..p];
    } else {
      k := n - 1;
      assert Kept(lines, t, valid, n)[..p] == w;
    }
  }

  /** The nesting that the lost lines in front of line k take away. */
  ghost function LostDelta(lines: seq<string>, t: Tables, valid: seq<bool>, k: nat): int
    requires |t.starts| == |t.ends| <= |valid| && k <= |lines|
  {
    if k == 0 then 0 else
    LostDelta(lines, t, valid, k - 1) + if Lost(t, valid, k - 1) then Delta(lines[k - 1]) else 0
  }

  /** Nesting depth in front of line k; 1 throughout a dropped table. */
  ghost function OuterDepth(lines: seq<string>, t: Tables, valid: seq<bool>, k: nat): int
    requires |t.starts| == |t.ends| <= |valid| && k <= |lines|
  {
    if InDropped(t, valid, k) then 1 else Depth(lines, k)
  }

  lemma OuterStep(lines: seq<string>, t: Tables, valid: seq<bool>, k: nat)
    requires Flagged(lines, t, valid) && k < |lines|
    ensures Lost(t, valid, k) ==> Dropped(t, valid, k)
    ensures OuterDepth(lines, t, valid, k + 1) == OuterDepth(lines, t, valid, k)
      + if Dropped(t, valid, k) && !Lost(t, valid, k) then 0 else Delta(lines[k])
    ensures !Dropped(t, valid, k) ==> OuterDepth(lines, t, valid, k) == Depth(lines, k)
  {
    hide IsMarker;
    hide Delta;
    hide Depth;
    hide ScanTo;
    hide StepLine;
    hide WellFormed;
    hide Dropped;
    hide Lost;
    hide InDropped;
    DepthNext(lines, k);
    DroppedIs(lines, t, valid, k);
    InDroppedIs(lines, t, valid, k);
    InDroppedIs(lines, t, valid, k + 1);
    NearHolds(lines, t, k + 1);
  }

  lemma DepthNext(lines: seq<string>, k: nat)
    requires k < |lines|
    ensures Depth(lines, k + 1) == Depth(lines, k) + Delta(lines[k])
  {
  }

  lemma DepthAppend(w: seq<string>, l: string)
    ensures Depth(w + [l], |w| + 1) == Depth(w, |w|) + Delta(l)
  {
    hide Delta;
    hide Depth;
    ScanAgrees(w + [l], w, |w|);
    DepthNext(w + [l], |w|);
  }

  /** Nesting depth in the remaining text: the one in the input, less what the lost lines contributed. */
  lemma {:induction false} KeptDepth(lines: seq<string>, t: Tables, valid: seq<bool>, k: nat)
    requires Flagged(lines, t, valid) && k <= |lines|
    ensures var w := Kept(lines, t, valid, k);
      Depth(w, |w|) == OuterDepth(lines, t, valid, k) - LostDelta(lines, t, valid, k)
  {
    hide IsMarker;
    hide WellFormed;
    hide Dropped;
    hide Lost;
    hide OuterDepth;
    hide Delta;
    if k == 0 {
      OutsideAtEnds(lines, t, valid);
    } else {
      KeptDepth(lines, t, valid, k - 1);
      OuterStep(lines, t, valid, k - 1);
      DepthAppend(Kept(lines, t, valid, k - 1), lines[k - 1]);
    }
  }

  /** No table reaches over the beginning or the end of the text. */
  lemma OutsideAtEnds(lines: seq<string>, t: Tables, valid: seq<bool>)
    requires Flagged(lines, t, valid)
    ensures OuterDepth(lines, t, valid, 0) == 0 == OuterDepth(lines, t, valid, |lines|)
  {
  }

  /**
   * The lost lines leave the rest balanced: together they change nothing, no remaining line is
   * nested less deep than what was lost before it, and nothing in sum was lost before a marker.
   */
  ghost predicate LostBalance(lines: seq<string>, t: Tables, valid: seq<bool>)
    requires |t.starts| == |t.ends| <= |valid|
  {
    && LostDelta(lines, t, valid, |lines|) == 0
    && forall k: nat | k < |lines| && !Dropped(t, valid, k) ::
      && LostDelta(lines, t, valid, k) <= Depth(lines, k)
      && (IsMarker(lines[k]) ==> LostDelta(lines, t, valid, k) == 0)
  }

  /** Depth in front of a remaining line, in the input and in the remaining text. */
  lemma DepthAtKept(lines: seq<string>, t: Tables, valid: seq<bool>, k: nat)
    requires Flagged(lines, t, valid) && k < |lines| && !Dropped(t, valid, k)
    ensures var w, p := Kept(lines, t, valid, |lines|), |Kept(lines, t, valid, k)|;
      && p < |w| && w[p] == lines[k]
      && Depth(w, p) == Depth(lines, k) - LostDelta(lines, t, valid, k)
  {
    hide IsMarker;
    hide WellFormed;
    hide Depth;
    hide Dropped;
    hide Lost;
    hide OuterDepth;
    var w, v := Kept(lines, t, valid, |lines|), Kept(lines, t, valid, k);
    KeptPrefix(lines, t, valid, k + 1, |lines|);
    assert v + [lines[k]] <= w;
    assert w[|v|] == (v + [lines[k]])[|v|];
    assert w[..|v|] == v == v[..|v|];
    ScanAgrees(w, v, |v|);
    KeptDepth(lines, t, valid, k);
    OuterStep(lines, t, valid, k);
  }

  lemma DepthAtEnd(lines: seq<string>, t: Tables, valid: seq<bool>)
    requires Flagged(lines, t, valid)
    ensures var w := Kept(lines, t, valid, |lines|); Depth(w, |w|) == -LostDelta(lines, t, valid, |lines|)
  {
    hide Depth;
    hide Kept;
    KeptDepth(lines, t, valid, |lines|);
    OutsideAtEnds(lines, t, valid);
  }

  /** The trimmed text is well-formed exactly when the lost lines leave the rest balanced. */
  lemma TrimmedWellFormedExact(lines: seq<string>, t: Tables, valid: seq<bool>)
    requires Flagged(lines, t, valid)
    ensures WellFormed(Kept(lines, t, valid, |lines|)) <==> LostBalance(lines, t, valid)
  {
    hide IsMarker;
    hide Depth;
    hide Kept;
    hide Dropped;
    hide LinesOk;
    var n := |lines|;
    var w := Kept(lines, t, valid, n);
    DepthAtEnd(lines, t, valid);
    KeptLinesOk(lines, t, valid);
    if LostBalance(lines, t, valid) {
      forall p: nat | p < |w|
        ensures Depth(w, p) >= 0
        ensures IsMarker(w[p]) ==> Depth(w, p) == 1
      {
        var k := KeptAt(lines, t, valid, n, p);
        DepthAtKept(lines, t, valid, k);
      }
    }
    if WellFormed(w) {
      forall k: nat | k < n && !Dropped(t, valid, k)
        ensures LostDelta(lines, t, valid, k) <= Depth(lines, k)
        ensures IsMarker(lines[k]) ==> LostDelta(lines, t, valid, k) == 0
      {
        DepthAtKept(lines, t, valid, k);
      }
    }
  }

  lemma KeptLinesOk(lines: seq<string>, t: Tables, valid: seq<bool>)
    requires Flagged(lines, t, valid)
    ensures LinesOk(Kept(lines, t, valid, |lines|))
  {
    hide IsMarker;
    hide AtMostOne;
    hide Kept;
    KeptAreLines(lines, t, valid, |lines|);
  }

  lemma {:induction false} LevelLosesNothing(lines: seq<string>, t: Tables, valid: seq<bool>, k: nat)
    requires Flagged(lines, t, valid) && k <= |lines|
    requires forall j | 0 <= j < k && Lost(t, valid, j) :: Level(lines[j])
    ensures LostDelta(lines, t, valid, k) == 0
  {
    hide IsMarker;
    hide Lost;
    if k > 0 {
      LevelLosesNothing(lines, t, valid, k - 1);
      LevelDelta(lines, k - 1);
    }
  }

  lemma LevelDelta(lines: seq<string>, k: nat)
    requires LinesOk(lines) && k < |lines|
    ensures Level(lines[k]) <==> Delta(lines[k]) == 0
  {
    hide IsMarker;
    assert lines[k] in lines;
    DeltaOf(lines[k]);
  }

  /** The trimmed text is balanced again, and its markers still open direct children of the root. */
  lemma TrimmedWellFormed(lines: seq<string>, t: Tables, valid: seq<bool>)
    requires Setting(lines, t, valid)
    ensures WellFormed(Kept(lines, t, valid, |lines|))
  {
    hide IsMarker;
    hide Depth;
    hide Kept;
    hide Dropped;
    hide LinesOk;
    hide Lost;
    hide LostDelta;
    forall k: nat | k <= |lines|
      ensures LostDelta(lines, t, valid, k) == 0
    {
      LevelLosesNothing(lines, t, valid, k);
    }
    TrimmedWellFormedExact(lines, t, valid);
  }

  /**
   * When all lines lost before it are level, the line behind the last dropped table decides: the
   * trimmed text is well-formed exactly when that line is level too.
   */
  lemma LastLostDecides(lines: seq<string>, t: Tables, valid: seq<bool>, i: nat)
    requires Flagged(lines, t, valid) && i < |valid| && !valid[i] && forall j | i < j < |valid| :: valid[j]
    requires forall k | 0 <= k < t.ends[i] && Lost(t, valid, k) :: Level(lines[k])
    ensures t.ends[i] < |lines|
    ensures WellFormed(Kept(lines, t, valid, |lines|)) <==> Level(lines[t.ends[i]])
  {
    hide IsMarker;
    hide Depth;
    hide Kept;
    hide Dropped;
    hide Lost;
    hide LostDelta;
    hide WellFormed;
    var e := t.ends[i];
    LastIsLost(lines, t, valid, i);
    if Level(lines[e]) {
      TrimmedWellFormed(lines, t, valid);
    } else {
      LevelLosesNothing(lines, t, valid, e);
      LostAlone(lines, t, valid, e, |lines|);
      LinesAreOk(lines);
      LevelDelta(lines, e);
      TrimmedWellFormedExact(lines, t, valid);
    }
  }

  lemma LinesAreOk(lines: seq<string>)
    requires WellFormed(lines)
    ensures LinesOk(lines)
  {
  }

  lemma LastIsLost(lines: seq<string>, t: Tables, valid: seq<bool>, i: nat)
    requires Flagged(lines, t, valid) && i < |valid| && !valid[i] && forall j | i < j < |valid| :: valid[j]
    ensures t.ends[i] < |lines| && Lost(t, valid, t.ends[i])
    ensures forall k | k > t.ends[i] :: !Lost(t, valid, k)
  {
    hide IsMarker;
    hide Depth;
    hide ScanTo;
    hide Delta;
    TablesAre(lines, t);
    assert Depth(lines, t.ends[i]) == 1;
  }

  lemma {:induction false} LostAlone(lines: seq<string>, t: Tables, valid: seq<bool>, e: nat, k: nat)
    requires |t.starts| == |t.ends| <= |valid| && e < k <= |lines| && Lost(t, valid, e)
    requires LostDelta(lines, t, valid, e) == 0 && forall j | e < j < k :: !Lost(t, valid, j)
    ensures LostDelta(lines, t, valid, k) == Delta(lines[e])
    decreases k
  {
    hide Lost;
    hide Delta;
    if k > e + 1 {
      LostAlone(lines, t, valid, e, k - 1);
    }
  }

  // ----- detection on the trimmed text

  function Selected(lines: seq<string>, t: Tables, valid: seq<bool>): Tables
    requires Setting(lines, t, valid)
  {
    Tables(Pick(lines, t, valid, t.starts, |t.starts|), Pick(lines, t, valid, t.ends, |t.ends|))
  }

  lemma {:induction false} PickEmpty(lines: seq<string>, t: Tables, valid: seq<bool>, positions: seq<nat>, n: nat)
    requires |t.starts| == |t.ends| <= |valid| && n <= |positions| <= |valid|
    requires forall i | 0 <= i < |positions| :: positions[i] <= |lines|
    ensures Pick(lines, t, valid, positions, n) == [] <==> forall i | 0 <= i < n :: !valid[i]
  {
    hide Kept;
    if n > 0 {
      PickEmpty(lines, t, valid, positions, n - 1);
    }
  }

  /** Detection on the trimmed text finds the selected tables, moved up, and nothing else. */
  lemma TrimmedTables(lines: seq<string>, t: Tables, valid: seq<bool>)
    requires Setting(lines, t, valid)
    ensures Detect(Kept(lines, t, valid, |lines|))
         == if exists i :: 0 <= i < |valid| && valid[i] then Some(Selected(lines, t, valid)) else None
  {
    hide IsMarker;
    hide Kept;
    hide Depth;
    hide ScanTo;
    var n := |lines|;
    TablesAre(lines, t);
    KeptScan(lines, t, valid, n);
    PickPair(lines, t, valid, |t.starts|);
    PickEmpty(lines, t, valid, t.starts, |t.starts|);
  }

  // ----- contents

  lemma {:induction false} KeptRun(lines: seq<string>, t: Tables, valid: seq<bool>, lo: nat, hi: nat)
    requires |t.starts| == |t.ends| <= |valid| && lo <= hi <= |lines|
    requires forall j | lo <= j < hi :: !Dropped(t, valid, j)
    ensures Kept(lines, t, valid, hi) == Kept(lines, t, valid, lo) + lines[lo..hi]
    decreases hi
  {
    hide Dropped;
    if lo < hi {
      KeptRun(lines, t, valid, lo, hi - 1);
      assert lines[lo..hi] == lines[lo..hi - 1] + [lines[hi - 1]];
    }
  }

  lemma {:induction false} KeptPrefix(lines: seq<string>, t: Tables, valid: seq<bool>, k: nat, n: nat)
    requires |t.starts| == |t.ends| <= |valid| && k <= n <= |lines|
    ensures Kept(lines, t, valid, k) <= Kept(lines, t, valid, n)
    decreases n
  {
    hide Dropped;
    if k < n {
      KeptPrefix(lines, t, valid, k, n - 1);
    }
  }

  lemma Ordered(lines: seq<string>, t: Tables, i: nat, j: nat)
    requires WellFormed(lines) && Detect(lines) == Some(t) && i < j < |t.starts|
    ensures |t.starts| == |t.ends| && t.starts[i] < t.ends[i] <= t.starts[j] < t.ends[j] <= |lines|
    ensures IsMarker(lines[t.starts[j]])
  {
    hide IsMarker;
    hide Depth;
    hide ScanTo;
    TablesAre(lines, t);
    assert t.starts[j] in t.starts;
  }

  lemma ProperTables(lines: seq<string>, t: Tables)
    requires WellFormed(lines) && Detect(lines) == Some(t)
    ensures |t.starts| == |t.ends| && forall i | 0 <= i < |t.starts| :: t.starts[i] < t.ends[i] <= |lines|
  {
    hide IsMarker;
    hide Depth;
    hide ScanTo;
    TablesAre(lines, t);
  }

  predicate IsBlank(l: string)
  {
    forall c | c in l :: c == ' ' || c == '\t' || c == '\n' || c == '\r'
  }

  /** A blank line behind every table, as dtc writes it, is enough. */
  lemma BlankSetting(lines: seq<string>, t: Tables, valid: seq<bool>)
    requires Flagged(lines, t, valid)
    requires forall i | 0 <= i < |t.ends| && t.ends[i] < |lines| :: IsBlank(lines[t.ends[i]])
    ensures Setting(lines, t, valid)
    ensures forall k | 0 <= k < |lines| && Lost(t, valid, k) :: IsBlank(lines[k])
  {
    hide WellFormed;
    hide Detect;
  }

  ghost predicate InTable(t: Tables, k: nat)
    requires |t.starts| == |t.ends|
  {
    exists i | 0 <= i < |t.starts| :: t.starts[i] <= k < t.ends[i]
  }

  /** A selected table does not directly follow a dropped one. */
  lemma NotAdjacent(lines: seq<string>, t: Tables, valid: seq<bool>, j: nat, i: nat)
    requires Setting(lines, t, valid) && j < i < |t.starts| && !valid[j] && valid[i]
    ensures t.ends[j] < t.starts[i]
  {
    hide IsMarker;
    hide Depth;
    hide ScanTo;
    hide WellFormed;
    hide Lost;
    Ordered(lines, t, j, i);
    if t.ends[j] == t.starts[i] {
      SelectedStartIsLost(lines, t, valid, j, i);
      LostIsLevel(lines, t, valid, t.starts[i]);
    }
  }

  lemma SelectedStartIsLost(lines: seq<string>, t: Tables, valid: seq<bool>, j: nat, i: nat)
    requires Flagged(lines, t, valid) && j < i < |t.starts| && !valid[j] && valid[i] && t.ends[j] == t.starts[i]
    ensures Lost(t, valid, t.starts[i])
  {
    hide WellFormed;
    hide Detect;
    forall m | 0 <= m < |t.starts| && t.starts[m] == t.starts[i]
      ensures m == i
    {
      if m < i {
        Ordered(lines, t, m, i);
      } else if i < m {
        Ordered(lines, t, i, m);
      }
    }
  }

  /**
   * Which lines stay: every line of a selected table, and every line outside the tables except the
   * ones lost behind dropped tables.
   */
  lemma LinesKept(lines: seq<string>, t: Tables, valid: seq<bool>, k: nat)
    requires Setting(lines, t, valid) && k < |lines|
    ensures (exists i :: 0 <= i < |t.starts| && valid[i] && t.starts[i] <= k < t.ends[i]) ==> !Dropped(t, valid, k)
    ensures (exists i :: 0 <= i < |t.starts| && !valid[i] && t.starts[i] <= k < t.ends[i]) ==> Dropped(t, valid, k)
    ensures !InTable(t, k) ==> (Dropped(t, valid, k) <==> Lost(t, valid, k))
  {
    hide IsMarker;
    hide Depth;
    hide ScanTo;
    hide WellFormed;
    ProperTables(lines, t);
    if i :| 0 <= i < |t.starts| && valid[i] && t.starts[i] <= k < t.ends[i] {
      forall j | 0 <= j < |t.starts| && !valid[j]
        ensures !(t.starts[j] <= k <= t.ends[j])
      {
        if j < i {
          Ordered(lines, t, j, i);
          NotAdjacent(lines, t, valid, j, i);
        } else {
          Ordered(lines, t, i, j);
        }
      }
    }
  }

  /** A selected table stands in the trimmed text line for line. */
  lemma TableKept(lines: seq<string>, t: Tables, valid: seq<bool>, i: nat)
    requires Setting(lines, t, valid) && i < |t.starts| && valid[i] && t.starts[i] <= t.ends[i]
    ensures var w := Kept(lines, t, valid, |lines|);
      var lo, hi := |Kept(lines, t, valid, t.starts[i])|, |Kept(lines, t, valid, t.ends[i])|;
      lo <= hi <= |w| && w[lo..hi] == lines[t.starts[i]..t.ends[i]]
  {
    hide Kept;
    hide Dropped;
    hide WellFormed;
    var a, b := t.starts[i], t.ends[i];
    forall k | a <= k < b
      ensures !Dropped(t, valid, k)
    {
      LinesKept(lines, t, valid, k);
    }
    KeptRun(lines, t, valid, a, b);
    KeptPrefix(lines, t, valid, b, |lines|);
    var w, u, v := Kept(lines, t, valid, |lines|), Kept(lines, t, valid, a), Kept(lines, t, valid, b);
    assert w[..|v|] == v;
    assert w[|u|..|v|] == w[..|v|][|u|..] == lines[a..b];
  }
}
