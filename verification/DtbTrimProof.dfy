/** Trimming keeps a dts text well-formed, and detection on the result finds exactly the selected tables. */
module DtbTrimProof {
  import opened Options
  import opened Text
  import opened DtbDetect
  import opened DtbTrimmer

  /** The line leaves the nesting as it is. */
  predicate Level(l: string)
  {
    '{' in l <==> '}' in l
  }

  /** Line k directly follows a table that is not selected. */
  ghost predicate BehindDropped(t: Tables, valid: seq<bool>, k: nat)
    requires |t.starts| == |t.ends| <= |valid|
  {
    exists i | 0 <= i < |t.starts| :: t.ends[i] == k && !valid[i]
  }

  /** Line k goes only because it follows a dropped table; it is not the start of another one. */
  ghost predicate Lost(t: Tables, valid: seq<bool>, k: nat)
    requires |t.starts| == |t.ends| <= |valid|
  {
    BehindDropped(t, valid, k) && forall i | 0 <= i < |t.starts| && t.starts[i] == k :: valid[i]
  }

  /** A dts text with its tables, and one flag for each. */
  ghost predicate Flagged(lines: seq<string>, t: Tables, valid: seq<bool>)
  {
    && WellFormed(lines) && Detect(lines) == Some(t) && |t.starts| == |t.ends| == |valid|
    && forall i | 0 <= i < |t.starts| :: t.starts[i] <= |lines| && t.ends[i] <= |lines|
  }

  /** In addition, the lines lost behind dropped tables leave the nesting as it is. */
  ghost predicate Setting(lines: seq<string>, t: Tables, valid: seq<bool>)
  {
    Flagged(lines, t, valid) && forall k | 0 <= k < |lines| && Lost(t, valid, k) :: Level(lines[k])
  }

  // ----- what is known of the tables and of the scan at line k

  lemma TablesAre(lines: seq<string>, t: Tables)
    requires WellFormed(lines) && Detect(lines) == Some(t)
    ensures ScanTo(lines, |lines|) == Scan(-1, t.starts, t.ends)
    ensures |t.starts| == |t.ends| > 0
    ensures LineInv(lines, |lines|, Scan(-1, t.starts, t.ends))
  {
    hide IsMarker;
    LineInvariant(lines, |lines|);
    assert ScanTo(lines, |lines|).count == -1;
  }

  /** What the scan collects after line k comes behind line k. */
  lemma {:induction false} ScanGrows(lines: seq<string>, k: nat, n: nat)
    requires k <= n <= |lines|
    ensures ScanTo(lines, k).starts <= ScanTo(lines, n).starts
    ensures ScanTo(lines, k).ends <= ScanTo(lines, n).ends
    ensures forall i | |ScanTo(lines, k).starts| <= i < |ScanTo(lines, n).starts| :: ScanTo(lines, n).starts[i] >= k
    ensures forall i | |ScanTo(lines, k).ends| <= i < |ScanTo(lines, n).ends| :: ScanTo(lines, n).ends[i] > k
    decreases n - k
  {
    hide IsMarker;
    if k < n {
      ScanGrows(lines, k, n - 1);
    }
  }

  /** Where line k stands among the tables. */
  ghost predicate Context(lines: seq<string>, t: Tables, k: nat)
    requires k < |lines| && |t.starts| == |t.ends|
  {
    var st, st' := ScanTo(lines, k), ScanTo(lines, k + 1);
    var a, b := |st.starts|, |st.ends|;
    && b <= a <= b + 1 && a <= |t.starts|
    && st.count == Depth(lines, k) - 1
    && (IsMarker(lines[k]) <==> a < |t.starts| && t.starts[a] == k)
    && (IsMarker(lines[k]) ==> a == b && st.count == 0 && st'.starts == st.starts + [k] && st'.ends == st.ends)
    && (!IsMarker(lines[k]) ==> st'.starts == st.starts)
    && (a == b + 1 ==> t.starts[b] < k < t.ends[b])
    && (|st'.ends| > b ==> a == b + 1 && t.ends[b] == k + 1 && |st'.ends| == b + 1 && st'.count == 0)
    && (|st'.ends| == b ==> b < |t.ends| ==> t.ends[b] > k + 1)
    && |st'.ends| >= b
  }

  lemma ContextHolds(lines: seq<string>, t: Tables, k: nat)
    requires WellFormed(lines) && Detect(lines) == Some(t) && k < |lines|
    ensures |t.starts| == |t.ends|
    ensures Context(lines, t, k)
  {
    hide IsMarker;
    hide Depth;
    hide Spans;
    hide ScanTo;
    hide StepLine;
    hide WellFormed;
    NearHolds(lines, t, k);
    NearHolds(lines, t, k + 1);
    ScanStep(lines, k);
    StepGrows(ScanTo(lines, k), lines[k], k);
    if IsMarker(lines[k]) {
      assert ScanTo(lines, k + 1).starts[|ScanTo(lines, k).starts|] == k;
    }
  }

  /** The scan in front of line k is an initial part of the final one. */
  ghost predicate Near(lines: seq<string>, t: Tables, k: nat, st: Scan)
    requires k <= |lines|
  {
    && |t.starts| == |t.ends|
    && st.count == Depth(lines, k) - 1 && |st.ends| <= |st.starts| <= |st.ends| + 1
    && st.starts <= t.starts && st.ends <= t.ends
    && (forall i | 0 <= i < |st.starts| :: t.starts[i] < k)
    && (forall i | |st.starts| <= i < |t.starts| :: k <= t.starts[i] < |lines| && IsMarker(lines[t.starts[i]]))
    && (forall i | 0 <= i < |st.ends| :: t.ends[i] <= k)
    && (forall i | |st.ends| <= i < |t.ends| :: t.ends[i] > k)
    && (|st.starts| > |st.ends| ==> Depth(lines, k) >= 2)
    && (k < |lines| && IsMarker(lines[k]) ==> Depth(lines, k) == 1)
  }

  lemma NearHolds(lines: seq<string>, t: Tables, k: nat)
    requires WellFormed(lines) && Detect(lines) == Some(t) && k <= |lines|
    ensures forall i | 0 <= i < |t.starts| :: t.starts[i] < |lines|
    ensures Near(lines, t, k, ScanTo(lines, k))
  {
    hide IsMarker;
    hide Depth;
    hide Spans;
    hide ScanTo;
    TablesAre(lines, t);
    LineInvariant(lines, k);
    ScanGrows(lines, k, |lines|);
    forall i | 0 <= i < |t.starts|
      ensures t.starts[i] < |lines| && IsMarker(lines[t.starts[i]])
    {
      assert t.starts[i] in t.starts;
    }
    forall i | 0 <= i < |ScanTo(lines, k).starts|
      ensures t.starts[i] < k
    {
      assert ScanTo(lines, k).starts[i] in ScanTo(lines, k).starts;
    }
    EndsBefore(lines, k);
  }

  lemma EndsBefore(lines: seq<string>, k: nat)
    requires WellFormed(lines) && k <= |lines|
    ensures var st := ScanTo(lines, k); forall i | 0 <= i < |st.ends| :: st.ends[i] <= k
  {
    hide IsMarker;
    hide Depth;
    hide ScanTo;
    LineInvariant(lines, k);
  }

  lemma StepGrows(st: Scan, l: string, k: nat)
    ensures var st' := StepLine(st, l, k);
      && (IsMarker(l) ==> st' == Scan(st.count + 1, st.starts + [k], st.ends))
      && (!IsMarker(l) ==> st'.starts == st.starts)
      && (st'.ends == st.ends
          || (st'.ends == st.ends + [k + 1] && st'.count == 0 && (|st.starts| + |st.ends|) % 2 == 1))
  {
  }

  lemma ScanStep(lines: seq<string>, k: nat)
    requires k < |lines|
    ensures ScanTo(lines, k + 1) == StepLine(ScanTo(lines, k), lines[k], k)
  {
  }

  // ----- the scan of the kept lines follows the scan of all lines

  /** The new positions of the selected ones among the first n positions. */
  function Pick(lines: seq<string>, t: Tables, valid: seq<bool>, positions: seq<nat>, n: nat): seq<nat>
    requires |t.starts| == |t.ends| <= |valid| && n <= |positions| <= |valid|
    requires forall i | 0 <= i < |positions| :: positions[i] <= |lines|
  {
    if n == 0 then [] else
    var rest := Pick(lines, t, valid, positions, n - 1);
    if valid[n - 1] then rest + [|Kept(lines, t, valid, positions[n - 1])|] else rest
  }

  /** Strictly inside a table that is not selected. */
  ghost predicate InDropped(t: Tables, valid: seq<bool>, k: nat)
    requires |t.starts| == |t.ends| <= |valid|
  {
    exists i | 0 <= i < |t.starts| :: !valid[i] && t.starts[i] < k < t.ends[i]
  }

  ghost predicate Follows(lines: seq<string>, t: Tables, valid: seq<bool>, k: nat, st: Scan, out: Scan)
    requires |t.starts| == |t.ends| == |valid| && k <= |lines|
    requires forall i | 0 <= i < |t.starts| :: t.starts[i] <= |lines| && t.ends[i] <= |lines|
  {
    && |st.starts| <= |t.starts| && |st.ends| <= |t.ends|
    && out.starts == Pick(lines, t, valid, t.starts, |st.starts|)
    && out.ends == Pick(lines, t, valid, t.ends, |st.ends|)
    && out.count == if InDropped(t, valid, k) then 0 else st.count
  }

  lemma {:induction false} PickPair(lines: seq<string>, t: Tables, valid: seq<bool>, n: nat)
    requires |t.starts| == |t.ends| == |valid| && n <= |t.starts|
    requires forall i | 0 <= i < |t.starts| :: t.starts[i] <= |lines| && t.ends[i] <= |lines|
    ensures |Pick(lines, t, valid, t.starts, n)| == |Pick(lines, t, valid, t.ends, n)|
  {
    hide Kept;
    if n > 0 {
      PickPair(lines, t, valid, n - 1);
    }
  }

  lemma InDroppedIs(lines: seq<string>, t: Tables, valid: seq<bool>, k: nat)
    requires Flagged(lines, t, valid) && k <= |lines|
    ensures var st := ScanTo(lines, k);
      && |st.ends| <= |st.starts| <= |t.starts|
      && (InDropped(t, valid, k) <==> |st.starts| > |st.ends| && !valid[|st.ends|])
  {
    hide IsMarker;
    hide Depth;
    hide ScanTo;
    NearHolds(lines, t, k);
    var b := |ScanTo(lines, k).ends|;
    if |ScanTo(lines, k).starts| > b && !valid[b] {
      assert t.starts[b] < k < t.ends[b];
    }
  }

  /** Which lines the filter drops, told from the scan of all lines. */
  lemma DroppedIs(lines: seq<string>, t: Tables, valid: seq<bool>, k: nat)
    requires Flagged(lines, t, valid) && k < |lines|
    ensures Context(lines, t, k)
    ensures var st := ScanTo(lines, k); Dropped(t, valid, k) <==>
      || (IsMarker(lines[k]) && !valid[|st.starts|])
      || (|st.starts| > |st.ends| && !valid[|st.ends|])
      || Lost(t, valid, k)
    ensures Lost(t, valid, k) ==>
      && |ScanTo(lines, k).starts| == |ScanTo(lines, k).ends|
      && (IsMarker(lines[k]) ==> valid[|ScanTo(lines, k).starts|])
  {
    hide IsMarker;
    hide Depth;
    hide ScanTo;
    hide Context;
    hide StepLine;
    TablesAre(lines, t);
    ContextHolds(lines, t, k);
    InDroppedIs(lines, t, valid, k);
    DroppedCases(lines, t, valid, k);
    StartIs(lines, t, k);
    if BehindDropped(t, valid, k) {
      LineInvariant(lines, k);
    }
  }

  /** A marker line is the start of the next table. */
  lemma StartIs(lines: seq<string>, t: Tables, k: nat)
    requires WellFormed(lines) && Detect(lines) == Some(t) && k < |lines| && |t.starts| == |t.ends|
    requires Context(lines, t, k)
    ensures forall i | 0 <= i < |t.starts| && t.starts[i] == k :: IsMarker(lines[k]) && i == |ScanTo(lines, k).starts|
    ensures IsMarker(lines[k]) ==> |ScanTo(lines, k).starts| < |t.starts| && t.starts[|ScanTo(lines, k).starts|] == k
  {
    hide IsMarker;
    hide Depth;
    hide ScanTo;
    hide StepLine;
    TablesAre(lines, t);
    forall i | 0 <= i < |t.starts| && t.starts[i] == k
      ensures IsMarker(lines[k]) && i == |ScanTo(lines, k).starts|
    {
      assert t.starts[i] in t.starts;
    }
  }

  lemma DroppedCases(lines: seq<string>, t: Tables, valid: seq<bool>, k: nat)
    requires Flagged(lines, t, valid) && k < |lines| && Context(lines, t, k)
    ensures Dropped(t, valid, k) <==>
      (IsMarker(lines[k]) && !valid[|ScanTo(lines, k).starts|]) || InDropped(t, valid, k) || BehindDropped(t, valid, k)
  {
    hide IsMarker;
    hide Depth;
    hide ScanTo;
    hide StepLine;
    TablesAre(lines, t);
    StartIs(lines, t, k);
  }

  /** The scan of the kept lines after line k, from the one before it. */
  function NextOut(lines: seq<string>, t: Tables, valid: seq<bool>, k: nat, out: Scan): Scan
    requires |t.starts| == |t.ends| <= |valid| && k < |lines|
  {
    if Dropped(t, valid, k) then out else StepLine(out, lines[k], |Kept(lines, t, valid, k)|)
  }

  /** A lost line is no marker, and the scan passes over it. */
  lemma LostIsLevel(lines: seq<string>, t: Tables, valid: seq<bool>, k: nat)
    requires Setting(lines, t, valid) && k < |lines| && Lost(t, valid, k)
    ensures !IsMarker(lines[k]) && Level(lines[k])
  {
    hide IsMarker;
    hide Lost;
    assert lines[k] in lines;
  }

  lemma FollowMarker(lines: seq<string>, t: Tables, valid: seq<bool>, k: nat, out: Scan)
    requires Setting(lines, t, valid) && k < |lines| && IsMarker(lines[k])
    requires Follows(lines, t, valid, k, ScanTo(lines, k), out)
    ensures Follows(lines, t, valid, k + 1, ScanTo(lines, k + 1), NextOut(lines, t, valid, k, out))
  {
    hide IsMarker;
    hide Depth;
    hide ScanTo;
    hide Dropped;
    hide InDropped;
    hide Kept;
    hide WellFormed;
    hide Lost;
    DroppedIs(lines, t, valid, k);
    InDroppedIs(lines, t, valid, k);
    InDroppedIs(lines, t, valid, k + 1);
    if Lost(t, valid, k) {
      LostIsLevel(lines, t, valid, k);
    }
    ScanStep(lines, k);
  }

  lemma KeptStep(lines: seq<string>, t: Tables, valid: seq<bool>, k: nat)
    requires |t.starts| == |t.ends| <= |valid| && k < |lines|
    ensures Kept(lines, t, valid, k + 1)
         == if Dropped(t, valid, k) then Kept(lines, t, valid, k) else Kept(lines, t, valid, k) + [lines[k]]
  {
  }

  /** A line inside a table. */
  lemma FollowInside(lines: seq<string>, t: Tables, valid: seq<bool>, k: nat, out: Scan)
    requires Setting(lines, t, valid) && k < |lines| && !IsMarker(lines[k])
    requires |ScanTo(lines, k).starts| > |ScanTo(lines, k).ends|
    requires Follows(lines, t, valid, k, ScanTo(lines, k), out)
    ensures Follows(lines, t, valid, k + 1, ScanTo(lines, k + 1), NextOut(lines, t, valid, k, out))
  {
    hide IsMarker;
    hide Depth;
    hide ScanTo;
    hide Dropped;
    hide InDropped;
    hide Kept;
    hide WellFormed;
    hide Lost;
    DroppedIs(lines, t, valid, k);
    InDroppedIs(lines, t, valid, k);
    InDroppedIs(lines, t, valid, k + 1);
    ScanStep(lines, k);
    KeptStep(lines, t, valid, k);
    PickPair(lines, t, valid, |ScanTo(lines, k).ends|);
  }

  /** A line outside the tables. */
  lemma FollowOutside(lines: seq<string>, t: Tables, valid: seq<bool>, k: nat, out: Scan)
    requires Setting(lines, t, valid) && k < |lines| && !IsMarker(lines[k])
    requires |ScanTo(lines, k).starts| == |ScanTo(lines, k).ends|
    requires Follows(lines, t, valid, k, ScanTo(lines, k), out)
    ensures Follows(lines, t, valid, k + 1, ScanTo(lines, k + 1), NextOut(lines, t, valid, k, out))
  {
    hide IsMarker;
    hide Depth;
    hide ScanTo;
    hide Dropped;
    hide InDropped;
    hide Kept;
    hide WellFormed;
    hide Lost;
    DroppedIs(lines, t, valid, k);
    InDroppedIs(lines, t, valid, k);
    InDroppedIs(lines, t, valid, k + 1);
    ScanStep(lines, k);
    PickPair(lines, t, valid, |ScanTo(lines, k).ends|);
    if Lost(t, valid, k) {
      LostIsLevel(lines, t, valid, k);
    }
  }

  lemma ScanOfPrefix(a: seq<string>, b: seq<string>)
    ensures ScanTo(a + b, |a|) == ScanTo(a, |a|)
  {
    ScanAgrees(a + b, a, |a|);
  }

  lemma {:induction false} ScanAgrees(a: seq<string>, b: seq<string>, k: nat)
    requires k <= |a| && k <= |b| && a[..k] == b[..k]
    ensures ScanTo(a, k) == ScanTo(b, k)
    ensures Depth(a, k) == Depth(b, k)
  {
    hide IsMarker;
    hide Delta;
    if k > 0 {
      assert a[..k - 1] == a[..k][..k - 1] == b[..k - 1];
      assert a[k - 1] == a[..k][k - 1] == b[k - 1];
      ScanAgrees(a, b, k - 1);
    }
  }

  lemma FollowStep(lines: seq<string>, t: Tables, valid: seq<bool>, k: nat, out: Scan)
    requires Setting(lines, t, valid) && k < |lines|
    requires Follows(lines, t, valid, k, ScanTo(lines, k), out)
    ensures Follows(lines, t, valid, k + 1, ScanTo(lines, k + 1), NextOut(lines, t, valid, k, out))
  {
    hide IsMarker;
    hide Follows;
    hide NextOut;
    hide ScanTo;
    hide WellFormed;
    hide Lost;
    if IsMarker(lines[k]) {
      FollowMarker(lines, t, valid, k, out);
    } else if |ScanTo(lines, k).starts| > |ScanTo(lines, k).ends| {
      FollowInside(lines, t, valid, k, out);
    } else {
      InDroppedIs(lines, t, valid, k);
      FollowOutside(lines, t, valid, k, out);
    }
  }

  /** The simulation: detection on the kept lines runs in step with detection on all lines. */
  lemma {:induction false} KeptScan(lines: seq<string>, t: Tables, valid: seq<bool>, k: nat)
    requires Setting(lines, t, valid) && k <= |lines|
    ensures var w := Kept(lines, t, valid, k); Follows(lines, t, valid, k, ScanTo(lines, k), ScanTo(w, |w|))
  {
    hide IsMarker;
    hide Follows;
    hide Dropped;
    hide WellFormed;
    hide Lost;
    hide StepLine;
    if k == 0 {
      FollowsAtStart(lines, t, valid);
    } else {
      KeptScan(lines, t, valid, k - 1);
      var w := Kept(lines, t, valid, k - 1);
      FollowStep(lines, t, valid, k - 1, ScanTo(w, |w|));
      if !Dropped(t, valid, k - 1) {
        ScanOfPrefix(w, [lines[k - 1]]);
        ScanStep(w + [lines[k - 1]], |w|);
      }
    }
  }

  lemma FollowsAtStart(lines: seq<string>, t: Tables, valid: seq<bool>)
    requires Setting(lines, t, valid)
    ensures Follows(lines, t, valid, 0, Scan(-1, [], []), Scan(-1, [], []))
  {
  }
}
