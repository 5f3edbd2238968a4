/** The trimmer as a whole: it keeps the right tables, and trimming twice is trimming once. */
module DtbTrimTheorem {
  import opened Options
  import opened Text
  import opened DtbDetect
  import opened DtbTrimmer
  import opened DtbTrimProof
  import opened DtbTrimResult
  import opened DtbStrap

  // ----- phandles

  /** Lines lo..hi hold exactly one phandle line, and its phandle is ph. */
  ghost predicate OnePhandle(lines: seq<string>, lo: nat, hi: nat, ph: string)
  {
    hi <= |lines| && exists j: nat :: OnlyPhandle(lines, lo, hi, ph, j)
  }

  ghost predicate OnlyPhandle(lines: seq<string>, lo: nat, hi: nat, ph: string, j: nat)
    requires hi <= |lines|
  {
    && lo <= j < hi && IsPhandle(lines[j]) && AngleGroup(lines[j]) == Some(ph)
    && forall k | lo <= k < hi && k != j :: !IsPhandle(lines[k])
  }

  lemma {:induction false} NoFlags(lines: seq<string>, lo: nat, hi: nat, sel: string)
    requires hi <= |lines| && forall k | lo <= k < hi :: !IsPhandle(lines[k])
    ensures BlockFlags(lines, lo, hi, sel) == Some([])
    decreases hi
  {
    hide IsPhandle;
    hide AngleGroup;
    if hi > lo {
      NoFlags(lines, lo, hi - 1, sel);
    }
  }

  lemma {:induction false} OneFlagAt(lines: seq<string>, lo: nat, hi: nat, j: nat, ph: string, sel: string)
    requires hi <= |lines| && OnlyPhandle(lines, lo, hi, ph, j)
    ensures BlockFlags(lines, lo, hi, sel) == Some([ph == sel])
    decreases hi
  {
    hide IsPhandle;
    hide AngleGroup;
    if hi == j + 1 {
      NoFlags(lines, lo, j, sel);
      var none: seq<bool> := [];
      assert none + [ph == sel] == [ph == sel];
    } else {
      OneFlagAt(lines, lo, hi - 1, j, ph, sel);
    }
  }

  lemma OneFlag(lines: seq<string>, lo: nat, hi: nat, ph: string, sel: string)
    requires OnePhandle(lines, lo, hi, ph)
    ensures BlockFlags(lines, lo, hi, sel) == Some([ph == sel])
  {
    hide IsPhandle;
    hide AngleGroup;
    var j: nat :| OnlyPhandle(lines, lo, hi, ph, j);
    OneFlagAt(lines, lo, hi, j, ph, sel);
  }

  function Flags(phs: seq<string>, sel: string): (r: seq<bool>)
    ensures |r| == |phs|
  {
    seq(|phs|, i requires 0 <= i < |phs| => phs[i] == sel)
  }

  ghost predicate Phandles(lines: seq<string>, t: Tables, phs: seq<string>)
  {
    |phs| == |t.starts| == |t.ends| && forall i | 0 <= i < |phs| :: OnePhandle(lines, t.starts[i], t.ends[i], phs[i])
  }

  /** With one phandle line in every table, flag i tells whether table i has the selected phandle. */
  lemma {:induction false} FlagsAre(lines: seq<string>, t: Tables, phs: seq<string>, n: nat, sel: string)
    requires TablesFit(lines, t) && Phandles(lines, t, phs) && n <= |phs|
    ensures AllFlags(lines, t, n, sel) == Some(Flags(phs[..n], sel))
  {
    hide BlockFlags;
    hide OnePhandle;
    if n > 0 {
      FlagsAre(lines, t, phs, n - 1, sel);
      OneFlag(lines, t.starts[n - 1], t.ends[n - 1], phs[n - 1], sel);
      assert Flags(phs[..n], sel) == Flags(phs[..n - 1], sel) + [phs[n - 1] == sel];
    }
  }

  /** Line j tells the phandle of lines lo..hi, and no other line does, "linux,phandle" lines aside. */
  ghost predicate TellsPhandle(lines: seq<string>, lo: nat, hi: nat, ph: string, j: nat)
    requires hi <= |lines|
  {
    && lo <= j < hi && Holds(lines[j], "phandle") && !Holds(lines[j], "linux") && AngleGroup(lines[j]) == Some(ph)
    && forall k | lo <= k < hi && k != j && Holds(lines[k], "phandle") :: Holds(lines[k], "linux")
  }

  lemma TellsIsOnly(lines: seq<string>, lo: nat, hi: nat, ph: string, j: nat)
    requires hi <= |lines|
    ensures TellsPhandle(lines, lo, hi, ph, j) <==> OnlyPhandle(lines, lo, hi, ph, j)
  {
    hide AngleGroup;
    hide IsPhandle;
    hide Holds;
    forall k | lo <= k < hi
      ensures IsPhandle(lines[k]) <==> Holds(lines[k], "phandle") && !Holds(lines[k], "linux")
    {
      PhandleIs(lines[k]);
    }
  }

  /**
   * With one line in every table that tells its phandle, and any number of "linux,phandle" lines, there
   * is one flag for each table, which tells whether the phandle is the selected one.
   */
  lemma FlagsInCharacters(lines: seq<string>, t: Tables, phs: seq<string>, at: seq<nat>, sel: string)
    requires TablesFit(lines, t) && |phs| == |at| == |t.starts|
    requires forall i | 0 <= i < |at| :: TellsPhandle(lines, t.starts[i], t.ends[i], phs[i], at[i])
    ensures AllFlags(lines, t, |t.starts|, sel).Some?
    ensures var flags := AllFlags(lines, t, |t.starts|, sel).value;
      |flags| == |t.starts| && forall i | 0 <= i < |flags| :: flags[i] <==> phs[i] == sel
  {
    hide TellsPhandle;
    hide OnlyPhandle;
    hide AllFlags;
    forall i | 0 <= i < |phs|
      ensures OnePhandle(lines, t.starts[i], t.ends[i], phs[i])
    {
      TellsIsOnly(lines, t.starts[i], t.ends[i], phs[i], at[i]);
    }
    FlagsAre(lines, t, phs, |phs|, sel);
    assert phs[..|phs|] == phs;
  }

  function PhandleLines(lines: seq<string>, lo: nat, hi: nat): nat
    requires hi <= |lines|
    decreases hi
  {
    if hi <= lo then 0 else PhandleLines(lines, lo, hi - 1) + if IsPhandle(lines[hi - 1]) then 1 else 0
  }

  /** The number of phandle lines of table i. */
  function HandleCount(lines: seq<string>, t: Tables, i: nat): nat
    requires TablesFit(lines, t) && i < |t.starts|
  {
    PhandleLines(lines, t.starts[i], t.ends[i])
  }

  /** How many flags the tables before table i have produced. */
  function FlagsBefore(lines: seq<string>, t: Tables, i: nat): nat
    requires TablesFit(lines, t) && i <= |t.starts|
  {
    if i == 0 then 0 else FlagsBefore(lines, t, i - 1) + HandleCount(lines, t, i - 1)
  }

  /** Flag i, which decides on table i, is one of table i's own. */
  predicate OwnFlag(lines: seq<string>, t: Tables, i: nat)
    requires TablesFit(lines, t) && i < |t.starts|
  {
    FlagsBefore(lines, t, i) <= i < FlagsBefore(lines, t, i + 1)
  }

  lemma {:induction false} BlockFlagsLength(lines: seq<string>, lo: nat, hi: nat, sel: string)
    requires hi <= |lines| && BlockFlags(lines, lo, hi, sel).Some?
    ensures |BlockFlags(lines, lo, hi, sel).value| == PhandleLines(lines, lo, hi)
    decreases hi
  {
    hide IsPhandle;
    hide AngleGroup;
    if hi > lo {
      BlockFlagsLength(lines, lo, hi - 1, sel);
    }
  }

  /** Where the flags of table i stand in the common list: behind those of the tables before it. */
  lemma {:induction false} FlagsStand(lines: seq<string>, t: Tables, n: nat, sel: string, i: nat)
    requires TablesFit(lines, t) && i < n <= |t.starts| && AllFlags(lines, t, n, sel).Some?
    ensures |AllFlags(lines, t, n, sel).value| == FlagsBefore(lines, t, n)
    ensures FlagsBefore(lines, t, i + 1) <= FlagsBefore(lines, t, n)
    ensures Some(AllFlags(lines, t, n, sel).value[FlagsBefore(lines, t, i)..FlagsBefore(lines, t, i + 1)])
         == BlockFlags(lines, t.starts[i], t.ends[i], sel)
    decreases n
  {
    hide BlockFlags;
    hide PhandleLines;
    BlockFlagsLength(lines, t.starts[n - 1], t.ends[n - 1], sel);
    var all, flags := AllFlags(lines, t, n, sel).value, AllFlags(lines, t, n - 1, sel).value;
    if n > 1 {
      FlagsStand(lines, t, n - 1, sel, if i < n - 1 then i else 0);
    }
    var lo, hi := FlagsBefore(lines, t, i), FlagsBefore(lines, t, i + 1);
    if i < n - 1 {
      assert all[lo..hi] == flags[lo..hi];
    } else {
      assert all[lo..hi] == BlockFlags(lines, t.starts[i], t.ends[i], sel).value;
    }
  }

  /**
   * Every table is decided on by one of its own flags exactly when every table but the last has one
   * phandle line, and the last has one or more.
   */
  lemma FlagsAlign(lines: seq<string>, t: Tables)
    requires TablesFit(lines, t)
    ensures (forall i | 0 <= i < |t.starts| :: OwnFlag(lines, t, i))
       <==> forall i | 0 <= i < |t.starts| ::
         HandleCount(lines, t, i) == 1 || (i == |t.starts| - 1 && HandleCount(lines, t, i) > 1)
  {
    hide HandleCount;
    if forall i | 0 <= i < |t.starts| ::
        HandleCount(lines, t, i) == 1 || (i == |t.starts| - 1 && HandleCount(lines, t, i) > 1) {
      forall i | 0 <= i < |t.starts|
        ensures OwnFlag(lines, t, i)
      {
        OneEach(lines, t, i);
      }
    }
    if forall i | 0 <= i < |t.starts| :: OwnFlag(lines, t, i) {
      forall i | 0 <= i < |t.starts|
        ensures HandleCount(lines, t, i) == 1 || (i == |t.starts| - 1 && HandleCount(lines, t, i) > 1)
      {
        NoneMissing(lines, t, i);
      }
    }
  }

  lemma {:induction false} OneEach(lines: seq<string>, t: Tables, n: nat)
    requires TablesFit(lines, t) && n <= |t.starts|
    requires forall i | 0 <= i < n :: HandleCount(lines, t, i) == 1
    ensures FlagsBefore(lines, t, n) == n
  {
    hide HandleCount;
    if n > 0 {
      OneEach(lines, t, n - 1);
    }
  }

  lemma NoneMissing(lines: seq<string>, t: Tables, i: nat)
    requires TablesFit(lines, t) && i < |t.starts| && forall j | 0 <= j < |t.starts| :: OwnFlag(lines, t, j)
    ensures HandleCount(lines, t, i) == 1 || (i == |t.starts| - 1 && HandleCount(lines, t, i) > 1)
  {
    hide HandleCount;
    if i > 0 {
      assert OwnFlag(lines, t, i - 1);
    }
    assert OwnFlag(lines, t, i);
    if i < |t.starts| - 1 {
      assert OwnFlag(lines, t, i + 1);
    }
  }

  // ----- exchanging the strap line

  /** Exchanging a neutral line for another neutral one is invisible to detection. */
  lemma {:induction false} ScanUnchanged(lines: seq<string>, n: nat, l: string, k: nat)
    requires n < |lines| && k <= |lines| && Neutral(lines[n]) && Neutral(l)
    ensures ScanTo(lines[n := l], k) == ScanTo(lines, k)
    ensures Depth(lines[n := l], k) == Depth(lines, k)
  {
    hide IsMarker;
    hide Delta;
    if k > 0 {
      ScanUnchanged(lines, n, l, k - 1);
      NeutralDelta(l);
      NeutralDelta(lines[n]);
    }
  }

  lemma NeutralDelta(l: string)
    requires Neutral(l)
    ensures Delta(l) == 0 && AtMostOne(l)
  {
    hide IsMarker;
    DeltaOf(l);
  }

  lemma SettingUnchanged(lines: seq<string>, t: Tables, valid: seq<bool>, n: nat, l: string)
    requires Setting(lines, t, valid) && n < |lines| && Neutral(lines[n]) && Neutral(l)
    ensures Setting(lines[n := l], t, valid)
  {
    hide IsMarker;
    hide Depth;
    hide ScanTo;
    hide AtMostOne;
    hide Lost;
    var lines' := lines[n := l];
    forall k: nat | k <= |lines|
      ensures Depth(lines', k) == Depth(lines, k) && ScanTo(lines', k) == ScanTo(lines, k)
    {
      ScanUnchanged(lines, n, l, k);
    }
    NeutralDelta(l);
    forall x | x in lines'
      ensures AtMostOne(x) && (IsMarker(x) ==> '{' in x && '}' !in x)
    {
      assert x == l || x in lines;
    }
  }

  // ----- the input a trim is promised for

  /** The line lies in no table, and does not directly follow one that is dropped. */
  ghost predicate Outside(t: Tables, valid: seq<bool>, k: nat)
  {
    && |t.starts| == |t.ends| <= |valid|
    && forall i | 0 <= i < |t.starts| :: !(t.starts[i] <= k < t.ends[i]) && (k == t.ends[i] ==> valid[i])
  }

  datatype Shape = Shape(t: Tables, phs: seq<string>, pre: string, ids: seq<string>, post: string, strapLine: nat)

  /** The flags of the tables: whether a table has the selected phandle. */
  function FlagsFor(s: Shape, ramcode: nat): (valid: seq<bool>)
    requires ramcode < |s.ids|
    ensures |valid| == |s.phs|
  {
    Flags(s.phs, s.ids[ramcode])
  }

  /**
   * A dts text as the tool expects it: tables with one phandle line each, a level line behind each
   * one that goes, and outside of them the emc-strap node with its line of ids.
   */
  ghost predicate TrimInput(lines: seq<string>, s: Shape, ramcode: nat)
  {
    && FindStrap(lines, 0) == Some(Strap(s.strapLine, s.ids)) && ramcode < |s.ids|
    && Setting(lines, s.t, FlagsFor(s, ramcode)) && Phandles(lines, s.t, s.phs)
    && 0 < s.strapLine < |lines|
    && Outside(s.t, FlagsFor(s, ramcode), s.strapLine) && Outside(s.t, FlagsFor(s, ramcode), s.strapLine - 1)
    && PlainIds(s.ids) && '<' !in s.pre
    && lines[s.strapLine] == StrapText(s.pre, s.ids, s.post) && Neutral(lines[s.strapLine])
    && Independent(s.pre, s.post, s.ids, s.ids[ramcode])
  }

  /** The text with the masked strap line. */
  function Restrapped(lines: seq<string>, s: Shape, ramcode: nat): (r: seq<string>)
    requires s.strapLine < |lines| && ramcode < |s.ids|
    ensures |r| == |lines|
  {
    lines[s.strapLine := StrapText(s.pre, Masked(s.ids, s.ids[ramcode]), s.post)]
  }

  lemma RestrappedSetting(lines: seq<string>, s: Shape, ramcode: nat)
    requires TrimInput(lines, s, ramcode)
    ensures Setting(Restrapped(lines, s, ramcode), s.t, FlagsFor(s, ramcode))
  {
    hide Setting;
    hide FindStrap;
    hide Independent;
    hide Neutral;
    hide StrapText;
    hide OnePhandle;
    assert s.ids[ramcode] in s.ids;
    MaskedIsNeutral(s.pre, s.post, s.ids, s.ids[ramcode]);
    SettingUnchanged(lines, s.t, FlagsFor(s, ramcode), s.strapLine,
                     StrapText(s.pre, Masked(s.ids, s.ids[ramcode]), s.post));
  }

  /** The remaining text of a trim. */
  function Trimmed(lines: seq<string>, s: Shape, ramcode: nat): seq<string>
    requires s.strapLine < |lines| && ramcode < |s.ids| && |s.phs| == |s.t.starts| == |s.t.ends|
  {
    Kept(Restrapped(lines, s, ramcode), s.t, FlagsFor(s, ramcode), |lines|)
  }

  /**
   * Trimming keeps the right tables. The written text is the input with the masked strap line and
   * without the dropped lines; it is well-formed again; and detection on it finds exactly the
   * tables whose phandle is the selected strap id.
   */
  lemma TrimKeepsRightTables(lines: seq<string>, s: Shape, ramcode: nat)
    requires TrimInput(lines, s, ramcode)
    ensures var valid, all := FlagsFor(s, ramcode), Restrapped(lines, s, ramcode);
      && Setting(all, s.t, valid)
      && Trim(lines, ramcode) == Some(Trimmed(lines, s, ramcode))
      && WellFormed(Trimmed(lines, s, ramcode))
      && Detect(Trimmed(lines, s, ramcode))
        == if s.ids[ramcode] in s.phs then Some(Selected(all, s.t, valid)) else None
  {
    hide WellFormed;
    hide Detect;
    hide Lost;
    hide Kept;
    hide WellFormed;
    hide OnePhandle;
    hide Neutral;
    hide Independent;
    hide StrapText;
    hide RewriteTo;
    var sel := s.ids[ramcode];
    var valid, all := FlagsFor(s, ramcode), Restrapped(lines, s, ramcode);
    RestrappedSetting(lines, s, ramcode);
    TrimIs(lines, s, ramcode);
    AllFlagged(s.t, valid);
    FilterExact(all, s.t, valid, |lines|);
    TrimmedWellFormed(all, s.t, valid);
    TrimmedTables(all, s.t, valid);
    SomeFlag(s.phs, sel);
  }

  lemma SomeFlag(phs: seq<string>, sel: string)
    ensures sel in phs <==> exists i :: 0 <= i < |Flags(phs, sel)| && Flags(phs, sel)[i]
  {
    if i :| 0 <= i < |phs| && phs[i] == sel {
      assert Flags(phs, sel)[i];
    }
  }

  lemma TrimIs(lines: seq<string>, s: Shape, ramcode: nat)
    requires TrimInput(lines, s, ramcode)
    ensures Trim(lines, ramcode)
         == Some(FilterTo(Restrapped(lines, s, ramcode), s.t, FlagsFor(s, ramcode), |lines|).text)
  {
    hide WellFormed;
    hide OnePhandle;
    hide Neutral;
    hide Independent;
    hide StrapText;
    hide RewriteTo;
    hide FilterTo;
    hide AllFlags;
    var sel := s.ids[ramcode];
    ProperTables(lines, s.t);
    FlagsAre(lines, s.t, s.phs, |s.phs|, sel);
    assert s.phs[..|s.phs|] == s.phs;
    StrapRewrite(s.pre, s.post, s.ids, sel);
  }

  // ----- trimming twice

  lemma {:induction false} StrapFound(lines: seq<string>, i: nat, strap: Strap)
    requires i <= |lines| && FindStrap(lines, i) == Some(strap)
    ensures i < strap.lineNum < |lines| && IsEmcStrap(lines[strap.lineNum - 1])
    ensures IdsOf(lines[strap.lineNum]) == Some(strap.ids)
    ensures forall j | i <= j < strap.lineNum - 1 :: !IsEmcStrap(lines[j])
    decreases |lines| - i
  {
    hide IsEmcStrap;
    hide IdsOf;
    if !IsEmcStrap(lines[i]) {
      StrapFound(lines, i + 1, strap);
    }
  }

  lemma {:induction false} FindsStrap(lines: seq<string>, i: nat, at: nat, ids: seq<string>)
    requires i <= at && at + 1 < |lines| && IsEmcStrap(lines[at]) && IdsOf(lines[at + 1]) == Some(ids)
    requires forall j | i <= j < at :: !IsEmcStrap(lines[j])
    ensures FindStrap(lines, i) == Some(Strap(at + 1, ids))
    decreases at - i
  {
    hide IsEmcStrap;
    hide IdsOf;
    if i < at {
      FindsStrap(lines, i + 1, at, ids);
    }
  }

  lemma OutsideStays(lines: seq<string>, t: Tables, valid: seq<bool>, k: nat)
    requires Setting(lines, t, valid) && Outside(t, valid, k)
    ensures !Dropped(t, valid, k)
  {
    hide WellFormed;
    hide Detect;
    hide Lost;
  }

  /** The strap node in the trimmed text: its two lines stand together and carry the masked ids. */
  lemma TrimmedStrap(lines: seq<string>, s: Shape, ramcode: nat)
    requires TrimInput(lines, s, ramcode)
    ensures var w := Trimmed(lines, s, ramcode);
      var at := |Kept(Restrapped(lines, s, ramcode), s.t, FlagsFor(s, ramcode), s.strapLine - 1)|;
      FindStrap(w, 0) == Some(Strap(at + 1, Masked(s.ids, s.ids[ramcode])))
  {
    hide WellFormed;
    hide Detect;
    hide Lost;
    hide Kept;
    hide OnePhandle;
    hide Neutral;
    hide Independent;
    hide StrapText;
    hide IsEmcStrap;
    hide IdsOf;
    hide Dropped;
    hide FindStrap;
    var sel, e := s.ids[ramcode], s.strapLine - 1;
    var all, valid := Restrapped(lines, s, ramcode), FlagsFor(s, ramcode);
    RestrappedSetting(lines, s, ramcode);
    StrapFound(lines, 0, Strap(s.strapLine, s.ids));
    OutsideStays(all, s.t, valid, e);
    OutsideStays(all, s.t, valid, e + 1);
    KeptRun(all, s.t, valid, e, e + 2);
    KeptPrefix(all, s.t, valid, e + 2, |all|);
    var w, v := Trimmed(lines, s, ramcode), Kept(all, s.t, valid, e);
    PrefixPair(w, v, all[e..e + 2]);
    MaskedPlain(s.ids, sel);
    StrapIds(s.pre, Masked(s.ids, sel), s.post);
    KeptAreLinesBefore(all, s.t, valid, e);
    forall j | 0 <= j < |v|
      ensures !IsEmcStrap(w[j])
    {
      assert w[j] == v[j] && v[j] in v;
    }
    FindsStrap(w, 0, |v|, Masked(s.ids, sel));
  }

  lemma PrefixPair<T>(w: seq<T>, v: seq<T>, p: seq<T>)
    requires v + p <= w && |p| == 2
    ensures |v| + 1 < |w| && w[|v|] == p[0] && w[|v| + 1] == p[1] && forall j | 0 <= j < |v| :: w[j] == v[j]
  {
    assert w[|v|] == (v + p)[|v|] && w[|v| + 1] == (v + p)[|v| + 1];
  }

  lemma MaskedPlain(ids: seq<string>, sel: string)
    requires PlainIds(ids) && sel in ids
    ensures PlainIds(Masked(ids, sel))
  {
  }

  lemma {:induction false} KeptAreLinesBefore(lines: seq<string>, t: Tables, valid: seq<bool>, k: nat)
    requires |t.starts| == |t.ends| <= |valid| && k <= |lines|
    ensures forall l | l in Kept(lines, t, valid, k) :: exists j :: 0 <= j < k && lines[j] == l
  {
    hide Dropped;
    if k > 0 {
      KeptAreLinesBefore(lines, t, valid, k - 1);
    }
  }

  /** The q-th selected table is some table i with its flag set. */
  lemma {:induction false} PickedFrom(lines: seq<string>, t: Tables, valid: seq<bool>, n: nat, q: nat) returns (i: nat)
    requires |t.starts| == |t.ends| == |valid| && n <= |t.starts|
    requires forall i | 0 <= i < |t.starts| :: t.starts[i] <= |lines| && t.ends[i] <= |lines|
    requires q < |Pick(lines, t, valid, t.starts, n)|
    ensures |Pick(lines, t, valid, t.starts, n)| == |Pick(lines, t, valid, t.ends, n)|
    ensures i < n && valid[i]
    ensures Pick(lines, t, valid, t.starts, n)[q] == |Kept(lines, t, valid, t.starts[i])|
    ensures Pick(lines, t, valid, t.ends, n)[q] == |Kept(lines, t, valid, t.ends[i])|
  {
    hide Kept;
    PickPair(lines, t, valid, n);
    PickPair(lines, t, valid, n - 1);
    if valid[n - 1] && q == |Pick(lines, t, valid, t.starts, n - 1)| {
      i := n - 1;
    } else {
      i := PickedFrom(lines, t, valid, n - 1, q);
    }
  }

  lemma PhandleMoves(a: seq<string>, b: seq<string>, lo: nat, hi: nat, lo': nat, hi': nat, ph: string)
    requires OnePhandle(a, lo, hi, ph) && lo <= hi && lo' <= hi' <= |b| && a[lo..hi] == b[lo'..hi']
    ensures OnePhandle(b, lo', hi', ph)
  {
    hide IsPhandle;
    hide AngleGroup;
    var j: nat :| OnlyPhandle(a, lo, hi, ph, j);
    forall k | lo' <= k < hi'
      ensures b[k] == a[k - lo' + lo]
    {
      assert b[k] == b[lo'..hi'][k - lo'] == a[lo..hi][k - lo'];
    }
    assert |a[lo..hi]| == |b[lo'..hi']|;
    assert OnlyPhandle(b, lo', hi', ph, j - lo + lo');
  }

  /** Outside the strap line the text is untouched, so the tables keep their phandles. */
  lemma PhandleStays(lines: seq<string>, s: Shape, ramcode: nat, i: nat)
    requires TrimInput(lines, s, ramcode) && i < |s.phs|
    ensures OnePhandle(Restrapped(lines, s, ramcode), s.t.starts[i], s.t.ends[i], s.phs[i])
  {
    hide WellFormed;
    hide Detect;
    hide Lost;
    hide Neutral;
    hide Independent;
    hide StrapText;
    hide FindStrap;
    hide OnePhandle;
    var all, lo, hi := Restrapped(lines, s, ramcode), s.t.starts[i], s.t.ends[i];
    ProperFlagged(lines, s.t, FlagsFor(s, ramcode));
    assert lines[lo..hi] == all[lo..hi];
    PhandleMoves(lines, all, lo, hi, lo, hi, s.phs[i]);
  }

  lemma ProperFlagged(lines: seq<string>, t: Tables, valid: seq<bool>)
    requires Setting(lines, t, valid)
    ensures |t.starts| == |t.ends| && forall i | 0 <= i < |t.starts| :: t.starts[i] < t.ends[i] <= |lines|
  {
    ProperTables(lines, t);
  }

  lemma TrimmedPhandles(lines: seq<string>, s: Shape, ramcode: nat)
    requires TrimInput(lines, s, ramcode)
    ensures var sel, w := s.ids[ramcode], Trimmed(lines, s, ramcode);
      var all, valid := Restrapped(lines, s, ramcode), FlagsFor(s, ramcode);
      && Setting(all, s.t, valid)
      && var t := Selected(all, s.t, valid);
         TablesFit(w, t) && Phandles(w, t, seq(|t.starts|, i => sel))
  {
    hide WellFormed;
    hide Detect;
    hide Lost;
    hide Neutral;
    hide Independent;
    hide StrapText;
    hide FindStrap;
    hide OnePhandle;
    hide Kept;
    hide Pick;
    var sel, w := s.ids[ramcode], Trimmed(lines, s, ramcode);
    var all, valid := Restrapped(lines, s, ramcode), FlagsFor(s, ramcode);
    RestrappedSetting(lines, s, ramcode);
    ProperFlagged(all, s.t, valid);
    var n, t := |s.t.starts|, Selected(all, s.t, valid);
    PickPair(all, s.t, valid, n);
    forall q | 0 <= q < |t.starts|
      ensures t.ends[q] <= |w| && OnePhandle(w, t.starts[q], t.ends[q], sel)
    {
      var i := PickedFrom(all, s.t, valid, n, q);
      TableKept(all, s.t, valid, i);
      PhandleStays(lines, s, ramcode, i);
      PhandleMoves(all, w, s.t.starts[i], s.t.ends[i], t.starts[q], t.ends[q], sel);
    }
  }

  /** When every table is selected nothing is dropped. */
  lemma NothingDropped(lines: seq<string>, t: Tables, valid: seq<bool>)
    requires |t.starts| == |t.ends| <= |valid| && forall i | 0 <= i < |valid| :: valid[i]
    ensures Kept(lines, t, valid, |lines|) == lines
  {
    KeptRun(lines, t, valid, 0, |lines|);
  }

  /**
   * A second trim leaves the text unchanged, provided that some table was selected; otherwise no
   * table is left and the second trim stops without writing.
   */
  lemma TrimTwice(lines: seq<string>, s: Shape, ramcode: nat)
    requires TrimInput(lines, s, ramcode)
    ensures var w := Trimmed(lines, s, ramcode);
      Trim(w, ramcode) == if s.ids[ramcode] in s.phs then Some(w) else None
  {
    hide WellFormed;
    hide Detect;
    hide Lost;
    hide Neutral;
    hide Independent;
    hide StrapText;
    hide FindStrap;
    hide OnePhandle;
    hide Kept;
    hide Pick;
    hide WellFormed;
    hide Detect;
    hide FilterTo;
    hide AllFlags;
    hide RewriteTo;
    hide Trimmed;
    var sel, w := s.ids[ramcode], Trimmed(lines, s, ramcode);
    TrimKeepsRightTables(lines, s, ramcode);
    TrimmedStrap(lines, s, ramcode);
    if sel in s.phs {
      var t := Selected(Restrapped(lines, s, ramcode), s.t, FlagsFor(s, ramcode));
      var phs := seq(|t.starts|, i => sel);
      TrimmedPhandles(lines, s, ramcode);
      FlagsAre(w, t, phs, |phs|, sel);
      assert phs[..|phs|] == phs;
      var strap := FindStrap(w, 0).value;
      assert strap.ids[ramcode] == sel;
      UnchangedByRewrite(w, strap, s.ids, sel);
      AllFlagged(t, Flags(phs, sel));
      FilterExact(w, t, Flags(phs, sel), |w|);
      NothingDropped(w, t, Flags(phs, sel));
    }
  }

  lemma UnchangedByRewrite(w: seq<string>, strap: Strap, ids: seq<string>, sel: string)
    requires strap.ids == Masked(ids, sel)
    ensures Rewritten(w, strap, sel) == w
  {
    if strap.lineNum < |w| {
      RewriteAgain(w[strap.lineNum], ids, sel, |ids|);
    }
  }
}
