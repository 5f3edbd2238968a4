/** parse_entry_list of update_payload: from the -e argument to entry tuples. */
module BupParse {
  import opened Options
  import opened Bytes
  import opened Text
  import opened BupWriter
  import opened BupLayout
  import opened BupReader

  const SPACE: byte := 0x20

  /** The parts outside the model: file contents, int(s, 16) and int(s), None where they raise. */
  datatype Env = Env(files: Name -> seq<byte>, hex: Name -> Option<nat>, dec: Name -> Option<nat>)

  predicate IsWhite(b: byte)
  {
    b == 0x20 || 9 <= b <= 13
  }

  /** str.strip() */
  function StripWhite(s: Name): Name
  {
    if s != [] && IsWhite(s[0]) then StripWhite(s[1..])
    else if s != [] && IsWhite(s[|s| - 1]) then StripWhite(s[..|s| - 1])
    else s
  }

  /** strip takes blanks, tabs and line breaks away at both ends, and nothing else. */
  lemma {:induction false} StripWhiteIs(s: Name) returns (lo: nat, hi: nat)
    ensures lo <= hi <= |s| && StripWhite(s) == s[lo..hi]
    ensures forall i | 0 <= i < |s| && !(lo <= i < hi) :: s[i] in {0x20, 0x09, 0x0a, 0x0b, 0x0c, 0x0d}
    ensures lo < hi ==> forall i | i == lo || i == hi - 1 :: s[i] !in {0x20, 0x09, 0x0a, 0x0b, 0x0c, 0x0d}
    decreases |s|
  {
    if s != [] && IsWhite(s[0]) {
      var t := s[1..];
      lo, hi := StripWhiteIs(t);
      assert t[lo..hi] == s[lo + 1..hi + 1];
      assert forall i | 1 <= i < |s| :: s[i] == t[i - 1];
      lo, hi := lo + 1, hi + 1;
    } else if s != [] && IsWhite(s[|s| - 1]) {
      var t := s[..|s| - 1];
      lo, hi := StripWhiteIs(t);
      assert t[lo..hi] == s[lo..hi];
      assert forall i | 0 <= i < |t| :: s[i] == t[i];
    } else {
      lo, hi := 0, |s|;
      assert s == s[lo..hi];
    }
  }

  function OrZero(n: Option<nat>): nat
  {
    match n
    case None => 0
    case Some(v) => v
  }

  predicate TooLong(fields: seq<Name>)
    requires |fields| == 5
  {
    |fields[1]| > 36 || |fields[4]| > 64
  }

  /** The entry that a tuple of five fields stands for. */
  function EntryOf(fields: seq<Name>, env: Env): EntryInfo
    requires |fields| == 5
  {
    UpdateInfo(env.files(fields[0]), fields[1], OrZero(env.hex(fields[2])), OrZero(env.dec(fields[3])),
               if fields[4] == COMMON then [] else fields[4])
  }

  /**
   * What becomes of entry_info_list: entries up to the first malformed tuple, and the tuples from
   * there on as they are, which update_entry cannot pack. A field that is too long ends the program.
   */
  datatype Parsing = Exited | Kept(entries: seq<EntryInfo>, rest: seq<seq<Name>>)

  function ParseTuples(all: seq<seq<Name>>, env: Env): Parsing
  {
    if all == [] || |all[0]| != 5 then Kept([], all)
    else if TooLong(all[0]) then Exited
    else Behind([EntryOf(all[0], env)], ParseTuples(all[1..], env))
  }

  function Behind(done: seq<EntryInfo>, p: Parsing): Parsing
  {
    match p
    case Exited => Exited
    case Kept(entries, rest) => Kept(done + entries, rest)
  }

  /** Splitting at semicolons, then each part at blanks. */
  function FieldsOf(text: Name): (r: seq<seq<Name>>)
    ensures |r| == |Split(text, SEMICOLON)|
  {
    var parts := Split(text, SEMICOLON);
    seq(|parts|, i requires 0 <= i < |parts| => Split(StripWhite(parts[i]), SPACE))
  }

  /** The text is the parts with semicolons in between, and each part, stripped, its fields with blanks in between. */
  ghost predicate CutInto(text: Name, parts: seq<Name>, r: seq<seq<Name>>)
  {
    && |parts| == |r| >= 1 && Join(parts, 0x3b) == text
    && forall i | 0 <= i < |r| ::
      && 0x3b !in parts[i] && |r[i]| >= 1 && Join(r[i], 0x20) == StripWhite(parts[i])
      && forall f | f in r[i] :: 0x20 !in f
  }

  /** There is only one way to cut an argument up, and that is what the split gives. */
  lemma FieldsExact(text: Name, r: seq<seq<Name>>)
    ensures r == FieldsOf(text) <==> exists parts :: CutInto(text, parts, r)
  {
    hide Join;
    hide Split;
    hide StripWhite;
    SplitExact(text, SEMICOLON, Split(text, SEMICOLON));
    if r == FieldsOf(text) {
      var parts := Split(text, SEMICOLON);
      forall i | 0 <= i < |r|
        ensures |r[i]| >= 1 && Join(r[i], SPACE) == StripWhite(parts[i]) && forall f | f in r[i] :: SPACE !in f
      {
        SplitExact(StripWhite(parts[i]), SPACE, r[i]);
      }
      assert CutInto(text, parts, r);
    }
    if parts :| CutInto(text, parts, r) {
      SplitExact(text, SEMICOLON, parts);
      forall i | 0 <= i < |r|
        ensures r[i] == Split(StripWhite(parts[i]), SPACE)
      {
        SplitExact(StripWhite(parts[i]), SPACE, r[i]);
      }
    }
  }

  /** payload.parse_entry_list */
  method SplitEntryList(text: Name) returns (entryInfoList: seq<seq<Name>>)
    ensures entryInfoList == FieldsOf(text)
    ensures entryInfoList != []
  {
    hide Split;
    hide StripWhite;
    var parts := Split(text, SEMICOLON);
    entryInfoList := [];
    for i := 0 to |parts|
      invariant |entryInfoList| == i
      invariant forall j | 0 <= j < i :: entryInfoList[j] == Split(StripWhite(parts[j]), SPACE)
    {
      var entry := StripWhite(parts[i]);
      entryInfoList := entryInfoList + [Split(entry, SPACE)];
    }
  }

  /**
   * update_payload.parse_entry_list: there is at least one tuple, and every entry that gets through
   * is within the length limits.
   */
  method ParseEntryList(text: Name, env: Env) returns (r: Parsing)
    ensures r == ParseTuples(FieldsOf(text), env)
    ensures r.Kept? ==> |r.entries| + |r.rest| >= 1 && (r.rest == [] || |r.rest[0]| != 5)
    ensures r.Kept? ==> AllOfKind(Update, r.entries) && forall e | e in r.entries :: LengthsOk(e)
  {
    hide FieldsOf;
    hide EntryOf;
    var entryInfoList := SplitEntryList(text);
    var done: seq<EntryInfo> := [];
    for i := 0 to |entryInfoList|
      invariant |done| == i
      invariant ParseTuples(entryInfoList, env) == Behind(done, ParseTuples(entryInfoList[i..], env))
      invariant forall e | e in done :: LengthsOk(e)
    {
      assert entryInfoList[i..][1..] == entryInfoList[i + 1..];
      if |entryInfoList[i]| != 5 {
        return Kept(done, entryInfoList[i..]);
      }
      if TooLong(entryInfoList[i]) {
        return Exited;
      }
      EntryFits(entryInfoList[i], env);
      ghost var e := EntryOf(entryInfoList[i], env);
      BehindTwice(done, [e], ParseTuples(entryInfoList[i + 1..], env));
      done := done + [EntryOf(entryInfoList[i], env)];
    }
    r := Kept(done, []);
  }

  lemma BehindTwice(a: seq<EntryInfo>, b: seq<EntryInfo>, p: Parsing)
    ensures Behind(a, Behind(b, p)) == Behind(a + b, p)
  {
    if p.Kept? {
      assert a + (b + p.entries) == a + b + p.entries;
    }
  }

  lemma EntryFits(fields: seq<Name>, env: Env)
    requires |fields| == 5 && !TooLong(fields)
    ensures LengthsOk(EntryOf(fields, env))
  {
  }

  /** Everything gets through exactly when every tuple has five fields that are not too long. */
  lemma {:induction false} TuplesParsed(all: seq<seq<Name>>, env: Env)
    ensures var r := ParseTuples(all, env);
      (r.Kept? && r.rest == []) <==>
        forall i | 0 <= i < |all| :: |all[i]| == 5 && |all[i][1]| <= 36 && |all[i][4]| <= 64
    ensures var r := ParseTuples(all, env); r.Kept? && r.rest == [] ==>
      |r.entries| == |all| && forall i | 0 <= i < |all| :: |all[i]| == 5 && r.entries[i] == EntryOf(all[i], env)
  {
    hide EntryOf;
    if all != [] && |all[0]| == 5 && !TooLong(all[0]) {
      TuplesParsed(all[1..], env);
      assert forall i | 1 <= i < |all| :: all[i] == all[1..][i - 1];
    }
  }

  // ----- the argument round trip

  /** A field without separators. */
  predicate PlainField(f: Name)
  {
    f != [] && forall b | b in f :: !IsWhite(b) && b != SEMICOLON
  }

  predicate PlainTuple(t: seq<Name>)
  {
    |t| == 5 && forall f | f in t :: PlainField(f)
  }

  function Padded(left: nat, t: seq<Name>, right: nat): Name
    requires |t| >= 1
  {
    seq(left, _ => SPACE) + Join(t, SPACE) + seq(right, _ => SPACE)
  }

  /** The tuples as a user writes them: fields behind one blank, any blanks around a tuple. */
  function Rendered(ts: seq<seq<Name>>, pads: seq<(nat, nat)>): (r: seq<Name>)
    requires |ts| == |pads| && forall t | t in ts :: PlainTuple(t)
    ensures |r| == |ts|
  {
    seq(|ts|, i requires 0 <= i < |ts| => assert PlainTuple(ts[i]); Padded(pads[i].0, ts[i], pads[i].1))
  }

  lemma {:induction false} JoinEnds(t: seq<Name>)
    requires |t| >= 1 && forall f | f in t :: PlainField(f)
    ensures var j := Join(t, SPACE); j != [] && !IsWhite(j[0]) && !IsWhite(j[|j| - 1]) && SEMICOLON !in j
  {
    assert PlainField(t[0]);
    if |t| > 1 {
      JoinEnds(t[1..]);
    }
  }

  lemma {:induction false} StripPadding(left: nat, s: Name, right: nat)
    requires s != [] && !IsWhite(s[0]) && !IsWhite(s[|s| - 1])
    ensures StripWhite(seq(left, _ => SPACE) + s + seq(right, _ => SPACE)) == s
    decreases left + right
  {
    var all := seq(left, _ => SPACE) + s + seq(right, _ => SPACE);
    if left > 0 {
      assert all[0] == SPACE && all[1..] == seq(left - 1, _ => SPACE) + s + seq(right, _ => SPACE);
      StripPadding(left - 1, s, right);
    } else if right > 0 {
      assert all[0] == s[0] && all[|all| - 1] == SPACE;
      assert all[..|all| - 1] == seq(left, _ => SPACE) + s + seq(right - 1, _ => SPACE);
      StripPadding(left, s, right - 1);
    } else {
      assert all == s;
    }
  }

  /** Every list of plain tuples, rendered with any padding, is split back into its fields. */
  lemma ArgumentRoundTrip(ts: seq<seq<Name>>, pads: seq<(nat, nat)>)
    requires |ts| == |pads| >= 1 && forall t | t in ts :: PlainTuple(t)
    ensures FieldsOf(Join(Rendered(ts, pads), SEMICOLON)) == ts
  {
    hide Join;
    hide Split;
    hide StripWhite;
    hide PlainField;
    var parts := Rendered(ts, pads);
    forall i | 0 <= i < |ts|
      ensures SEMICOLON !in parts[i] && Split(StripWhite(parts[i]), SPACE) == ts[i]
    {
      assert PlainTuple(ts[i]);
      JoinEnds(ts[i]);
      StripPadding(pads[i].0, Join(ts[i], SPACE), pads[i].1);
      forall f | f in ts[i]
        ensures SPACE !in f
      {
        NoSpace(f);
      }
      SplitJoin(ts[i], SPACE);
    }
    SplitJoin(parts, SEMICOLON);
  }

  lemma NoSpace(f: Name)
    requires PlainField(f)
    ensures SPACE !in f
  {
  }

  // ----- from the argument to the inspector

  /**
   * Whatever argument gets through the parser, the blob written for it can be inspected, whatever
   * the length of the accessory; and the inspector shows, for every tuple up to its limit, the
   * name and spec without outer blanks, the numbers, and a window that holds the file's contents.
   */
  lemma ArgumentReadsBack(text: Name, env: Env, es: seq<EntryInfo>, accessory: Option<seq<byte>>, max: int)
    requires ParseTuples(FieldsOf(text), env) == Kept(es, []) && Packable(Update, accessory, es)
    ensures var ts, blob := FieldsOf(text), FinalBlob(Update, accessory, es);
      var r := Inspect(blob, max);
      && |es| == |ts| >= 1 && r.Some?
      && |r.value.slots| == (if max < 0 then 0 else if |ts| <= max then |ts| else max)
      && forall i | 0 <= i < |r.value.slots| :: i < |ts| && |ts[i]| == 5 && r.value.slots[i].Parsed?
           && Shows(r.value.slots[i].entry, ts[i], env, blob)
  {
    hide FieldsOf;
    hide Inspect;
    hide FinalBlob;
    hide Placement;
    hide Shows;
    hide Packable;
    var ts := FieldsOf(text);
    SomeFields(text);
    TuplesParsed(ts, env);
    RoundTrip(accessory, es, max);
    var r := Inspect(FinalBlob(Update, accessory, es), max);
    forall i | 0 <= i < |r.value.slots|
      ensures r.value.slots[i].Parsed? && Shows(r.value.slots[i].entry, ts[i], env, FinalBlob(Update, accessory, es))
    {
      EntryShows(ts[i], env, es, accessory, i);
    }
  }

  lemma SomeFields(text: Name)
    ensures FieldsOf(text) != []
  {
  }

  /** A field that is no number counts as 0. */
  ghost predicate IsNumber(n: nat, read: Option<nat>)
  {
    match read
    case Some(v) => n == v
    case None => n == 0
  }

  /**
   * The inspected entry, and the window it names, against the tuple it was made from. The spec
   * "common" stands for none.
   */
  ghost predicate Shows(e: Entry, fields: seq<Name>, env: Env, blob: seq<byte>)
    requires |fields| == 5
  {
    && PartName(e) == Strip(fields[1])
    && Spec(e) == (if CharsOf(fields[4]) == "common" then [] else Strip(fields[4]))
    && IsNumber(e.version, env.hex(fields[2])) && IsNumber(e.opMode, env.dec(fields[3]))
    && ReadAt(blob, e.offset, e.partSize) == env.files(fields[0])
  }

  lemma CommonIs(s: Name)
    ensures CharsOf(s) == "common" <==> s == COMMON
  {
    if CharsOf(s) == "common" {
      assert |s| == |"common"|;
      forall i | 0 <= i < 6
        ensures s[i] == COMMON[i]
      {
        assert CharsOf(s)[i] == "common"[i];
      }
    }
    assert CharsOf(COMMON) == "common";
  }

  lemma EntryShows(fields: seq<Name>, env: Env, es: seq<EntryInfo>, accessory: Option<seq<byte>>, i: nat)
    requires Packable(Update, accessory, es) && i < |es|
    requires |fields| == 5 && !TooLong(fields) && es[i] == EntryOf(fields, env)
    ensures Shows(Expected(es[i], Placement(es, FirstImage(Update, accessory, es))[i]), fields, env,
                  FinalBlob(Update, accessory, es))
  {
    hide FinalBlob;
    hide Placement;
    hide Packable;
    EntryFits(fields, env);
    CommonIs(fields[4]);
    EntryRoundTrip(accessory, es, i);
  }
}
