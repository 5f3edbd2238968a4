/** check_entry_table of BUP_generator.py: every part that has specs must have an entry for every spec. */
module BupCheck {
  import opened Options
  import opened Bytes
  import opened BupReader
  import opened BupWriter
  import opened Text

  // ----- the simple statement

  /** The distinct elements of xs, in the order of their first appearance (FirstSeenIs). */
  function FirstSeen(xs: seq<Name>): seq<Name>
  {
    if xs == [] then [] else
    var seen, x := FirstSeen(xs[..|xs| - 1]), xs[|xs| - 1];
    if x in seen then seen else seen + [x]
  }

  function Tagged(es: seq<Entry>): seq<Entry>
  {
    if es == [] then [] else
    var e := es[|es| - 1];
    Tagged(es[..|es| - 1]) + if Spec(e) == [] then [] else [e]
  }

  function Names(es: seq<Entry>): (ns: seq<Name>)
    ensures |ns| == |es|
  {
    seq(|es|, i requires 0 <= i < |es| => PartName(es[i]))
  }

  function Specs(es: seq<Entry>): (ns: seq<Name>)
    ensures |ns| == |es|
  {
    seq(|es|, i requires 0 <= i < |es| => Spec(es[i]))
  }

  predicate Covered(es: seq<Entry>, part: Name, spec: Name)
  {
    exists e | e in es :: PartName(e) == part && Spec(e) == spec
  }

  /** The specs of the list that the part lacks, in order. */
  function MissingFor(es: seq<Entry>, part: Name, specs: seq<Name>): seq<(Name, Name)>
  {
    if specs == [] then [] else
    var s := specs[|specs| - 1];
    MissingFor(es, part, specs[..|specs| - 1]) + if Covered(es, part, s) then [] else [(part, s)]
  }

  function MissingOf(es: seq<Entry>, parts: seq<Name>, specs: seq<Name>): seq<(Name, Name)>
  {
    if parts == [] then [] else
    MissingOf(es, parts[..|parts| - 1], specs) + MissingFor(es, parts[|parts| - 1], specs)
  }

  /** The errors the check must print. */
  function Missing(es: seq<Entry>): seq<(Name, Name)>
  {
    MissingOf(es, FirstSeen(Names(Tagged(es))), FirstSeen(Specs(Tagged(es))))
  }

  // ----- what the simple statement means

  ghost predicate Distinct(xs: seq<Name>)
  {
    forall i, j | 0 <= i < j < |xs| :: xs[i] != xs[j]
  }

  lemma FirstPosPrefix(xs: seq<Name>, n: nat, x: Name)
    requires n <= |xs| && x in xs[..n]
    ensures IndexOf(xs, x) == IndexOf(xs[..n], x) < n
  {
    var q := IndexOf(xs[..n], x);
    IndexOfLeast(xs, x, q);
    IndexOfLeast(xs[..n], x, IndexOf(xs, x));
  }

  /** FirstSeen has no duplicates, has the same elements, and orders them by first occurrence. */
  lemma {:induction false} FirstSeenIs(xs: seq<Name>)
    ensures Distinct(FirstSeen(xs))
    ensures forall x :: x in FirstSeen(xs) <==> x in xs
    ensures forall i, j | 0 <= i < j < |FirstSeen(xs)| :: IndexOf(xs, FirstSeen(xs)[i]) < IndexOf(xs, FirstSeen(xs)[j])
  {
    if xs != [] {
      var n := |xs| - 1;
      var init, x, seen := xs[..n], xs[n], FirstSeen(xs[..n]);
      FirstSeenIs(init);
      assert xs == init + [x];
      forall y | y in init
        ensures IndexOf(xs, y) == IndexOf(init, y) < n
      {
        FirstPosPrefix(xs, n, y);
      }
      if x !in seen {
        assert xs[IndexOf(xs, x)] == x;
      }
    }
  }

  /** Some entry with a spec has this part name. */
  ghost predicate PartTagged(es: seq<Entry>, part: Name)
  {
    exists e | e in es :: Spec(e) != [] && PartName(e) == part
  }

  /** Some entry has this non-empty spec. */
  ghost predicate SpecTagged(es: seq<Entry>, spec: Name)
  {
    spec != [] && exists e | e in es :: Spec(e) == spec
  }

  lemma TaggedStep(es: seq<Entry>, e: Entry)
    ensures Tagged(es + [e]) == if Spec(e) == [] then Tagged(es) else Tagged(es) + [e]
    ensures Names(Tagged(es) + [e]) == Names(Tagged(es)) + [PartName(e)]
    ensures Specs(Tagged(es) + [e]) == Specs(Tagged(es)) + [Spec(e)]
  {
    hide PartName;
    hide Spec;
    assert (es + [e])[..|es|] == es;
    NamesStep(Tagged(es), e);
  }

  lemma NamesStep(es: seq<Entry>, e: Entry)
    ensures Names(es + [e]) == Names(es) + [PartName(e)]
    ensures Specs(es + [e]) == Specs(es) + [Spec(e)]
  {
    hide PartName;
    hide Spec;
  }

  lemma NothingTagged()
    ensures Tagged([]) == [] && Names([]) == [] && Specs([]) == [] && FirstSeen([]) == []
    ensures forall x :: !PartTagged([], x) && !SpecTagged([], x)
  {
  }

  lemma FirstSeenStep(xs: seq<Name>, x: Name)
    ensures FirstSeen(xs + [x]) == if x in FirstSeen(xs) then FirstSeen(xs) else FirstSeen(xs) + [x]
  {
    assert (xs + [x])[..|xs|] == xs;
  }

  lemma PartSpecStep(es: seq<Entry>, e: Entry, x: Name)
    ensures PartTagged(es + [e], x) <==> PartTagged(es, x) || (Spec(e) != [] && PartName(e) == x)
    ensures SpecTagged(es + [e], x) <==> SpecTagged(es, x) || (Spec(e) != [] && Spec(e) == x)
  {
    hide PartName;
    hide Spec;
    assert forall a :: a in es + [e] <==> a in es || a == e;
  }

  lemma {:induction false} TaggedIs(es: seq<Entry>)
    ensures forall x :: x in Names(Tagged(es)) <==> PartTagged(es, x)
    ensures forall x :: x in Specs(Tagged(es)) <==> SpecTagged(es, x)
  {
    hide PartName;
    hide Spec;
    hide Tagged;
    hide Names;
    hide Specs;
    hide PartTagged;
    hide SpecTagged;
    NothingTagged();
    if es != [] {
      var n := |es| - 1;
      TaggedIs(es[..n]);
      assert es == es[..n] + [es[n]];
      TaggedStep(es[..n], es[n]);
      forall x
        ensures PartTagged(es, x) <==> x in Names(Tagged(es))
        ensures SpecTagged(es, x) <==> x in Specs(Tagged(es))
      {
        PartSpecStep(es[..n], es[n], x);
      }
    }
  }

  lemma {:induction false} MissingForIs(es: seq<Entry>, part: Name, specs: seq<Name>)
    ensures MissingFor(es, part, specs) == [] <==> forall s | s in specs :: Covered(es, part, s)
  {
    if specs != [] {
      var n := |specs| - 1;
      MissingForIs(es, part, specs[..n]);
      assert specs == specs[..n] + [specs[n]];
    }
  }

  lemma {:induction false} MissingOfIs(es: seq<Entry>, parts: seq<Name>, specs: seq<Name>)
    ensures MissingOf(es, parts, specs) == [] <==> forall p, s | p in parts && s in specs :: Covered(es, p, s)
  {
    if parts != [] {
      var n := |parts| - 1;
      MissingOfIs(es, parts[..n], specs);
      MissingForIs(es, parts[n], specs);
      assert parts == parts[..n] + [parts[n]];
    }
  }

  /**
   * The check succeeds exactly when every part that has an entry with a spec has an entry for every
   * spec of the table.
   */
  lemma CheckMeaning(es: seq<Entry>)
    ensures Missing(es) == [] <==>
      forall part, spec | PartTagged(es, part) && SpecTagged(es, spec) :: Covered(es, part, spec)
  {
    hide Tagged;
    hide PartTagged;
    hide SpecTagged;
    hide Covered;
    hide FirstSeen;
    hide Names;
    hide Specs;
    var parts, specs := Names(Tagged(es)), Specs(Tagged(es));
    TaggedIs(es);
    FirstSeenIs(parts);
    FirstSeenIs(specs);
    MissingOfIs(es, FirstSeen(parts), FirstSeen(specs));
  }

  // ----- what is printed

  /** x appears in the list before y does. */
  ghost predicate Sooner(xs: seq<Name>, x: Name, y: Name)
  {
    x in xs && y in xs && IndexOf(xs, x) < IndexOf(xs, y)
  }

  ghost predicate InOrderOf(xs: seq<Name>, list: seq<Name>)
  {
    forall i, j | 0 <= i < j < |list| :: Sooner(xs, list[i], list[j])
  }

  lemma {:induction false} MissingForList(es: seq<Entry>, part: Name, specs: seq<Name>, ss: seq<Name>)
    requires InOrderOf(ss, specs)
    ensures forall m :: m in MissingFor(es, part, specs) <==>
      m.0 == part && m.1 in specs && !Covered(es, m.0, m.1)
    ensures forall i, j | 0 <= i < j < |MissingFor(es, part, specs)| ::
      Sooner(ss, MissingFor(es, part, specs)[i].1, MissingFor(es, part, specs)[j].1)
  {
    hide Covered;
    hide Sooner;
    if specs != [] {
      var n := |specs| - 1;
      MissingForList(es, part, specs[..n], ss);
      assert specs == specs[..n] + [specs[n]];
    }
  }

  /** Error m is printed before error n: its part appeared sooner, or the part is the same and the spec did. */
  ghost predicate PrintedSooner(ps: seq<Name>, ss: seq<Name>, m: (Name, Name), n: (Name, Name))
  {
    Sooner(ps, m.0, n.0) || (m.0 == n.0 && Sooner(ss, m.1, n.1))
  }

  lemma {:induction false} MissingOfList(es: seq<Entry>, parts: seq<Name>, specs: seq<Name>, ps: seq<Name>,
                                         ss: seq<Name>)
    requires InOrderOf(ps, parts) && InOrderOf(ss, specs)
    ensures forall m :: m in MissingOf(es, parts, specs) <==>
      m.0 in parts && m.1 in specs && !Covered(es, m.0, m.1)
    ensures forall i, j | 0 <= i < j < |MissingOf(es, parts, specs)| ::
      PrintedSooner(ps, ss, MissingOf(es, parts, specs)[i], MissingOf(es, parts, specs)[j])
  {
    hide Covered;
    hide Sooner;
    hide MissingFor;
    if parts != [] {
      var n := |parts| - 1;
      MissingOfList(es, parts[..n], specs, ps, ss);
      MissingForList(es, parts[n], specs, ss);
      assert parts == parts[..n] + [parts[n]];
      var before, last := MissingOf(es, parts[..n], specs), MissingFor(es, parts[n], specs);
      forall i, j | 0 <= i < j < |before + last|
        ensures PrintedSooner(ps, ss, (before + last)[i], (before + last)[j])
      {
        if i < |before| <= j {
          assert before[i] in before && last[j - |before|] in last;
        } else if |before| <= i {
          assert last[i - |before|] in last && last[j - |before|] in last;
        }
      }
    }
  }

  /**
   * The errors that are printed: a part and a spec exactly when both occur in the table with a spec,
   * and no entry has the two together; each once, by the first appearance of the part, then of the spec.
   */
  lemma MissingIs(es: seq<Entry>)
    ensures forall part, spec ::
      (part, spec) in Missing(es) <==> PartTagged(es, part) && SpecTagged(es, spec) && !Covered(es, part, spec)
    ensures forall i, j | 0 <= i < j < |Missing(es)| ::
      PrintedSooner(Names(Tagged(es)), Specs(Tagged(es)), Missing(es)[i], Missing(es)[j])
      && Missing(es)[i] != Missing(es)[j]
  {
    hide Tagged;
    hide PartTagged;
    hide SpecTagged;
    hide Covered;
    hide FirstSeen;
    hide MissingOf;
    var parts, specs := Names(Tagged(es)), Specs(Tagged(es));
    TaggedIs(es);
    FirstSeenIs(parts);
    FirstSeenIs(specs);
    assert forall x | x in FirstSeen(parts) :: x in parts;
    assert forall x | x in FirstSeen(specs) :: x in specs;
    MissingOfList(es, FirstSeen(parts), FirstSeen(specs), parts, specs);
  }

  // ----- the code

  /** The hand-written duplicate search: compares with every element and appends behind the last one. */
  method AppendNew(list: seq<Name>, name: Name) returns (r: seq<Name>)
    ensures r == if name in list then list else list + [name]
  {
    r := list;
    if |list| > 0 {
      var idx := 0;
      while idx < |list|
        invariant 0 <= idx < |list| && r == list
        invariant name !in list[..idx]
      {
        if list[idx] == name {
          break;
        } else if idx == |list| - 1 {
          r := r + [name];
          assert list == list[..idx] + [list[idx]];
          break;
        }
        idx := idx + 1;
      }
    } else {
      r := [name];
    }
  }

  /** list.remove(x): the first element equal to x goes. */
  function RemoveFirst(list: seq<Entry>, x: Entry): seq<Entry>
    requires x in list
  {
    if list[0] == x then list[1..] else [list[0]] + RemoveFirst(list[1..], x)
  }

  lemma {:induction false} RemoveFirstKeeps(list: seq<Entry>, x: Entry)
    requires x in list
    ensures forall e | e != x :: e in RemoveFirst(list, x) <==> e in list
  {
    if list[0] != x {
      RemoveFirstKeeps(list[1..], x);
    }
    assert list == [list[0]] + list[1..];
  }

  predicate HasSpec(es: seq<Entry>, spec: Name)
  {
    exists e | e in es :: Spec(e) == spec
  }

  /** filter(lambda entry: part_name == part, ...) */
  function OfPart(es: seq<Entry>, part: Name): seq<Entry>
  {
    if es == [] then [] else
    var e := es[|es| - 1];
    OfPart(es[..|es| - 1], part) + if PartName(e) == part then [e] else []
  }

  lemma {:induction false} OfPartIs(es: seq<Entry>, part: Name)
    ensures forall e :: e in OfPart(es, part) <==> e in es && PartName(e) == part
  {
    if es != [] {
      var n := |es| - 1;
      OfPartIs(es[..n], part);
      assert es == es[..n] + [es[n]];
    }
  }

  /** One part: look for every spec in turn and delete what was matched. */
  method CheckPart(es: seq<Entry>, part: Name, specs: seq<Name>) returns (errors: seq<(Name, Name)>)
    requires Distinct(specs)
    ensures errors == MissingFor(es, part, specs)
  {
    hide PartName;
    hide Spec;
    var rest := OfPart(es, part);
    OfPartIs(es, part);
    errors := [];
    for k := 0 to |specs|
      invariant errors == MissingFor(es, part, specs[..k])
      invariant forall e | e in rest :: e in es && PartName(e) == part
      invariant forall j | k <= j < |specs| :: HasSpec(rest, specs[j]) <==> Covered(es, part, specs[j])
    {
      var spec := specs[k];
      var found, idx := false, 0;
      ghost var before := rest;
      while idx < |rest|
        invariant 0 <= idx <= |rest| && rest == before && !found
        invariant forall i | 0 <= i < idx :: Spec(rest[i]) != spec
      {
        if spec == Spec(rest[idx]) {
          found := true;
          RemoveFirstKeeps(rest, rest[idx]);
          rest := RemoveFirst(rest, rest[idx]);
          break;
        }
        idx := idx + 1;
      }
      assert specs[..k + 1][..k] == specs[..k];
      assert found <==> HasSpec(before, spec);
      if found {
        RemovalIsLocal(before, before[idx], specs, k);
      } else {
        errors := errors + [(part, spec)];
      }
    }
    assert specs[..|specs|] == specs;
  }

  /** Deleting a matched entry changes no later answer. */
  lemma RemovalIsLocal(list: seq<Entry>, x: Entry, specs: seq<Name>, k: nat)
    requires x in list && Distinct(specs) && k < |specs| && Spec(x) == specs[k]
    ensures forall e | e in RemoveFirst(list, x) :: e in list
    ensures forall j | k < j < |specs| :: HasSpec(RemoveFirst(list, x), specs[j]) <==> HasSpec(list, specs[j])
  {
    RemoveFirstKeeps(list, x);
    forall e | e in RemoveFirst(list, x)
      ensures e in list
    {
    }
  }

  predicate AllParsed(slots: seq<Slot>)
  {
    forall s | s in slots :: s.Parsed?
  }

  function Entries(slots: seq<Slot>): (es: seq<Entry>)
    requires AllParsed(slots)
    ensures |es| == |slots|
  {
    seq(|slots|, i requires 0 <= i < |slots| => slots[i].entry)
  }

  /** check_entry_table: None where a slot that was never parsed raises; otherwise the errors printed. */
  method CheckEntryTable(slots: seq<Slot>) returns (missing: Option<seq<(Name, Name)>>)
    ensures missing.Some? <==> AllParsed(slots)
    ensures missing.Some? ==> missing.value == Missing(Entries(slots))
  {
    hide PartName;
    hide Spec;
    hide FirstSeen;
    hide Tagged;
    var parts, specs := [], [];
    NothingTagged();
    var es: seq<Entry> := [];
    for i := 0 to |slots|
      invariant AllParsed(slots[..i]) && es == Entries(slots[..i])
      invariant parts == FirstSeen(Names(Tagged(es)))
      invariant specs == FirstSeen(Specs(Tagged(es)))
    {
      if slots[i].Unparsed? {
        assert slots[i] in slots;
        return None;
      }
      var e := slots[i].entry;
      TaggedStep(es, e);
      FirstSeenStep(Names(Tagged(es)), PartName(e));
      FirstSeenStep(Specs(Tagged(es)), Spec(e));
      es := es + [e];
      if Spec(e) == [] {
        continue;
      }
      parts := AppendNew(parts, PartName(e));
      specs := AppendNew(specs, Spec(e));
    }
    assert slots[..|slots|] == slots;
    FirstSeenIs(Specs(Tagged(es)));
    var errors := [];
    for k := 0 to |parts|
      invariant errors == MissingOf(es, parts[..k], specs)
    {
      var e := CheckPart(es, parts[k], specs);
      assert parts[..k + 1][..k] == parts[..k];
      errors := errors + e;
    }
    assert parts[..|parts|] == parts;
    missing := Some(errors);
  }
}
