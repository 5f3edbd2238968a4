/** do_parse of nvptparser.py: numbering and ordering the partitions of a device. */
module PartTable {
  import opened Options

  datatype Part = Part(name: string, size: string, file: string)

  datatype Numbered = Numbered(num: nat, part: Part)

  predicate IsTable(p: Part)
  {
    p.name in {"GP1", "GPT", "primary_gpt", "secondary_gpt"}
  }

  predicate IsMbr(p: Part)
  {
    p.name == "master_boot_record"
  }

  predicate IsApp(p: Part)
  {
    p.name == "APP"
  }

  predicate IsOther(p: Part)
  {
    !IsTable(p) && !IsMbr(p) && !IsApp(p)
  }

  /** The APP partitions, last seen first. */
  function Apps(ps: seq<Part>): seq<Part>
  {
    if ps == [] then [] else
    var p, rest := ps[|ps| - 1], Apps(ps[..|ps| - 1]);
    if IsApp(p) then [p] + rest else rest
  }

  /** The ordinary partitions, in input order. */
  function Others(ps: seq<Part>): seq<Part>
  {
    if ps == [] then [] else
    var p, rest := ps[|ps| - 1], Others(ps[..|ps| - 1]);
    if IsOther(p) then rest + [p] else rest
  }

  /** The last master_boot_record, if there is one. */
  function LastMbr(ps: seq<Part>): seq<Part>
  {
    if ps == [] then [] else
    if IsMbr(ps[|ps| - 1]) then [ps[|ps| - 1]] else LastMbr(ps[..|ps| - 1])
  }

  /** The internal list behind the first loop. */
  function Internal(ps: seq<Part>): seq<Part>
  {
    Apps(ps) + Others(ps) + LastMbr(ps)
  }

  function Number(ps: seq<Part>): (r: seq<Numbered>)
    ensures |r| == |ps|
  {
    seq(|ps|, i requires 0 <= i < |ps| => Numbered(i + 1, ps[i]))
  }

  /** result.append(result.pop(0)) */
  function RotateLeft<T>(s: seq<T>): (r: seq<T>)
    requires |s| >= 1
    ensures |r| == |s|
  {
    s[1..] + [s[0]]
  }

  function Parsed(ps: seq<Part>): Option<seq<Numbered>>
  {
    if Internal(ps) == [] then None else Some(RotateLeft(Number(Internal(ps))))
  }

  /** The second half of do_parse: None where pop(0) raises on an empty list. */
  method NumberAndRotate(partitions: seq<Part>) returns (r: Option<seq<Numbered>>)
    ensures r == if partitions == [] then None else Some(RotateLeft(Number(partitions)))
  {
    hide Number;
    var result: seq<Numbered> := [];
    for i := 0 to |partitions|
      invariant |result| == i && forall j | 0 <= j < i :: result[j] == Numbered(j + 1, partitions[j])
    {
      result := result + [Numbered(i + 1, partitions[i])];
    }
    NumberIs(partitions, result);
    if |result| == 0 {
      return None;
    }
    r := Some(result[1..] + [result[0]]);
  }

  /** do_parse */
  method DoParse(ps: seq<Part>) returns (r: Option<seq<Numbered>>)
    ensures r == Parsed(ps)
  {
    hide IsOther;
    hide Apps;
    hide Others;
    hide LastMbr;
    hide IsTable;
    hide IsMbr;
    hide IsApp;
    KindsDiffer();
    NothingSeen();
    var partitions: seq<Part> := [];
    var mbr: Option<Part> := None;
    ghost var apps: seq<Part>, others: seq<Part> := [], [];
    for i := 0 to |ps|
      invariant partitions == apps + others
      invariant apps == Apps(ps[..i]) && others == Others(ps[..i])
      invariant (if mbr.Some? then [mbr.value] else []) == LastMbr(ps[..i])
    {
      var p := ps[i];
      assert ps[..i + 1] == ps[..i] + [p];
      SeenOne(ps[..i], p);
      if IsTable(p) {
        continue;
      }
      if IsMbr(p) {
        mbr := Some(p);
        continue;
      }
      if IsApp(p) {
        Reassociate([p], apps, others);
        partitions := [p] + partitions;
        apps := [p] + apps;
      } else {
        Reassociate(apps, others, [p]);
        partitions := partitions + [p];
        others := others + [p];
      }
    }
    assert ps[..|ps|] == ps;
    if mbr.Some? {
      partitions := partitions + [mbr.value];
    }
    assert partitions == Internal(ps);
    r := NumberAndRotate(partitions);
  }

  lemma Reassociate<T>(a: seq<T>, b: seq<T>, c: seq<T>)
    ensures a + (b + c) == (a + b) + c
  {
  }

  lemma KindsDiffer()
    ensures forall p :: IsMbr(p) ==> !IsTable(p) && !IsApp(p)
    ensures forall p :: IsApp(p) ==> !IsTable(p)
  {
  }

  lemma NothingSeen()
    ensures Apps([]) == [] && Others([]) == [] && LastMbr([]) == []
  {
  }

  lemma NumberIs(ps: seq<Part>, r: seq<Numbered>)
    requires |r| == |ps| && forall i | 0 <= i < |ps| :: r[i] == Numbered(i + 1, ps[i])
    ensures r == Number(ps)
  {
  }

  lemma SeenOne(ps: seq<Part>, p: Part)
    ensures Apps(ps + [p]) == if IsApp(p) then [p] + Apps(ps) else Apps(ps)
    ensures Others(ps + [p]) == if IsTable(p) || IsMbr(p) || IsApp(p) then Others(ps) else Others(ps) + [p]
    ensures LastMbr(ps + [p]) == if IsMbr(p) then [p] else LastMbr(ps)
  {
    assert (ps + [p])[..|ps|] == ps;
  }

  // ----- what the result means

  lemma {:induction false} AppsAre(ps: seq<Part>)
    ensures forall p | p in Apps(ps) :: IsApp(p)
    ensures forall p | IsApp(p) :: multiset(Apps(ps))[p] == multiset(ps)[p]
  {
    if ps != [] {
      var n := |ps| - 1;
      AppsAre(ps[..n]);
      assert ps == ps[..n] + [ps[n]];
    }
  }

  lemma {:induction false} OthersAre(ps: seq<Part>)
    ensures forall p | p in Others(ps) :: IsOther(p)
    ensures forall p | IsOther(p) :: multiset(Others(ps))[p] == multiset(ps)[p]
  {
    if ps != [] {
      var n := |ps| - 1;
      OthersAre(ps[..n]);
      assert ps == ps[..n] + [ps[n]];
    }
  }

  ghost predicate IsLast(ps: seq<Part>, i: nat, name: string)
  {
    i < |ps| && ps[i].name == name && forall j | i < j < |ps| :: ps[j].name != name
  }

  ghost predicate IsLastMbr(ps: seq<Part>, i: nat)
  {
    IsLast(ps, i, "master_boot_record")
  }

  const TABLES: set<string> := {"GP1", "GPT", "primary_gpt", "secondary_gpt"}

  /** The kinds by their names. */
  lemma KindsAre(p: Part)
    ensures IsTable(p) <==> p.name in TABLES
    ensures IsMbr(p) <==> p.name == "master_boot_record"
    ensures IsApp(p) <==> p.name == "APP"
    ensures IsOther(p) <==> p.name !in TABLES && p.name != "master_boot_record" && p.name != "APP"
  {
  }

  lemma {:induction false} MbrIs(ps: seq<Part>)
    ensures |LastMbr(ps)| <= 1
    ensures LastMbr(ps) == [] <==> forall i | 0 <= i < |ps| :: !IsMbr(ps[i])
    ensures LastMbr(ps) != [] ==> exists i: nat :: IsLastMbr(ps, i) && LastMbr(ps) == [ps[i]]
  {
    if ps != [] {
      var n := |ps| - 1;
      if IsMbr(ps[n]) {
        assert IsLastMbr(ps, n);
      } else {
        MbrIs(ps[..n]);
        if LastMbr(ps) != [] {
          var i: nat :| IsLastMbr(ps[..n], i) && LastMbr(ps[..n]) == [ps[..n][i]];
          assert IsLastMbr(ps, i);
        }
      }
    }
  }

  lemma NotIn<T>(s: seq<T>, x: T)
    requires x !in s
    ensures multiset(s)[x] == 0
  {
  }

  /**
   * Conservation: every partition that is neither a partition table nor a master boot record is
   * listed as often as it occurs, no partition table is listed, and of the master boot records only
   * the last.
   */
  lemma Conservation(ps: seq<Part>, p: Part)
    ensures p.name in TABLES ==> p !in Internal(ps)
    ensures p.name !in TABLES && p.name != "master_boot_record" ==> multiset(Internal(ps))[p] == multiset(ps)[p]
    ensures p.name == "master_boot_record" ==>
      multiset(Internal(ps))[p] == if exists i: nat :: IsLastMbr(ps, i) && ps[i] == p then 1 else 0
  {
    AppsAre(ps);
    OthersAre(ps);
    MbrIs(ps);
    KindsAre(p);
    if i: nat :| IsLastMbr(ps, i) && ps[i] == p {
      LastMbrAt(ps, i);
    }
    var a, o, m := Apps(ps), Others(ps), LastMbr(ps);
    assert multiset(Internal(ps)) == multiset(a) + multiset(o) + multiset(m);
    if !IsApp(p) { NotIn(a, p); }
    if !IsOther(p) { NotIn(o, p); }
    if !IsMbr(p) { NotIn(m, p); }
    if m != [] {
      assert m == [m[0]];
      assert multiset(m) == multiset{m[0]};
    }
  }

  /** The printed list carries the numbers 2, 3, ..., n, 1, each next to its partition. */
  lemma PrintedNumbers(ps: seq<Part>, i: nat)
    requires Internal(ps) != [] && i < |Internal(ps)|
    ensures var n, r := |Internal(ps)|, Parsed(ps).value;
      && |r| == n && r[i].num == (if i == n - 1 then 1 else i + 2) && r[i].part == Internal(ps)[r[i].num - 1]
  {
    var s := Number(Internal(ps));
    var r := RotateLeft(s);
    if i < |s| - 1 {
      assert r[i] == s[1..][i] == s[i + 1];
    } else {
      assert r[i] == s[0];
    }
  }

  /** The last-seen APP is number 1 and is printed last. */
  lemma LastAppIsFirst(ps: seq<Part>, i: nat)
    requires IsLast(ps, i, "APP")
    ensures Internal(ps) != [] && Internal(ps)[0] == ps[i]
    ensures var r := Parsed(ps).value; r[|r| - 1] == Numbered(1, ps[i])
  {
    LastApp(ps, i);
    PrintedNumbers(ps, |Internal(ps)| - 1);
  }

  lemma {:induction false} LastApp(ps: seq<Part>, i: nat)
    requires i < |ps| && IsApp(ps[i]) && forall j | i < j < |ps| :: !IsApp(ps[j])
    ensures Apps(ps) != [] && Apps(ps)[0] == ps[i]
    decreases |ps|
  {
    if i < |ps| - 1 {
      LastApp(ps[..|ps| - 1], i);
    }
  }

  /** The last-seen master boot record has the highest number, and is printed last but for number 1. */
  lemma MbrIsLast(ps: seq<Part>, i: nat)
    requires IsLastMbr(ps, i)
    ensures var n := |Internal(ps)|;
      && n > 0 && |Parsed(ps).value| == n
      && Parsed(ps).value[if n == 1 then 0 else n - 2] == Numbered(n, ps[i])
  {
    MbrIs(ps);
    LastMbrAt(ps, i);
    var n := |Internal(ps)|;
    PrintedNumbers(ps, if n == 1 then 0 else n - 2);
  }

  lemma {:induction false} LastMbrAt(ps: seq<Part>, i: nat)
    requires IsLastMbr(ps, i)
    ensures LastMbr(ps) == [ps[i]]
    decreases |ps|
  {
    if i < |ps| - 1 {
      LastMbrAt(ps[..|ps| - 1], i);
    }
  }

  /** The number of the ordinary partition ps[i]. */
  function NumberOf(ps: seq<Part>, i: nat): nat
    requires i < |ps|
  {
    |Apps(ps)| + |Others(ps[..i])| + 1
  }

  lemma {:induction false} OthersPrefix(ps: seq<Part>, i: nat)
    requires i <= |ps|
    ensures Others(ps[..i]) <= Others(ps)
    decreases |ps|
  {
    if i == |ps| {
      assert ps[..i] == ps;
    } else {
      var init := ps[..|ps| - 1];
      OthersPrefix(init, i);
      assert init[..i] == ps[..i];
    }
  }

  /** Ordinary partitions are numbered in input order. */
  lemma OthersInOrder(ps: seq<Part>, i: nat, j: nat)
    requires i < j < |ps|
    requires forall k | k == i || k == j ::
      ps[k].name !in TABLES && ps[k].name != "master_boot_record" && ps[k].name != "APP"
    ensures NumberOf(ps, i) < NumberOf(ps, j) <= |Internal(ps)|
    ensures Internal(ps)[NumberOf(ps, i) - 1] == ps[i] && Internal(ps)[NumberOf(ps, j) - 1] == ps[j]
  {
    KindsAre(ps[i]);
    KindsAre(ps[j]);
    OtherAt(ps, i);
    OtherAt(ps, j);
    OthersPrefix(ps[..j], i + 1);
    assert ps[..j][..i + 1] == ps[..i + 1];
  }

  lemma OtherAt(ps: seq<Part>, i: nat)
    requires i < |ps| && IsOther(ps[i])
    ensures |Others(ps[..i + 1])| == |Others(ps[..i])| + 1
    ensures NumberOf(ps, i) <= |Internal(ps)| && Internal(ps)[NumberOf(ps, i) - 1] == ps[i]
  {
    assert ps[..i + 1][..i] == ps[..i];
    OthersPrefix(ps, i + 1);
    var o, k := Others(ps), |Others(ps[..i])|;
    assert o[k] == o[..k + 1][k] == ps[i];
    assert Internal(ps)[|Apps(ps)| + k] == o[k];
  }
}
