/** The Python string operations the tools use: split, join, replace, "in" and re.search('<(.+?)>'). */
module Text {
  import opened Options

  function IndexOf<T(==)>(s: seq<T>, c: T): (i: nat)
    requires c in s
    ensures i < |s| && s[i] == c && c !in s[..i]
  {
    if s[0] == c then 0 else
    var j := IndexOf(s[1..], c);
    assert s[..j + 1] == [s[0]] + s[1..][..j];
    j + 1
  }

  /** s.split(c) for a single separator. */
  function Split<T(==)>(s: seq<T>, c: T): (parts: seq<seq<T>>)
    ensures |parts| >= 1
  {
    if c !in s then [s] else
    var i := IndexOf(s, c);
    [s[..i]] + Split(s[i + 1..], c)
  }

  function Join<T>(parts: seq<seq<T>>, c: T): seq<T>
    requires |parts| >= 1
  {
    if |parts| == 1 then parts[0] else parts[0] + [c] + Join(parts[1..], c)
  }

  lemma IndexOfFirst<T>(a: seq<T>, c: T, b: seq<T>)
    requires c !in a
    ensures c in a + [c] + b && IndexOf(a + [c] + b, c) == |a|
  {
    var s := a + [c] + b;
    assert s[|a|] == c;
    IndexOfLeast(s, c, |a|);
    assert forall k :: 0 <= k < |a| ==> s[k] == a[k];
  }

  lemma {:induction false} IndexOfLeast<T>(s: seq<T>, c: T, i: nat)
    requires i < |s| && s[i] == c
    ensures c in s && IndexOf(s, c) <= i
  {
    if s[0] != c {
      IndexOfLeast(s[1..], c, i - 1);
    }
  }

  lemma {:induction false} SplitJoin<T>(parts: seq<seq<T>>, c: T)
    requires |parts| >= 1
    requires forall p :: p in parts ==> c !in p
    ensures Split(Join(parts, c), c) == parts
  {
    if |parts| > 1 {
      var a, b := parts[0], Join(parts[1..], c);
      IndexOfFirst(a, c, b);
      var s := a + [c] + b;
      assert Join(parts, c) == s;
      assert s[..|a|] == a && s[|a| + 1..] == b;
      SplitJoin(parts[1..], c);
    }
  }

  lemma {:induction false} SplitParts<T>(s: seq<T>, c: T)
    ensures forall p :: p in Split(s, c) ==> c !in p
    decreases |s|
  {
    if c in s {
      SplitParts(s[IndexOf(s, c) + 1..], c);
    }
  }

  lemma {:induction false} JoinSplit<T>(s: seq<T>, c: T)
    ensures Join(Split(s, c), c) == s
    decreases |s|
  {
    hide IndexOf;
    if c in s {
      var i := IndexOf(s, c);
      var head, tail := s[..i], s[i + 1..];
      JoinSplit(tail, c);
      JoinCons(head, Split(tail, c), c);
      assert s == head + [c] + tail;
    }
  }

  lemma JoinCons<T>(x: seq<T>, rest: seq<seq<T>>, c: T)
    requires |rest| >= 1
    ensures Join([x] + rest, c) == x + [c] + Join(rest, c)
  {
    assert ([x] + rest)[1..] == rest;
  }

  /** Splitting is the only way to cut a text into parts without the separator. */
  lemma SplitExact<T>(s: seq<T>, c: T, parts: seq<seq<T>>)
    ensures parts == Split(s, c) <==> |parts| >= 1 && Join(parts, c) == s && forall p | p in parts :: c !in p
  {
    hide Join;
    hide Split;
    SplitParts(s, c);
    JoinSplit(s, c);
    if |parts| >= 1 && Join(parts, c) == s && forall p | p in parts :: c !in p {
      SplitJoin(parts, c);
    }
  }

  // ----- substrings

  predicate OccursAt<T(==)>(s: seq<T>, p: seq<T>, i: nat)
  {
    i + |p| <= |s| && s[i..i + |p|] == p
  }

  /** Python's "p in s". */
  predicate Contains<T(==)>(s: seq<T>, p: seq<T>)
  {
    exists i | 0 <= i <= |s| :: OccursAt(s, p, i)
  }

  /** The text has p somewhere inside. */
  ghost predicate Holds(s: string, p: string)
  {
    exists a: string, b: string :: s == a + p + b
  }

  lemma ContainsIs(s: string, p: string)
    ensures Contains(s, p) <==> Holds(s, p)
  {
    if Contains(s, p) {
      var i :| 0 <= i <= |s| && OccursAt(s, p, i);
      assert s == s[..i] + p + s[i + |p|..];
    }
    if Holds(s, p) {
      var a: string, b: string :| s == a + p + b;
      assert s[|a|..|a| + |p|] == p;
      assert OccursAt(s, p, |a|);
    }
  }

  /** s.replace(p, r), and re.sub for a pattern without metacharacters: leftmost matches, not overlapping. */
  function ReplaceAll<T(==)>(s: seq<T>, p: seq<T>, r: seq<T>): seq<T>
    requires |p| > 0
    decreases |s|
  {
    if |s| < |p| then s
    else if s[..|p|] == p then r + ReplaceAll(s[|p|..], p, r)
    else [s[0]] + ReplaceAll(s[1..], p, r)
  }

  /** Characters before any match are copied. */
  lemma {:induction false} ReplaceSkip<T>(s: seq<T>, p: seq<T>, r: seq<T>, k: nat)
    requires |p| > 0 && k <= |s|
    requires forall i | 0 <= i < k :: !OccursAt(s, p, i)
    ensures ReplaceAll(s, p, r) == s[..k] + ReplaceAll(s[k..], p, r)
    decreases k
  {
    hide ReplaceAll;
    if k == 0 {
      assert s[0..] == s;
    } else {
      assert !OccursAt(s, p, 0);
      var t := s[1..];
      forall i | 0 <= i < k - 1
        ensures !OccursAt(t, p, i)
      {
        OccursShift(s, p, i);
      }
      ReplaceSkip(t, p, r, k - 1);
      assert t[k - 1..] == s[k..] && s[..k] == [s[0]] + t[..k - 1];
      ReplaceFirst(s, p, r);
    }
  }

  lemma OccursShift<T>(s: seq<T>, p: seq<T>, i: nat)
    requires |s| > 0
    ensures OccursAt(s[1..], p, i) == OccursAt(s, p, i + 1)
  {
    if i + 1 + |p| <= |s| {
      assert s[1..][i..i + |p|] == s[i + 1..i + 1 + |p|];
    }
  }

  lemma ReplaceFirst<T>(s: seq<T>, p: seq<T>, r: seq<T>)
    requires |p| > 0 && |s| > 0 && !OccursAt(s, p, 0)
    ensures ReplaceAll(s, p, r) == [s[0]] + ReplaceAll(s[1..], p, r)
  {
    if |s| < |p| {
      assert s == [s[0]] + s[1..];
    }
  }

  lemma ReplaceAbsent<T>(s: seq<T>, p: seq<T>, r: seq<T>)
    requires |p| > 0 && !Contains(s, p)
    ensures ReplaceAll(s, p, r) == s
  {
    ReplaceSkip(s, p, r, |s|);
  }

  lemma ReplaceWhole<T>(p: seq<T>, r: seq<T>)
    requires |p| > 0
    ensures ReplaceAll(p, p, r) == r
  {
    assert p[..|p|] == p && p[|p|..] == [];
  }

  /** Where the pattern occurs the replacement appears, with something around it unless s is the pattern. */
  lemma {:induction false} ReplaceHits<T>(s: seq<T>, p: seq<T>, r: seq<T>)
    requires |p| > 0 && |r| > 0 && Contains(s, p)
    ensures Contains(ReplaceAll(s, p, r), r)
    ensures s != p ==> ReplaceAll(s, p, r) != r
    decreases |s|
  {
    var i :| 0 <= i <= |s| && OccursAt(s, p, i);
    if s[..|p|] == p {
      ReplaceHead(s, p, r);
    } else {
      hide ReplaceAll;
      hide OccursAt;
      ReplaceFirst(s, p, r);
      OccursShift(s, p, i - 1);
      ReplaceHits(s[1..], p, r);
      ContainsTail(s[0], ReplaceAll(s[1..], p, r), r);
    }
  }

  lemma ReplaceHead<T>(s: seq<T>, p: seq<T>, r: seq<T>)
    requires |p| > 0 && |r| > 0 && p <= s
    ensures Contains(ReplaceAll(s, p, r), r)
    ensures s != p ==> ReplaceAll(s, p, r) != r
  {
    hide ReplaceAll;
    var rest := ReplaceAll(s[|p|..], p, r);
    ReplaceMatch(s, p, r);
    assert (r + rest)[..|r|] == r && OccursAt(r + rest, r, 0);
    if s != p {
      ReplaceNotEmpty(s[|p|..], p, r);
    }
  }

  lemma ReplaceMatch<T>(s: seq<T>, p: seq<T>, r: seq<T>)
    requires |p| > 0 && p <= s
    ensures ReplaceAll(s, p, r) == r + ReplaceAll(s[|p|..], p, r)
  {
  }

  lemma ContainsTail<T>(x: T, s: seq<T>, p: seq<T>)
    requires Contains(s, p)
    ensures Contains([x] + s, p) && [x] + s != p
  {
    var i :| 0 <= i <= |s| && OccursAt(s, p, i);
    assert ([x] + s)[1..] == s;
    OccursShift([x] + s, p, i);
  }

  lemma ReplaceNotEmpty<T>(s: seq<T>, p: seq<T>, r: seq<T>)
    requires |p| > 0 && |r| > 0 && |s| > 0
    ensures |ReplaceAll(s, p, r)| > 0
  {
  }

  lemma {:induction false} ReplaceChars<T>(s: seq<T>, p: seq<T>, r: seq<T>, c: T)
    requires |p| > 0 && c !in s && c !in r
    ensures c !in ReplaceAll(s, p, r)
    decreases |s|
  {
    if |s| >= |p| {
      if s[..|p|] == p {
        ReplaceChars(s[|p|..], p, r, c);
      } else {
        ReplaceChars(s[1..], p, r, c);
      }
    }
  }

  lemma ContainsSelf<T>(s: seq<T>)
    ensures Contains(s, s)
  {
    assert OccursAt(s, s, 0);
  }

  lemma ContainsTrans<T>(a: seq<T>, b: seq<T>, c: seq<T>)
    requires Contains(a, b) && Contains(b, c)
    ensures Contains(a, c)
    ensures |c| <= |b| <= |a| && (|c| == |b| ==> c == b)
  {
    var i :| 0 <= i <= |a| && OccursAt(a, b, i);
    var j :| 0 <= j <= |b| && OccursAt(b, c, j);
    OccursWithin(a, b, c, i, j);
  }

  /** Occurrences inside a part, seen from the whole. */
  lemma OccursWithin<T>(a: seq<T>, b: seq<T>, c: seq<T>, i: nat, j: nat)
    requires OccursAt(a, b, i) && j + |c| <= |b|
    ensures OccursAt(b, c, j) <==> OccursAt(a, c, i + j)
  {
    var x, y := a[i + j..i + j + |c|], b[j..j + |c|];
    forall k | 0 <= k < |c|
      ensures x[k] == y[k]
    {
      assert a[i..i + |b|][j + k] == b[j + k];
    }
    assert x == y;
  }

  lemma {:induction false} ReplaceBySame<T>(s: seq<T>, p: seq<T>)
    requires |p| > 0
    ensures ReplaceAll(s, p, p) == s
    decreases |s|
  {
    if |s| >= |p| {
      if s[..|p|] == p {
        ReplaceBySame(s[|p|..], p);
        assert s == s[..|p|] + s[|p|..];
      } else {
        ReplaceBySame(s[1..], p);
      }
    }
  }

  /** A character that the pattern lacks separates the text into independent parts. */
  lemma {:induction false} ReplaceAround<T>(a: seq<T>, c: T, b: seq<T>, p: seq<T>, r: seq<T>)
    requires |p| > 0 && c !in p
    ensures ReplaceAll(a + [c] + b, p, r) == ReplaceAll(a, p, r) + [c] + ReplaceAll(b, p, r)
    decreases |a|
  {
    var s := a + [c] + b;
    if |a| < |p| {
      ReplaceShort(a, c, b, p, r);
    } else if a[..|p|] == p {
      assert s[..|p|] == p;
      assert s[|p|..] == a[|p|..] + [c] + b;
      ReplaceAround(a[|p|..], c, b, p, r);
    } else {
      assert s[..|p|] == a[..|p|];
      assert s[1..] == a[1..] + [c] + b;
      ReplaceAround(a[1..], c, b, p, r);
    }
  }

  lemma ReplaceShort<T>(a: seq<T>, c: T, b: seq<T>, p: seq<T>, r: seq<T>)
    requires |a| < |p| && c !in p
    ensures ReplaceAll(a + [c] + b, p, r) == a + [c] + ReplaceAll(b, p, r)
  {
    var s, k := a + [c] + b, |a| + 1;
    assert s[|a|] == c && s[..k] == a + [c] && s[k..] == b;
    forall i | 0 <= i < k
      ensures !OccursAt(s, p, i)
    {
      if OccursAt(s, p, i) {
        OccurrenceCovers(s, p, i, |a|);
      }
    }
    ReplaceSkip(s, p, r, k);
  }

  lemma OccurrenceCovers<T>(s: seq<T>, p: seq<T>, i: nat, k: nat)
    requires OccursAt(s, p, i) && i <= k < i + |p|
    ensures s[k] in p
  {
    assert s[k] == p[k - i];
  }

  lemma ContainsAround<T>(a: seq<T>, c: T, b: seq<T>, p: seq<T>)
    requires c !in p
    ensures Contains(a + [c] + b, p) <==> Contains(a, p) || Contains(b, p)
  {
    hide OccursAt;
    var s := a + [c] + b;
    AroundParts(a, c, b);
    if Contains(s, p) {
      var i :| 0 <= i <= |s| && OccursAt(s, p, i);
      OccursSide(a, c, b, p, i);
      if i + |p| <= |a| {
        OccursWithin(s, a, p, 0, i);
      } else {
        OccursWithin(s, b, p, |a| + 1, i - |a| - 1);
      }
    }
    if Contains(a, p) {
      var i :| 0 <= i <= |a| && OccursAt(a, p, i);
      OccursFits(a, p, i);
      OccursWithin(s, a, p, 0, i);
    }
    if Contains(b, p) {
      var i :| 0 <= i <= |b| && OccursAt(b, p, i);
      OccursFits(b, p, i);
      OccursWithin(s, b, p, |a| + 1, i);
    }
  }

  lemma AroundParts<T>(a: seq<T>, c: T, b: seq<T>)
    ensures OccursAt(a + [c] + b, a, 0) && OccursAt(a + [c] + b, b, |a| + 1)
  {
    var s := a + [c] + b;
    assert s[0..|a|] == a && s[|a| + 1..|a| + 1 + |b|] == b;
  }

  lemma OccursFits<T>(s: seq<T>, p: seq<T>, i: nat)
    requires OccursAt(s, p, i)
    ensures i + |p| <= |s|
  {
  }

  /** An occurrence of a pattern without c lies on one side of c. */
  lemma OccursSide<T>(a: seq<T>, c: T, b: seq<T>, p: seq<T>, i: nat)
    requires c !in p && OccursAt(a + [c] + b, p, i)
    ensures i + |p| <= |a| || (i > |a| && i - |a| - 1 + |p| <= |b|)
  {
    if i <= |a| < i + |p| {
      OccurrenceCovers(a + [c] + b, p, i, |a|);
    }
  }

  // ----- re.search('<(.+?)>', line).group(1)

  /** The least j >= max(1, from) with s[j] == '>' and no line break before it, from position from on. */
  function RunTo(s: string, from: nat): (r: Option<nat>)
    requires from <= |s|
    ensures r.Some? ==> 1 <= r.value < |s| && s[r.value] == '>'
    decreases |s| - from
  {
    if from == |s| then None
    else if from >= 1 && s[from] == '>' then Some(from)
    else if s[from] == '\n' then None
    else RunTo(s, from + 1)
  }

  /** The text of the first "<...>" group: at least one character, as few as possible, on one line. */
  function AngleGroup(s: string): Option<string>
  {
    if s == [] then None
    else if s[0] == '<' && RunTo(s[1..], 0).Some? then Some(s[1..][..RunTo(s[1..], 0).value])
    else AngleGroup(s[1..])
  }

  lemma {:induction false} RunToGroup(g: string, post: string, from: nat)
    requires from <= |g| && |g| >= 1 && '>' !in g && '\n' !in g
    ensures RunTo(g + ['>'] + post, from) == Some(|g|)
    decreases |g| - from
  {
    var s := g + ['>'] + post;
    if from < |g| {
      assert s[from] == g[from];
      RunToGroup(g, post, from + 1);
    }
  }

  /** The group of a line "pre<g>post" is g. */
  lemma {:induction false} AngleGroupOf(pre: string, g: string, post: string)
    requires '<' !in pre && |g| >= 1 && '>' !in g && '\n' !in g
    ensures AngleGroup(pre + ['<'] + g + ['>'] + post) == Some(g)
  {
    var s := pre + ['<'] + g + ['>'] + post;
    if pre == [] {
      assert s[1..] == g + ['>'] + post;
      RunToGroup(g, post, 0);
      assert s[1..][..|g|] == g;
    } else {
      assert s[0] == pre[0];
      assert s[1..] == pre[1..] + ['<'] + g + ['>'] + post;
      AngleGroupOf(pre[1..], g, post);
    }
  }

  /** The first r characters are a group that ends in front of '>': not empty, on one line, the shortest. */
  ghost predicate IsRun(s: string, r: int)
  {
    1 <= r < |s| && s[r] == '>' && '\n' !in s[..r] && forall k | 1 <= k < r :: s[k] != '>'
  }

  lemma {:induction false} RunToIs(s: string, from: nat)
    requires from <= |s| && '\n' !in s[..from] && forall k | 1 <= k < from :: s[k] != '>'
    ensures forall r: nat :: RunTo(s, from) == Some(r) <==> IsRun(s, r)
    decreases |s| - from
  {
    if from < |s| && !(from >= 1 && s[from] == '>') && s[from] != '\n' {
      assert s[..from + 1] == s[..from] + [s[from]];
      RunToIs(s, from + 1);
    } else {
      forall r: nat
        ensures RunTo(s, from) == Some(r) <==> IsRun(s, r)
      {
        if from < r < |s| && s[from] == '\n' {
          assert s[..r][from] == '\n';
        }
        if r < from {
          assert r == 0 || s[r] != '>';
        }
      }
    }
  }

  /** A group of r characters opens at position i. */
  ghost predicate GroupAt(s: string, i: int, r: int)
  {
    0 <= i < |s| && s[i] == '<' && IsRun(s[i + 1..], r)
  }

  ghost predicate Opens(s: string, i: int)
  {
    exists r :: GroupAt(s, i, r)
  }

  /** The group at position i, where the first one opens. */
  ghost predicate FirstGroup(s: string, i: int, r: int, g: string)
  {
    GroupAt(s, i, r) && r < |s[i + 1..]| && g == s[i + 1..][..r] && forall k | 0 <= k < i :: !Opens(s, k)
  }

  lemma OpensShift(s: string, i: int, r: int)
    requires s != [] && i >= 0
    ensures GroupAt(s, i + 1, r) <==> GroupAt(s[1..], i, r)
  {
    if i + 1 < |s| {
      assert s[1..][i + 1..] == s[i + 1 + 1..] && s[1..][i] == s[i + 1];
    }
  }

  lemma OpensNext(s: string, i: int)
    requires s != [] && i >= 0
    ensures Opens(s, i + 1) <==> Opens(s[1..], i)
  {
    hide GroupAt;
    var j := i + 1;
    if r :| GroupAt(s, j, r) {
      OpensShift(s, i, r);
    }
    if r :| GroupAt(s[1..], i, r) {
      OpensShift(s, i, r);
    }
  }

  lemma OpensFirst(s: string)
    requires s != []
    ensures Opens(s, 0) <==> s[0] == '<' && RunTo(s[1..], 0).Some?
    ensures Opens(s, 0) ==> GroupAt(s, 0, RunTo(s[1..], 0).value)
  {
    hide RunTo;
    hide IsRun;
    RunToIs(s[1..], 0);
    if Opens(s, 0) {
      var r :| GroupAt(s, 0, r);
      RunIsLong(s[1..], r);
      assert RunTo(s[1..], 0) == Some(r as nat);
    }
    if s[0] == '<' && RunTo(s[1..], 0).Some? {
      assert GroupAt(s, 0, RunTo(s[1..], 0).value);
    }
  }

  lemma RunIsLong(s: string, r: int)
    requires IsRun(s, r)
    ensures 1 <= r < |s|
  {
  }

  /** re.search finds the first position where a group opens, and the group is the shortest from there. */
  lemma {:induction false} AngleGroupIs(s: string)
    ensures AngleGroup(s).None? <==> forall i | 0 <= i :: !Opens(s, i)
    ensures AngleGroup(s).Some? ==> exists i: nat, r: nat :: FirstGroup(s, i, r, AngleGroup(s).value)
  {
    hide RunTo;
    hide IsRun;
    if s != [] {
      OpensFirst(s);
      if Opens(s, 0) {
        assert FirstGroup(s, 0, RunTo(s[1..], 0).value, AngleGroup(s).value);
      } else {
        AngleGroupIs(s[1..]);
        forall i | i >= 0
          ensures Opens(s, i + 1) <==> Opens(s[1..], i)
        {
          OpensNext(s, i);
        }
        if AngleGroup(s).Some? {
          var i: nat, r: nat :| FirstGroup(s[1..], i, r, AngleGroup(s).value);
          forall k | 0 <= k < i + 1
            ensures !Opens(s, k)
          {
            assert k > 0 ==> !Opens(s[1..], k - 1) && Opens(s, k - 1 + 1) == Opens(s[1..], k - 1);
          }
          assert s[1..][i + 1..] == s[i + 1 + 1..];
          assert FirstGroup(s, i + 1, r, AngleGroup(s).value);
        } else {
          forall i | 0 <= i
            ensures !Opens(s, i)
          {
            assert i > 0 ==> !Opens(s[1..], i - 1) && Opens(s, i - 1 + 1) == Opens(s[1..], i - 1);
          }
        }
      }
    }
  }
}
