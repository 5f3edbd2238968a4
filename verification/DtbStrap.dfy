/** The strap line of the trimmer: substituting one id after the other equals masking the tokens. */
module DtbStrap {
  import opened Options
  import opened Text
  import opened DtbDetect
  import opened DtbTrimmer

  /** "pre<id id ... id>post" */
  function StrapText(pre: string, tokens: seq<string>, post: string): string
    requires |tokens| >= 1
  {
    pre + ['<'] + Join(tokens, ' ') + ['>'] + post
  }

  /** The intended result: the selected id stays, every other token becomes 0x0. */
  function Masked(ids: seq<string>, sel: string): (r: seq<string>)
    ensures |r| == |ids|
  {
    seq(|ids|, i requires 0 <= i < |ids| => if ids[i] == sel then sel else ZERO)
  }

  predicate PlainId(id: string)
  {
    id != "" && ' ' !in id && '<' !in id && '>' !in id && '\n' !in id && '{' !in id && '}' !in id
  }

  ghost predicate PlainIds(ids: seq<string>)
  {
    |ids| >= 1 && forall i | 0 <= i < |ids| :: PlainId(ids[i])
  }

  /** An unselected id other than 0x0, which is substituted by itself. */
  predicate Substituted(ids: seq<string>, sel: string, i: nat)
    requires i < |ids|
  {
    ids[i] != sel && ids[i] != ZERO
  }

  /**
   * No substituted id occurs outside the angle brackets, nor inside a token that is to survive it:
   * the selected id, a 0x0 written before, or an id whose own turn comes later.
   */
  ghost predicate Independent(pre: string, post: string, ids: seq<string>, sel: string)
  {
    NotAround(pre, post, ids, sel) && ZeroFirst(ids, sel) && NotInside(ids, sel)
  }

  ghost predicate NotAround(pre: string, post: string, ids: seq<string>, sel: string)
  {
    forall i | 0 <= i < |ids| && Substituted(ids, sel, i) :: !Contains(pre, ids[i]) && !Contains(post, ids[i])
  }

  /** An unselected id that is a proper part of 0x0 has only the selected id in front of it. */
  ghost predicate ZeroFirst(ids: seq<string>, sel: string)
  {
    forall i, j | 0 <= j < i < |ids| && Substituted(ids, sel, i) && Contains(ZERO, ids[i]) :: ids[j] == sel
  }

  /** A substituted id is part of neither the selected id nor an id that first appears behind it. */
  ghost predicate NotInside(ids: seq<string>, sel: string)
  {
    forall i | 0 <= i < |ids| && Substituted(ids, sel, i) ::
      !Contains(sel, ids[i]) && forall j | i < j < |ids| && ids[j] !in ids[..i + 1] :: !Contains(ids[j], ids[i])
  }

  /** No id holds 0x0 and more. */
  ghost predicate NoneHoldZero(ids: seq<string>)
  {
    forall i | 0 <= i < |ids| :: !Spoiled(ids[i])
  }

  /** Token u after the first k ids were substituted. */
  function Progress(ids: seq<string>, sel: string, k: nat, u: string): string
    requires k <= |ids|
  {
    if u != sel && u in ids[..k] then ZERO else u
  }

  /** Every token rewritten on its own. */
  function RewriteEach(tokens: seq<string>, ids: seq<string>, sel: string, k: nat): (r: seq<string>)
    requires k <= |ids|
    ensures |r| == |tokens|
  {
    seq(|tokens|, i requires 0 <= i < |tokens| => RewriteTo(tokens[i], ids, sel, k))
  }

  function ReplaceEach(tokens: seq<string>, p: string): (r: seq<string>)
    requires |p| > 0
    ensures |r| == |tokens|
  {
    seq(|tokens|, i requires 0 <= i < |tokens| => ReplaceAll(tokens[i], p, ZERO))
  }

  /** A pattern without blanks is substituted token by token. */
  lemma {:induction false} ReplaceInJoin(tokens: seq<string>, p: string)
    requires |tokens| >= 1 && |p| > 0 && ' ' !in p
    ensures ReplaceAll(Join(tokens, ' '), p, ZERO) == Join(ReplaceEach(tokens, p), ' ')
  {
    hide ReplaceAll;
    if |tokens| > 1 {
      var rest := tokens[1..];
      ReplaceInJoin(rest, p);
      ReplaceAround(tokens[0], ' ', Join(rest, ' '), p, ZERO);
      assert ReplaceEach(tokens, p)[1..] == ReplaceEach(rest, p);
    }
  }

  lemma ReplaceInStrap(pre: string, tokens: seq<string>, post: string, p: string)
    requires |tokens| >= 1 && PlainId(p)
    ensures ReplaceAll(StrapText(pre, tokens, post), p, ZERO)
         == StrapText(ReplaceAll(pre, p, ZERO), ReplaceEach(tokens, p), ReplaceAll(post, p, ZERO))
  {
    hide ReplaceAll;
    hide Join;
    hide ReplaceEach;
    var g := Join(tokens, ' ');
    assert StrapText(pre, tokens, post) == pre + ['<'] + (g + ['>'] + post);
    ReplaceAround(pre, '<', g + ['>'] + post, p, ZERO);
    ReplaceAround(g, '>', post, p, ZERO);
    ReplaceInJoin(tokens, p);
    var pre', g', post' := ReplaceAll(pre, p, ZERO), Join(ReplaceEach(tokens, p), ' '), ReplaceAll(post, p, ZERO);
    assert StrapText(pre', ReplaceEach(tokens, p), post') == pre' + ['<'] + (g' + ['>'] + post');
  }

  /** Substituting one id takes the progress of every token one step further. */
  lemma TokenStep(pre: string, post: string, ids: seq<string>, sel: string, k: nat, i: nat)
    requires PlainIds(ids) && Independent(pre, post, ids, sel)
    requires 0 < k <= |ids| && i < |ids| && Substituted(ids, sel, k - 1)
    ensures ReplaceAll(Progress(ids, sel, k - 1, ids[i]), ids[k - 1], ZERO) == Progress(ids, sel, k, ids[i])
  {
    hide ReplaceAll;
    hide Contains;
    var p, u := ids[k - 1], ids[i];
    var v := Progress(ids, sel, k - 1, u);
    InPrefix(ids, k, u);
    if i < k - 1 {
      InTake(ids, k - 1, i);
    }
    if v == p {
      ReplaceWhole(p, ZERO);
    } else {
      assert !Contains(v, p);
      ReplaceAbsent(v, p, ZERO);
    }
  }

  lemma InTake(ids: seq<string>, n: nat, i: nat)
    requires i < n <= |ids|
    ensures ids[i] in ids[..n]
  {
    assert ids[..n][i] == ids[i];
  }

  lemma InPrefix(ids: seq<string>, k: nat, u: string)
    requires 0 < k <= |ids|
    ensures u in ids[..k] <==> u in ids[..k - 1] || u == ids[k - 1]
  {
    assert ids[..k] == ids[..k - 1] + [ids[k - 1]];
  }

  /** The line is rewritten token by token, and in front of the brackets and behind them. */
  lemma {:induction false} RewriteTokenwise(pre: string, post: string, tokens: seq<string>, ids: seq<string>,
                                            sel: string, k: nat)
    requires |tokens| >= 1 && PlainIds(ids) && k <= |ids|
    ensures RewriteTo(StrapText(pre, tokens, post), ids, sel, k)
         == StrapText(RewriteTo(pre, ids, sel, k), RewriteEach(tokens, ids, sel, k), RewriteTo(post, ids, sel, k))
  {
    hide StrapText;
    hide ReplaceAll;
    if k == 0 {
      assert RewriteEach(tokens, ids, sel, 0) == tokens;
    } else {
      RewriteTokenwise(pre, post, tokens, ids, sel, k - 1);
      var p, before, after := ids[k - 1], RewriteEach(tokens, ids, sel, k - 1), RewriteEach(tokens, ids, sel, k);
      assert PlainId(p);
      if p == sel {
        assert after == before;
      } else {
        ReplaceInStrap(RewriteTo(pre, ids, sel, k - 1), before, RewriteTo(post, ids, sel, k - 1), p);
        assert after == ReplaceEach(before, p);
      }
    }
  }

  /** A text in which no substituted id occurs stays as it is. */
  lemma {:induction false} OutsideStays(t: string, ids: seq<string>, sel: string, k: nat)
    requires PlainIds(ids) && k <= |ids|
    requires forall i | 0 <= i < k && Substituted(ids, sel, i) :: !Contains(t, ids[i])
    ensures RewriteTo(t, ids, sel, k) == t
  {
    hide ReplaceAll;
    hide Contains;
    if k > 0 {
      OutsideStays(t, ids, sel, k - 1);
      var p := ids[k - 1];
      assert PlainId(p);
      if Substituted(ids, sel, k - 1) {
        ReplaceAbsent(t, p, ZERO);
      } else {
        ReplaceBySame(t, ZERO);
      }
    }
  }

  lemma {:induction false} TokenProgress(pre: string, post: string, ids: seq<string>, sel: string, k: nat, i: nat)
    requires PlainIds(ids) && Independent(pre, post, ids, sel) && k <= |ids| && i < |ids|
    ensures RewriteTo(ids[i], ids, sel, k) == Progress(ids, sel, k, ids[i])
  {
    hide ReplaceAll;
    hide Independent;
    if k > 0 {
      TokenProgress(pre, post, ids, sel, k - 1, i);
      assert PlainId(ids[k - 1]);
      if Substituted(ids, sel, k - 1) {
        TokenStep(pre, post, ids, sel, k, i);
      } else {
        InPrefix(ids, k, ids[i]);
        ReplaceBySame(Progress(ids, sel, k - 1, ids[i]), ZERO);
      }
    }
  }

  /** The strap line rewrite: one substring substitution after the other equals masking the tokens. */
  lemma StrapRewrite(pre: string, post: string, ids: seq<string>, sel: string)
    requires PlainIds(ids) && Independent(pre, post, ids, sel)
    ensures RewriteTo(StrapText(pre, ids, post), ids, sel, |ids|) == StrapText(pre, Masked(ids, sel), post)
  {
    hide StrapText;
    hide RewriteTo;
    hide Contains;
    RewriteTokenwise(pre, post, ids, ids, sel, |ids|);
    OutsideStays(pre, ids, sel, |ids|);
    OutsideStays(post, ids, sel, |ids|);
    forall i | 0 <= i < |ids|
      ensures RewriteEach(ids, ids, sel, |ids|)[i] == Masked(ids, sel)[i]
    {
      TokenProgress(pre, post, ids, sel, |ids|, i);
      assert ids[..|ids|] == ids && ids[i] in ids;
    }
    assert RewriteEach(ids, ids, sel, |ids|) == Masked(ids, sel);
  }

  /** A second rewrite changes nothing: the only unselected id left is 0x0. */
  lemma {:induction false} RewriteAgain(line: string, ids: seq<string>, sel: string, k: nat)
    requires k <= |ids|
    ensures RewriteTo(line, Masked(ids, sel), sel, k) == line
  {
    hide ReplaceAll;
    if k > 0 {
      RewriteAgain(line, ids, sel, k - 1);
      ReplaceBySame(line, ZERO);
    }
  }

  /** The ids read back from a strap line. */
  lemma StrapIds(pre: string, tokens: seq<string>, post: string)
    requires PlainIds(tokens) && '<' !in pre
    ensures IdsOf(StrapText(pre, tokens, post)) == Some(tokens)
  {
    hide Join;
    hide Split;
    var g := Join(tokens, ' ');
    JoinedChars(tokens, '>');
    JoinedChars(tokens, '\n');
    JoinNotEmpty(tokens);
    AngleGroupOf(pre, g, post);
    assert forall t | t in tokens :: ' ' !in t;
    SplitJoin(tokens, ' ');
  }

  lemma JoinNotEmpty(tokens: seq<string>)
    requires PlainIds(tokens)
    ensures |Join(tokens, ' ')| >= 1
  {
    assert PlainId(tokens[0]);
  }

  lemma {:induction false} JoinedChars(tokens: seq<string>, c: char)
    requires |tokens| >= 1 && c != ' '
    ensures c in Join(tokens, ' ') <==> exists i :: 0 <= i < |tokens| && c in tokens[i]
  {
    if |tokens| > 1 {
      var rest := tokens[1..];
      JoinedChars(rest, c);
      assert tokens == [tokens[0]] + rest;
      if exists i :: 0 <= i < |tokens| && c in tokens[i] {
        var i :| 0 <= i < |tokens| && c in tokens[i];
        if i > 0 {
          assert rest[i - 1] == tokens[i];
        }
      }
    }
  }

  lemma {:induction false} JoinedContains(tokens: seq<string>, p: string)
    requires |tokens| >= 1 && ' ' !in p
    ensures Contains(Join(tokens, ' '), p) <==> exists i :: 0 <= i < |tokens| && Contains(tokens[i], p)
  {
    hide Contains;
    if |tokens| > 1 {
      var rest := tokens[1..];
      JoinedContains(rest, p);
      ContainsAround(tokens[0], ' ', Join(rest, ' '), p);
      if exists i :: 0 <= i < |tokens| && Contains(tokens[i], p) {
        var i :| 0 <= i < |tokens| && Contains(tokens[i], p);
        if i > 0 {
          assert rest[i - 1] == tokens[i];
        }
      }
      if Contains(Join(rest, ' '), p) {
        var i :| 0 <= i < |rest| && Contains(rest[i], p);
        assert tokens[i + 1] == rest[i];
      }
    }
  }

  lemma StrapContains(pre: string, tokens: seq<string>, post: string, p: string)
    requires |tokens| >= 1 && ' ' !in p && '<' !in p && '>' !in p
    ensures Contains(StrapText(pre, tokens, post), p) <==>
      Contains(pre, p) || Contains(post, p) || exists i :: 0 <= i < |tokens| && Contains(tokens[i], p)
  {
    hide Contains;
    hide Join;
    var g := Join(tokens, ' ');
    assert StrapText(pre, tokens, post) == pre + ['<'] + (g + ['>'] + post);
    ContainsAround(pre, '<', g + ['>'] + post, p);
    ContainsAround(g, '>', post, p);
    JoinedContains(tokens, p);
  }

  /** A line without braces and marker, which the scan passes over. */
  predicate Neutral(l: string)
  {
    '{' !in l && '}' !in l && !IsMarker(l)
  }

  /** Masking keeps a strap line neutral. */
  lemma MaskedIsNeutral(pre: string, post: string, ids: seq<string>, sel: string)
    requires PlainIds(ids) && Neutral(StrapText(pre, ids, post)) && sel in ids
    ensures Neutral(StrapText(pre, Masked(ids, sel), post))
  {
    hide Contains;
    hide Join;
    var m := Masked(ids, sel);
    ZeroIsShort();
    StrapContains(pre, ids, post, MARKER);
    StrapContains(pre, m, post, MARKER);
    JoinedChars(ids, '{');
    JoinedChars(ids, '}');
    JoinedChars(m, '{');
    JoinedChars(m, '}');
    var g, g' := Join(ids, ' '), Join(m, ' ');
    forall c | c == '{' || c == '}'
      ensures c !in StrapText(pre, m, post)
    {
      NotIn(pre, g, post, c);
      NotIn(pre, g', post, c);
    }
  }

  lemma NotIn(pre: string, g: string, post: string, c: char)
    requires c != '<' && c != '>'
    ensures c in pre + ['<'] + g + ['>'] + post <==> c in pre || c in g || c in post
  {
  }

  lemma ZeroIsShort()
    ensures !Contains(ZERO, MARKER)
  {
  }

  // ----- when it fails

  /** A token that holds 0x0 and more. */
  ghost predicate Spoiled(v: string)
  {
    v != ZERO && Contains(v, ZERO)
  }

  lemma KeepsZero(v: string, p: string)
    requires |p| > 0 && (Contains(v, ZERO) || Contains(v, p))
    ensures Contains(ReplaceAll(v, p, ZERO), ZERO)
    ensures Contains(v, p) && v != p ==> Spoiled(ReplaceAll(v, p, ZERO))
  {
    hide Contains;
    if Contains(v, p) {
      ReplaceHits(v, p, ZERO);
    } else {
      ReplaceAbsent(v, p, ZERO);
    }
  }

  /** No later substitution repairs a spoiled token. */
  lemma StaysSpoiled(v: string, p: string)
    requires |p| > 0 && Spoiled(v) && !Spoiled(p)
    ensures Spoiled(ReplaceAll(v, p, ZERO))
  {
    hide ReplaceAll;
    hide Contains;
    if Contains(v, p) {
      KeepsZero(v, p);
    } else {
      ReplaceAbsent(v, p, ZERO);
    }
  }

  /** A token is untouched until some id is found in it, and holds 0x0 from then on. */
  lemma {:induction false} HoldsZero(ids: seq<string>, sel: string, k: nat, j: nat)
    requires PlainIds(ids) && k <= |ids| && j < |ids|
    ensures var v := RewriteTo(ids[j], ids, sel, k);
      Contains(v, ZERO) || (v == ids[j] && (k <= j || ids[j] == sel))
  {
    hide ReplaceAll;
    hide Contains;
    if k > 0 {
      HoldsZero(ids, sel, k - 1, j);
      var v, p := RewriteTo(ids[j], ids, sel, k - 1), ids[k - 1];
      assert PlainId(p);
      if p != sel {
        if v == p {
          ContainsSelf(p);
        }
        if Contains(v, ZERO) || Contains(v, p) {
          KeepsZero(v, p);
        } else {
          ReplaceAbsent(v, p, ZERO);
        }
      }
    }
  }

  /** A spoiled token stays spoiled to the end of the line's substitutions. */
  lemma {:induction false} SpoiledFrom(ids: seq<string>, sel: string, j: nat, i: nat, k: nat)
    requires PlainIds(ids) && NoneHoldZero(ids) && j < |ids| && i <= k <= |ids|
    requires Spoiled(RewriteTo(ids[j], ids, sel, i))
    ensures Spoiled(RewriteTo(ids[j], ids, sel, k))
    decreases k
  {
    hide ReplaceAll;
    hide Spoiled;
    if i < k {
      SpoiledFrom(ids, sel, j, i, k - 1);
      assert PlainId(ids[k - 1]);
      if ids[k - 1] != sel {
        StaysSpoiled(RewriteTo(ids[j], ids, sel, k - 1), ids[k - 1]);
      }
    }
  }

  /** A part of 0x0 spoils every token that was masked before it. */
  lemma MaskedTokenBreaks(ids: seq<string>, sel: string, i: nat, j: nat)
    requires PlainIds(ids) && NoneHoldZero(ids) && j < i < |ids| && ids[j] != sel
    requires Substituted(ids, sel, i) && Contains(ZERO, ids[i])
    ensures Spoiled(RewriteTo(ids[j], ids, sel, |ids|))
  {
    hide ReplaceAll;
    hide Contains;
    var v := RewriteTo(ids[j], ids, sel, i);
    HoldsZero(ids, sel, i, j);
    assert PlainId(ids[i]);
    ContainsTrans(v, ZERO, ids[i]);
    KeepsZero(v, ids[i]);
    SpoiledFrom(ids, sel, j, i + 1, |ids|);
  }

  /** An id inside the selected id spoils it. */
  lemma SelectedTokenBreaks(ids: seq<string>, sel: string, i: nat, q: nat)
    requires PlainIds(ids) && NoneHoldZero(ids) && i < |ids| && q < |ids| && ids[q] == sel
    requires Substituted(ids, sel, i) && Contains(sel, ids[i])
    ensures Spoiled(RewriteTo(sel, ids, sel, |ids|))
  {
    hide ReplaceAll;
    hide Contains;
    ForeignTokenSpoiled(ids, sel, i, q, i + 1);
    SpoiledFrom(ids, sel, q, i + 1, |ids|);
  }

  /** Until its own turn, a token changes only into a spoiled one. */
  lemma {:induction false} ForeignTokenSpoiled(ids: seq<string>, sel: string, i: nat, j: nat, k: nat)
    requires PlainIds(ids) && NoneHoldZero(ids) && i < |ids| && j < |ids| && k <= i + 1
    requires Substituted(ids, sel, i) && Contains(ids[j], ids[i]) && (ids[j] == sel || ids[j] !in ids[..i + 1])
    ensures var v := RewriteTo(ids[j], ids, sel, k); Spoiled(v) || (k <= i && v == ids[j])
  {
    hide ReplaceAll;
    hide Contains;
    hide Spoiled;
    if k > 0 {
      ForeignTokenSpoiled(ids, sel, i, j, k - 1);
      var v, p := RewriteTo(ids[j], ids, sel, k - 1), ids[k - 1];
      InTake(ids, i + 1, k - 1);
      assert PlainId(p);
      if p == sel {
      } else if Spoiled(v) {
        StaysSpoiled(v, p);
      } else if Contains(v, p) {
        KeepsZero(v, p);
      } else {
        ReplaceAbsent(v, p, ZERO);
      }
    }
  }

  /** A text in which a substituted id occurs is changed, and holds 0x0 from then on. */
  lemma {:induction false} OutsideHolds(t: string, ids: seq<string>, sel: string, k: nat)
    requires PlainIds(ids) && k <= |ids|
    ensures var v := RewriteTo(t, ids, sel, k);
      Contains(v, ZERO) || (v == t && forall i | 0 <= i < k && ids[i] != sel :: !Contains(t, ids[i]))
  {
    hide ReplaceAll;
    hide Contains;
    if k > 0 {
      OutsideHolds(t, ids, sel, k - 1);
      var v, p := RewriteTo(t, ids, sel, k - 1), ids[k - 1];
      assert PlainId(p);
      if p != sel {
        if Contains(v, ZERO) || Contains(v, p) {
          KeepsZero(v, p);
        } else {
          ReplaceAbsent(v, p, ZERO);
        }
      }
    }
  }

  /** Blanks and brackets are not brought in. */
  lemma {:induction false} NoneBroughtIn(u: string, ids: seq<string>, sel: string, k: nat, c: char)
    requires PlainIds(ids) && k <= |ids| && c !in u && c !in ZERO
    ensures c !in RewriteTo(u, ids, sel, k)
  {
    hide ReplaceAll;
    if k > 0 {
      NoneBroughtIn(u, ids, sel, k - 1, c);
      assert PlainId(ids[k - 1]);
      ReplaceChars(RewriteTo(u, ids, sel, k - 1), ids[k - 1], ZERO, c);
    }
  }

  lemma CutUnique<T>(a: seq<T>, b: seq<T>, c: T, d: seq<T>, e: seq<T>)
    requires c !in a && c !in d && a + [c] + b == d + [c] + e
    ensures a == d && b == e
  {
    IndexOfFirst(a, c, b);
    IndexOfFirst(d, c, e);
    var s := a + [c] + b;
    assert a == s[..|a|] && d == s[..|d|];
    assert b == s[|a| + 1..] && e == s[|d| + 1..];
  }

  /** Tokens without blanks and brackets. */
  ghost predicate Apart(tokens: seq<string>)
  {
    |tokens| >= 1 && forall i | 0 <= i < |tokens| :: ' ' !in tokens[i] && '>' !in tokens[i]
  }

  lemma StrapInjective(pre: string, a: seq<string>, post: string, pre': string, b: seq<string>, post': string)
    requires '<' !in pre && '<' !in pre' && Apart(a) && Apart(b)
    requires StrapText(pre, a, post) == StrapText(pre', b, post')
    ensures pre == pre' && a == b && post == post'
  {
    hide Join;
    hide Split;
    hide IndexOf;
    var g, h := Join(a, ' '), Join(b, ' ');
    assert StrapText(pre, a, post) == pre + ['<'] + (g + ['>'] + post);
    assert StrapText(pre', b, post') == pre' + ['<'] + (h + ['>'] + post');
    CutUnique(pre, g + ['>'] + post, '<', pre', h + ['>'] + post');
    JoinedChars(a, '>');
    JoinedChars(b, '>');
    CutUnique(g, post, '>', h, post');
    SplitJoin(a, ' ');
    SplitJoin(b, ' ');
  }

  /** An id that is part of another one, found in front of it, spoils it. */
  lemma InsideBreaks(ids: seq<string>, sel: string, i: nat, j: nat)
    requires PlainIds(ids) && NoneHoldZero(ids) && i < j < |ids| && ids[j] !in ids[..i + 1]
    requires Substituted(ids, sel, i) && Contains(ids[j], ids[i])
    ensures Spoiled(RewriteTo(ids[j], ids, sel, |ids|))
  {
    hide Spoiled;
    hide Contains;
    hide RewriteTo;
    ForeignTokenSpoiled(ids, sel, i, j, i + 1);
    SpoiledFrom(ids, sel, j, i + 1, |ids|);
  }

  /** Where the ids are not independent, some token ends up spoiled. */
  lemma SomeTokenBreaks(ids: seq<string>, sel: string) returns (j: nat)
    requires PlainIds(ids) && NoneHoldZero(ids) && sel in ids && !(ZeroFirst(ids, sel) && NotInside(ids, sel))
    ensures j < |ids| && Spoiled(RewriteTo(ids[j], ids, sel, |ids|))
  {
    hide RewriteTo;
    hide Spoiled;
    hide Contains;
    hide PlainIds;
    hide NoneHoldZero;
    if !ZeroFirst(ids, sel) {
      var i: nat, h: nat :| h < i < |ids| && Substituted(ids, sel, i) && Contains(ZERO, ids[i]) && ids[h] != sel;
      MaskedTokenBreaks(ids, sel, i, h);
      return h;
    }
    var i: nat :| i < |ids| && Substituted(ids, sel, i)
      && (Contains(sel, ids[i]) || exists h :: i < h < |ids| && ids[h] !in ids[..i + 1] && Contains(ids[h], ids[i]));
    if Contains(sel, ids[i]) {
      j :| 0 <= j < |ids| && ids[j] == sel;
      SelectedTokenBreaks(ids, sel, i, j);
    } else {
      j :| i < j < |ids| && ids[j] !in ids[..i + 1] && Contains(ids[j], ids[i]);
      InsideBreaks(ids, sel, i, j);
    }
  }

  /**
   * The rewrite is the masking exactly when no substituted id occurs outside the brackets, nor is part
   * of the selected id, of an id that first appears behind it, or of a 0x0 written before. (No id
   * holds 0x0 and more, and there is none outside the brackets.)
   */
  lemma StrapRewriteExact(pre: string, post: string, ids: seq<string>, sel: string)
    requires PlainIds(ids) && NoneHoldZero(ids) && sel in ids
    requires '<' !in pre && !Contains(pre, ZERO) && !Contains(post, ZERO)
    ensures RewriteTo(StrapText(pre, ids, post), ids, sel, |ids|) == StrapText(pre, Masked(ids, sel), post)
       <==> NotAround(pre, post, ids, sel) && ZeroFirst(ids, sel) && NotInside(ids, sel)
  {
    hide StrapText;
    hide RewriteTo;
    hide Contains;
    hide NoneHoldZero;
    hide ZeroFirst;
    hide NotInside;
    if NotAround(pre, post, ids, sel) && ZeroFirst(ids, sel) && NotInside(ids, sel) {
      StrapRewrite(pre, post, ids, sel);
    }
    if RewriteTo(StrapText(pre, ids, post), ids, sel, |ids|) == StrapText(pre, Masked(ids, sel), post) {
      RewriteIsPartwise(pre, post, ids, sel);
      OutsideHolds(pre, ids, sel, |ids|);
      OutsideHolds(post, ids, sel, |ids|);
      if !(ZeroFirst(ids, sel) && NotInside(ids, sel)) {
        var j := SomeTokenBreaks(ids, sel);
        MaskedIsWhole(ids, sel, j);
      }
    }
  }

  /** When the whole line comes out masked, so does each part. */
  lemma RewriteIsPartwise(pre: string, post: string, ids: seq<string>, sel: string)
    requires PlainIds(ids) && sel in ids && '<' !in pre
    requires RewriteTo(StrapText(pre, ids, post), ids, sel, |ids|) == StrapText(pre, Masked(ids, sel), post)
    ensures RewriteTo(pre, ids, sel, |ids|) == pre && RewriteTo(post, ids, sel, |ids|) == post
    ensures RewriteEach(ids, ids, sel, |ids|) == Masked(ids, sel)
  {
    hide StrapText;
    hide RewriteTo;
    var n := |ids|;
    RewriteTokenwise(pre, post, ids, ids, sel, n);
    forall q | 0 <= q < n
      ensures ' ' !in RewriteTo(ids[q], ids, sel, n) && '>' !in RewriteTo(ids[q], ids, sel, n)
      ensures ' ' !in Masked(ids, sel)[q] && '>' !in Masked(ids, sel)[q]
    {
      assert PlainId(ids[q]);
      NoneBroughtIn(ids[q], ids, sel, n, ' ');
      NoneBroughtIn(ids[q], ids, sel, n, '>');
    }
    NoneBroughtIn(pre, ids, sel, n, '<');
    StrapInjective(RewriteTo(pre, ids, sel, n), RewriteEach(ids, ids, sel, n), RewriteTo(post, ids, sel, n),
                   pre, Masked(ids, sel), post);
  }

  lemma MaskedIsWhole(ids: seq<string>, sel: string, j: nat)
    requires NoneHoldZero(ids) && sel in ids && j < |ids|
    ensures !Spoiled(Masked(ids, sel)[j])
  {
  }

  /** Two handles of which one starts with the other: "0xa" turns the selected "0xa1" into "0x01". */
  lemma PartOfIdBreaks()
    ensures var ids := ["0xa", "0xa1"];
      RewriteTo(StrapText("", ids, ""), ids, "0xa1", 2) == StrapText("", [ZERO, "0x01"], "")
  {
    hide StrapText;
    hide Contains;
    var ids := ["0xa", "0xa1"];
    NotPart("", "0xa");
    RewriteTokenwise("", "", ids, ids, "0xa1", 2);
    OutsideStays("", ids, "0xa1", 2);
    assert RewriteTo(ids[0], ids, "0xa1", 2) == ZERO;
    assert RewriteTo(ids[1], ids, "0xa1", 2) == "0x01";
    assert RewriteEach(ids, ids, "0xa1", 2) == [ZERO, "0x01"];
  }

  /** The same failure for ids of which none is part of another: "x0" is part of 0x0 and stands behind "0xa". */
  lemma PartOfZeroBreaks()
    ensures var ids := ["0xa", "x0", "0xb"];
      && PlainIds(ids) && NoneHoldZero(ids) && NotInside(ids, "0xb")
      && RewriteTo(StrapText("", ids, ""), ids, "0xb", 3) != StrapText("", Masked(ids, "0xb"), "")
  {
    hide StrapText;
    hide RewriteTo;
    hide Masked;
    hide Contains;
    var ids := ["0xa", "x0", "0xb"];
    HexIds();
    assert Substituted(ids, "0xb", 1) && ids[0] != "0xb";
    assert ids[2] == "0xb";
    NotPart("", "0xa");
    NotPart("", "x0");
    NotPart("", ZERO);
    StrapRewriteExact("", "", ids, "0xb");
  }

  /** And for an id that also stands in front of the brackets. */
  lemma LabelBreaks()
    ensures var ids := ["0xa", "0xb"];
      && PlainIds(ids) && NoneHoldZero(ids) && ZeroFirst(ids, "0xa") && NotInside(ids, "0xa")
      && RewriteTo(StrapText("0xb", ids, ""), ids, "0xa", 2) != StrapText("0xb", Masked(ids, "0xa"), "")
  {
    hide StrapText;
    hide RewriteTo;
    hide Masked;
    hide Contains;
    var ids := ["0xa", "0xb"];
    NotPart("0xa", ZERO);
    NotPart("0xb", ZERO);
    NotPart(ZERO, "0xb");
    NotPart("0xa", "0xb");
    NotPart("", ZERO);
    ContainsSelf("0xb");
    assert Substituted(ids, "0xa", 1) && ids[0] == "0xa";
    StrapRewriteExact("0xb", "", ids, "0xa");
  }

  lemma HexIds()
    ensures var a, x, b := "0xa", "x0", "0xb";
      && !Contains(x, a) && !Contains(b, a) && !Contains(b, x) && !Contains(a, x)
      && !Contains(a, ZERO) && !Contains(x, ZERO) && !Contains(b, ZERO) && Contains(ZERO, x)
  {
    hide Contains;
    var a, x, b := "0xa", "x0", "0xb";
    NotPart(a, x);
    NotPart(b, x);
    NotPart(b, a);
    NotPart(x, a);
    NotPart(a, ZERO);
    NotPart(b, ZERO);
    NotPart(x, ZERO);
    ZeroHolds();
  }

  lemma ZeroHolds()
    ensures Contains(ZERO, "x0")
  {
    assert OccursAt(ZERO, "x0", 1);
  }

  lemma NotPart(a: string, p: string)
    requires |a| <= 3 && 2 <= |p| <= 3
    requires |p| <= |a| ==> a[|p| - 1] != p[|p| - 1] && a[|a| - 1] != p[|p| - 1]
    ensures !Contains(a, p)
  {
    forall i | 0 <= i <= |a| && OccursAt(a, p, i)
      ensures i + |p| <= |a| && a[i + |p| - 1] == p[|p| - 1]
    {
      OccursEnd(a, p, i);
    }
  }

  lemma OccursEnd(a: string, p: string, i: nat)
    requires OccursAt(a, p, i) && |p| > 0
    ensures a[i + |p| - 1] == p[|p| - 1]
  {
    assert a[i..i + |p|][|p| - 1] == a[i + |p| - 1];
  }
}
