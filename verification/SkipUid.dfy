/**
 * The --skipuid flag of tegraflash: it is meant to be sent with one boot request only, although every
 * command reloads its values from the shared exports.
 */
module SkipUid {
  import opened Options

  /** The steps of a command that touch the flag. */
  datatype Step =
    | Give(value: bool)  // exports.update with a value for --skipuid, as far as it counts as true
    | Reload  // values.update(args)
    | Send    // tegraflash_send_tboot: passes the flag on if it is set, and clears it in values
    | Clear   // args['--skipuid'] = False, where args is exports

  datatype DumpTarget = RamT18x | Eeprom | Custinfo(readOk: bool) | OtherTarget

  /**
   * The commands of a session; ok is false where the command returns early, for a missing argument or
   * another chip. flash and secureflash take options, among them maybe --skipuid; export sets one.
   */
  datatype Command =
    | Flash(given: Option<bool>, ok: bool) | Secureflash(given: Option<bool>) | Export(value: bool)
    | Rcmbl(ok: bool) | Rcmboot(ok: bool) | Read(ok: bool) | Write(ok: bool) | SignWrite(ok: bool)
    | Ccgupdate(ok: bool) | Erase(ok: bool) | Setverify | Test | Readmrr | Dump(target: DumpTarget) | Parse(boots: bool)
    | Updaterpmb(ok: bool) | Ufsotp(ok: bool) | BurnFuses | BlowFuses | ReadFuses | ProvisionRollback(ok: bool)

  const BOOT: seq<Step> := [Reload, Send, Clear]

  function GiveSteps(given: Option<bool>): seq<Step>
  {
    match given
    case None => []
    case Some(value) => [Give(value)]
  }

  function Script(c: Command): seq<Step>
  {
    match c
    case Flash(given, ok) => GiveSteps(given) + if ok then BOOT else [Reload]
    case Secureflash(given) => GiveSteps(given) + BOOT
    case Export(value) => [Give(value)]
    case Rcmbl(ok) => if ok then BOOT else [Reload]
    case Rcmboot(ok) => if ok then BOOT else [Reload]
    case Read(ok) => if ok then BOOT else [Reload]
    case Write(ok) => if ok then BOOT else [Reload]
    case SignWrite(ok) => if ok then [Reload] + BOOT else [Reload, Reload]
    case Ccgupdate(ok) => if ok then BOOT else [Reload]
    case Erase(ok) => if ok then BOOT else [Reload]
    case Setverify => BOOT
    case Test => BOOT
    case Readmrr => BOOT
    case Dump(RamT18x) => [Reload]
    case Dump(Eeprom) => BOOT + [Reload]
    case Dump(Custinfo(readOk)) => BOOT + (if readOk then BOOT else [Reload])
    case Dump(OtherTarget) => BOOT
    case Parse(boots) => if boots then BOOT else [Reload]
    case Updaterpmb(ok) => if ok then BOOT else [Reload]
    case Ufsotp(ok) => if ok then BOOT else [Reload]
    case BurnFuses => [Reload, Send]
    case BlowFuses => [Reload, Send]
    case ReadFuses => [Reload, Send]
    case ProvisionRollback(ok) => if ok then [Reload, Send] else [Reload]
  }

  /** Fuse commands never clear the flag in exports. */
  predicate ClearsAfterSending(c: Command)
  {
    !c.BurnFuses? && !c.BlowFuses? && !c.ReadFuses? && !c.ProvisionRollback?
  }

  /** The flag in exports and in values, and how often it was sent. */
  datatype State = State(exports: bool, values: bool, sent: nat)

  function Do(st: State, step: Step): State
  {
    match step
    case Give(value) => st.(exports := value)
    case Reload => st.(values := st.exports)
    case Send => if st.values then st.(values := false, sent := st.sent + 1) else st
    case Clear => st.(exports := false)
  }

  function Exec(st: State, steps: seq<Step>): State
  {
    if steps == [] then st else Do(Exec(st, steps[..|steps| - 1]), steps[|steps| - 1])
  }

  /** One command of a run: it may raise after the first done steps of its script. */
  datatype Call = Call(command: Command, done: nat)

  function Executed(c: Call): (steps: seq<Step>)
    ensures |steps| <= |Script(c.command)|
  {
    if c.done >= |Script(c.command)| then Script(c.command) else Script(c.command)[..c.done]
  }

  predicate Finished(c: Call)
  {
    c.done >= |Script(c.command)|
  }

  function Run(st: State, run: seq<Call>): State
    decreases run
  {
    if run == [] then st else Run(Exec(st, Executed(run[0])), run[1..])
  }

  class Session {
    var exports: bool
    var values: bool
    var sent: nat

    constructor (skipuid: bool)
      ensures Current() == State(skipuid, false, 0)
    {
      exports, values, sent := skipuid, false, 0;
    }

    ghost function Current(): State
      reads this
    {
      State(exports, values, sent)
    }

    /** exports.update, in do_flash, do_secureflash and do_export. */
    method GiveSkipUid(value: bool)
      modifies this`exports
      ensures Current() == Do(old(Current()), Give(value))
    {
      exports := value;
    }

    method UpdateValues()
      modifies this`values
      ensures Current() == Do(old(Current()), Reload)
    {
      values := exports;
    }

    /** tegraflash_send_tboot; the result tells whether --skipuid is on the command line. */
    method SendTboot() returns (flagged: bool)
      modifies this`values, this`sent
      ensures Current() == Do(old(Current()), Send) && flagged == old(values)
    {
      flagged := values;
      if values {
        values := false;
        sent := sent + 1;
      }
    }

    method ClearSkipUid()
      modifies this`exports
      ensures Current() == Do(old(Current()), Clear)
    {
      exports := false;
    }

    /** A command up to the point where it ends or raises. */
    method RunCommand(c: Call)
      modifies this
      ensures Current() == Exec(old(Current()), Executed(c))
    {
      var steps := Executed(c);
      for i := 0 to |steps|
        invariant Current() == Exec(old(Current()), steps[..i])
      {
        assert steps[..i + 1][..i] == steps[..i];
        match steps[i] {
          case Give(value) => GiveSkipUid(value);
          case Reload => UpdateValues();
          case Send => var flagged := SendTboot();
          case Clear => ClearSkipUid();
        }
      }
      assert steps[..|steps|] == steps;
    }

    method RunAll(run: seq<Call>)
      modifies this
      ensures Current() == Run(old(Current()), run)
    {
      for i := 0 to |run|
        invariant Run(old(Current()), run) == Run(Current(), run[i..])
      {
        assert run[i..][0] == run[i] && run[i..][1..] == run[i + 1..];
        RunCommand(run[i]);
      }
    }
  }

  // ----- how often the flag is sent

  /** The value for the flag among the arguments of a command. */
  function Given(steps: seq<Step>): Option<bool>
  {
    if steps != [] && steps[0].Give? then Some(steps[0].value) else None
  }

  /** Gives and reloads first, clears only right after sending, and does so before the next reload. */
  ghost predicate Disciplined(steps: seq<Step>)
  {
    && (steps != [] ==> steps[0] == Reload || (steps[0].Give? && (|steps| > 1 ==> steps[1] == Reload)))
    && (forall i | 0 < i < |steps| :: !steps[i].Give?)
    && (forall i | 0 <= i < |steps| && steps[i] == Clear :: i > 0 && steps[i - 1] == Send)
    && forall i, j | 0 <= i < j < |steps| && steps[i] == Send && steps[j] == Reload :: Clear in steps[i..j]
  }

  lemma ScriptsAreDisciplined(c: Command)
    ensures Disciplined(Script(c))
  {
    hide Script;
    var s := Script(c);
    ScriptStarts(c);
    ScriptClears(c);
    SendsAreFollowed(c);
    forall i, j | 0 <= i < j < |s| && s[i] == Send && s[j] == Reload
      ensures Clear in s[i..j]
    {
      assert s[i..j][1] == s[i + 1];
    }
  }

  lemma ScriptStarts(c: Command)
    ensures var s := Script(c);
      && s != [] && (s[0] == Reload || (s[0].Give? && (|s| > 1 ==> s[1] == Reload)))
      && forall i | 0 < i < |s| :: !s[i].Give?
  {
  }

  lemma ScriptClears(c: Command)
    ensures forall i | 0 <= i < |Script(c)| && Script(c)[i] == Clear :: i > 0 && Script(c)[i - 1] == Send
  {
  }

  lemma SendsAreFollowed(c: Command)
    ensures forall i | 0 <= i < |Script(c)| - 1 && Script(c)[i] == Send :: Script(c)[i + 1] == Clear
  {
  }

  /** The commands that may return early. */
  predicate HasOk(c: Command)
  {
    || c.Flash? || c.Rcmbl? || c.Rcmboot? || c.Read? || c.Write? || c.SignWrite? || c.Ccgupdate? || c.Erase?
    || c.Updaterpmb? || c.Ufsotp? || c.ProvisionRollback?
  }

  /**
   * Every finished command boots, but for those that return early, export, the dump of RAM, which
   * sends its own request, and a parse that needs no device.
   */
  lemma ScriptBoots(c: Command)
    ensures Send in Script(c) <==>
      !((HasOk(c) && !c.ok) || c.Export? || c == Dump(RamT18x) || c == Parse(false))
  {
    BootSteps();
  }

  /** Fuse commands do not clear the flag, all others that boot do. */
  lemma ScriptEnds(c: Command)
    ensures Clear in Script(c) <==>
      Send in Script(c) && !c.BurnFuses? && !c.BlowFuses? && !c.ReadFuses? && !c.ProvisionRollback?
  {
    BootSteps();
  }

  /** What is given comes first; a dump of customer data that is read boots a second time. */
  lemma ScriptGives(c: Command)
    ensures Given(Script(c)) == match c
      case Flash(given, _) => given
      case Secureflash(given) => given
      case Export(value) => Some(value)
      case _ => None
    ensures c == Dump(Custinfo(true)) ==> Script(c)[1] == Script(c)[4] == Send
  {
  }

  lemma BootSteps()
    ensures BOOT[0] == Reload && BOOT[1] == Send && BOOT[2] == Clear && [Reload, Send][1] == Send
  {
  }

  lemma PrefixDisciplined(steps: seq<Step>, k: nat)
    requires Disciplined(steps) && k <= |steps|
    ensures Disciplined(steps[..k])
  {
    forall i, j | 0 <= i < j < k && steps[i] == Send && steps[j] == Reload
      ensures Clear in steps[..k][i..j]
    {
      assert steps[..k][i..j] == steps[i..j];
    }
  }

  /** The flag a command works with. */
  function Flag(exports: bool, steps: seq<Step>): bool
  {
    match Given(steps)
    case None => exports
    case Some(value) => value
  }

  lemma {:induction false} StepsSend(st: State, steps: seq<Step>)
    requires Disciplined(steps)
    ensures var end, flag := Exec(st, steps), Flag(st.exports, steps);
      && end.exports == (flag && Clear !in steps)
      && end.sent == st.sent + (if flag && Send in steps then 1 else 0)
      && (Reload in steps ==> end.values == (flag && Send !in steps))
      && (Clear in steps ==> Send in steps) && (Send in steps ==> Reload in steps)
  {
    if steps != [] {
      var n := |steps| - 1;
      PrefixDisciplined(steps, n);
      StepsSend(st, steps[..n]);
      hide Disciplined;
      LastStep(steps);
    }
  }

  /** What may come last, after the steps before it. */
  lemma LastStep(steps: seq<Step>)
    requires Disciplined(steps) && steps != []
    ensures var init, last := steps[..|steps| - 1], steps[|steps| - 1];
      && (forall x :: x in steps <==> x in init || x == last)
      && (init != [] ==> Given(init) == Given(steps) && !last.Give?)
      && (init == [] ==> last == Reload || last.Give?)
      && (last == Clear ==> Send in init)
      && (last == Send ==> Reload in init)
      && (last == Reload && Send in init ==> Clear in init)
  {
    var n := |steps| - 1;
    var init, last := steps[..n], steps[n];
    assert steps == init + [last];
    if init != [] {
      assert init[0] == steps[0];
    }
    if last == Clear {
      assert init[n - 1] == Send;
    }
    if last == Send {
      ReloadFirst(steps, n);
    }
    if last == Reload && Send in init {
      var i :| 0 <= i < n && init[i] == Send;
      assert Clear in steps[i..n];
      SliceIn(steps, i, n, Clear);
    }
  }

  lemma ReloadFirst(steps: seq<Step>, i: nat)
    requires Disciplined(steps) && i < |steps| && steps[i] == Send
    ensures Reload in steps[..i]
  {
    assert i >= 1;
    var init := steps[..i];
    if steps[0].Give? {
      assert init[1] == Reload;
    } else {
      assert init[0] == Reload;
    }
  }

  lemma SliceIn<T>(s: seq<T>, i: nat, n: nat, x: T)
    requires i <= n <= |s| && x in s[i..n]
    ensures x in s[..n]
  {
    var k :| 0 <= k < n - i && s[i..n][k] == x;
    assert s[..n][i + k] == x;
  }

  predicate Boots(c: Call)
  {
    Send in Executed(c)
  }

  predicate Clears(c: Call)
  {
    Clear in Executed(c)
  }

  function Gives(c: Call): Option<bool>
  {
    Given(Executed(c))
  }

  /** What a command does, wherever it raises. */
  lemma CallEffect(st: State, c: Call)
    ensures var end, flag := Exec(st, Executed(c)), Flag(st.exports, Executed(c));
      && end.exports == (flag && !Clears(c))
      && end.sent == st.sent + (if flag && Boots(c) then 1 else 0)
  {
    hide Exec;
    ScriptsAreDisciplined(c.command);
    if !Finished(c) {
      PrefixDisciplined(Script(c.command), c.done);
    }
    StepsSend(st, Executed(c));
  }

  /** The call neither gives the flag nor clears it. */
  predicate Keeps(c: Call)
  {
    Gives(c).None? && !Clears(c)
  }

  /**
   * In front of call n the flag is on: it was given, by a call before n or at the beginning, and no
   * call since has cleared it or given something else.
   */
  ghost predicate FlagOn(flag: bool, run: seq<Call>, n: nat)
    requires n <= |run|
  {
    || (flag && forall k | 0 <= k < n :: Keeps(run[k]))
    || exists i | 0 <= i < n ::
         Gives(run[i]) == Some(true) && !Clears(run[i]) && forall k | i < k < n :: Keeps(run[k])
  }

  /** Call j boots with the flag: its own arguments give it, or leave it on. */
  ghost predicate Carries(flag: bool, run: seq<Call>, j: nat)
    requires j < |run|
  {
    Boots(run[j]) && match Gives(run[j]) case None => FlagOn(flag, run, j) case Some(value) => value
  }

  lemma FlagOnStep(flag: bool, run: seq<Call>, n: nat)
    requires n < |run|
    ensures FlagOn(flag, run, n + 1)
       <==> !Clears(run[n]) && match Gives(run[n]) case None => FlagOn(flag, run, n) case Some(value) => value
  {
    hide Clears;
    hide Gives;
    if FlagOn(flag, run, n + 1) && Gives(run[n]).None? && !(flag && forall k | 0 <= k < n + 1 :: Keeps(run[k])) {
      var i :| 0 <= i < n + 1
        && Gives(run[i]) == Some(true) && !Clears(run[i]) && forall k | i < k < n + 1 :: Keeps(run[k]);
      assert i < n;
      assert Keeps(run[n]);
    }
    if FlagOn(flag, run, n + 1) && Gives(run[n]).Some? {
      assert !Keeps(run[n]);
    }
  }

  /** The first n calls that boot with the flag. */
  ghost function Carriers(flag: bool, run: seq<Call>, n: nat): set<nat>
    requires n <= |run|
  {
    set j: nat | j < n && Carries(flag, run, j)
  }

  lemma {:induction false} RunLast(st: State, run: seq<Call>, n: nat)
    requires n < |run|
    ensures Run(st, run[..n + 1]) == Exec(Run(st, run[..n]), Executed(run[n]))
    decreases n
  {
    hide Exec;
    hide Executed;
    var longer, shorter := run[..n + 1], run[..n];
    if n > 0 {
      RunLast(Exec(st, Executed(run[0])), run[1..], n - 1);
      assert longer[1..] == run[1..][..n] && shorter[1..] == run[1..][..n - 1];
    } else {
      assert longer[1..] == [] && shorter == [];
    }
  }

  lemma {:induction false} AfterCalls(st: State, run: seq<Call>, n: nat)
    requires n <= |run|
    ensures var end := Run(st, run[..n]);
      end.exports == FlagOn(st.exports, run, n) && end.sent == st.sent + |Carriers(st.exports, run, n)|
  {
    hide Exec;
    hide Executed;
    hide FlagOn;
    hide Boots;
    hide Clears;
    hide Carriers;
    hide Run;
    var before := run[..n];
    if n == 0 {
      NothingOn(st.exports, run);
      NoRun(st);
      assert before == [];
    } else {
      AfterCalls(st, run, n - 1);
      RunLast(st, run, n - 1);
      CallEffect(Run(st, run[..n - 1]), run[n - 1]);
      FlagOnStep(st.exports, run, n - 1);
      CarriersStep(st.exports, run, n - 1);
    }
  }

  lemma NoRun(st: State)
    ensures Run(st, []) == st
  {
  }

  lemma CarriersStep(flag: bool, run: seq<Call>, n: nat)
    requires n < |run|
    ensures |Carriers(flag, run, n + 1)| == |Carriers(flag, run, n)| + if Carries(flag, run, n) then 1 else 0
  {
    hide Carries;
    assert Carriers(flag, run, n + 1) == Carriers(flag, run, n) + if Carries(flag, run, n) then {n} else {};
  }

  lemma NothingOn(flag: bool, run: seq<Call>)
    ensures FlagOn(flag, run, 0) == flag && Carriers(flag, run, 0) == {}
  {
  }

  /**
   * How often the flag is sent in any run, with commands that raise anywhere: once for every command
   * that boots while the flag, given at the beginning or by a command, is on.
   */
  lemma ExactCount(st: State, run: seq<Call>)
    ensures Run(st, run).sent == st.sent + |Carriers(st.exports, run, |run|)|
  {
    hide Run;
    hide Carriers;
    AfterCalls(st, run, |run|);
    assert run[..|run|] == run;
  }

  lemma TwoElements(s: set<nat>)
    ensures |s| > 1 <==> exists i, j :: i in s && j in s && i < j
  {
    if |s| > 1 {
      var i :| i in s;
      var rest := s - {i};
      assert |rest| > 0;
      var j :| j in rest;
      assert i < j || j < i;
    }
    if i, j :| i in s && j in s && i < j {
      assert {i, j} <= s;
      SubsetSize({i, j}, s);
    }
  }

  lemma SubsetSize<T>(a: set<T>, b: set<T>)
    requires a <= b
    ensures |a| <= |b|
  {
    assert b == a + (b - a);
  }

  /** The flag is sent more than once exactly when two commands boot while it is on. */
  lemma SentMoreThanOnce(st: State, run: seq<Call>)
    ensures Run(st, run).sent > st.sent + 1
       <==> exists i: nat, j: nat :: i < j < |run| && Carries(st.exports, run, i) && Carries(st.exports, run, j)
  {
    hide Run;
    hide Carries;
    ExactCount(st, run);
    var s := Carriers(st.exports, run, |run|);
    TwoElements(s);
    if i: nat, j: nat :| i < j < |run| && Carries(st.exports, run, i) && Carries(st.exports, run, j) {
      assert i in s && j in s;
    }
  }

  // ----- at most once for every time it is given

  /** How many of the first n calls give the flag. */
  function Givings(run: seq<Call>, n: nat): nat
    requires n <= |run|
  {
    if n == 0 then 0 else Givings(run, n - 1) + if Gives(run[n - 1]) == Some(true) then 1 else 0
  }

  function Bit(b: bool): nat
  {
    if b then 1 else 0
  }

  lemma FinishedClears(c: Call)
    requires ClearsAfterSending(c.command) && Finished(c) && Boots(c)
    ensures Clears(c)
  {
    hide Script;
    var s := Script(c.command);
    var i :| 0 <= i < |s| && s[i] == Send;
    SendsAreFollowed(c.command);
    NotLast(c.command, i);
    assert s[i + 1] == Clear;
  }

  lemma NotLast(c: Command, i: nat)
    requires ClearsAfterSending(c) && i < |Script(c)| && Script(c)[i] == Send
    ensures i < |Script(c)| - 1
  {
  }

  lemma {:induction false} SendsAreGiven(st: State, run: seq<Call>, n: nat)
    requires n <= |run| && forall i | 0 <= i < n :: ClearsAfterSending(run[i].command) && Finished(run[i])
    ensures var end := Run(st, run[..n]); end.sent + Bit(end.exports) <= st.sent + Bit(st.exports) + Givings(run, n)
  {
    hide Exec;
    hide Executed;
    hide ClearsAfterSending;
    hide Finished;
    hide Boots;
    hide Clears;
    if n == 0 {
      assert run[..0] == [];
    } else {
      SendsAreGiven(st, run, n - 1);
      RunLast(st, run, n - 1);
      CallEffect(Run(st, run[..n - 1]), run[n - 1]);
      if Boots(run[n - 1]) {
        FinishedClears(run[n - 1]);
      }
    }
  }

  /**
   * In any run without fuse commands in which every command but the last finishes, the flag is sent
   * at most once for every time it was given.
   */
  lemma AtMostOnce(st: State, run: seq<Call>)
    requires forall i | 0 <= i < |run| :: ClearsAfterSending(run[i].command)
    requires forall i | 0 <= i < |run| - 1 :: Finished(run[i])
    ensures Run(st, run).sent <= st.sent + Bit(st.exports) + Givings(run, |run|)
  {
    hide Exec;
    hide Executed;
    hide ClearsAfterSending;
    hide Finished;
    if run != [] {
      var n := |run| - 1;
      SendsAreGiven(st, run, n);
      RunLast(st, run, n);
      CallEffect(Run(st, run[..n]), run[n]);
      assert run[..n + 1] == run;
    }
  }

  /** These commands catch their errors and let even a batch run go on. */
  predicate StopsBatch(c: Command)
  {
    !c.Read? && !c.Erase? && !c.Setverify? && !c.ReadFuses? && !c.Updaterpmb?
  }

  ghost predicate BatchRun(run: seq<Call>)
  {
    forall i | 0 <= i < |run| - 1 :: Finished(run[i]) || !StopsBatch(run[i].command)
  }

  /** So does a batch run of commands that clear the flag and stop on errors. */
  lemma BatchAtMostOnce(st: State, run: seq<Call>)
    requires BatchRun(run)
    requires forall i | 0 <= i < |run| :: ClearsAfterSending(run[i].command) && StopsBatch(run[i].command)
    ensures Run(st, run).sent <= st.sent + Bit(st.exports) + Givings(run, |run|)
  {
    hide Run;
    AtMostOnce(st, run);
  }

  // ----- runs that send it twice

  lemma RunTwo(st: State, a: Call, b: Call)
    ensures Run(st, [a, b]) == Exec(Exec(st, Executed(a)), Executed(b))
  {
    hide Exec;
    hide Executed;
    var run := [a, b];
    assert run[1..] == [b] && [b][1..] == [];
    assert Run(Exec(Exec(st, Executed(a)), Executed(b)), []) == Exec(Exec(st, Executed(a)), Executed(b));
    assert Run(Exec(st, Executed(a)), [b]) == Exec(Exec(st, Executed(a)), Executed(b));
  }

  /** Two flash commands that both carry the flag in their arguments, and finish. */
  lemma GivenTwiceSendsTwice()
    ensures var run := [Call(Flash(Some(true), true), 4), Call(Flash(Some(true), true), 4)];
      BatchRun(run) && Finished(run[0]) && Finished(run[1]) && Run(State(false, false, 0), run).sent == 2
  {
    var c := Call(Flash(Some(true), true), 4);
    var st := State(false, false, 0);
    FlashSteps(c);
    RunTwo(st, c, c);
    CallEffect(st, c);
    CallEffect(Exec(st, Executed(c)), c);
  }

  lemma FlashSteps(c: Call)
    requires c == Call(Flash(Some(true), true), 4)
    ensures Executed(c) == [Give(true), Reload, Send, Clear] && Boots(c) && Clears(c)
  {
    assert Executed(c)[2] == Send && Executed(c)[3] == Clear;
  }

  /** A read that fails right behind its boot request lets a batch run send the flag again. */
  lemma FailedReadSendsTwice()
    ensures var run := [Call(Read(true), 2), Call(Flash(None, true), 3)];
      BatchRun(run) && Run(State(true, false, 0), run).sent == 2
  {
    var a, b, st := Call(Read(true), 2), Call(Flash(None, true), 3), State(true, false, 0);
    assert Executed(a) == [Reload, Send] && Executed(a)[1] == Send;
    assert Executed(b) == [Reload, Send, Clear] && Executed(b)[1] == Send;
    RunTwo(st, a, b);
    CallEffect(st, a);
    CallEffect(Exec(st, Executed(a)), b);
  }

  /** And so do the fuse commands, even when they finish. */
  lemma FuseCommandsSendTwice()
    ensures Run(State(true, false, 0), [Call(ReadFuses, 2), Call(ReadFuses, 2)]).sent == 2
  {
    var c, st := Call(ReadFuses, 2), State(true, false, 0);
    assert Executed(c) == [Reload, Send] && Executed(c)[1] == Send;
    RunTwo(st, c, c);
    CallEffect(st, c);
    CallEffect(Exec(st, Executed(c)), c);
  }
}
