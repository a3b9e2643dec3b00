/** The argument step of `FApp::process_argv` in wxgui/app.cpp: run the
    `-c` script text, collect the positional parameters, reorder them by
    `less_filename` when `-r` is given and there are at least two, and hand
    them to the engine one by one in that order, stopping at the first
    failure.  The engine is not part of this model: its answers are the
    parameters `execAndLog` and `load`. */
module Argv {
  import opened Wrappers
  import opened Text
  import opened CommonPrefix
  import opened FilenameOrder

  /** What the engine does with a command or a file: it completes, it throws
      a runtime_error with a message, or it throws ExitRequestedException
      (a script ran the quit command). */
  datatype Reply = Done | Failed(message: string) | ExitRequested

  /** The parsed command line, as far as process_argv reads it. */
  datatype CmdLine = CmdLine(cmd: Option<string>, reorder: bool, params: seq<string>)

  /** How process_argv ends. */
  datatype ArgvOutcome =
    | AllProcessed                           // OnInit goes on to the event loop
    | LoadError(path: string, message: string) // "Error: ..." on stderr, exit(1)
    | ExitRequestedByEngine                  // OnInit catches it and returns false

  const FatalExitCode: int := 1

  /** The line written to standard error before exit(1). */
  function ErrorReport(message: string): (line: string)
    ensures |line| == |message| + 8
    ensures line[..7] == "Error: " && line[7..|line| - 1] == message && line[|line| - 1] == '\n'
  {
    "Error: " + message + "\n"
  }

  /** What the caller of process_argv observes: the line written to standard
      error, the status passed to exit() if it is called, and whether OnInit
      goes on to open the main loop. */
  datatype ProcessEffect = ProcessEffect(errorLine: string, exitStatus: Option<int>, continues: bool)

  /** A load error prints its report and calls exit(1); an exit request
      makes OnInit return false without printing or calling exit(). */
  function OutcomeEffect(o: ArgvOutcome): ProcessEffect
  {
    match o
    case AllProcessed => ProcessEffect([], None, true)
    case LoadError(_, message) => ProcessEffect(ErrorReport(message), Some(FatalExitCode), false)
    case ExitRequestedByEngine => ProcessEffect([], None, false)
  }

  /** Path i of `order` is the first one whose load did not complete. */
  ghost predicate FirstNotDone(order: seq<string>, load: (seq<string>, string) -> Reply, i: int)
  {
    && 0 <= i < |order| && load(order[..i], order[i]) != Done
    && forall j :: 0 <= j < i ==> load(order[..j], order[j]) == Done
  }

  /** The observable effect in terms of the engine's replies alone: the run
      goes on exactly when every path loads; exit(1) is called exactly when
      the first path that does not load fails with an error, and then the
      error line reports that path's message; otherwise nothing is written. */
  ghost predicate EffectMatchesReplies(order: seq<string>, load: (seq<string>, string) -> Reply, e: ProcessEffect)
  {
    && (e.continues <==> forall i :: 0 <= i < |order| ==> load(order[..i], order[i]) == Done)
    && (e.exitStatus.Some? <==> exists i :: FirstNotDone(order, load, i) && load(order[..i], order[i]).Failed?)
    && (e.exitStatus.Some? ==> e.exitStatus.value == FatalExitCode)
    && (e.exitStatus.None? ==> e.errorLine == [])
    && (forall i :: FirstNotDone(order, load, i) && load(order[..i], order[i]).Failed? ==>
          e.errorLine == ErrorReport(load(order[..i], order[i]).message))
  }

  /** The order in which the paths reach the engine. */
  function ArgOrder(reorder: bool, params: seq<string>): seq<string>
  {
    if reorder && |params| > 1 then SortFilenames(CommonPrefixLength(params), params)
    else params
  }

  /** Only an exit request leaves exec_and_log: its status is discarded. */
  predicate CommandExits(cl: CmdLine, execAndLog: string -> Reply)
  {
    cl.cmd.Some? && execAndLog(cl.cmd.value) == ExitRequested
  }

  /** The engine saw a prefix of `order`, in order; every path but the last
      one it saw loaded; the outcome is AllProcessed exactly when it saw all
      of them and all loaded, and otherwise records what the last one did. */
  ghost predicate DispatchedInOrder(order: seq<string>, load: (seq<string>, string) -> Reply,
                                    outcome: ArgvOutcome, attempted: seq<string>)
  {
    && |attempted| <= |order| && attempted == order[..|attempted|]
    && (forall i :: 0 <= i < |attempted| - 1 ==> load(attempted[..i], attempted[i]) == Done)
    && (outcome == AllProcessed ==>
          attempted == order && forall i :: 0 <= i < |order| ==> load(order[..i], order[i]) == Done)
    && (outcome != AllProcessed ==> attempted != [])
    && (outcome.LoadError? ==>
          outcome.path == attempted[|attempted| - 1] &&
          load(attempted[..|attempted| - 1], outcome.path) == Failed(outcome.message))
    && (outcome == ExitRequestedByEngine ==>
          load(attempted[..|attempted| - 1], attempted[|attempted| - 1]) == ExitRequested)
  }

  /** The outcome of the first path that did not load. */
  function StopOutcome(path: string, r: Reply): ArgvOutcome
  {
    if r.Failed? then LoadError(path, r.message) else ExitRequestedByEngine
  }

  /** Stopping at path i, after every earlier path loaded, is dispatching in
      order. */
  lemma {:induction false} StopAtFirstFailure(p: seq<string>, load: (seq<string>, string) -> Reply, i: nat)
    requires i < |p|
    requires forall j :: 0 <= j < i ==> load(p[..j], p[j]) == Done
    requires load(p[..i], p[i]) != Done
    ensures DispatchedInOrder(p, load, StopOutcome(p[i], load(p[..i], p[i])), p[..i + 1])
  {
    var a := p[..i + 1];
    assert a[..i] == p[..i] && a[i] == p[i];
    forall j | 0 <= j < |a| - 1 ensures load(a[..j], a[j]) == Done {
      assert a[..j] == p[..j] && a[j] == p[j];
    }
  }

  /** At most one path is the first that does not load. */
  lemma FirstNotDoneUnique(order: seq<string>, load: (seq<string>, string) -> Reply, k: int)
    requires FirstNotDone(order, load, k)
    ensures forall i :: FirstNotDone(order, load, i) ==> i == k
  {
    forall i | 0 <= i < |order| && i != k ensures !FirstNotDone(order, load, i) {
      if i < k {
        assert load(order[..i], order[i]) == Done;
      } else {
        assert load(order[..k], order[k]) != Done;
      }
    }
  }

  /** When the dispatch stops early, the last path attempted is the first
      one that did not load, and its reply decides the outcome. */
  lemma {:induction false} LastAttemptedIsFirstNotDone(order: seq<string>, load: (seq<string>, string) -> Reply,
                                                       outcome: ArgvOutcome, attempted: seq<string>)
    requires DispatchedInOrder(order, load, outcome, attempted) && outcome != AllProcessed
    ensures FirstNotDone(order, load, |attempted| - 1)
    ensures outcome.LoadError? ==>
              load(order[..|attempted| - 1], order[|attempted| - 1]) == Failed(outcome.message)
    ensures outcome == ExitRequestedByEngine ==>
              load(order[..|attempted| - 1], order[|attempted| - 1]) == ExitRequested
  {
    var k := |attempted| - 1;
    assert attempted[..k] == order[..k] && attempted[k] == order[k];
    forall j | 0 <= j < k ensures load(order[..j], order[j]) == Done {
      assert attempted[..j] == order[..j] && attempted[j] == order[j];
    }
  }

  /** A dispatch in order leaves the effect the replies call for. */
  lemma DispatchEffect(order: seq<string>, load: (seq<string>, string) -> Reply,
                       outcome: ArgvOutcome, attempted: seq<string>)
    requires DispatchedInOrder(order, load, outcome, attempted)
    ensures EffectMatchesReplies(order, load, OutcomeEffect(outcome))
  {
    var e := OutcomeEffect(outcome);
    if outcome != AllProcessed {
      LastAttemptedIsFirstNotDone(order, load, outcome, attempted);
      var k := |attempted| - 1;
      FirstNotDoneUnique(order, load, k);
      assert !forall i :: 0 <= i < |order| ==> load(order[..i], order[i]) == Done by {
        assert load(order[..k], order[k]) != Done;
      }
    } else {
      forall i | 0 <= i < |order| ensures !FirstNotDone(order, load, i) {
        assert load(order[..i], order[i]) == Done;
      }
    }
  }

  /** The loop over `p` calling ftk->process_cmd_line_arg, where `load(done,
      path)` is the engine's answer for `path` after it has loaded `done`. */
  method Dispatch(p: seq<string>, load: (seq<string>, string) -> Reply)
    returns (outcome: ArgvOutcome, attempted: seq<string>)
    ensures DispatchedInOrder(p, load, outcome, attempted)
  {
    var i := 0;
    while i < |p|
      invariant i <= |p|
      invariant forall j :: 0 <= j < i ==> load(p[..j], p[j]) == Done
    {
      var r := load(p[..i], p[i]);
      if r != Done {
        StopAtFirstFailure(p, load, i);
        return StopOutcome(p[i], r), p[..i + 1];
      }
      i := i + 1;
    }
    assert p[..i] == p;
    outcome, attempted := AllProcessed, p;
  }

  method ProcessArgv(cl: CmdLine, execAndLog: string -> Reply, load: (seq<string>, string) -> Reply)
    returns (outcome: ArgvOutcome, attempted: seq<string>)
    ensures CommandExits(cl, execAndLog) ==> outcome == ExitRequestedByEngine && attempted == []
    ensures !CommandExits(cl, execAndLog) ==>
              DispatchedInOrder(ArgOrder(cl.reorder, cl.params), load, outcome, attempted)
    ensures CommandExits(cl, execAndLog) ==> OutcomeEffect(outcome) == ProcessEffect([], None, false)
    ensures !CommandExits(cl, execAndLog) ==>
              EffectMatchesReplies(ArgOrder(cl.reorder, cl.params), load, OutcomeEffect(outcome))
  {
    if cl.cmd.Some? {
      var r := execAndLog(cl.cmd.value);
      if r == ExitRequested {
        return ExitRequestedByEngine, [];
      }
    }
    // the rest of the parameters are scripts and data files
    var p: seq<string> := [];
    for i := 0 to |cl.params|
      invariant p == cl.params[..i]
    {
      p := p + [cl.params[i]];
    }
    assert p == cl.params;
    if cl.reorder && |p| > 1 {
      var n := FindCommonPrefixLength(p);
      p := SortFilenames(n, p);
    }
    outcome, attempted := Dispatch(p, load);
    DispatchEffect(p, load, outcome, attempted);
  }

  // ---------------------------------------------------------------------
  // What the reordering does

  /** Without -r, or with fewer than two paths, the command-line order stays. */
  lemma ArgOrderKeepsOrder(reorder: bool, params: seq<string>)
    requires !reorder || |params| < 2
    ensures ArgOrder(reorder, params) == params
  {
  }

  /** Reordering neither drops nor adds nor duplicates a path. */
  lemma ArgOrderIsPermutation(reorder: bool, params: seq<string>)
    ensures multiset(ArgOrder(reorder, params)) == multiset(params)
  {
  }

  /** With -r the paths come out ordered by less_filename built from their
      common prefix length. */
  lemma ArgOrderSorted(params: seq<string>)
    requires |params| > 1
    ensures SortedBy(CommonPrefixLength(params), ArgOrder(true, params))
  {
    var n := CommonPrefixLength(params);
    CommonPrefixLengthCorrect(params);
    var pre := params[0][..n];
    forall s | s in params ensures HasPrefix(s, pre) {
      var i :| 0 <= i < |params| && params[i] == s;
      assert forall k :: 0 <= k < n ==> s[k] == params[0][k];
    }
    SortFilenamesSorted(pre, params);
  }

  lemma HundredKey()
    ensures DigitAt("100.xy", 0) && NumericKey("100.xy") == 100
  {
    assert LeadingDigits(".xy") == [];
    assert LeadingDigits("100.xy") == "100";
    assert "100"[..2] == "10" && "10"[..1] == "1" && "1"[..0] == [];
  }

  lemma FiftyKey()
    ensures DigitAt("50.xy", 0) && NumericKey("50.xy") == 50
  {
    assert LeadingDigits(".xy") == [];
    assert LeadingDigits("50.xy") == "50";
    assert "50"[..1] == "5" && "5"[..0] == [];
  }

  /** The example of the -r switch's help text. */
  lemma FiftyBeforeHundred()
    ensures ArgOrder(true, ["100.xy", "50.xy"]) == ["50.xy", "100.xy"]
    ensures ArgOrder(false, ["100.xy", "50.xy"]) == ["100.xy", "50.xy"]
  {
    var p := ["100.xy", "50.xy"];
    assert Lcp("100.xy", "50.xy") == 0;
    assert CommonPrefixLength(p) == 0 by {
      assert p[..1] == ["100.xy"];
    }
    HundredKey();
    FiftyKey();
    assert !LessFilename(0, "100.xy", "50.xy");
    assert Insert(0, "100.xy", ["50.xy"]) == ["50.xy", "100.xy"] by {
      assert ["50.xy"][1..] == [];
    }
    assert SortFilenames(0, p) == Insert(0, "100.xy", SortFilenames(0, ["50.xy"])) by {
      assert p[1..] == ["50.xy"];
    }
  }
}
