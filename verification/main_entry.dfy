/**
 * The process entry and termination layer of the foundation library: the
 * console-control handler and POSIX signal handler that turn an operating
 * system stop request into a terminate event, the `WinMain`/`main` entry
 * sequence, and the ordered teardown run when a native application container
 * announces that it will terminate.
 *
 * Operating system calls are not executed: each one appears as an abstract
 * `Action` in the trace an operation returns. What the collaborators return
 * (`main_initialize`, `main_run` or `crash_guard`) is a parameter.
 */
module MainEntry {
  import opened Options

  // ---------------------------------------------------------------------
  // Actions and events
  // ---------------------------------------------------------------------

  /** The two terminate events the layer posts to the system event stream. */
  datatype Event =
    | FoundationTerminate   // FOUNDATIONEVENT_TERMINATE, posted by the handlers
    | CoreTerminate         // COREEVENT_TERMINATE, posted on will-terminate

  /** One externally visible step, in the order it happens. */
  datatype Action =
    | Post(event: Event)
    | DisableShutdownRetry          // SetProcessShutdownParameters(level, SHUTDOWN_NORETRY)
    | Sleep(milliseconds: nat)
    | MainInitialize
    | InstallConsoleHandler         // SetConsoleCtrlHandler(_main_console_handler, TRUE)
    | InstallSignalHandler(signal: nat)
    | IgnoreBrokenPipe              // sigaction(SIGPIPE, SIG_IGN)
    | SetMainThread
    | MainRun                       // main_run(0), called directly
    | CrashGuardSet(guardName: string)
    | CrashGuard(guardName: string) // crash_guard(main_run, 0, dump_callback, name)
    | ReleaseGuardName              // string_deallocate(name)
    | MainShutdown
    | PumpEvents
    | PostLoopHook
    | TerminateServices
    | ReleaseBundle
    | AppExit
    | PostExitHook
    | FreeArgv
    | CoreShutdown

  /** Number of times `trace` posts the event `e`. */
  function Posted(trace: seq<Action>, e: Event): nat
  {
    multiset(trace)[Post(e)]
  }

  // ---------------------------------------------------------------------
  // Console-control handler (Windows)
  // ---------------------------------------------------------------------

  /** Console control codes as defined by the Windows console API. */
  const CtrlCEvent: nat := 0
  const CtrlBreakEvent: nat := 1
  const CtrlCloseEvent: nat := 2
  const CtrlLogoffEvent: nat := 5
  const CtrlShutdownEvent: nat := 6

  /** The two decisions the handler's switch makes for a control code. */
  datatype ConsoleDecision = ConsoleDecision(postTerminate: bool, handled: bool)

  /**
   * The switch of `_main_console_handler`: which codes request termination
   * (logoff only for an application that is not a daemon) and which codes
   * the handler claims as handled.
   */
  function DecideConsole(controlType: nat, daemon: bool): (d: ConsoleDecision)
    ensures d.postTerminate ==> d.handled
  {
    if controlType == CtrlCEvent then ConsoleDecision(true, true)
    else if controlType == CtrlBreakEvent then ConsoleDecision(false, true)
    else if controlType == CtrlCloseEvent then ConsoleDecision(true, true)
    else if controlType == CtrlLogoffEvent then ConsoleDecision(!daemon, true)
    else if controlType == CtrlShutdownEvent then ConsoleDecision(true, true)
    else ConsoleDecision(false, false)
  }

  /** What the console handler does and what it returns to the system. */
  datatype ConsoleOutcome = ConsoleOutcome(actions: seq<Action>, handled: bool)

  /**
   * `_main_console_handler`: on a terminal code it posts one terminate
   * event, turns off shutdown retries and sleeps one second; it returns
   * whether the code was recognised.
   */
  function ConsoleHandler(controlType: nat, daemon: bool): (r: ConsoleOutcome)
    ensures r.handled <==> controlType in {CtrlCEvent, CtrlBreakEvent, CtrlCloseEvent, CtrlLogoffEvent, CtrlShutdownEvent}
    ensures Posted(r.actions, CoreTerminate) == 0 && Posted(r.actions, FoundationTerminate) <= 1
    ensures Posted(r.actions, FoundationTerminate) == 1 ==>
              |r.actions| == 3 && r.actions[0] == Post(FoundationTerminate)
              && r.actions[1] == DisableShutdownRetry && r.actions[2] == Sleep(1000)
    ensures Posted(r.actions, FoundationTerminate) == 0 ==> r.actions == []
  {
    var d := DecideConsole(controlType, daemon);
    var actions := if d.postTerminate then [Post(FoundationTerminate), DisableShutdownRetry, Sleep(1000)] else [];
    ConsoleOutcome(actions, d.handled)
  }

  /** Ctrl-C, close and shutdown each post exactly one terminate event and are handled. */
  lemma ConsoleTerminalCodes(controlType: nat, daemon: bool)
    requires controlType in {CtrlCEvent, CtrlCloseEvent, CtrlShutdownEvent}
    ensures Posted(ConsoleHandler(controlType, daemon).actions, FoundationTerminate) == 1
    ensures ConsoleHandler(controlType, daemon).handled
  {
  }

  /** Logoff posts a terminate event exactly when the application is not a daemon, and is handled. */
  lemma ConsoleLogoff(daemon: bool)
    ensures Posted(ConsoleHandler(CtrlLogoffEvent, daemon).actions, FoundationTerminate) == (if daemon then 0 else 1)
    ensures ConsoleHandler(CtrlLogoffEvent, daemon).handled
  {
  }

  /** Ctrl-Break posts nothing but is handled; any other code posts nothing and is not. */
  lemma ConsoleNonTerminalCodes(controlType: nat, daemon: bool)
    requires controlType !in {CtrlCEvent, CtrlCloseEvent, CtrlLogoffEvent, CtrlShutdownEvent}
    ensures ConsoleHandler(controlType, daemon).actions == []
    ensures ConsoleHandler(controlType, daemon).handled <==> controlType == CtrlBreakEvent
  {
  }

  /** Whether a control code makes the handler post, given the daemon flag. */
  predicate IsTerminalControl(controlType: nat, daemon: bool)
  {
    controlType in {CtrlCEvent, CtrlCloseEvent, CtrlShutdownEvent}
    || (controlType == CtrlLogoffEvent && !daemon)
  }

  /** Number of codes in `codes` that request termination. */
  function TerminalCount(codes: seq<nat>, daemon: bool): nat
  {
    if |codes| == 0 then 0
    else TerminalCount(codes[..|codes| - 1], daemon) + (if IsTerminalControl(codes[|codes| - 1], daemon) then 1 else 0)
  }

  /** The actions of handling each code of `codes` in turn. */
  function ConsoleTrace(codes: seq<nat>, daemon: bool): seq<Action>
  {
    if |codes| == 0 then []
    else ConsoleTrace(codes[..|codes| - 1], daemon) + ConsoleHandler(codes[|codes| - 1], daemon).actions
  }

  /** A run of console notifications posts one terminate event per terminal code and no more. */
  lemma {:induction false} ConsoleEventsPerNotification(codes: seq<nat>, daemon: bool)
    ensures Posted(ConsoleTrace(codes, daemon), FoundationTerminate) == TerminalCount(codes, daemon)
  {
    if |codes| > 0 {
      var prefix := codes[..|codes| - 1];
      var last := codes[|codes| - 1];
      ConsoleEventsPerNotification(prefix, daemon);
      PostedAppend(ConsoleTrace(prefix, daemon), ConsoleHandler(last, daemon).actions, FoundationTerminate);
      ConsoleHandlerPosts(last, daemon);
    }
  }

  /** A single notification posts once exactly for a terminal code. */
  lemma ConsoleHandlerPosts(controlType: nat, daemon: bool)
    ensures Posted(ConsoleHandler(controlType, daemon).actions, FoundationTerminate)
            == if IsTerminalControl(controlType, daemon) then 1 else 0
  {
  }

  /** Posts in consecutive traces add up. */
  lemma PostedAppend(a: seq<Action>, b: seq<Action>, e: Event)
    ensures Posted(a + b, e) == Posted(a, e) + Posted(b, e)
  {
    assert multiset(a + b) == multiset(a) + multiset(b);
  }

  // ---------------------------------------------------------------------
  // POSIX signal handler
  // ---------------------------------------------------------------------

  /** Signal numbers of the handled signals (Linux values). */
  const SigInt: nat := 2
  const SigQuit: nat := 3
  const SigKill: nat := 9
  const SigTerm: nat := 15

  /** The signals `main` installs `sighandler` for, in installation order. */
  const HandledSignals: seq<nat> := [SigKill, SigTerm, SigQuit, SigInt]

  /**
   * `sighandler`: posts one terminate event for every signal, recognised
   * or not, and neither exits the process nor waits.
   */
  function SignalHandler(signal: nat): (actions: seq<Action>)
    ensures Posted(actions, FoundationTerminate) == 1
    ensures forall i :: 0 <= i < |actions| ==> actions[i] == Post(FoundationTerminate)
  {
    [Post(FoundationTerminate)]
  }

  /** The actions of delivering each signal of `signals` in turn. */
  function SignalTrace(signals: seq<nat>): seq<Action>
  {
    if |signals| == 0 then []
    else SignalTrace(signals[..|signals| - 1]) + SignalHandler(signals[|signals| - 1])
  }

  /** Every delivered signal posts exactly one terminate event. */
  lemma {:induction false} SignalEventsPerNotification(signals: seq<nat>)
    ensures Posted(SignalTrace(signals), FoundationTerminate) == |signals|
    ensures forall i :: 0 <= i < |SignalTrace(signals)| ==> SignalTrace(signals)[i] == Post(FoundationTerminate)
  {
    if |signals| > 0 {
      SignalEventsPerNotification(signals[..|signals| - 1]);
    }
  }

  // ---------------------------------------------------------------------
  // Entry point
  // ---------------------------------------------------------------------

  /** The entry forms modelled: `WinMain`, `main` on Windows, and `main` on POSIX. */
  datatype Platform = WindowsGui | WindowsConsole | Posix

  /** `BUILD_DEBUG` runs the application directly; other builds run it under the crash guard. */
  datatype Build = Debug | Release

  /**
   * The fields of `application_t` the entry reads. `shortName` is `None`
   * for a null pointer; `version` is the string the version formats to.
   */
  datatype Application = Application(shortName: Option<string>, version: string,
                                     hasDumpCallback: bool)

  /** The crash-guard name: the short name (or "unknown" when null), a dash, the version. */
  function GuardName(app: Application): (name: string)
    ensures |name| == |app.shortName.GetOr("unknown")| + 1 + |app.version|
    ensures app.shortName.Some? ==> name[..|app.shortName.value|] == app.shortName.value
    ensures app.shortName.None? ==> name[..7] == "unknown"
    ensures var base := app.shortName.GetOr("unknown");
            name[|base|] == '-' && name[|base| + 1..] == app.version
  {
    app.shortName.GetOr("unknown") + "-" + app.version
  }

  /**
   * The handlers installed between initialisation and marking the main
   * thread: on POSIX `sighandler` for each handled signal in order, then
   * SIGPIPE ignored; on Windows only the console-control handler.
   */
  function InstallHandlers(platform: Platform): (r: seq<Action>)
    ensures platform == Posix ==>
              && |r| == |HandledSignals| + 1
              && (forall i :: 0 <= i < |HandledSignals| ==> r[i] == InstallSignalHandler(HandledSignals[i]))
              && r[|HandledSignals|] == IgnoreBrokenPipe
    ensures platform != Posix ==> r == [InstallConsoleHandler]
  {
    match platform
    case WindowsGui => [InstallConsoleHandler]
    case WindowsConsole => [InstallConsoleHandler]
    case Posix =>
      [InstallSignalHandler(SigKill), InstallSignalHandler(SigTerm),
       InstallSignalHandler(SigQuit), InstallSignalHandler(SigInt), IgnoreBrokenPipe]
  }

  /**
   * The run phase: a debug build calls `main_run` directly; any other build
   * registers the dump callback under the guard name when there is one,
   * runs under the crash guard with that name, and then releases the name.
   */
  function RunPhase(build: Build, app: Application): (r: seq<Action>)
    ensures build == Debug ==> r == [MainRun]
    ensures build == Release ==>
              && |r| == (if app.hasDumpCallback then 3 else 2)
              && (app.hasDumpCallback ==> r[0] == CrashGuardSet(GuardName(app)))
              && r[|r| - 2] == CrashGuard(GuardName(app))
              && r[|r| - 1] == ReleaseGuardName
  {
    match build
    case Debug => [MainRun]
    case Release =>
      var name := GuardName(app);
      (if app.hasDumpCallback then [CrashGuardSet(name)] else []) + [CrashGuard(name), ReleaseGuardName]
  }

  /** What an entry point did and what it returned. */
  datatype EntryResult = EntryResult(trace: seq<Action>, exitCode: int)

  /** The step that runs the application, directly or guarded. */
  predicate IsRun(a: Action)
  {
    a.MainRun? || a.CrashGuard?
  }

  /** Where each action belongs in the entry sequence; the trace must never step back. */
  function EntryPhase(a: Action): nat
  {
    match a
    case MainInitialize => 0
    case InstallConsoleHandler => 1
    case InstallSignalHandler(_) => 1
    case IgnoreBrokenPipe => 1
    case SetMainThread => 2
    case CrashGuardSet(_) => 3
    case MainRun => 4
    case CrashGuard(_) => 4
    case ReleaseGuardName => 5
    case MainShutdown => 6
    case _ => 7
  }

  /** The actions of `trace` follow the entry sequence's phases. */
  predicate InEntryOrder(trace: seq<Action>)
  {
    forall i, j :: 0 <= i < j < |trace| ==> EntryPhase(trace[i]) <= EntryPhase(trace[j])
  }

  /**
   * `WinMain` and `main`: initialise, and return -1 at once on failure;
   * otherwise install the platform's handlers, mark the main thread, run,
   * shut down, and return what the run returned. `runResult` is the value
   * `main_run` (debug) or `crash_guard` (release) returns.
   */
  function Entry(platform: Platform, build: Build, app: Application,
                 initStatus: int, runResult: int): (r: EntryResult)
    ensures initStatus < 0 ==> r.exitCode == -1 && r.trace == [MainInitialize]
    ensures initStatus >= 0 ==> r.exitCode == runResult
    ensures initStatus >= 0 ==> |r.trace| > 0 && r.trace[|r.trace| - 1] == MainShutdown
    ensures initStatus >= 0 ==> multiset(r.trace)[MainShutdown] == 1
    ensures initStatus >= 0 ==> multiset(r.trace)[SetMainThread] == 1
  {
    if initStatus < 0 then EntryResult([MainInitialize], -1)
    else EntryResult(SuccessTrace(platform, build, app), runResult)
  }

  /** The steps of an entry whose initialisation succeeded. */
  function SuccessTrace(platform: Platform, build: Build, app: Application): (trace: seq<Action>)
    ensures |trace| > 0 && trace[|trace| - 1] == MainShutdown
    ensures multiset(trace)[MainShutdown] == 1
    ensures multiset(trace)[SetMainThread] == 1
  {
    var handlers, run := InstallHandlers(platform), RunPhase(build, app);
    HandlersCounts(platform);
    RunPhaseCounts(build, app);
    [MainInitialize] + (handlers + ([SetMainThread] + (run + [MainShutdown])))
  }

  /** Installing handlers neither marks the main thread nor shuts down. */
  lemma HandlersCounts(platform: Platform)
    ensures multiset(InstallHandlers(platform))[SetMainThread] == 0
    ensures multiset(InstallHandlers(platform))[MainShutdown] == 0
  {
  }

  /** The run phase neither marks the main thread nor shuts down. */
  lemma RunPhaseCounts(build: Build, app: Application)
    ensures multiset(RunPhase(build, app))[SetMainThread] == 0
    ensures multiset(RunPhase(build, app))[MainShutdown] == 0
  {
  }

  /** Every action of `s` lies in the phase range `[lo, hi]`. */
  predicate PhasesWithin(s: seq<Action>, lo: nat, hi: nat)
  {
    forall i :: 0 <= i < |s| ==> lo <= EntryPhase(s[i]) <= hi
  }

  /** Phase bounds carry over to a concatenation. */
  lemma WithinAppend(a: seq<Action>, b: seq<Action>, lo: nat, hi: nat)
    requires PhasesWithin(a, lo, hi) && PhasesWithin(b, lo, hi)
    ensures PhasesWithin(a + b, lo, hi)
  {
    forall i | 0 <= i < |a + b|
      ensures lo <= EntryPhase((a + b)[i]) <= hi
    {
      if i < |a| {
        assert (a + b)[i] == a[i];
      } else {
        assert (a + b)[i] == b[i - |a|];
      }
    }
  }

  /** Ordered pieces whose phase ranges follow each other concatenate to an ordered trace. */
  lemma OrderAppend(a: seq<Action>, b: seq<Action>, mid: nat)
    requires InEntryOrder(a) && InEntryOrder(b)
    requires PhasesWithin(a, 0, mid) && PhasesWithin(b, mid, 7)
    ensures InEntryOrder(a + b)
  {
    var t := a + b;
    forall i, j | 0 <= i < j < |t|
      ensures EntryPhase(t[i]) <= EntryPhase(t[j])
    {
      if j < |a| {
        assert t[i] == a[i] && t[j] == a[j];
      } else if i >= |a| {
        assert t[i] == b[i - |a|] && t[j] == b[j - |a|];
      } else {
        assert t[i] == a[i] && t[j] == b[j - |a|];
      }
    }
  }

  /** In an ordered trace an action of an earlier phase comes first. */
  lemma OrderedPrecedes(t: seq<Action>, i: nat, j: nat)
    requires InEntryOrder(t) && i < |t| && j < |t|
    requires EntryPhase(t[i]) < EntryPhase(t[j])
    ensures i < j
  {
  }

  /**
   * POSIX installs `sighandler` for each handled signal in order and then
   * ignores SIGPIPE; Windows installs only the console handler. Every one
   * of these steps belongs to the handler phase.
   */
  lemma HandlersShape(platform: Platform)
    ensures InEntryOrder(InstallHandlers(platform)) && PhasesWithin(InstallHandlers(platform), 1, 1)
    ensures platform == Posix ==>
              && |InstallHandlers(platform)| == |HandledSignals| + 1
              && (forall i :: 0 <= i < |HandledSignals| ==> InstallHandlers(platform)[i] == InstallSignalHandler(HandledSignals[i]))
              && InstallHandlers(platform)[|HandledSignals|] == IgnoreBrokenPipe
    ensures platform != Posix ==> InstallHandlers(platform) == [InstallConsoleHandler]
  {
  }

  /** The run phase registers, runs, then releases the guard name. */
  lemma RunPhaseShape(build: Build, app: Application)
    ensures InEntryOrder(RunPhase(build, app)) && PhasesWithin(RunPhase(build, app), 3, 5)
  {
  }

  /**
   * The entry trace follows the fixed sequence: initialise, install
   * handlers, mark the main thread, register the dump callback, run,
   * release the guard name, shut down.
   */
  lemma EntryOrder(platform: Platform, build: Build, app: Application, initStatus: int, runResult: int)
    ensures InEntryOrder(Entry(platform, build, app, initStatus, runResult).trace)
  {
    if initStatus >= 0 {
      HandlersShape(platform);
      RunPhaseShape(build, app);
      SuccessTraceShape(platform, build, app);
      OrderedSuccess(InstallHandlers(platform), RunPhase(build, app));
    }
  }

  /** Handler-phase steps and run-phase steps, placed between the fixed steps, keep the entry order. */
  lemma OrderedSuccess(handlers: seq<Action>, run: seq<Action>)
    requires InEntryOrder(handlers) && PhasesWithin(handlers, 1, 1)
    requires InEntryOrder(run) && PhasesWithin(run, 3, 5)
    ensures InEntryOrder([MainInitialize] + (handlers + ([SetMainThread] + (run + [MainShutdown]))))
  {
    var t3 := run + [MainShutdown];
    OrderAppend(run, [MainShutdown], 5);
    WithinAppend(run, [MainShutdown], 3, 6);
    var t2 := [SetMainThread] + t3;
    OrderAppend([SetMainThread], t3, 2);
    WithinAppend([SetMainThread], t3, 2, 6);
    var t1 := handlers + t2;
    OrderAppend(handlers, t2, 1);
    WithinAppend(handlers, t2, 1, 6);
    OrderAppend([MainInitialize], t1, 0);
  }

  /**
   * The application runs exactly once, strictly after the main thread is
   * marked and strictly before shutdown.
   */
  lemma EntryRunBetween(platform: Platform, build: Build, app: Application, initStatus: int, runResult: int)
    requires initStatus >= 0
    ensures var t := Entry(platform, build, app, initStatus, runResult).trace;
            && (forall i, j :: 0 <= i < |t| && 0 <= j < |t| && t[i] == SetMainThread && IsRun(t[j]) ==> i < j)
            && (forall j, k :: 0 <= j < |t| && 0 <= k < |t| && IsRun(t[j]) && t[k] == MainShutdown ==> j < k)
  {
    EntryOrder(platform, build, app, initStatus, runResult);
    RunBetween(Entry(platform, build, app, initStatus, runResult).trace);
  }

  /** In any trace in entry order the run lies between marking the main thread and shutdown. */
  lemma RunBetween(t: seq<Action>)
    requires InEntryOrder(t)
    ensures forall i, j :: 0 <= i < |t| && 0 <= j < |t| && t[i] == SetMainThread && IsRun(t[j]) ==> i < j
    ensures forall j, k :: 0 <= j < |t| && 0 <= k < |t| && IsRun(t[j]) && t[k] == MainShutdown ==> j < k
  {
    forall i, j | 0 <= i < |t| && 0 <= j < |t| && t[i] == SetMainThread && IsRun(t[j])
      ensures i < j
    {
      OrderedPrecedes(t, i, j);
    }
    forall j, k | 0 <= j < |t| && 0 <= k < |t| && IsRun(t[j]) && t[k] == MainShutdown
      ensures j < k
    {
      OrderedPrecedes(t, j, k);
    }
  }

  /** The success trace is the handlers and the run phase between the fixed steps. */
  lemma SuccessTraceShape(platform: Platform, build: Build, app: Application)
    ensures SuccessTrace(platform, build, app)
            == [MainInitialize] + (InstallHandlers(platform) + ([SetMainThread] + (RunPhase(build, app) + [MainShutdown])))
  {
  }

  /** Handler installation holds none of the run phase's steps. */
  lemma HandlersOnlyInstall(platform: Platform)
    ensures forall a :: a in InstallHandlers(platform) ==> EntryPhase(a) == 1
  {
    HandlersShape(platform);
  }

  /** A debug build calls `main_run` directly, exactly once, and never engages the crash guard. */
  lemma EntryDebugRun(platform: Platform, app: Application, initStatus: int, runResult: int)
    requires initStatus >= 0
    ensures var t := Entry(platform, Debug, app, initStatus, runResult).trace;
            && multiset(t)[MainRun] == 1
            && forall a :: a in t ==> !a.CrashGuard? && !a.CrashGuardSet?
  {
    SuccessTraceShape(platform, Debug, app);
    HandlersOnlyInstall(platform);
    DebugSteps(InstallHandlers(platform));
  }

  /** Between the fixed steps, phase-1 handlers and a direct run give one `main_run` and no guard. */
  lemma DebugSteps(handlers: seq<Action>)
    requires forall a :: a in handlers ==> EntryPhase(a) == 1
    ensures var t := [MainInitialize] + (handlers + ([SetMainThread] + ([MainRun] + [MainShutdown])));
            && multiset(t)[MainRun] == 1
            && forall a :: a in t ==> !a.CrashGuard? && !a.CrashGuardSet?
  {
    assert MainRun !in handlers;
  }

  /**
   * A release build never calls `main_run` directly: it runs it once under
   * the crash guard with the guard name, registering the dump callback
   * first exactly when the application has one.
   */
  lemma EntryReleaseRun(platform: Platform, app: Application, initStatus: int, runResult: int)
    requires initStatus >= 0
    ensures var t := Entry(platform, Release, app, initStatus, runResult).trace;
            var name := GuardName(app);
            && multiset(t)[MainRun] == 0
            && multiset(t)[CrashGuard(name)] == 1
            && multiset(t)[CrashGuardSet(name)] == (if app.hasDumpCallback then 1 else 0)
  {
    SuccessTraceShape(platform, Release, app);
    HandlersOnlyInstall(platform);
    ReleaseSteps(InstallHandlers(platform), GuardName(app), app.hasDumpCallback);
  }

  /** Between the fixed steps, phase-1 handlers and a guarded run give one guarded run and no direct one. */
  lemma ReleaseSteps(handlers: seq<Action>, name: string, hasDumpCallback: bool)
    requires forall a :: a in handlers ==> EntryPhase(a) == 1
    ensures var run := (if hasDumpCallback then [CrashGuardSet(name)] else []) + [CrashGuard(name), ReleaseGuardName];
            var t := [MainInitialize] + (handlers + ([SetMainThread] + (run + [MainShutdown])));
            && multiset(t)[MainRun] == 0
            && multiset(t)[CrashGuard(name)] == 1
            && multiset(t)[CrashGuardSet(name)] == (if hasDumpCallback then 1 else 0)
  {
    assert MainRun !in handlers && CrashGuard(name) !in handlers && CrashGuardSet(name) !in handlers;
  }

  /** A failed initialisation neither marks the main thread, runs, nor shuts down. */
  lemma EntryInitFailure(platform: Platform, build: Build, app: Application, initStatus: int, runResult: int)
    requires initStatus < 0
    ensures var r := Entry(platform, build, app, initStatus, runResult);
            && r.exitCode == -1
            && MainShutdown !in r.trace && SetMainThread !in r.trace
            && forall i :: 0 <= i < |r.trace| ==> !IsRun(r.trace[i])
  {
  }

  // ---------------------------------------------------------------------
  // Native will-terminate callback
  // ---------------------------------------------------------------------

  /** Position of each step in the mandatory teardown order of `_app_will_terminate`. */
  function TeardownRank(a: Action): nat
  {
    match a
    case Post(_) => 0
    case PumpEvents => 1
    case PostLoopHook => 2
    case TerminateServices => 3
    case ReleaseBundle => 4
    case AppExit => 5
    case PostExitHook => 6
    case FreeArgv => 7
    case CoreShutdown => 8
    case _ => 9
  }

  /**
   * `_app_will_terminate`: post the core terminate event, drain events once,
   * run the post-loop hook, stop services, release the bundle if one is held,
   * exit the application, run the post-exit hook, free the argument array,
   * and shut the core down.
   */
  function WillTerminate(hasBundle: bool): (trace: seq<Action>)
    ensures |trace| == if hasBundle then 9 else 8
    ensures trace[0] == Post(CoreTerminate) && trace[|trace| - 1] == CoreShutdown
    ensures forall i, j :: 0 <= i < j < |trace| ==> TeardownRank(trace[i]) < TeardownRank(trace[j])
    ensures forall i :: 0 <= i < |trace| ==> TeardownRank(trace[i]) < 9
    ensures ReleaseBundle in trace <==> hasBundle
  {
    [Post(CoreTerminate), PumpEvents, PostLoopHook, TerminateServices]
    + (if hasBundle then [ReleaseBundle] else [])
    + [AppExit, PostExitHook, FreeArgv, CoreShutdown]
  }

  /**
   * Events drain before services stop, and platform resources are released
   * before the core shuts down.
   */
  lemma WillTerminateOrdering(hasBundle: bool)
    ensures var t := WillTerminate(hasBundle);
            && (exists i, j :: 0 <= i < j < |t| && t[i] == PumpEvents && t[j] == TerminateServices)
            && (hasBundle ==> exists i, j :: 0 <= i < j < |t| && t[i] == ReleaseBundle && t[j] == CoreShutdown)
            && Posted(t, CoreTerminate) == 1 && Posted(t, FoundationTerminate) == 0
  {
    TeardownPosts(hasBundle);
    TeardownSteps(hasBundle);
    var t := WillTerminate(hasBundle);
    assert t[1] == PumpEvents && t[3] == TerminateServices;
    if hasBundle {
      assert t[4] == ReleaseBundle && t[8] == CoreShutdown;
    }
  }

  /** Where the drained events, the stopped services and the released bundle sit in the teardown. */
  lemma TeardownSteps(hasBundle: bool)
    ensures WillTerminate(hasBundle)[1] == PumpEvents && WillTerminate(hasBundle)[3] == TerminateServices
    ensures hasBundle ==> WillTerminate(hasBundle)[4] == ReleaseBundle
  {
  }

  /** Teardown posts the core terminate event once and no foundation event. */
  lemma TeardownPosts(hasBundle: bool)
    ensures Posted(WillTerminate(hasBundle), CoreTerminate) == 1
    ensures Posted(WillTerminate(hasBundle), FoundationTerminate) == 0
  {
  }
}
