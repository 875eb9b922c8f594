// Starting the virtual machine on whatever the host can give (supervise in
// main.go): each failed start is classified and answered by giving something
// up. The attempts are limited, and the limit is just enough.
module LaunchLadder {
  import opened Wrappers

  const MAX_ATTEMPTS := 12
  const MINIMUM_MIB := 1024
  const MAXIMUM_MIB := 65536

  datatype Config = Config(useGpu: bool, irqchipOff: bool, sound: bool, memMiB: nat, runtimePending: bool)

  /** What restoring the previous runtime comes to. */
  datatype Restore = Restored | NotRestored

  /** One attempt, as the launcher finds it: QMP answers, it does not within a
      minute, the process could not be started, the launch is cancelled, or the
      process exits and leaves these traces. */
  datatype Attempt =
    | Answers
    | Wedges
    | WillNotStart
    | Cancelled
    | Exits(nestedRefused: bool, noSound: bool, starved: bool, cpuWorkedBefore: bool, restore: Restore)

  datatype Verdict = Up | Stopped | NestedRefused | OutOfMemory | BadStart | GaveUp

  datatype Reaction = Again(cfg: Config) | Over(verdict: Verdict)

  function Halved(mib: nat): nat {
    if mib / 2 < MINIMUM_MIB then MINIMUM_MIB else mib / 2
  }

  function React(cfg: Config, a: Attempt): Reaction {
    match a
    case Answers => Over(Up)
    case Cancelled => Over(Stopped)
    case WillNotStart => Over(BadStart)
    case Wedges => Again(cfg)
    case Exits(nestedRefused, noSound, starved, cpuWorkedBefore, restore) =>
      if nestedRefused then
        if !cfg.irqchipOff then Again(cfg.(irqchipOff := true)) else Over(NestedRefused)
      else if cfg.sound && noSound then Again(cfg.(sound := false))
      else if starved then
        if cfg.memMiB > MINIMUM_MIB then Again(cfg.(memMiB := Halved(cfg.memMiB))) else Over(OutOfMemory)
      else if cfg.useGpu then
        if cpuWorkedBefore then Again(cfg.(useGpu := false))
        else if cfg.runtimePending && restore.Restored? then Again(cfg.(runtimePending := false))
        else Again(cfg.(useGpu := false))
      else Over(BadStart)
  }

  datatype End = End(cfg: Config, verdict: Verdict, attempts: nat)

  function Attempts(cfg: Config, host: nat -> Attempt, attempt: nat): (e: End)
    requires attempt <= MAX_ATTEMPTS
    decreases MAX_ATTEMPTS - attempt
  {
    if attempt == MAX_ATTEMPTS then End(cfg, GaveUp, attempt)
    else
      match React(cfg, host(attempt))
      case Over(verdict) => End(cfg, verdict, attempt + 1)
      case Again(next) => Attempts(next, host, attempt + 1)
  }

  function Supervise(cfg: Config, host: nat -> Attempt): End {
    Attempts(cfg, host, 0)
  }

  // ---- How much there is to give up -------------------------------------------------

  function Halvings(mib: nat): nat
    decreases mib
  {
    if mib <= MINIMUM_MIB then 0 else 1 + Halvings(Halved(mib))
  }

  lemma {:induction false} HalvingsBound(mib: nat, doubled: nat, k: nat)
    requires mib <= doubled && doubled == MINIMUM_MIB * Power2(k)
    ensures Halvings(mib) <= k
    decreases k
  {
    if k > 0 && mib > MINIMUM_MIB {
      HalvingsBound(Halved(mib), MINIMUM_MIB * Power2(k - 1), k - 1);
    }
  }

  function Power2(k: nat): (p: nat)
    ensures p > 0
  {
    if k == 0 then 1 else 2 * Power2(k - 1)
  }

  /** The fallbacks a configuration still has. */
  function Left(cfg: Config): nat {
    (if cfg.irqchipOff then 0 else 1) + (if cfg.sound then 1 else 0) + Halvings(cfg.memMiB)
    + (if !cfg.useGpu then 0 else if cfg.runtimePending then 2 else 1)
  }

  /** One irqchip, one audio, two graphics and six memory fallbacks. */
  lemma LeftBound(cfg: Config)
    requires cfg.memMiB <= MAXIMUM_MIB
    ensures Left(cfg) <= 10
  {
    assert Power2(6) == 64 by {
      assert Power2(3) == 8;
    }
    HalvingsBound(cfg.memMiB, MAXIMUM_MIB, 6);
  }

  /** The second configuration has no more of anything than the first. */
  predicate Degraded(from: Config, to: Config) {
    && (to.useGpu ==> from.useGpu) && (from.irqchipOff ==> to.irqchipOff) && (to.sound ==> from.sound)
    && to.memMiB <= from.memMiB && (to.runtimePending ==> from.runtimePending)
    && (from.memMiB >= MINIMUM_MIB ==> to.memMiB >= MINIMUM_MIB)
  }

  lemma ReactDegrades(cfg: Config, a: Attempt)
    ensures React(cfg, a).Again? ==>
      var next := React(cfg, a).cfg;
      Degraded(cfg, next) && (if a.Wedges? then next == cfg else Left(next) < Left(cfg))
  {
  }

  function Wedged(host: nat -> Attempt, from: nat): nat
    requires from <= MAX_ATTEMPTS
    decreases MAX_ATTEMPTS - from
  {
    if from == MAX_ATTEMPTS then 0 else (if host(from).Wedges? then 1 else 0) + Wedged(host, from + 1)
  }

  lemma {:induction false} AttemptsSuffice(cfg: Config, host: nat -> Attempt, attempt: nat)
    requires attempt <= MAX_ATTEMPTS
    ensures var e := Attempts(cfg, host, attempt);
      && Degraded(cfg, e.cfg) && attempt <= e.attempts <= MAX_ATTEMPTS
      && (Left(cfg) + Wedged(host, attempt) < MAX_ATTEMPTS - attempt ==> e.verdict != GaveUp)
    decreases MAX_ATTEMPTS - attempt
  {
    if attempt < MAX_ATTEMPTS {
      var a := host(attempt);
      ReactDegrades(cfg, a);
      if React(cfg, a).Again? {
        AttemptsSuffice(React(cfg, a).cfg, host, attempt + 1);
      }
    }
  }

  // ---- Why something is given up, and why it ends --------------------------------------------

  /** Every failed start, its causes in the order they are looked at, gives up the
      one thing that goes with the first of them. */
  datatype Cause = Nothing | Nested | Silent | Starved | Graphics

  function CauseOf(cfg: Config, a: Attempt): Cause {
    if !a.Exits? then Nothing
    else if a.nestedRefused then Nested
    else if cfg.sound && a.noSound then Silent
    else if a.starved then Starved
    else if cfg.useGpu then Graphics
    else Nothing
  }

  /** A setting changes exactly for its cause; the engine is given up rather than
      acceleration exactly if it is a new one that can be put back and there is no
      record of acceleration failing before it came. */
  lemma EachFallbackHasItsCause(cfg: Config, a: Attempt)
    requires React(cfg, a).Again?
    ensures var next, cause := React(cfg, a).cfg, CauseOf(cfg, a);
      && (next.irqchipOff != cfg.irqchipOff <==> cause == Nested)
      && (next.sound != cfg.sound <==> cause == Silent)
      && (next.memMiB != cfg.memMiB <==> cause == Starved)
      && (cause == Starved ==> MINIMUM_MIB <= next.memMiB && cfg.memMiB / 2 <= next.memMiB && (next.memMiB > MINIMUM_MIB ==> next.memMiB == cfg.memMiB / 2))
      && (next.useGpu != cfg.useGpu || next.runtimePending != cfg.runtimePending <==> cause == Graphics)
      && (next.runtimePending != cfg.runtimePending <==>
            cause == Graphics && cfg.runtimePending && !a.cpuWorkedBefore && a.restore.Restored?)
      && (next.useGpu == cfg.useGpu || next.runtimePending == cfg.runtimePending)
      && (cause == Nothing <==> a.Wedges?)
  {
  }

  /** Whether an attempt ends the launch with a verdict. */
  predicate Ends(cfg: Config, a: Attempt, verdict: Verdict) {
    match verdict
    case Up => a.Answers?
    case Stopped => a.Cancelled?
    case NestedRefused => CauseOf(cfg, a) == Nested && cfg.irqchipOff
    case OutOfMemory => CauseOf(cfg, a) == Starved && cfg.memMiB <= MINIMUM_MIB
    case BadStart => a.WillNotStart? || (a.Exits? && CauseOf(cfg, a) == Nothing)
    case GaveUp => false
  }

  lemma ReactEndsIff(cfg: Config, a: Attempt, verdict: Verdict)
    ensures React(cfg, a) == Over(verdict) <==> Ends(cfg, a, verdict)
  {
  }

  /** The verdict of a launch is that of its last attempt, on the settings left by
      then; and it gives up only after all its attempts. */
  lemma {:induction false} VerdictHasItsCause(cfg: Config, host: nat -> Attempt, attempt: nat)
    requires attempt <= MAX_ATTEMPTS
    ensures var e := Attempts(cfg, host, attempt);
      if e.verdict == GaveUp then e.attempts == MAX_ATTEMPTS
      else attempt < e.attempts && Ends(e.cfg, host(e.attempts - 1), e.verdict)
    decreases MAX_ATTEMPTS - attempt
  {
    if attempt < MAX_ATTEMPTS {
      var r := React(cfg, host(attempt));
      match r {
        case Over(verdict) => ReactEndsIff(cfg, host(attempt), verdict);
        case Again(next) => VerdictHasItsCause(next, host, attempt + 1);
      }
    }
  }

  /** For every accepted memory size and every host, with at most one wedged
      attempt: the machine comes up, the launch is cancelled, or the launcher
      can say what is wrong, and never because it ran out of attempts. */
  lemma SuperviseNeverJustGivesUp(cfg: Config, host: nat -> Attempt)
    requires cfg.memMiB <= MAXIMUM_MIB && Wedged(host, 0) <= 1
    ensures var e := Supervise(cfg, host);
      e.verdict != GaveUp && e.attempts <= MAX_ATTEMPTS && Degraded(cfg, e.cfg)
  {
    LeftBound(cfg);
    AttemptsSuffice(cfg, host, 0);
  }

  // ---- The limit is tight -------------------------------------------------------------

  /** A host that makes the launcher give up everything, one thing at a time. */
  function HardestHost(wedges: nat): nat -> Attempt {
    n =>
      if n < wedges then Wedges
      else if n == wedges then Exits(true, false, false, false, NotRestored)
      else if n == wedges + 1 then Exits(false, true, false, false, NotRestored)
      else if n < wedges + 8 then Exits(false, false, true, false, NotRestored)
      else if n == wedges + 8 then Exits(false, false, false, false, Restored)
      else if n == wedges + 9 then Exits(false, false, false, false, NotRestored)
      else Answers
  }

  const FULL := Config(true, false, true, MAXIMUM_MIB, true)

  function Bare(mib: nat): Config {
    Config(true, true, false, mib, true)
  }

  lemma MemoryLadder(wedges: nat)
    requires wedges <= 2
    ensures var host := HardestHost(wedges);
      Attempts(Bare(MAXIMUM_MIB), host, wedges + 2) == Attempts(Bare(MINIMUM_MIB), host, wedges + 8)
  {
    var host := HardestHost(wedges);
    assert Attempts(Bare(65536), host, wedges + 2) == Attempts(Bare(32768), host, wedges + 3);
    assert Attempts(Bare(32768), host, wedges + 3) == Attempts(Bare(16384), host, wedges + 4);
    assert Attempts(Bare(16384), host, wedges + 4) == Attempts(Bare(8192), host, wedges + 5);
    assert Attempts(Bare(8192), host, wedges + 5) == Attempts(Bare(4096), host, wedges + 6);
    assert Attempts(Bare(4096), host, wedges + 6) == Attempts(Bare(2048), host, wedges + 7);
    assert Attempts(Bare(2048), host, wedges + 7) == Attempts(Bare(1024), host, wedges + 8);
  }

  lemma {:induction false} HardestHostEnd(wedges: nat)
    requires wedges <= 2
    ensures var host := HardestHost(wedges);
      && Attempts(FULL, host, wedges) == Attempts(Config(false, true, false, MINIMUM_MIB, false), host, wedges + 10)
  {
    var host := HardestHost(wedges);
    assert Attempts(FULL, host, wedges) == Attempts(FULL.(irqchipOff := true), host, wedges + 1);
    assert Attempts(FULL.(irqchipOff := true), host, wedges + 1) == Attempts(Bare(MAXIMUM_MIB), host, wedges + 2);
    MemoryLadder(wedges);
    var c := Bare(MINIMUM_MIB);
    assert Attempts(c, host, wedges + 8) == Attempts(c.(runtimePending := false), host, wedges + 9);
    assert Attempts(c.(runtimePending := false), host, wedges + 9)
        == Attempts(c.(runtimePending := false, useGpu := false), host, wedges + 10);
  }

  /** All ten fallbacks can happen in one run, and with one wedged attempt the
      last attempt is needed; a second wedged attempt is one too many. */
  lemma TheLimitIsTight()
    ensures var e := Supervise(FULL, HardestHost(1));
      e.verdict == Up && e.attempts == MAX_ATTEMPTS && e.cfg == Config(false, true, false, MINIMUM_MIB, false)
    ensures Supervise(FULL, HardestHost(2)).verdict == GaveUp
  {
    HardestHostEnd(1);
    assert Supervise(FULL, HardestHost(1)) == Attempts(FULL, HardestHost(1), 1);
    HardestHostEnd(2);
    assert Supervise(FULL, HardestHost(2)) == Attempts(FULL, HardestHost(2), 1);
    assert Attempts(FULL, HardestHost(2), 1) == Attempts(FULL, HardestHost(2), 2);
  }

  // ---- The loop as the launcher runs it --------------------------------------------------

  class Launcher {
    var useGpu: bool
    var irqchipOff: bool
    var sound: bool
    var memMiB: nat
    var runtimePending: bool

    ghost function View(): Config
      reads this
    {
      Config(useGpu, irqchipOff, sound, memMiB, runtimePending)
    }

    constructor (useGpu: bool, memMiB: nat, runtimePending: bool)
      ensures View() == Config(useGpu, false, true, memMiB, runtimePending)
    {
      this.useGpu, this.memMiB, this.runtimePending := useGpu, memMiB, runtimePending;
      irqchipOff, sound := false, true;
    }

    /** One attempt is over: something is given up, or the launch ends. */
    method GiveSomethingUp(a: Attempt) returns (verdict: Option<Verdict>)
      modifies this
      ensures React(old(View()), a) == if verdict.Some? then Over(verdict.value) else Again(View())
      ensures verdict.Some? ==> View() == old(View())
    {
      match a {
        case Answers =>
          return Some(Up);
        case Cancelled =>
          return Some(Stopped);
        case WillNotStart =>
          return Some(BadStart);
        case Wedges =>
        case Exits(nestedRefused, noSound, starved, cpuWorkedBefore, restore) =>
          if nestedRefused {
            if irqchipOff {
              return Some(NestedRefused);
            }
            irqchipOff := true;
          } else if sound && noSound {
            sound := false;
          } else if starved {
            if memMiB <= MINIMUM_MIB {
              return Some(OutOfMemory);
            }
            memMiB := memMiB / 2;
            if memMiB < MINIMUM_MIB {
              memMiB := MINIMUM_MIB;
            }
          } else if useGpu {
            if !cpuWorkedBefore && runtimePending && restore.Restored? {
              runtimePending := false;
            } else {
              useGpu := false;
            }
          } else {
            return Some(BadStart);
          }
      }
      return None;
    }

    method Run(host: nat -> Attempt) returns (verdict: Verdict, attempts: nat)
      modifies this
      ensures End(View(), verdict, attempts) == Supervise(old(View()), host)
      ensures old(memMiB) <= MAXIMUM_MIB && Wedged(host, 0) <= 1 ==> verdict != GaveUp
    {
      hide React;
      if memMiB <= MAXIMUM_MIB && Wedged(host, 0) <= 1 {
        SuperviseNeverJustGivesUp(View(), host);
      }
      attempts := 0;
      while attempts < MAX_ATTEMPTS
        invariant attempts <= MAX_ATTEMPTS
        invariant Attempts(View(), host, attempts) == Supervise(old(View()), host)
      {
        var over := GiveSomethingUp(host(attempts));
        attempts := attempts + 1;
        if over.Some? {
          return over.value, attempts;
        }
      }
      return GaveUp, attempts;
    }
  }
}
