/**
 * `RazorMicrokernel::RzNetworkUtils`: the object that remembers the interface
 * prefix it watches and the time its current readiness check started, and
 * the readiness loop itself, written step by step as the Ruby method is.
 * The loop's local flags are kept together in one LoopState record.
 */
module NetworkUtils {
  import opened Wrappers
  import opened Text
  import opened Ifconfig
  import opened Readiness

  class RzNetworkUtils {
    /** `@eth_prefix`. */
    const ethPrefix: string
    /** `@start_time`, unset until a check starts. */
    var startTime: Option<int>

    constructor (ethPrefix: string := DefEthPrefix)
      ensures this.ethPrefix == ethPrefix && startTime == None
    {
      this.ethPrefix := ethPrefix;
      startTime := None;
    }

    /** `current_wait_time`: seconds since the check started, for a clock reading `now`. */
    function CurrentWaitTime(now: int): int
      reads this
      requires startTime.Some?
    {
      now - startTime.value
    }

    /**
     * Lines 49-78: the recovery steps at the start of a pass that follows a
     * sleep: the firmware workaround once per check, then the DHCP restart
     * when the last entry examined had no address.
     */
    method RecoverAfterSleep(lsmod: seq<string>, st0: LoopState) returns (st: LoopState, actions: seq<Action>)
      ensures Step(st, actions) == Recover(NetworkModules(lsmod), st0)
    {
      st, actions := st0, [];
      if st.waitTime > 0 {
        if !st.checkFirmwareOnce {
          st := st.(checkFirmwareOnce := true);
          var networkModList := NetworkModules(lsmod);
          if |networkModList| > 0 {
            actions := actions + [ReloadModule(networkModList[0])];
          }
        }
        if !st.nicHasIpAddr {
          actions := actions + [RestartDhcp];
        }
      }
    }

    /**
     * Lines 83-113: the scan over the `ifconfig` entries of one pass, each
     * seen through the three patterns, which overwrites `dev_prefix` and
     * `nic_has_ip_addr` for every entry it examines and stops at the first
     * entry with a valid address.
     */
    method ScanEntries(scan: seq<Entry>, st0: LoopState) returns (st: LoopState)
      ensures st == ScanFrom(scan, 0, st0)
    {
      st := st0;
      var j := 0;
      while j < |scan|
        invariant j <= |scan|
        invariant ScanFrom(scan, j, st) == ScanFrom(scan, 0, st0)
      {
        var entry := scan[j];
        st := st.(devPrefix := entry.devPrefix, nicHasIpAddr := entry.devPrefix.Some? && entry.hasInetAddr);
        if st.nicHasIpAddr {
          st := st.(foundAValidIp := !entry.hasReservedAddr);
          if st.foundAValidIp {
            break;
          }
        }
        j := j + 1;
      }
    }

    /** One execution of the loop body, lines 49-129. */
    method RunPass(lsmod: seq<string>, st0: LoopState, entries: seq<string>) returns (st: LoopState, actions: seq<Action>)
      ensures Step(st, actions) == Pass(NetworkModules(lsmod), st0, ClassifyAll(ethPrefix, entries))
    {
      st, actions := RecoverAfterSleep(lsmod, st0);
      st := ScanEntries(ClassifyAll(ethPrefix, entries), st);
      if !st.foundAValidIp {
        var attempts := st.prevAttempts + 1;
        st := st.(prevAttempts := attempts, waitTime := Backoff(attempts));
        actions := actions + [Sleep(st.waitTime)];
      }
    }

    /**
     * `wait_until_nw_avail`. The environment stands for the commands and the
     * clock; `trace` lists the side effects in the order the code issues them.
     * The call returns after the first pass that finds a valid address or
     * that ends with at least MaxWaitTime seconds elapsed.
     */
    method WaitUntilNwAvail(env: Env) returns (code: int, trace: seq<Action>)
      requires env.WellFormed()
      modifies this
      ensures startTime == Some(env.clock[0])
      ensures code == WaitOutcome(Observe(ethPrefix, env)).code
      ensures trace == WaitOutcome(Observe(ethPrefix, env)).trace
    {
      ghost var obs := Observe(ethPrefix, env);
      var st := Initial;
      startTime := Some(env.clock[0]);
      trace := [];
      var i := 0;
      while true
        invariant i < |env.scans|
        invariant startTime == Some(env.clock[0])
        invariant st == StateAfter(obs, i)
        invariant trace == TraceUpTo(obs, i)
        invariant StopFrom(obs, i) == PassCount(obs)
        decreases |env.scans| - i
      {
        NextPass(obs, i);
        ClassifyScansAt(ethPrefix, env.scans, i);
        var actions;
        st, actions := RunPass(env.lsmod, st, env.scans[i]);
        trace := trace + actions;
        StopStep(obs, i);
        if st.foundAValidIp || CurrentWaitTime(env.clock[i + 1]) >= MaxWaitTime {
          break;
        }
        i := i + 1;
      }
      if !st.nicHasIpAddr {
        return TimeoutExceeded, trace;
      }
      if !st.foundAValidIp {
        return InvalidIpAddress, trace;
      }
      return Success, trace;
    }
  }
}
