/**
 * The network-readiness loop of `RzNetworkUtils#wait_until_nw_avail`, as
 * functions over an abstract environment: which `lsmod` lines the kernel
 * reports, what `ifconfig` prints on each pass, and what the clock reads
 * when the loop condition is tested. The loop looks at each `ifconfig`
 * entry only through three regular expressions, and at `lsmod` only through
 * the `bnx2` module list, so the passes are defined on that Observation of
 * the environment. One pass is `Pass`; the state after k passes is
 * `StateAfter`; the loop stops after `PassCount` passes; the side effects it
 * orders (module reload, DHCP restart, sleep) form a trace.
 */
module Readiness {
  import opened Wrappers
  import opened Text
  import opened Ifconfig

  /** MAX_WAIT_TIME: two minutes. */
  const MaxWaitTime: int := 2 * 60
  /** DEF_ETH_PREFIX. */
  const DefEthPrefix: string := "eth"
  /** The three result codes. */
  const Success: int := 0
  const TimeoutExceeded: int := -1
  const InvalidIpAddress: int := -2

  /** A side effect the loop orders; the commands' own outcomes are ignored by the source. */
  datatype Action =
    | ReloadModule(name: string)   // `sudo rmmod name; sudo modprobe name`
    | RestartDhcp                  // `sudo /etc/init.d/services/dhcp stop; ... start`
    | Sleep(seconds: nat)          // `sleep(wait_time)`

  /** The local variables of `wait_until_nw_avail` that persist from pass to pass. */
  datatype LoopState = LoopState(
    checkFirmwareOnce: bool,
    nicHasIpAddr: bool,
    foundAValidIp: bool,
    devPrefix: Option<string>,
    prevAttempts: nat,
    waitTime: nat)

  /** Their values before the first pass (lines 33-38; `wait_time = 0.0` is the wait 0). */
  const Initial: LoopState := LoopState(false, false, false, None, 0, 0)

  /** What one pass does: the state it leaves and the actions it takes, in order. */
  datatype Step = Step(state: LoopState, actions: seq<Action>)

  /**
   * The environment of one call. `scans[i]` is the list of `ifconfig`
   * entries (its output split on blank lines) on pass i; `clock[0]` is the
   * time read at the start and `clock[i + 1]` the time read by the loop
   * condition after pass i failed; `lsmod` is the module list.
   */
  datatype Env = Env(lsmod: seq<string>, scans: seq<seq<string>>, clock: seq<int>) {
    /** One clock reading per pass plus the start, and the last one is past the deadline. */
    predicate WellFormed() {
      |clock| == |scans| + 1 && clock[|scans|] - clock[0] >= MaxWaitTime
    }
  }

  /**
   * What the three regular expressions of lines 89-108 say about one entry:
   * the interface name it carries, whether it has an `inet addr:` address,
   * and whether a 127.x or 169.x address appears in it.
   */
  datatype Entry = Entry(devPrefix: Option<string>, hasInetAddr: bool, hasReservedAddr: bool)

  function Classify(prefix: string, entry: string): Entry {
    Entry(NicName(prefix, entry), HasInetAddr(entry), HasReservedAddr(entry))
  }

  /** The entries of one `ifconfig` output, classified one by one, in order. */
  function ClassifyAll(prefix: string, entries: seq<string>): (r: seq<Entry>)
    ensures |r| == |entries|
  {
    if entries == [] then [] else [Classify(prefix, entries[0])] + ClassifyAll(prefix, entries[1..])
  }

  /** The k-th classified entry is the classification of the k-th entry. */
  lemma {:induction false} ClassifyAllAt(prefix: string, entries: seq<string>, k: nat)
    requires k < |entries|
    ensures ClassifyAll(prefix, entries)[k] == Classify(prefix, entries[k])
    decreases k
  {
    if k > 0 {
      ClassifyAllAt(prefix, entries[1..], k - 1);
    }
  }

  /** Every pass's output, classified. */
  function ClassifyScans(prefix: string, scans: seq<seq<string>>): (r: seq<seq<Entry>>)
    ensures |r| == |scans|
  {
    if scans == [] then [] else [ClassifyAll(prefix, scans[0])] + ClassifyScans(prefix, scans[1..])
  }

  /** The i-th classified scan is the classification of the i-th output. */
  lemma {:induction false} ClassifyScansAt(prefix: string, scans: seq<seq<string>>, i: nat)
    requires i < |scans|
    ensures ClassifyScans(prefix, scans)[i] == ClassifyAll(prefix, scans[i])
    decreases i
  {
    if i > 0 {
      ClassifyScansAt(prefix, scans[1..], i - 1);
    }
  }

  /** A valid entry: an interface of the prefix with an address that is neither 127.x nor 169.x. */
  predicate Valid(e: Entry) {
    e.devPrefix.Some? && e.hasInetAddr && !e.hasReservedAddr
  }

  /** An entry with an address (line 95). */
  predicate HasIp(e: Entry) {
    e.devPrefix.Some? && e.hasInetAddr
  }

  /** The classification agrees with the string-level predicates of module Ifconfig. */
  lemma ClassifyMatchesIfconfig(prefix: string, entry: string)
    ensures HasIp(Classify(prefix, entry)) <==> EntryHasIp(prefix, entry)
    ensures Valid(Classify(prefix, entry)) <==> ValidEntry(prefix, entry)
  {
  }

  /** The environment as the loop sees it: the `bnx2` modules and the classified entries of every pass. */
  datatype Observation = Observation(mods: seq<string>, scans: seq<seq<Entry>>, clock: seq<int>) {
    predicate WellFormed() {
      |clock| == |scans| + 1 && clock[|scans|] - clock[0] >= MaxWaitTime
    }
  }

  function Observe(prefix: string, env: Env): Observation
  {
    Observation(
      NetworkModules(env.lsmod),
      ClassifyScans(prefix, env.scans),
      env.clock)
  }

  /** `1 << n`. */
  function Pow2(n: nat): (p: nat)
    ensures p >= 1
  {
    if n == 0 then 1 else 2 * Pow2(n - 1)
  }

  /**
   * `(num / 2.0).round`: Ruby's Float#round takes the nearest integer and
   * rounds a half away from zero.
   */
  function RoundHalf(num: int): (r: int)
    ensures -1 <= 2 * r - num <= 1
    ensures 2 * r != num ==> (if num >= 0 then 2 * r > num else 2 * r < num)
  {
    if num >= 0 then (num + 1) / 2 else -((1 - num) / 2)
  }

  /**
   * Line 126: the wait after the c-th failed attempt, `round(((1 << c) - 1) / 2.0)`.
   * The half is always rounded up, so the waits are 1, 2, 4, 8, ... seconds.
   */
  function Backoff(c: nat): (w: nat)
    ensures c == 0 ==> w == 0
    ensures c > 0 ==> w == Pow2(c - 1)
  {
    var r := RoundHalf(Pow2(c) - 1);
    assert c > 0 ==> Pow2(c) == 2 * Pow2(c - 1);
    r
  }

  /**
   * Lines 89-109 for one entry: it overwrites `dev_prefix` and
   * `nic_has_ip_addr`, and an entry with an address sets `found_a_valid_ip`.
   */
  function Examine(e: Entry, st: LoopState): LoopState
  {
    var hasIp := e.devPrefix.Some? && e.hasInetAddr;
    var found := if hasIp then !e.hasReservedAddr else st.foundAValidIp;
    st.(devPrefix := e.devPrefix, nicHasIpAddr := hasIp, foundAValidIp := found)
  }

  /** Line 109: the entry just examined had a valid address, which ends the scan. */
  predicate ScanDone(st: LoopState) {
    st.nicHasIpAddr && st.foundAValidIp
  }

  /** Lines 83-113: the scan of the entries from index j on, up to the first valid one. */
  function ScanFrom(entries: seq<Entry>, j: nat, st: LoopState): LoopState
    requires j <= |entries|
    decreases |entries| - j
  {
    if j == |entries| then st
    else
      var st' := Examine(entries[j], st);
      if ScanDone(st') then st' else ScanFrom(entries, j + 1, st')
  }

  /**
   * Lines 49-78: after a sleep, the one-time reload of the first `bnx2`
   * module, then a DHCP restart if the last entry examined had no address.
   */
  function Recover(mods: seq<string>, st: LoopState): Step
  {
    if st.waitTime > 0 then
      var reload := if st.checkFirmwareOnce || mods == [] then [] else [ReloadModule(mods[0])];
      var restart := if st.nicHasIpAddr then [] else [RestartDhcp];
      Step(st.(checkFirmwareOnce := true), reload + restart)
    else Step(st, [])
  }

  /** One execution of the loop body (lines 49-129). */
  function Pass(mods: seq<string>, st: LoopState, entries: seq<Entry>): Step
  {
    var rec := Recover(mods, st);
    var scanned := ScanFrom(entries, 0, rec.state);
    if scanned.foundAValidIp then Step(scanned, rec.actions)
    else
      var c := scanned.prevAttempts + 1;
      Step(scanned.(prevAttempts := c, waitTime := Backoff(c)), rec.actions + [Sleep(Backoff(c))])
  }

  /** The loop state after the first k passes. */
  function StateAfter(obs: Observation, k: nat): LoopState
    requires k <= |obs.scans|
  {
    if k == 0 then Initial
    else Pass(obs.mods, StateAfter(obs, k - 1), obs.scans[k - 1]).state
  }

  /** The actions of pass i. */
  function PassActions(obs: Observation, i: nat): seq<Action>
    requires i < |obs.scans|
  {
    Pass(obs.mods, StateAfter(obs, i), obs.scans[i]).actions
  }

  /** The actions of the first k passes, in order. */
  function TraceUpTo(obs: Observation, k: nat): seq<Action>
    requires k <= |obs.scans|
  {
    if k == 0 then [] else TraceUpTo(obs, k - 1) + PassActions(obs, k - 1)
  }

  /** Pass i takes the state and the trace of the first i passes one pass further. */
  lemma NextPass(obs: Observation, i: nat)
    requires i < |obs.scans|
    ensures StateAfter(obs, i + 1) == Pass(obs.mods, StateAfter(obs, i), obs.scans[i]).state
    ensures TraceUpTo(obs, i + 1) == TraceUpTo(obs, i) + Pass(obs.mods, StateAfter(obs, i), obs.scans[i]).actions
  {
  }

  /** Line 131: the loop ends after pass i (a valid address, or the elapsed time reached the maximum). */
  predicate Stops(obs: Observation, i: nat)
    requires i < |obs.scans| && |obs.clock| == |obs.scans| + 1
  {
    StateAfter(obs, i + 1).foundAValidIp || obs.clock[i + 1] - obs.clock[0] >= MaxWaitTime
  }

  /** The first stopping pass at index i or later, counted as a number of passes. */
  function StopFrom(obs: Observation, i: nat): (n: nat)
    requires obs.WellFormed() && i < |obs.scans|
    ensures i < n <= |obs.scans|
    decreases |obs.scans| - i
  {
    if Stops(obs, i) then i + 1 else StopFrom(obs, i + 1)
  }

  lemma {:induction false} StopFromIsFirstStop(obs: Observation, i: nat)
    requires obs.WellFormed() && i < |obs.scans|
    ensures Stops(obs, StopFrom(obs, i) - 1)
    ensures forall j :: i <= j < StopFrom(obs, i) - 1 ==> !Stops(obs, j)
    decreases |obs.scans| - i
  {
    if !Stops(obs, i) {
      StopFromIsFirstStop(obs, i + 1);
    }
  }

  /** One test of the loop condition: a stopping pass is the last, and otherwise the search moves on. */
  lemma StopStep(obs: Observation, i: nat)
    requires obs.WellFormed() && i < |obs.scans| && StopFrom(obs, i) == PassCount(obs)
    ensures Stops(obs, i) ==> PassCount(obs) == i + 1
    ensures !Stops(obs, i) ==> i + 1 < |obs.scans| && StopFrom(obs, i + 1) == PassCount(obs)
  {
  }

  /** How many times the loop body runs: at least once, and up to the first pass that stops. */
  function PassCount(obs: Observation): (n: nat)
    requires obs.WellFormed()
    ensures 1 <= n <= |obs.scans|
  {
    StopFrom(obs, 0)
  }

  /** The loop runs until the first pass after which it stops, and no further. */
  lemma PassCountIsFirstStop(obs: Observation)
    requires obs.WellFormed()
    ensures Stops(obs, PassCount(obs) - 1)
    ensures forall j :: 0 <= j < PassCount(obs) - 1 ==> !Stops(obs, j)
  {
    StopFromIsFirstStop(obs, 0);
  }

  /** Lines 136-140: the flags after the loop mapped to the result code. */
  function ResultCode(st: LoopState): (code: int)
    ensures code == Success <==> st.nicHasIpAddr && st.foundAValidIp
    ensures code == TimeoutExceeded <==> !st.nicHasIpAddr
    ensures code == InvalidIpAddress <==> st.nicHasIpAddr && !st.foundAValidIp
  {
    if !st.nicHasIpAddr then TimeoutExceeded
    else if !st.foundAValidIp then InvalidIpAddress
    else Success
  }

  /** What a whole call returns and does. */
  datatype Outcome = Outcome(code: int, trace: seq<Action>, passes: nat, final: LoopState)

  function WaitOutcome(obs: Observation): Outcome
    requires obs.WellFormed()
  {
    var n := PassCount(obs);
    var st := StateAfter(obs, n);
    Outcome(ResultCode(st), TraceUpTo(obs, n), n, st)
  }
}
