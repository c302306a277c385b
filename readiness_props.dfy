/**
 * What `wait_until_nw_avail` promises, proved about the functions of module
 * Readiness: how one scan classifies the `ifconfig` entries, what the state
 * is before every pass, which actions each pass takes, the backoff schedule,
 * the one-time module reload, the result codes and the bound on the passes
 * when sleeps take as long as they ask.
 */
module ReadinessProps {
  import opened Wrappers
  import opened Ifconfig
  import opened Readiness

  // ---------------------------------------------------------------------------
  // One scan (lines 83-113)
  // ---------------------------------------------------------------------------

  /** The scan writes only `dev_prefix`, `nic_has_ip_addr` and `found_a_valid_ip`. */
  lemma {:induction false} ScanKeeps(entries: seq<Entry>, j: nat, st: LoopState)
    requires j <= |entries|
    ensures ScanFrom(entries, j, st).checkFirmwareOnce == st.checkFirmwareOnce
    ensures ScanFrom(entries, j, st).prevAttempts == st.prevAttempts
    ensures ScanFrom(entries, j, st).waitTime == st.waitTime
    decreases |entries| - j
  {
    if j < |entries| && !ScanDone(Examine(entries[j], st)) {
      ScanKeeps(entries, j + 1, Examine(entries[j], st));
    }
  }

  /** A scan that starts without a valid address finds one exactly when some entry is valid. */
  lemma {:induction false} ScanFindsIffValid(entries: seq<Entry>, j: nat, st: LoopState)
    requires j <= |entries| && !st.foundAValidIp
    ensures ScanFrom(entries, j, st).foundAValidIp <==>
      exists i :: j <= i < |entries| && Valid(entries[i])
    decreases |entries| - j
  {
    if j < |entries| {
      var st' := Examine(entries[j], st);
      if !ScanDone(st') {
        ScanFindsIffValid(entries, j + 1, st');
      }
    }
  }

  /** The scan stops at the first valid entry, whose interface name it keeps. */
  lemma {:induction false} ScanStopsAtFirstValid(entries: seq<Entry>, j: nat, st: LoopState, i: nat)
    requires j <= i < |entries| && Valid(entries[i])
    requires forall k :: j <= k < i ==> !Valid(entries[k])
    requires !st.foundAValidIp
    ensures ScanFrom(entries, j, st) ==
      st.(devPrefix := entries[i].devPrefix, nicHasIpAddr := true, foundAValidIp := true)
    decreases |entries| - j
  {
    var st' := Examine(entries[j], st);
    if j < i {
      assert !Valid(entries[j]);
      ScanStopsAtFirstValid(entries, j + 1, st', i);
    }
  }

  /**
   * Without a valid entry, the scan examines every entry and its flags
   * describe the last one (line 95 overwrites them entry by entry).
   */
  lemma {:induction false} ScanWithoutValidEndsAtLast(entries: seq<Entry>, j: nat, st: LoopState)
    requires j < |entries| && !st.foundAValidIp
    requires forall i :: j <= i < |entries| ==> !Valid(entries[i])
    ensures var last := entries[|entries| - 1];
      ScanFrom(entries, j, st) ==
        st.(devPrefix := last.devPrefix, nicHasIpAddr := HasIp(last), foundAValidIp := false)
    decreases |entries| - j
  {
    assert !Valid(entries[j]);
    if j + 1 < |entries| {
      ScanWithoutValidEndsAtLast(entries, j + 1, Examine(entries[j], st));
    }
  }

  /** Line 105 in the aggregate: a pass that starts without a valid address ends with one iff its scan has a valid entry. */
  lemma PassFinds(obs: Observation, i: nat)
    requires i < |obs.scans| && !StateAfter(obs, i).foundAValidIp
    ensures StateAfter(obs, i + 1).foundAValidIp <==>
      exists k :: 0 <= k < |obs.scans[i]| && Valid(obs.scans[i][k])
    ensures StateAfter(obs, i + 1).foundAValidIp ==> StateAfter(obs, i + 1).nicHasIpAddr
  {
    var rec := Recover(obs.mods, StateAfter(obs, i));
    var entries := obs.scans[i];
    ScanFindsIffValid(entries, 0, rec.state);
    if exists k :: 0 <= k < |entries| && Valid(entries[k]) {
      var k :| 0 <= k < |entries| && Valid(entries[k]);
      FirstValid(entries, k);
      var f :| 0 <= f <= k && Valid(entries[f]) && forall m :: 0 <= m < f ==> !Valid(entries[m]);
      ScanStopsAtFirstValid(entries, 0, rec.state, f);
    }
  }

  /** Some valid entry at or before k means a first valid entry. */
  lemma {:induction false} FirstValid(entries: seq<Entry>, k: nat)
    requires k < |entries| && Valid(entries[k])
    ensures exists i :: 0 <= i <= k && Valid(entries[i]) && forall m :: 0 <= m < i ==> !Valid(entries[m])
  {
    if exists m :: 0 <= m < k && Valid(entries[m]) {
      var m :| 0 <= m < k && Valid(entries[m]);
      FirstValid(entries, m);
    }
  }

  // ---------------------------------------------------------------------------
  // The passes of one call
  // ---------------------------------------------------------------------------

  /**
   * Before each pass that runs, no valid address is known yet, pass k has
   * been preceded by k failed attempts, the wait is the backoff for k, and
   * the firmware workaround has been done iff two passes have run.
   */
  lemma {:induction false} BeforePass(obs: Observation, k: nat)
    requires obs.WellFormed() && k < PassCount(obs)
    ensures !StateAfter(obs, k).foundAValidIp
    ensures StateAfter(obs, k).prevAttempts == k
    ensures StateAfter(obs, k).waitTime == Backoff(k)
    ensures StateAfter(obs, k).checkFirmwareOnce == (k >= 2)
  {
    if k > 0 {
      BeforePass(obs, k - 1);
      PassCountIsFirstStop(obs);
      assert !Stops(obs, k - 1);
      var rec := Recover(obs.mods, StateAfter(obs, k - 1));
      ScanKeeps(obs.scans[k - 1], 0, rec.state);
    }
  }

  /**
   * The actions of pass i, in order: the module reload on the second pass
   * only (and only if a `bnx2` module is loaded), a DHCP restart on every
   * later pass whose previous scan ended without an address, and the sleep
   * of 2^i seconds unless the pass found a valid address.
   */
  lemma PassActionsRule(obs: Observation, i: nat)
    requires obs.WellFormed() && i < PassCount(obs)
    ensures var mods := obs.mods;
      PassActions(obs, i) ==
        (if i == 1 && mods != [] then [ReloadModule(mods[0])] else [])
        + (if i >= 1 && !StateAfter(obs, i).nicHasIpAddr then [RestartDhcp] else [])
        + (if StateAfter(obs, i + 1).foundAValidIp then [] else [Sleep(Pow2(i))])
  {
    BeforePass(obs, i);
    PassActionsOf(obs.mods, StateAfter(obs, i), obs.scans[i], i);
  }

  /** The same rule for one pass run from the state that precedes pass i. */
  lemma PassActionsOf(mods: seq<string>, st: LoopState, entries: seq<Entry>, i: nat)
    requires !st.foundAValidIp && st.prevAttempts == i && st.waitTime == Backoff(i)
    requires st.checkFirmwareOnce == (i >= 2)
    ensures var p := Pass(mods, st, entries);
      p.actions ==
        (if i == 1 && mods != [] then [ReloadModule(mods[0])] else [])
        + (if i >= 1 && !st.nicHasIpAddr then [RestartDhcp] else [])
        + (if p.state.foundAValidIp then [] else [Sleep(Pow2(i))])
  {
    var rec := Recover(mods, st);
    ScanKeeps(entries, 0, rec.state);
  }

  /**
   * After a failing pass, `nic_has_ip_addr` is the address status of the
   * last entry of its scan; a scan with no entries leaves the flag as the
   * previous pass left it.
   */
  lemma PassEndsWithLastEntry(obs: Observation, i: nat)
    requires obs.WellFormed() && i < PassCount(obs)
    requires !StateAfter(obs, i + 1).foundAValidIp
    ensures obs.scans[i] != [] ==>
      StateAfter(obs, i + 1).nicHasIpAddr == HasIp(obs.scans[i][|obs.scans[i]| - 1])
    ensures obs.scans[i] == [] ==>
      StateAfter(obs, i + 1).nicHasIpAddr == StateAfter(obs, i).nicHasIpAddr
  {
    BeforePass(obs, i);
    PassFinds(obs, i);
    var rec := Recover(obs.mods, StateAfter(obs, i));
    if obs.scans[i] != [] {
      ScanWithoutValidEndsAtLast(obs.scans[i], 0, rec.state);
    }
  }

  /** The first pass runs no recovery step: only its sleep, if it fails. */
  lemma FirstPassNoRecovery(obs: Observation)
    requires obs.WellFormed()
    ensures PassActions(obs, 0) ==
      if StateAfter(obs, 1).foundAValidIp then [] else [Sleep(1)]
  {
    PassActionsRule(obs, 0);
  }

  // ---------------------------------------------------------------------------
  // The trace of one call
  // ---------------------------------------------------------------------------

  /** The sleep durations of a trace, in order. */
  function Sleeps(trace: seq<Action>): seq<nat> {
    if trace == [] then []
    else (if trace[0].Sleep? then [trace[0].seconds] else []) + Sleeps(trace[1..])
  }

  /** The modules a trace reloads, in order. */
  function Reloads(trace: seq<Action>): seq<string> {
    if trace == [] then []
    else (if trace[0].ReloadModule? then [trace[0].name] else []) + Reloads(trace[1..])
  }

  /** 1, 2, 4, ... : k doublings from one second. */
  function Doublings(k: nat): (d: seq<nat>)
    ensures |d| == k
    ensures forall i :: 0 <= i < k ==> d[i] == Pow2(i)
  {
    if k == 0 then [] else Doublings(k - 1) + [Pow2(k - 1)]
  }

  lemma {:induction false} SleepsAppend(a: seq<Action>, b: seq<Action>)
    ensures Sleeps(a + b) == Sleeps(a) + Sleeps(b)
  {
    if a == [] {
      assert a + b == b;
    } else {
      var h: seq<nat> := if a[0].Sleep? then [a[0].seconds] else [];
      assert (a + b)[0] == a[0] && (a + b)[1..] == a[1..] + b;
      SleepsAppend(a[1..], b);
      assert Sleeps(a + b) == h + (Sleeps(a[1..]) + Sleeps(b));
    }
  }

  lemma {:induction false} ReloadsAppend(a: seq<Action>, b: seq<Action>)
    ensures Reloads(a + b) == Reloads(a) + Reloads(b)
  {
    if a == [] {
      assert a + b == b;
    } else {
      assert (a + b)[1..] == a[1..] + b;
      ReloadsAppend(a[1..], b);
    }
  }

  lemma SingleAction(x: Action)
    ensures Sleeps([x]) == (if x.Sleep? then [x.seconds] else [])
    ensures Reloads([x]) == (if x.ReloadModule? then [x.name] else [])
  {
    assert [x][1..] == [];
  }

  /** Pass i sleeps 2^i seconds if it fails, and not at all if it succeeds. */
  lemma SleepsOfPass(obs: Observation, i: nat)
    requires obs.WellFormed() && i < PassCount(obs)
    ensures Sleeps(PassActions(obs, i)) == if StateAfter(obs, i + 1).foundAValidIp then [] else [Pow2(i)]
  {
    PassActionsRule(obs, i);
    var mods := obs.mods;
    var reload: seq<Action> := if i == 1 && mods != [] then [ReloadModule(mods[0])] else [];
    var restart: seq<Action> := if i >= 1 && !StateAfter(obs, i).nicHasIpAddr then [RestartDhcp] else [];
    var sleep: seq<Action> := if StateAfter(obs, i + 1).foundAValidIp then [] else [Sleep(Pow2(i))];
    SleepsAppend(reload, restart);
    SleepsAppend(reload + restart, sleep);
    if reload != [] { SingleAction(reload[0]); }
    if restart != [] { SingleAction(restart[0]); }
    if sleep != [] { SingleAction(sleep[0]); }
  }

  /** What pass i reloads: the first `bnx2` module on the second pass, nothing on any other. */
  function ReloadedIn(mods: seq<string>, i: nat): seq<string> {
    if i == 1 && mods != [] then [mods[0]] else []
  }

  /** Pass i reloads the first `bnx2` module if it is the second pass, and nothing otherwise. */
  lemma ReloadsOfPass(obs: Observation, i: nat)
    requires obs.WellFormed() && i < PassCount(obs)
    ensures Reloads(PassActions(obs, i)) == ReloadedIn(obs.mods, i)
  {
    PassActionsRule(obs, i);
    var mods := obs.mods;
    var reload: seq<Action> := if i == 1 && mods != [] then [ReloadModule(mods[0])] else [];
    var restart: seq<Action> := if i >= 1 && !StateAfter(obs, i).nicHasIpAddr then [RestartDhcp] else [];
    var sleep: seq<Action> := if StateAfter(obs, i + 1).foundAValidIp then [] else [Sleep(Pow2(i))];
    ReloadsAppend(reload, restart);
    ReloadsAppend(reload + restart, sleep);
    if reload != [] { SingleAction(reload[0]); }
    if restart != [] { SingleAction(restart[0]); }
    if sleep != [] { SingleAction(sleep[0]); }
  }

  /** Lines 116-128 over a run: the first k passes, all failed, slept 1, 2, 4, ... seconds. */
  lemma {:induction false} SleepsUpTo(obs: Observation, k: nat)
    requires obs.WellFormed() && k < PassCount(obs)
    ensures Sleeps(TraceUpTo(obs, k)) == Doublings(k)
  {
    if k > 0 {
      SleepsUpTo(obs, k - 1);
      SleepsOfPass(obs, k - 1);
      BeforePass(obs, k);
      SleepsStep(TraceUpTo(obs, k - 1), PassActions(obs, k - 1), k - 1);
    }
  }

  /** One more failed pass extends the sleeps by the next doubling. */
  lemma SleepsStep(t: seq<Action>, a: seq<Action>, i: nat)
    requires Sleeps(t) == Doublings(i) && Sleeps(a) == [Pow2(i)]
    ensures Sleeps(t + a) == Doublings(i + 1)
  {
    SleepsAppend(t, a);
  }

  /**
   * The sleeps of a whole call: 1, 2, 4, ... seconds, one after each failed
   * pass, and none after the pass that finds a valid address.
   */
  lemma SleepSchedule(obs: Observation)
    requires obs.WellFormed()
    ensures var o := WaitOutcome(obs);
      Sleeps(o.trace) == Doublings(if o.final.foundAValidIp then o.passes - 1 else o.passes)
  {
    var n := PassCount(obs);
    SleepsUpTo(obs, n - 1);
    SleepsOfPass(obs, n - 1);
    SleepsAppend(TraceUpTo(obs, n - 1), PassActions(obs, n - 1));
  }

  /** What the workaround has reloaded after `passes` passes: the first `bnx2` module, once the second pass has run. */
  function ReloadedAfter(mods: seq<string>, passes: nat): seq<string> {
    if passes >= 2 && mods != [] then [mods[0]] else []
  }

  /** Lines 61-69 over a run: the reloads of the first k passes. */
  lemma {:induction false} ReloadsUpTo(obs: Observation, k: nat)
    requires obs.WellFormed() && k <= PassCount(obs)
    ensures Reloads(TraceUpTo(obs, k)) == ReloadedAfter(obs.mods, k)
  {
    if k > 0 {
      ReloadsUpTo(obs, k - 1);
      ReloadsOfPass(obs, k - 1);
      ReloadsStep(TraceUpTo(obs, k - 1), PassActions(obs, k - 1), obs.mods, k - 1);
    }
  }

  /** The induction step of ReloadsUpTo, on plain sequences. */
  lemma ReloadsStep(t: seq<Action>, a: seq<Action>, mods: seq<string>, i: nat)
    requires Reloads(t) == ReloadedAfter(mods, i)
    requires Reloads(a) == ReloadedIn(mods, i)
    ensures Reloads(t + a) == ReloadedAfter(mods, i + 1)
  {
    ReloadsAppend(t, a);
  }

  /** The module reload happens at most once per call, and only for the first `bnx2` module. */
  lemma ReloadAtMostOnce(obs: Observation)
    requires obs.WellFormed()
    ensures Reloads(WaitOutcome(obs).trace) == ReloadedAfter(obs.mods, WaitOutcome(obs).passes)
  {
    ReloadsUpTo(obs, PassCount(obs));
  }

  // ---------------------------------------------------------------------------
  // The result (lines 131-140)
  // ---------------------------------------------------------------------------

  /**
   * The code is SUCCESS iff a valid address was found, TIMEOUT_EXCEEDED iff
   * the last entry examined had no address, INVALID_IP_ADDRESS otherwise; a
   * valid address comes from an entry of the last scan and implies an
   * address; without one the time is up.
   */
  lemma ResultMapping(obs: Observation)
    requires obs.WellFormed()
    ensures var o := WaitOutcome(obs);
      && (o.code == Success <==> o.final.foundAValidIp)
      && (o.code == TimeoutExceeded <==> !o.final.nicHasIpAddr)
      && (o.code == InvalidIpAddress <==> o.final.nicHasIpAddr && !o.final.foundAValidIp)
      && (o.final.foundAValidIp ==> o.final.nicHasIpAddr)
      && var last := obs.scans[o.passes - 1];
      && (o.final.foundAValidIp <==> exists k :: 0 <= k < |last| && Valid(last[k]))
      && (!o.final.foundAValidIp ==> obs.clock[o.passes] - obs.clock[0] >= MaxWaitTime)
  {
    var n := PassCount(obs);
    BeforePass(obs, n - 1);
    PassFinds(obs, n - 1);
    PassCountIsFirstStop(obs);
  }

  /**
   * The two failure codes in terms of the last scan: with entries, the call
   * times out exactly when none is valid and the last one has no address,
   * and reports an invalid address exactly when none is valid and the last
   * one has an address; a last scan without entries never succeeds and
   * keeps the address flag of the pass before.
   */
  lemma ResultOnLastEntry(obs: Observation)
    requires obs.WellFormed()
    ensures var o := WaitOutcome(obs);
      var last := obs.scans[o.passes - 1];
      && (last != [] ==>
        (o.code == TimeoutExceeded <==>
          !(exists k :: 0 <= k < |last| && Valid(last[k])) && !HasIp(last[|last| - 1])))
      && (last != [] ==>
        (o.code == InvalidIpAddress <==>
          !(exists k :: 0 <= k < |last| && Valid(last[k])) && HasIp(last[|last| - 1])))
      && (last == [] ==>
        o.code != Success && o.final.nicHasIpAddr == StateAfter(obs, o.passes - 1).nicHasIpAddr)
  {
    var n := PassCount(obs);
    ResultMapping(obs);
    if !StateAfter(obs, n).foundAValidIp {
      PassEndsWithLastEntry(obs, n - 1);
    }
  }

  /** The call ends after exactly j + 1 passes when pass j is the first after which it may stop. */
  lemma PassCountIsUnique(obs: Observation, j: nat)
    requires obs.WellFormed() && j < |obs.scans|
    requires Stops(obs, j) && forall i :: 0 <= i < j ==> !Stops(obs, i)
    ensures PassCount(obs) == j + 1
  {
    PassCountIsFirstStop(obs);
  }

  /** Scans without a valid entry leave no valid address known. */
  lemma {:induction false} NoValidEntryYet(obs: Observation, m: nat)
    requires m <= |obs.scans|
    requires forall i, k :: 0 <= i < m && 0 <= k < |obs.scans[i]| ==> !Valid(obs.scans[i][k])
    ensures !StateAfter(obs, m).foundAValidIp
  {
    if m > 0 {
      NoValidEntryYet(obs, m - 1);
      PassFinds(obs, m - 1);
    }
  }

  /**
   * When scan m is the first with a valid entry and the time is not up
   * before it, the call makes m + 1 passes and returns SUCCESS.
   */
  lemma FirstValidScanSucceeds(obs: Observation, m: nat)
    requires obs.WellFormed() && m < |obs.scans|
    requires exists k :: 0 <= k < |obs.scans[m]| && Valid(obs.scans[m][k])
    requires forall i, k :: 0 <= i < m && 0 <= k < |obs.scans[i]| ==> !Valid(obs.scans[i][k])
    requires forall i :: 1 <= i <= m ==> obs.clock[i] - obs.clock[0] < MaxWaitTime
    ensures WaitOutcome(obs).passes == m + 1
    ensures WaitOutcome(obs).code == Success
  {
    forall i | 0 <= i < m
      ensures !Stops(obs, i)
    {
      NoValidEntryYet(obs, i + 1);
    }
    NoValidEntryYet(obs, m);
    PassFinds(obs, m);
    PassCountIsUnique(obs, m);
  }

  /** No interface with the prefix ever appears: no address is ever seen. */
  lemma {:induction false} NoNicNoAddress(obs: Observation, m: nat)
    requires m <= |obs.scans|
    requires forall i, k :: 0 <= i < |obs.scans| && 0 <= k < |obs.scans[i]| ==> obs.scans[i][k].devPrefix.None?
    ensures !StateAfter(obs, m).nicHasIpAddr && !StateAfter(obs, m).foundAValidIp
  {
    if m > 0 {
      NoNicNoAddress(obs, m - 1);
      var rec := Recover(obs.mods, StateAfter(obs, m - 1));
      var entries := obs.scans[m - 1];
      if entries != [] {
        ScanWithoutValidEndsAtLast(entries, 0, rec.state);
      }
    }
  }

  /** With no interface of the prefix the call waits until the time is up and returns TIMEOUT_EXCEEDED. */
  lemma NoNicTimesOut(obs: Observation)
    requires obs.WellFormed()
    requires forall i, k :: 0 <= i < |obs.scans| && 0 <= k < |obs.scans[i]| ==> obs.scans[i][k].devPrefix.None?
    ensures WaitOutcome(obs).code == TimeoutExceeded
    ensures obs.clock[WaitOutcome(obs).passes] - obs.clock[0] >= MaxWaitTime
  {
    NoNicNoAddress(obs, PassCount(obs));
    PassCountIsFirstStop(obs);
  }

  // ---------------------------------------------------------------------------
  // Termination in time
  // ---------------------------------------------------------------------------

  /** Every sleep lasts at least as long as it asks: the reading after pass i is 2^i seconds past the one before. */
  predicate ClockAdvances(obs: Observation) {
    |obs.clock| == |obs.scans| + 1 &&
    forall i :: 0 <= i < |obs.scans| ==> obs.clock[i + 1] - obs.clock[i] >= Pow2(i)
  }

  lemma {:induction false} ElapsedAtLeast(obs: Observation, k: nat)
    requires ClockAdvances(obs) && k <= |obs.scans|
    ensures obs.clock[k] - obs.clock[0] >= Pow2(k) - 1
  {
    if k > 0 {
      ElapsedAtLeast(obs, k - 1);
    }
  }

  /** Since the waits double, seven passes reach the two-minute limit: the loop body never runs more than seven times. */
  lemma BoundedPasses(obs: Observation)
    requires obs.WellFormed() && ClockAdvances(obs)
    ensures PassCount(obs) <= 7
  {
    if |obs.scans| >= 7 {
      ElapsedAtLeast(obs, 7);
      assert Pow2(7) == 128;
      assert Stops(obs, 6);
      PassCountIsFirstStop(obs);
    }
  }

  // ---------------------------------------------------------------------------
  // Back to the text of the scans
  // ---------------------------------------------------------------------------

  /** The classified entry of the observation is valid exactly when the ifconfig text entry is. */
  lemma ObservedEntry(prefix: string, env: Env, i: nat, k: nat)
    requires i < |env.scans| && k < |env.scans[i]|
    ensures k < |Observe(prefix, env).scans[i]|
    ensures Observe(prefix, env).scans[i][k].devPrefix == NicName(prefix, env.scans[i][k])
    ensures Valid(Observe(prefix, env).scans[i][k]) <==> ValidEntry(prefix, env.scans[i][k])
    ensures HasIp(Observe(prefix, env).scans[i][k]) <==> EntryHasIp(prefix, env.scans[i][k])
  {
    ClassifyScansAt(prefix, env.scans, i);
    ClassifyAllAt(prefix, env.scans[i], k);
    ClassifyMatchesIfconfig(prefix, env.scans[i][k]);
  }

  /** Over the raw output: SUCCESS exactly when the last scan holds a routable address on an interface of the prefix. */
  lemma SuccessIffValidEntry(prefix: string, env: Env)
    requires env.WellFormed()
    ensures var o := WaitOutcome(Observe(prefix, env));
      var last := env.scans[o.passes - 1];
      o.code == Success <==> exists k :: 0 <= k < |last| && ValidEntry(prefix, last[k])
  {
    var obs := Observe(prefix, env);
    ResultMapping(obs);
    var i := WaitOutcome(obs).passes - 1;
    ClassifyScansAt(prefix, env.scans, i);
    ValidTransfer(prefix, env.scans[i], obs.scans[i], WaitOutcome(obs).code == Success);
  }

  /** A fact equivalent to some classified entry being valid is equivalent to some raw entry being valid. */
  lemma ValidTransfer(prefix: string, raw: seq<string>, scan: seq<Entry>, b: bool)
    requires scan == ClassifyAll(prefix, raw)
    requires b <==> exists k :: 0 <= k < |scan| && Valid(scan[k])
    ensures b <==> exists k :: 0 <= k < |raw| && ValidEntry(prefix, raw[k])
  {
    SameVerdicts(prefix, raw, scan);
  }

  /** Over the raw output: with entries in the last scan, TIMEOUT_EXCEEDED exactly when none is valid and the last one has no address. */
  lemma TimeoutOnText(prefix: string, env: Env)
    requires env.WellFormed()
    ensures var o := WaitOutcome(Observe(prefix, env));
      var last := env.scans[o.passes - 1];
      last != [] ==>
        (o.code == TimeoutExceeded <==>
          !(exists k :: 0 <= k < |last| && ValidEntry(prefix, last[k])) && !EntryHasIp(prefix, last[|last| - 1]))
  {
    var obs := Observe(prefix, env);
    ResultOnLastEntry(obs);
    var i := WaitOutcome(obs).passes - 1;
    ClassifyScansAt(prefix, env.scans, i);
    if env.scans[i] != [] {
      LastTransfer(prefix, env.scans[i], obs.scans[i], WaitOutcome(obs).code == TimeoutExceeded, false);
    }
  }

  /** Over the raw output: with entries in the last scan, INVALID_IP_ADDRESS exactly when none is valid and the last one has an address. */
  lemma InvalidOnText(prefix: string, env: Env)
    requires env.WellFormed()
    ensures var o := WaitOutcome(Observe(prefix, env));
      var last := env.scans[o.passes - 1];
      last != [] ==>
        (o.code == InvalidIpAddress <==>
          !(exists k :: 0 <= k < |last| && ValidEntry(prefix, last[k])) && EntryHasIp(prefix, last[|last| - 1]))
  {
    var obs := Observe(prefix, env);
    ResultOnLastEntry(obs);
    var i := WaitOutcome(obs).passes - 1;
    ClassifyScansAt(prefix, env.scans, i);
    if env.scans[i] != [] {
      LastTransfer(prefix, env.scans[i], obs.scans[i], WaitOutcome(obs).code == InvalidIpAddress, true);
    }
  }

  /** A fact about "no valid entry and this address status of the last entry" carries over from a classified output to its text. */
  lemma LastTransfer(prefix: string, raw: seq<string>, scan: seq<Entry>, b: bool, hasIp: bool)
    requires scan == ClassifyAll(prefix, raw) && raw != []
    requires b <==> !(exists k :: 0 <= k < |scan| && Valid(scan[k])) && HasIp(scan[|scan| - 1]) == hasIp
    ensures b <==> !(exists k :: 0 <= k < |raw| && ValidEntry(prefix, raw[k])) && EntryHasIp(prefix, raw[|raw| - 1]) == hasIp
  {
    SameVerdicts(prefix, raw, scan);
  }

  /** One classified entry and its text agree on validity and on the address. */
  lemma EntryVerdict(prefix: string, raw: seq<string>, scan: seq<Entry>, k: nat)
    requires scan == ClassifyAll(prefix, raw) && k < |raw|
    ensures k < |scan|
    ensures Valid(scan[k]) <==> ValidEntry(prefix, raw[k])
    ensures HasIp(scan[k]) <==> EntryHasIp(prefix, raw[k])
  {
    ClassifyAllAt(prefix, raw, k);
    ClassifyMatchesIfconfig(prefix, raw[k]);
  }

  /** A classified scan and its text agree on which entries are valid and on the last entry's address. */
  lemma SameVerdicts(prefix: string, raw: seq<string>, scan: seq<Entry>)
    requires scan == ClassifyAll(prefix, raw)
    ensures |scan| == |raw|
    ensures (exists k :: 0 <= k < |scan| && Valid(scan[k])) <==>
      (exists k :: 0 <= k < |raw| && ValidEntry(prefix, raw[k]))
    ensures raw != [] ==> (HasIp(scan[|scan| - 1]) <==> EntryHasIp(prefix, raw[|raw| - 1]))
  {
    if exists k :: 0 <= k < |scan| && Valid(scan[k]) {
      var k :| 0 <= k < |scan| && Valid(scan[k]);
      EntryVerdict(prefix, raw, scan, k);
    }
    if exists k :: 0 <= k < |raw| && ValidEntry(prefix, raw[k]) {
      var k :| 0 <= k < |raw| && ValidEntry(prefix, raw[k]);
      EntryVerdict(prefix, raw, scan, k);
    }
    if raw != [] {
      var k := |raw| - 1;
      EntryVerdict(prefix, raw, scan, k);
      assert scan[|scan| - 1] == scan[k];
    }
  }
}
