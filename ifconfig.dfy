/**
 * How one pass of the readiness check reads the command output it is given:
 * an `ifconfig` entry is classified with the three regular expressions of
 * `wait_until_nw_avail`, and the `lsmod` lines are searched for the
 * firmware-dependent `bnx2` driver family.
 */
module Ifconfig {
  import opened Wrappers
  import opened Text

  /** NETWORK_MOD_SEL_PATTERN, `/^(bnx2)/`. */
  const ModulePattern: string := "bnx2"

  /** The literal every address pattern starts with. */
  const InetAddr: string := "inet addr:"

  // ---------------------------------------------------------------------------
  // The interface-name pattern `/(#{@eth_prefix}\d+)/`
  // ---------------------------------------------------------------------------

  /** The interface prefix followed by at least one digit starts t. */
  predicate NicAt(prefix: string, t: string) {
    StartsWith(t, prefix) && DigitRun(t[|prefix|..]) > 0
  }

  /** The prefix and the whole digit run after it, at the start of t. */
  function NicCapture(prefix: string, t: string): string
    requires NicAt(prefix, t)
  {
    t[..|prefix| + DigitRun(t[|prefix|..])]
  }

  /** The search for the interface-name pattern from position j of the entry on. */
  function NicFrom(prefix: string, entry: string, j: nat): Option<string>
    requires j <= |entry|
    decreases |entry| - j
  {
    if NicAt(prefix, entry[j..]) then Some(NicCapture(prefix, entry[j..]))
    else if j == |entry| then None
    else NicFrom(prefix, entry, j + 1)
  }

  /** The interface name the prefix pattern captures in the entry (its leftmost match), or None when it does not match. */
  function NicName(prefix: string, entry: string): Option<string> {
    NicFrom(prefix, entry, 0)
  }

  lemma {:induction false} NicFromIsLeftmost(prefix: string, entry: string, j: nat)
    requires j <= |entry|
    ensures NicFrom(prefix, entry, j) ==
      match Leftmost(t => NicAt(prefix, t), entry, j)
      case None => None
      case Some(k) => Some(NicCapture(prefix, entry[k..]))
    decreases |entry| - j
  {
    if j < |entry| && !NicAt(prefix, entry[j..]) {
      NicFromIsLeftmost(prefix, entry, j + 1);
    }
  }

  /**
   * The interface name found in an entry: present exactly when the prefix
   * followed by a digit occurs somewhere; it is the prefix and the whole
   * digit run after it, taken at the leftmost place the pattern matches.
   */
  lemma NicNameMatch(prefix: string, entry: string)
    ensures NicName(prefix, entry).Some? <==> exists j :: 0 <= j <= |entry| && NicAt(prefix, entry[j..])
    ensures NicName(prefix, entry).Some? ==>
      var r := NicName(prefix, entry).value;
      StartsWith(r, prefix) && |r| > |prefix| && AllDigits(r[|prefix|..])
    ensures NicName(prefix, entry).Some? ==>
      var r := NicName(prefix, entry).value;
      var j := Leftmost(t => NicAt(prefix, t), entry, 0).value;
      StartsWith(entry[j..], r) && (j + |r| < |entry| ==> !IsDigit(entry[j + |r|]))
  {
    NicFromIsLeftmost(prefix, entry, 0);
    match Leftmost(t => NicAt(prefix, t), entry, 0)
    case None =>
    case Some(j) =>
      var t := entry[j..];
      var n := |prefix| + DigitRun(t[|prefix|..]);
      assert t[..n][|prefix|..] == t[|prefix|..][..n - |prefix|];
      assert j + n < |entry| ==> entry[j + n] == t[|prefix|..][n - |prefix|];
  }

  // ---------------------------------------------------------------------------
  // The address patterns `/inet addr:\d+\.\d+\.\d+\.\d+\s+/` and
  // `/inet addr:(127|169)\.\d+\.\d+\.\d+\s+/`
  // ---------------------------------------------------------------------------

  /**
   * `\d+(\.\d+){k-1}\s` matches at the start of s (one whitespace character
   * is all `\s+` needs). Each `\d+` takes the whole digit run: what follows
   * it, a dot or whitespace, is never a digit, so backtracking cannot help.
   */
  predicate RunsAt(s: string, k: nat)
    decreases k
  {
    k > 0 &&
    var n := DigitRun(s);
    0 < n < |s| &&
    if k == 1 then IsRegexSpace(s[n]) else s[n] == '.' && RunsAt(s[n + 1..], k - 1)
  }

  /** The same pattern read as a regular expression: any non-empty digit run may be chosen for each `\d+`. */
  ghost predicate RegexRuns(s: string, k: nat)
    decreases k
  {
    k > 0 &&
    exists n :: 0 < n < |s| && AllDigits(s[..n]) &&
      if k == 1 then IsRegexSpace(s[n]) else s[n] == '.' && RegexRuns(s[n + 1..], k - 1)
  }

  /** A digit run that is followed by a non-digit is the greedy one. */
  lemma RunEndsAtNonDigit(s: string, n: nat)
    requires 0 < n < |s| && AllDigits(s[..n]) && !IsDigit(s[n])
    ensures DigitRun(s) == n
  {
  }

  /** The greedy reading and the regular-expression reading of the pattern agree. */
  lemma {:induction false} RunsAtIsRegex(s: string, k: nat)
    ensures RunsAt(s, k) <==> RegexRuns(s, k)
    decreases k
  {
    if k > 0 {
      var d := DigitRun(s);
      if RunsAt(s, k) {
        if k > 1 {
          RunsAtIsRegex(s[d + 1..], k - 1);
        }
        assert 0 < d < |s| && AllDigits(s[..d]);
      }
      if RegexRuns(s, k) {
        var n :| 0 < n < |s| && AllDigits(s[..n]) &&
          if k == 1 then IsRegexSpace(s[n]) else s[n] == '.' && RegexRuns(s[n + 1..], k - 1);
        RunEndsAtNonDigit(s, n);
        if k > 1 {
          RunsAtIsRegex(s[n + 1..], k - 1);
        }
      }
    }
  }

  /** `inet addr:` and a dotted quad followed by whitespace start t. */
  predicate InetAddrAt(t: string) {
    StartsWith(t, InetAddr) && RunsAt(t[|InetAddr|..], 4)
  }

  /** `inet addr:127.` or `inet addr:169.` and three more dotted runs followed by whitespace start t. */
  predicate ReservedAt(t: string) {
    StartsWith(t, InetAddr) &&
    var u := t[|InetAddr|..];
    (StartsWith(u, "127.") || StartsWith(u, "169.")) && RunsAt(u[4..], 3)
  }

  /** The first octet of the address written after `inet addr:` (its leading digit run). */
  function FirstOctet(t: string): string
    requires StartsWith(t, InetAddr)
  {
    var u := t[|InetAddr|..];
    u[..DigitRun(u)]
  }

  /** For one three-digit octet o: the literal `o\.` pattern is the quad pattern with first octet o. */
  lemma OctetLiteral(u: string, o: string)
    requires |o| == 3 && AllDigits(o)
    ensures (StartsWith(u, o + ".") && RunsAt(u[4..], 3)) <==> (RunsAt(u, 4) && u[..DigitRun(u)] == o)
  {
    if StartsWith(u, o + ".") {
      assert u[..3] == (o + ".")[..3] == o;
      assert u[3] == (o + ".")[3] == '.';
      RunEndsAtNonDigit(u, 3);
    }
    if RunsAt(u, 4) && u[..DigitRun(u)] == o {
      assert DigitRun(u) == 3;
      assert u[..4] == u[..3] + [u[3]];
    }
  }

  /** The reserved pattern matches exactly where the address pattern matches with first octet 127 or 169. */
  lemma ReservedIs127Or169(t: string)
    ensures ReservedAt(t) <==> InetAddrAt(t) && (FirstOctet(t) == "127" || FirstOctet(t) == "169")
  {
    if StartsWith(t, InetAddr) {
      var u := t[|InetAddr|..];
      OctetLiteral(u, "127");
      OctetLiteral(u, "169");
    }
  }

  /** Line 95: the address pattern matches somewhere in the entry. */
  predicate HasInetAddr(entry: string) {
    MatchesFrom(InetAddrAt, entry, 0)
  }

  /** Line 108: the loopback-or-169 address pattern matches somewhere in the entry. */
  predicate HasReservedAddr(entry: string) {
    MatchesFrom(ReservedAt, entry, 0)
  }

  /** Line 95: the entry names an interface with the prefix and carries an IPv4 address. */
  predicate EntryHasIp(prefix: string, entry: string) {
    NicName(prefix, entry).Some? && HasInetAddr(entry)
  }

  /** Line 108: an entry with an address is valid unless a loopback or 169.x address appears in it. */
  predicate ValidEntry(prefix: string, entry: string) {
    EntryHasIp(prefix, entry) && !HasReservedAddr(entry)
  }

  /** A loopback (127.x) or 169.x address in an entry makes it invalid, whatever else the entry says. */
  lemma ReservedNeverValid(prefix: string, entry: string, j: nat)
    requires j <= |entry| && InetAddrAt(entry[j..])
    requires FirstOctet(entry[j..]) == "127" || FirstOctet(entry[j..]) == "169"
    ensures !ValidEntry(prefix, entry)
  {
    ReservedIs127Or169(entry[j..]);
    MatchesFromIsExists(ReservedAt, entry, 0);
  }

  /** An interface name and an address, with no address anywhere in the entry having first octet 127 or 169, make the entry valid. */
  lemma RoutableIsValid(prefix: string, entry: string, j: nat)
    requires NicName(prefix, entry).Some?
    requires j <= |entry| && InetAddrAt(entry[j..])
    requires forall i :: 0 <= i <= |entry| && InetAddrAt(entry[i..]) ==>
      FirstOctet(entry[i..]) != "127" && FirstOctet(entry[i..]) != "169"
    ensures ValidEntry(prefix, entry)
  {
    forall i | 0 <= i <= |entry|
      ensures !ReservedAt(entry[i..])
    {
      ReservedIs127Or169(entry[i..]);
    }
    MatchesFromIsExists(InetAddrAt, entry, 0);
    MatchesFromIsExists(ReservedAt, entry, 0);
  }

  /**
   * Lines 89-108 in one statement: an entry is valid exactly when it names an
   * interface of the prefix, carries an address, and none of its addresses has
   * first octet 127 or 169.
   */
  lemma ValidEntryIff(prefix: string, entry: string)
    ensures ValidEntry(prefix, entry) <==>
      && NicName(prefix, entry).Some?
      && (exists j :: 0 <= j <= |entry| && InetAddrAt(entry[j..]))
      && forall i :: 0 <= i <= |entry| && InetAddrAt(entry[i..]) ==>
        FirstOctet(entry[i..]) != "127" && FirstOctet(entry[i..]) != "169"
  {
    MatchesFromIsExists(InetAddrAt, entry, 0);
    MatchesFromIsExists(ReservedAt, entry, 0);
    forall i | 0 <= i <= |entry|
      ensures ReservedAt(entry[i..]) <==>
        InetAddrAt(entry[i..]) && (FirstOctet(entry[i..]) == "127" || FirstOctet(entry[i..]) == "169")
    {
      ReservedIs127Or169(entry[i..]);
    }
  }

  // ---------------------------------------------------------------------------
  // Lines 63-64: the firmware-dependent modules among the `lsmod` lines
  // ---------------------------------------------------------------------------

  /** The first whitespace-separated field of a line that does not start with whitespace. */
  function FirstField(line: string): (f: string)
    requires line != [] && !IsSpace(line[0])
    ensures f != [] && NoSpace(f) && StartsWith(line, f)
    ensures |f| < |line| ==> IsSpace(line[|f|])
    ensures f == Split(line)[0]
  {
    line[..TokenLen(line)]
  }

  /** Lines 63-64: the first field of every `lsmod` line that starts with `bnx2`, in line order. */
  function NetworkModules(lines: seq<string>): (mods: seq<string>)
    ensures |mods| <= |lines|
    ensures forall k :: 0 <= k < |mods| ==> StartsWith(mods[k], ModulePattern)
    ensures mods == [] <==> forall i :: 0 <= i < |lines| ==> !StartsWith(lines[i], ModulePattern)
  {
    if lines == [] then []
    else
      var rest := NetworkModules(lines[1..]);
      assert forall i :: 1 <= i < |lines| ==> lines[i] == lines[1..][i - 1];
      if StartsWith(lines[0], ModulePattern) then
        var f := FirstField(lines[0]);
        assert StartsWith(f, ModulePattern) by {
          assert f[..4] == lines[0][..4];
        }
        [f] + rest
      else rest
  }

  /** The module the workaround reloads is the first field of the first `bnx2` line. */
  lemma {:induction false} FirstModuleIsFirstMatch(lines: seq<string>, i: nat)
    requires i < |lines| && StartsWith(lines[i], ModulePattern)
    requires forall j :: 0 <= j < i ==> !StartsWith(lines[j], ModulePattern)
    ensures NetworkModules(lines) != [] && NetworkModules(lines)[0] == FirstField(lines[i])
  {
    if i > 0 {
      assert forall j :: 0 <= j < i - 1 ==> lines[1..][j] == lines[j + 1];
      FirstModuleIsFirstMatch(lines[1..], i - 1);
    }
  }
}
