# Razor Microkernel network utilities in Dafny

A model of `RazorMicrokernel::RzNetworkUtils`, the class the Razor
Microkernel controller uses at boot for two jobs. The first is to wait
until an Ethernet interface has a routable IPv4 address
(`wait_until_nw_avail`). The second is to find the Razor server address
(`discover_rz_server_ip`).

- `wait_until_nw_avail` runs a loop. A pass after a sleep first applies
  two recovery steps. On the second pass only, and only when an `lsmod`
  line starts with `bnx2`, it reloads that firmware-dependent driver. It
  restarts the DHCP client when the last `ifconfig` entry the scan
  examined had no address. The pass then scans the `ifconfig`
  entries. When no valid address was found, it sleeps with exponential
  backoff and tries again. The loop ends at the first valid address or
  once two minutes have passed. It returns SUCCESS (0),
  TIMEOUT_EXCEEDED (-1) or INVALID_IP_ADDRESS (-2).
- `discover_rz_server_ip` tries three sources in turn and takes the first
  that answers:
  - a single `razor.ip=` token on the kernel command line;
  - a DNS lookup of the single `razor.server=` name, or of `razor` when
    there is no single such name;
  - the stripped contents of the udhcp next-server file.

Files:

- `wrappers.dfy`: Option.
- `text.dfy`: the character classes, `String#split`, `strip` and
  leftmost-match searches the code relies on.
- `ifconfig.dfy`: three patterns with their meaning proved:
  - the interface-name pattern;
  - the two address patterns;
  - the `lsmod` module selection.
- `readiness.dfy`: the loop as functions over an explicit environment
  (`Env`: the `lsmod` lines, the `ifconfig` entries of each pass, the
  clock readings). Each entry is seen through its classification
  (`Observation`).
- `network_utils.dfy`: the class with its `@eth_prefix` and
  `@start_time` fields. The loop is written step by step as a method and
  proved equal to the functions.
- `readiness_props.dfy`: what the loop promises, as lemmas:
  - the scan;
  - the state before each pass and the actions of each pass;
  - the backoff schedule and the single reload;
  - the result codes, and the bound on passes on a clock that keeps time;
  - the link back to the raw `ifconfig` text.
- `discovery.dfy`: the three discovery steps and their chaining.

Three behaviours of the code that the model keeps as written:

- The backoff gives sleeps of 1, 2, 4, 8 … seconds. `Float#round`
  rounds the half of `2^c - 1` up, so after the c-th failed attempt the
  wait is 2^(c-1).
- Line 108 rejects every address whose first octet is written `127` or
  `169`, so all of 169.0.0.0/8 is rejected, not only the link-local
  169.254/16.
- `nic_has_ip_addr`, which selects TIMEOUT_EXCEEDED, is set by the last
  entry the scan examined. When an `ifconfig` output has no entries, the
  scan examines nothing and the flag keeps the value an earlier pass gave
  it.

## Model

| member | source | states |
|---|---|---|
| Text.MatchesFromIsExists | razor_microkernel/rz_network_utils.rb:95 | the recursive unanchored search used for `Regexp#match` succeeds exactly when the pattern matches at some position |
| Ifconfig.NicFromIsLeftmost | razor_microkernel/rz_network_utils.rb:89-91 | the interface-name search returns the capture at the leftmost position where the prefix followed by a digit occurs |
| Ifconfig.NicNameMatch | razor_microkernel/rz_network_utils.rb:89-91 | `dev_prefix` is set exactly when the prefix followed by a digit occurs somewhere in the entry; the name is the prefix plus the whole digit run, taken at the leftmost such position, and is followed by a non-digit or the end |
| Ifconfig.RunsAtIsRegex | razor_microkernel/rz_network_utils.rb:95 | the greedy reading of exactly k dotted runs, `\d+(\.\d+){k-1}\s` (k = 4 for the address at line 95, k = 3 after the literal first octet at line 108), agrees with the regular-expression reading, where each `\d+` may choose any non-empty digit run |
| Ifconfig.OctetLiteral | razor_microkernel/rz_network_utils.rb:108 | a literal three-digit first octet followed by a dot and three dotted runs is the dotted-quad pattern with that first octet |
| Ifconfig.ReservedIs127Or169 | razor_microkernel/rz_network_utils.rb:95-108 | the reserved-address pattern matches at a position exactly when the address pattern does and the first octet is written 127 or 169 |
| Ifconfig.ReservedNeverValid | razor_microkernel/rz_network_utils.rb:101-108 | an entry that contains a 127.x or 169.x address is never valid, even when another address is present |
| Ifconfig.RoutableIsValid | razor_microkernel/rz_network_utils.rb:89-108 | an entry with an interface name and an address is valid when none of its addresses has first octet 127 or 169, however many addresses it holds |
| Ifconfig.ValidEntryIff | razor_microkernel/rz_network_utils.rb:89-108 | an entry is valid exactly when it names an interface of the prefix, carries an address, and none of its addresses has first octet 127 or 169 |
| Ifconfig.FirstField | razor_microkernel/rz_network_utils.rb:64 | the first field of a `lsmod` line is non-empty, has no whitespace, is a prefix of the line, is ended by whitespace, and is the first token of the line's split |
| Ifconfig.NetworkModules | razor_microkernel/rz_network_utils.rb:63-64 | every selected module starts with `bnx2`; there are none exactly when no line starts with `bnx2` |
| Ifconfig.FirstModuleIsFirstMatch | razor_microkernel/rz_network_utils.rb:64-67 | the module the workaround reloads is the first field of the first line that starts with `bnx2` |
| Readiness.RoundHalf | razor_microkernel/rz_network_utils.rb:126 | `(x / 2.0).round` gives the nearest integer to x/2 and rounds a half away from zero |
| Readiness.Backoff | razor_microkernel/rz_network_utils.rb:116-126 | after the c-th failed attempt the wait is 2^(c-1) seconds (1, 2, 4, 8 …), and before any attempt it is 0 |
| Readiness.ClassifyAllAt | razor_microkernel/rz_network_utils.rb:83-108 | the k-th entry of a classified output is the classification of the k-th entry of the text |
| Readiness.ClassifyScansAt | razor_microkernel/rz_network_utils.rb:83-108 | the classified output of pass i is the classification of the text of pass i |
| Readiness.ResultCode | razor_microkernel/rz_network_utils.rb:136-140 | the final flags give SUCCESS exactly when an address was seen and it was valid, TIMEOUT_EXCEEDED exactly when the last entry examined had none, INVALID_IP_ADDRESS exactly when it had one that was not valid; ResultMapping ties the flags to the run |
| Readiness.StopFromIsFirstStop | razor_microkernel/rz_network_utils.rb:131 | the search for the stopping pass finds the first pass after which a valid address is known or two minutes have elapsed |
| Readiness.PassCountIsFirstStop | razor_microkernel/rz_network_utils.rb:131 | the loop body runs up to and including the first pass that meets the `until` condition, and no further |
| Readiness.StopStep | razor_microkernel/rz_network_utils.rb:131 | one test of the `until` condition: a pass that meets it is the last one, and otherwise the loop goes on to another pass that exists |
| ReadinessProps.ScanKeeps | razor_microkernel/rz_network_utils.rb:83-113 | the scan changes only `dev_prefix`, `nic_has_ip_addr` and `found_a_valid_ip` |
| ReadinessProps.ScanFindsIffValid | razor_microkernel/rz_network_utils.rb:83-113 | a scan finds a valid address exactly when one of its entries is valid |
| ReadinessProps.ScanStopsAtFirstValid | razor_microkernel/rz_network_utils.rb:89-109 | the scan stops at the first valid entry and keeps that entry's interface name |
| ReadinessProps.ScanWithoutValidEndsAtLast | razor_microkernel/rz_network_utils.rb:89-95 | with no valid entry, `dev_prefix` and `nic_has_ip_addr` describe the last entry |
| ReadinessProps.PassFinds | razor_microkernel/rz_network_utils.rb:83-113 | a pass that starts without a valid address ends with one exactly when its scan has a valid entry; a valid address implies an address |
| ReadinessProps.FirstValid | razor_microkernel/rz_network_utils.rb:109 | a list with a valid entry has a first valid entry |
| ReadinessProps.BeforePass | razor_microkernel/rz_network_utils.rb:33-126 | before pass k of a call, no valid address is known, k attempts have been counted, the wait is Backoff(k), and the firmware step has run exactly when k >= 2 |
| ReadinessProps.PassActionsRule | razor_microkernel/rz_network_utils.rb:49-128 | pass i reloads the first `bnx2` module only when i = 1 and there is one; it restarts DHCP when i >= 1 and the last entry examined had no address; it sleeps 2^i seconds when it found no valid address; the actions come in that order |
| ReadinessProps.PassEndsWithLastEntry | razor_microkernel/rz_network_utils.rb:74-95 | after a failing pass, `nic_has_ip_addr` is the address status of the last entry of its scan, and a scan without entries leaves the flag as the previous pass left it |
| ReadinessProps.FirstPassNoRecovery | razor_microkernel/rz_network_utils.rb:49 | the first pass takes no recovery step |
| ReadinessProps.Doublings | razor_microkernel/rz_network_utils.rb:126 | the reference schedule: k waits, the i-th being 2^i |
| ReadinessProps.SleepsAppend | razor_microkernel/rz_network_utils.rb:128 | the sleeps of a joined trace are the sleeps of each part |
| ReadinessProps.ReloadsAppend | razor_microkernel/rz_network_utils.rb:68 | the reloads of a joined trace are the reloads of each part |
| ReadinessProps.SleepsOfPass | razor_microkernel/rz_network_utils.rb:116-128 | a pass sleeps once, 2^i seconds, exactly when it fails |
| ReadinessProps.ReloadsOfPass | razor_microkernel/rz_network_utils.rb:61-70 | a pass reloads exactly the module the one-time rule assigns to it |
| ReadinessProps.SleepsUpTo | razor_microkernel/rz_network_utils.rb:116-131 | the sleeps of the first k failed passes are 1, 2, …, 2^(k-1) |
| ReadinessProps.SleepSchedule | razor_microkernel/rz_network_utils.rb:116-131 | a call's sleeps are the doubling schedule, one per failed pass: all passes when it ends without a valid address, all but the last otherwise |
| ReadinessProps.ReloadsUpTo | razor_microkernel/rz_network_utils.rb:61-70 | after k passes the reloads are the one-time rule's |
| ReadinessProps.ReloadsStep | razor_microkernel/rz_network_utils.rb:61-70 | one more pass extends the reloads by that pass's share |
| ReadinessProps.ReloadAtMostOnce | razor_microkernel/rz_network_utils.rb:61-70 | a call reloads at most one module, the first `bnx2` module, and only when it made a second pass |
| ReadinessProps.ResultMapping | razor_microkernel/rz_network_utils.rb:131-140 | SUCCESS exactly when a valid address was found, TIMEOUT_EXCEEDED exactly when the last entry examined had no address, INVALID_IP_ADDRESS otherwise; a valid address comes from an entry of the last scan; without one the two minutes are up |
| ReadinessProps.ResultOnLastEntry | razor_microkernel/rz_network_utils.rb:89-137 | with entries in the last scan, TIMEOUT_EXCEEDED exactly when none is valid and the last has no address, INVALID_IP_ADDRESS exactly when none is valid and the last has one; a last scan without entries never gives SUCCESS and keeps the flag of the pass before |
| ReadinessProps.PassCountIsUnique | razor_microkernel/rz_network_utils.rb:131 | the first pass that meets the stopping condition fixes the number of passes |
| ReadinessProps.NoValidEntryYet | razor_microkernel/rz_network_utils.rb:83-113 | scans without a valid entry leave no valid address known |
| ReadinessProps.FirstValidScanSucceeds | razor_microkernel/rz_network_utils.rb:109-140 | when scan m is the first with a valid entry and the time is not up before it, the call makes m + 1 passes and returns SUCCESS |
| ReadinessProps.NoNicNoAddress | razor_microkernel/rz_network_utils.rb:89-95 | with no interface of the prefix in any scan, no address is ever seen |
| ReadinessProps.NoNicTimesOut | razor_microkernel/rz_network_utils.rb:131-136 | with no interface of the prefix the call waits out the two minutes and returns TIMEOUT_EXCEEDED |
| ReadinessProps.ElapsedAtLeast | razor_microkernel/rz_network_utils.rb:126-128 | on a clock on which each sleep lasts as long as it asks, 2^k - 1 seconds have elapsed after k failed passes |
| ReadinessProps.BoundedPasses | razor_microkernel/rz_network_utils.rb:116-131 | on such a clock the loop body runs at most seven times |
| ReadinessProps.ObservedEntry | razor_microkernel/rz_network_utils.rb:89-108 | each classified entry carries the interface name of its text and is valid (or has an address) exactly when the text entry is |
| ReadinessProps.SuccessIffValidEntry | razor_microkernel/rz_network_utils.rb:83-140 | on the raw `ifconfig` text, the call returns SUCCESS exactly when the last scan holds an entry with an interface of the prefix, an address, and no 127.x or 169.x address |
| ReadinessProps.TimeoutOnText | razor_microkernel/rz_network_utils.rb:83-136 | on the raw `ifconfig` text with entries in the last scan, TIMEOUT_EXCEEDED exactly when no entry is valid and the last entry has no address on an interface of the prefix |
| ReadinessProps.InvalidOnText | razor_microkernel/rz_network_utils.rb:83-137 | on the raw `ifconfig` text with entries in the last scan, INVALID_IP_ADDRESS exactly when no entry is valid and the last entry has an address on an interface of the prefix |
| ReadinessProps.EntryVerdict | razor_microkernel/rz_network_utils.rb:89-108 | a classified entry is valid, or has an address, exactly when its text entry is or has |
| ReadinessProps.SameVerdicts | razor_microkernel/rz_network_utils.rb:83-108 | a classified output and its text agree on whether some entry is valid and on whether the last entry has an address |
| NetworkUtils.RzNetworkUtils.constructor | razor_microkernel/rz_network_utils.rb:22-24 | the object watches the given prefix, `eth` by default, and no check has started |
| NetworkUtils.RzNetworkUtils.CurrentWaitTime | razor_microkernel/rz_network_utils.rb:26-28 | the seconds from `@start_time` to a clock reading, the quantity the loop's `until` test compares with MaxWaitTime; WaitUntilNwAvail's contract ties the stop to WaitOutcome, and StopFromIsFirstStop and PassCountIsFirstStop describe where that stop falls |
| NetworkUtils.RzNetworkUtils.RecoverAfterSleep | razor_microkernel/rz_network_utils.rb:49-78 | the step-by-step recovery code does what the function Recover specifies |
| NetworkUtils.RzNetworkUtils.ScanEntries | razor_microkernel/rz_network_utils.rb:83-113 | the loop over the entries, with its early break, computes the scan function |
| NetworkUtils.RzNetworkUtils.RunPass | razor_microkernel/rz_network_utils.rb:49-129 | one loop body computes the function Pass |
| NetworkUtils.RzNetworkUtils.WaitUntilNwAvail | razor_microkernel/rz_network_utils.rb:30-142 | the method records the start time and returns the result code and action trace of the functional model, whose properties the lemmas above prove |
| Discovery.DiscoverRzServerIp | razor_microkernel/rz_network_utils.rb:144-146 | the answer is always the answer of one of the three steps; DiscoverIsFirstSome proves it is the first present one in the order PXE, DNS, DHCP, and DiscoverFailsIffAllFail that it fails only when all three do |
| Discovery.DiscoverByPxe | razor_microkernel/rz_network_utils.rb:148-160 | no answer when `/proc/cmdline` cannot be read; otherwise an answer exactly when one command-line token matches `razor.ip=`, and the answer is that token's capture; SingleValueIffUnique and PxeFromBootLine state it in terms of the tokens |
| Discovery.ServerName | razor_microkernel/rz_network_utils.rb:165-166 | the capture of the only `razor.server=` token when exactly one matches, `razor` otherwise; DnsDefaultsToRazor, DnsSeveralServersResolveRazor and DnsSingleServerResolvesIt state the three cases |
| Discovery.DiscoverByDns | razor_microkernel/rz_network_utils.rb:162-173 | no answer when `/proc/cmdline` cannot be read; otherwise an answer exactly when the resolver reports an address for the server name, and the answer is the first address it reports |
| Discovery.DiscoverByDhcp | razor_microkernel/rz_network_utils.rb:175-183 | an answer exactly when the next-server file can be read, and the answer has no whitespace left to strip; DhcpStripsPadding says which part of the file it is |
| Discovery.UpToNewlineWhole | razor_microkernel/rz_network_utils.rb:151 | `(.*)` captures a whole string that holds no newline |
| Discovery.KeyFromIsLeftmost | razor_microkernel/rz_network_utils.rb:151 | the token search takes the capture at the leftmost match |
| Discovery.KeyTokenValue | razor_microkernel/rz_network_utils.rb:151 | a token `razor.<key>=v` yields v |
| Discovery.UnanchoredAnyCharacter | razor_microkernel/rz_network_utils.rb:151 | the match is unanchored and its `.` matches any character but a newline: after text in which the pattern does not start, `razor`, any such character, the key and `=` yield the newline-free value that follows |
| Discovery.CapturesAppend | razor_microkernel/rz_network_utils.rb:151 | the captures of joined token lists are joined |
| Discovery.CapturesNone | razor_microkernel/rz_network_utils.rb:151 | no matching token gives no capture |
| Discovery.CapturesNonEmpty | razor_microkernel/rz_network_utils.rb:151 | one matching token gives at least one capture |
| Discovery.CapturesTwo | razor_microkernel/rz_network_utils.rb:151-152 | two matching tokens give at least two captures |
| Discovery.CapturesOne | razor_microkernel/rz_network_utils.rb:151-153 | exactly one capture means exactly one matching token, and the capture is its value |
| Discovery.CapturesUnique | razor_microkernel/rz_network_utils.rb:151-153 | a single matching token gives exactly its value |
| Discovery.SingleValueIffUnique | razor_microkernel/rz_network_utils.rb:151-156 | the count-is-one rule answers v exactly when one token matches and it yields v |
| Discovery.SeveralMatchesGiveNone | razor_microkernel/rz_network_utils.rb:152-156 | two matching tokens give no answer |
| Discovery.NoMatchGivesNone | razor_microkernel/rz_network_utils.rb:152-156 | no matching token gives no answer |
| Discovery.BootLineValue | razor_microkernel/rz_network_utils.rb:150-153 | a space-joined boot line in which only `razor.<key>=v` matches yields v |
| Discovery.PxeFromBootLine | razor_microkernel/rz_network_utils.rb:148-160 | a boot line with one `razor.ip=` token yields its address |
| Discovery.DnsDefaultsToRazor | razor_microkernel/rz_network_utils.rb:162-172 | without a `razor.server=` token the DNS step looks up `razor` |
| Discovery.DnsSeveralServersResolveRazor | razor_microkernel/rz_network_utils.rb:165-169 | with two or more `razor.server=` tokens the DNS step looks up `razor` |
| Discovery.DnsSingleServerResolvesIt | razor_microkernel/rz_network_utils.rb:165-169 | with exactly one `razor.server=name` token the DNS step looks up that name |
| Discovery.DhcpStripsPadding | razor_microkernel/rz_network_utils.rb:175-183 | the next-server file's contents yield the address with surrounding whitespace removed |
| Discovery.DhcpAnswersWhenReadable | razor_microkernel/rz_network_utils.rb:144-183 | when the next-server file is readable, discovery always answers, even with the empty string |
| Discovery.DiscoverIsFirstSome | razor_microkernel/rz_network_utils.rb:144-146 | discovery is the first answer of PXE, DNS and DHCP, in that order |
| Discovery.PxeFirst | razor_microkernel/rz_network_utils.rb:145 | a PXE answer wins, whatever DNS and the file say |
| Discovery.DnsSecond | razor_microkernel/rz_network_utils.rb:145 | without a PXE answer, a DNS answer wins, whatever the file says |
| Discovery.DiscoverFailsIffAllFail | razor_microkernel/rz_network_utils.rb:145 | discovery fails exactly when all three steps fail |
| Discovery.NoCmdlineFallsBackToDhcp | razor_microkernel/rz_network_utils.rb:145-172 | an unreadable `/proc/cmdline` leaves only the DHCP file |
| Text.SplitJoinSpaced | razor_microkernel/rz_network_utils.rb:151 | splitting space-joined non-empty tokens without whitespace gives the tokens back |
| Text.StripPadded | razor_microkernel/rz_network_utils.rb:179 | `strip` removes the leading whitespace and the trailing whitespace or NUL characters around a value |
| Text.StripIdempotent | razor_microkernel/rz_network_utils.rb:179 | stripping twice is stripping once |

## Left out

- Shell commands are not modelled: `lsmod`, `ifconfig`, `rmmod`, `modprobe` and the DHCP restart. The first two are inputs of the environment; the others are actions in the returned trace. Their own results are ignored by the code, and by the model too.
- `sleep`, `Time.now` and `puts` are not modelled. The sleep is an action; the clock readings are inputs; the log lines are dropped.
- File reads of `/proc/cmdline` and `/tmp/nextServerIP.addr` become `Option<string>` inputs, None when the rescued read fails. `/proc/cmdline` is read twice by the code and given once here, so both steps see the same contents.
- `TCPSocket.gethostbyname` becomes a map from host names to their address lists. A missing name stands for a failed lookup.
- `WaitUntilNwAvail` requires an environment with one clock reading per pass. The last reading must be at least MaxWaitTime past the start. The real loop relies on the clock reaching the deadline without a bound on the passes. `BoundedPasses` shows seven passes suffice when sleeps take as long as they ask.
- Regular-expression metacharacters in a caller-supplied `eth_prefix` are not modelled. The prefix is matched literally.
- `\s` is the Ruby 1.8/1.9 set: space, tab, line feed, form feed and carriage return, without vertical tab. The whitespace of `split`/`strip` is space and tab through carriage return, vertical tab included. `strip` also drops trailing NUL, as in Ruby 1.9 and later; Unicode whitespace is not modelled.
- The backoff is computed on integers. Rounding a Float differs from the model only past the 53-bit mantissa, which a two-minute loop never reaches.
- ClassifyAll applies all three patterns to every entry before the scan loop runs, and `RunPass` passes the classified output to `ScanEntries`. Ruby evaluates the patterns inside the loop and skips the remaining entries after the break. The patterns are pure, so the flags agree. `ScanEntries` proves the break-at-first-valid behaviour on the classified entries.
- `rz_mk_init.rb` is context only and is not part of this model.
- Ruby's `false` return becomes None. Any string, the empty string included, counts as an answer, as the Ruby `or` chain treats it.
