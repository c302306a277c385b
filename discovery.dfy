/**
 * Server discovery: `discover_rz_server_ip` and the three steps it chains,
 * `discover_by_pxe`, `discover_by_dns` and `discover_by_dhcp`. The steps read
 * nothing but their inputs, so they are functions here. A file is given by
 * its contents, None when it cannot be read; the name resolver is a map from
 * host names to the addresses it reports, with the names it cannot resolve
 * absent. Ruby's `false` becomes None, and every string, "" included, is a
 * success.
 */
module Discovery {
  import opened Wrappers
  import opened Text

  /** The key of the PXE step's `razor.ip=` token. */
  const IpKey: string := "ip"
  /** The key of the DNS step's `razor.server=` token. */
  const ServerKey: string := "server"
  /** The host name the DNS step resolves when no single `razor.server=` token is given. */
  const DefaultServerName: string := "razor"

  // ---------------------------------------------------------------------------
  // The token patterns `/razor.ip=(.*)/` and `/razor.server=(.*)/`
  // ---------------------------------------------------------------------------

  /** `razor`, one character other than a newline (the regex `.`), the key and `=` start t. */
  predicate KeyAt(key: string, t: string) {
    |t| >= |key| + 7 && t[..5] == "razor" && t[5] != '\n' && t[6..6 + |key|] == key && t[6 + |key|] == '='
  }

  /** What `(.*)` captures at the start of s: everything up to the first newline. */
  function UpToNewline(s: string): string {
    if s == [] || s[0] == '\n' then [] else [s[0]] + UpToNewline(s[1..])
  }

  /** Text without a newline is captured whole. */
  lemma {:induction false} UpToNewlineWhole(s: string)
    requires forall i :: 0 <= i < |s| ==> s[i] != '\n'
    ensures UpToNewline(s) == s
  {
    if s != [] {
      assert forall i :: 0 <= i < |s| - 1 ==> s[1..][i] == s[i + 1];
      UpToNewlineWhole(s[1..]);
    }
  }

  /** The search for the token pattern from position j of t on, and its capture. */
  function KeyFrom(key: string, t: string, j: nat): Option<string>
    requires j <= |t|
    decreases |t| - j
  {
    if KeyAt(key, t[j..]) then Some(UpToNewline(t[j + |key| + 7..]))
    else if j == |t| then None
    else KeyFrom(key, t, j + 1)
  }

  /** What one token yields under the key's pattern: the capture at the leftmost match, or None. */
  function KeyValue(key: string, t: string): Option<string> {
    KeyFrom(key, t, 0)
  }

  /** KeyFrom finds the leftmost match. */
  lemma {:induction false} KeyFromIsLeftmost(key: string, t: string, j: nat)
    requires j <= |t|
    ensures KeyFrom(key, t, j) ==
      match Leftmost(u => KeyAt(key, u), t, j)
      case None => None
      case Some(k) => Some(UpToNewline(t[k + |key| + 7..]))
    decreases |t| - j
  {
    if j < |t| && !KeyAt(key, t[j..]) {
      KeyFromIsLeftmost(key, t, j + 1);
    }
  }

  /** The captures of the tokens that match the key's pattern, in token order; non-matching tokens drop out. */
  function Captures(key: string, tokens: seq<string>): seq<string> {
    if tokens == [] then []
    else
      (match KeyValue(key, tokens[0]) case None => [] case Some(v) => [v]) + Captures(key, tokens[1..])
  }

  /** Lines 151-152 and 165-166: the value of the only matching token of the command line, if exactly one matches. */
  function SingleValue(key: string, contents: string): Option<string> {
    var values := Captures(key, Split(contents));
    if |values| == 1 then Some(values[0]) else None
  }

  // ---------------------------------------------------------------------------
  // The three discovery steps and their chain
  // ---------------------------------------------------------------------------

  /** `discover_by_pxe` (lines 148-160), given the contents of `/proc/cmdline`. */
  function DiscoverByPxe(cmdline: Option<string>): (r: Option<string>)
    ensures cmdline.None? ==> r.None?
    ensures cmdline.Some? ==> (r.Some? <==> |Captures(IpKey, Split(cmdline.value))| == 1)
    ensures r.Some? ==> Captures(IpKey, Split(cmdline.value)) == [r.value]
  {
    match cmdline
    case None => None
    case Some(contents) => SingleValue(IpKey, contents)
  }

  /** Line 166: the single `razor.server=` value, or `'razor'`. */
  function ServerName(contents: string): (name: string)
    ensures |Captures(ServerKey, Split(contents))| == 1 ==> Captures(ServerKey, Split(contents)) == [name]
    ensures |Captures(ServerKey, Split(contents))| != 1 ==> name == DefaultServerName
  {
    match SingleValue(ServerKey, contents)
    case Some(name) => name
    case None => DefaultServerName
  }

  /**
   * `discover_by_dns` (lines 162-173): the first address the resolver reports
   * for the server name; None when the command line cannot be read, the name
   * does not resolve or it resolves to no address.
   */
  function DiscoverByDns(cmdline: Option<string>, hosts: map<string, seq<string>>): (r: Option<string>)
    ensures cmdline.None? ==> r.None?
    ensures cmdline.Some? ==>
      var name := ServerName(cmdline.value);
      (r.Some? <==> name in hosts && hosts[name] != []) && (r.Some? ==> r.value == hosts[name][0])
  {
    match cmdline
    case None => None
    case Some(contents) =>
      var name := ServerName(contents);
      if name in hosts && hosts[name] != [] then Some(hosts[name][0]) else None
  }

  /** `discover_by_dhcp` (lines 175-183), given the contents of `/tmp/nextServerIP.addr`. */
  function DiscoverByDhcp(nextServerFile: Option<string>): (r: Option<string>)
    ensures r.Some? <==> nextServerFile.Some?
    ensures r.Some? ==> Strip(r.value) == r.value
  {
    match nextServerFile
    case None => None
    case Some(contents) => StripIdempotent(contents); Some(Strip(contents))
  }

  /** `discover_by_pxe or discover_by_dns or discover_by_dhcp` (line 145). */
  function DiscoverRzServerIp(cmdline: Option<string>, hosts: map<string, seq<string>>, nextServerFile: Option<string>): (r: Option<string>)
    ensures r == DiscoverByPxe(cmdline) || r == DiscoverByDns(cmdline, hosts) || r == DiscoverByDhcp(nextServerFile)
  {
    match DiscoverByPxe(cmdline)
    case Some(ip) => Some(ip)
    case None =>
      match DiscoverByDns(cmdline, hosts)
      case Some(ip) => Some(ip)
      case None => DiscoverByDhcp(nextServerFile)
  }

  /** The reference meaning of an `or` chain: the first value that is present. */
  function FirstSome(options: seq<Option<string>>): Option<string> {
    if options == [] then None
    else if options[0].Some? then options[0]
    else FirstSome(options[1..])
  }

  // ---------------------------------------------------------------------------
  // Token extraction
  // ---------------------------------------------------------------------------

  /** A token that starts with `razor.<key>=` yields the rest of the token. */
  lemma KeyTokenValue(key: string, v: string)
    requires NoSpace(v)
    ensures KeyValue(key, "razor." + key + "=" + v) == Some(v)
  {
    var t := "razor." + key + "=" + v;
    assert KeyAt(key, t[0..]) by {
      assert t[0..] == t;
      assert t[..5] == "razor";
      assert t[6..6 + |key|] == key;
    }
    assert t[|key| + 7..] == v;
    UpToNewlineWhole(v);
  }

  /** The search passes over positions where the pattern does not start. */
  lemma {:induction false} KeyFromSkips(key: string, t: string, j: nat, m: nat)
    requires j <= m <= |t|
    requires forall i :: j <= i < m ==> !KeyAt(key, t[i..])
    ensures KeyFrom(key, t, j) == KeyFrom(key, t, m)
    decreases m - j
  {
    if j < m {
      KeyFromSkips(key, t, j + 1, m);
    }
  }

  /**
   * The match is unanchored and its `.` is any character but a newline:
   * after text p in which the pattern does not start, `razor`, any such
   * character c, the key and `=` yield the value that follows.
   */
  lemma UnanchoredAnyCharacter(key: string, p: string, c: char, v: string)
    requires c != '\n' && forall i :: 0 <= i < |v| ==> v[i] != '\n'
    requires forall i :: 0 <= i < |p| ==> !KeyAt(key, (p + "razor" + [c] + key + "=" + v)[i..])
    ensures KeyValue(key, p + "razor" + [c] + key + "=" + v) == Some(v)
  {
    var t := p + "razor" + [c] + key + "=" + v;
    KeyFromSkips(key, t, 0, |p|);
    var u := t[|p|..];
    assert u == "razor" + [c] + key + "=" + v;
    assert KeyAt(key, u) by {
      assert u[..5] == "razor";
      assert u[5] == c;
      assert u[6..6 + |key|] == key;
      assert u[6 + |key|] == '=';
    }
    assert t[|p| + |key| + 7..] == v;
    UpToNewlineWhole(v);
  }

  lemma {:induction false} CapturesAppend(key: string, a: seq<string>, b: seq<string>)
    ensures Captures(key, a + b) == Captures(key, a) + Captures(key, b)
  {
    if a == [] {
      assert a + b == b;
    } else {
      assert (a + b)[0] == a[0];
      assert (a + b)[1..] == a[1..] + b;
      CapturesAppend(key, a[1..], b);
    }
  }

  /** No matching token, no capture. */
  lemma {:induction false} CapturesNone(key: string, tokens: seq<string>)
    requires forall i :: 0 <= i < |tokens| ==> KeyValue(key, tokens[i]).None?
    ensures Captures(key, tokens) == []
  {
    if tokens != [] {
      assert forall i :: 0 <= i < |tokens| - 1 ==> tokens[1..][i] == tokens[i + 1];
      CapturesNone(key, tokens[1..]);
    }
  }

  /** A matching token gives at least one capture. */
  lemma CapturesNonEmpty(key: string, tokens: seq<string>, j: nat)
    requires j < |tokens| && KeyValue(key, tokens[j]).Some?
    ensures Captures(key, tokens) != []
  {
    CapturesAppend(key, tokens[..j], tokens[j..]);
    assert tokens == tokens[..j] + tokens[j..];
    assert tokens[j..][0] == tokens[j];
  }

  /** Two matching tokens give at least two captures. */
  lemma {:induction false} CapturesTwo(key: string, tokens: seq<string>, i: nat, j: nat)
    requires i < j < |tokens|
    requires KeyValue(key, tokens[i]).Some? && KeyValue(key, tokens[j]).Some?
    ensures |Captures(key, tokens)| >= 2
  {
    CapturesAppend(key, tokens[..j], tokens[j..]);
    CapturesAppend(key, tokens[..i], tokens[i..j]);
    assert tokens[..j] == tokens[..i] + tokens[i..j];
    assert tokens == tokens[..j] + tokens[j..];
    assert tokens[i..j][0] == tokens[i];
    assert tokens[j..][0] == tokens[j];
  }

  /** A single capture comes from exactly one matching token. */
  lemma {:induction false} CapturesOne(key: string, tokens: seq<string>)
    requires |Captures(key, tokens)| == 1
    ensures exists i ::
      && 0 <= i < |tokens|
      && KeyValue(key, tokens[i]) == Some(Captures(key, tokens)[0])
      && forall j :: 0 <= j < |tokens| && j != i ==> KeyValue(key, tokens[j]).None?
  {
    assert tokens != [];
    var rest := tokens[1..];
    assert forall j :: 1 <= j < |tokens| ==> tokens[j] == rest[j - 1];
    match KeyValue(key, tokens[0])
    case Some(v) =>
      assert Captures(key, rest) == [];
      forall j | 0 <= j < |rest|
        ensures KeyValue(key, rest[j]).None?
      {
        if KeyValue(key, rest[j]).Some? {
          CapturesNonEmpty(key, rest, j);
        }
      }
    case None =>
      CapturesOne(key, rest);
      var i :| 0 <= i < |rest| && KeyValue(key, rest[i]) == Some(Captures(key, rest)[0]) &&
        forall j :: 0 <= j < |rest| && j != i ==> KeyValue(key, rest[j]).None?;
      assert KeyValue(key, tokens[i + 1]) == Some(Captures(key, tokens)[0]);
  }

  /** Exactly one matching token, identified by its index, gives its capture. */
  lemma CapturesUnique(key: string, tokens: seq<string>, i: nat)
    requires i < |tokens| && KeyValue(key, tokens[i]).Some?
    requires forall j :: 0 <= j < |tokens| && j != i ==> KeyValue(key, tokens[j]).None?
    ensures Captures(key, tokens) == [KeyValue(key, tokens[i]).value]
  {
    assert tokens == tokens[..i] + [tokens[i]] + tokens[i + 1..];
    CapturesAppend(key, tokens[..i] + [tokens[i]], tokens[i + 1..]);
    CapturesAppend(key, tokens[..i], [tokens[i]]);
    CapturesNone(key, tokens[..i]);
    assert forall j :: i + 1 <= j < |tokens| ==> tokens[i + 1..][j - i - 1] == tokens[j];
    CapturesNone(key, tokens[i + 1..]);
    assert Captures(key, [tokens[i]]) == [KeyValue(key, tokens[i]).value] by {
      assert [tokens[i]][1..] == [];
    }
  }

  /**
   * The command line yields a value exactly when exactly one of its
   * whitespace-separated tokens matches, and then the value is that token's
   * capture; with no match or with several there is none.
   */
  lemma SingleValueIffUnique(key: string, contents: string, v: string)
    ensures SingleValue(key, contents) == Some(v) <==>
      var tokens := Split(contents);
      exists i :: 0 <= i < |tokens| && KeyValue(key, tokens[i]) == Some(v) &&
        forall j :: 0 <= j < |tokens| && j != i ==> KeyValue(key, tokens[j]).None?
  {
    var tokens := Split(contents);
    if SingleValue(key, contents) == Some(v) {
      CapturesOne(key, tokens);
    }
    forall i | 0 <= i < |tokens| && KeyValue(key, tokens[i]) == Some(v) &&
        forall j :: 0 <= j < |tokens| && j != i ==> KeyValue(key, tokens[j]).None?
      ensures SingleValue(key, contents) == Some(v)
    {
      CapturesUnique(key, tokens, i);
    }
  }

  /** Two matching tokens make the value absent, whatever they capture. */
  lemma SeveralMatchesGiveNone(key: string, contents: string, i: nat, j: nat)
    requires i < j < |Split(contents)|
    requires KeyValue(key, Split(contents)[i]).Some? && KeyValue(key, Split(contents)[j]).Some?
    ensures SingleValue(key, contents) == None
  {
    CapturesTwo(key, Split(contents), i, j);
  }

  /** No matching token makes the value absent. */
  lemma NoMatchGivesNone(key: string, contents: string)
    requires forall i :: 0 <= i < |Split(contents)| ==> KeyValue(key, Split(contents)[i]).None?
    ensures SingleValue(key, contents) == None
  {
    CapturesNone(key, Split(contents));
  }

  /**
   * A boot line of well-formed tokens in which only `razor.<key>=v` matches
   * yields v, the empty value included.
   */
  lemma {:induction false} BootLineValue(key: string, before: seq<string>, v: string, after: seq<string>)
    requires NoSpace(key) && NoSpace(v)
    requires forall k :: 0 <= k < |before| ==> before[k] != [] && NoSpace(before[k]) && KeyValue(key, before[k]).None?
    requires forall k :: 0 <= k < |after| ==> after[k] != [] && NoSpace(after[k]) && KeyValue(key, after[k]).None?
    ensures SingleValue(key, JoinSpaced(before + ["razor." + key + "=" + v] + after)) == Some(v)
  {
    var token := "razor." + key + "=" + v;
    var tokens := before + [token] + after;
    forall k | 0 <= k < |token|
      ensures !IsSpace(token[k])
    {
      if 6 <= k < 6 + |key| {
        assert token[k] == key[k - 6];
      } else if 7 + |key| <= k {
        assert token[k] == v[k - 7 - |key|];
      }
    }
    assert forall k :: 0 <= k < |tokens| ==> tokens[k] != [] && NoSpace(tokens[k]) by {
      forall k | 0 <= k < |tokens|
        ensures tokens[k] != [] && NoSpace(tokens[k])
      {
        if k < |before| {
          assert tokens[k] == before[k];
        } else if k == |before| {
          assert tokens[k] == token;
        } else {
          assert tokens[k] == after[k - |before| - 1];
        }
      }
    }
    SplitJoinSpaced(tokens);
    KeyTokenValue(key, v);
    forall j | 0 <= j < |tokens| && j != |before|
      ensures KeyValue(key, tokens[j]).None?
    {
      if j < |before| {
        assert tokens[j] == before[j];
      } else {
        assert tokens[j] == after[j - |before| - 1];
      }
    }
    CapturesUnique(key, tokens, |before|);
  }

  /** A PXE boot line carrying one `razor.ip=` token yields its address, and `razor.ip=` alone yields "". */
  lemma PxeFromBootLine(before: seq<string>, ip: string, after: seq<string>)
    requires NoSpace(ip)
    requires forall k :: 0 <= k < |before| ==> before[k] != [] && NoSpace(before[k]) && KeyValue(IpKey, before[k]).None?
    requires forall k :: 0 <= k < |after| ==> after[k] != [] && NoSpace(after[k]) && KeyValue(IpKey, after[k]).None?
    ensures DiscoverByPxe(Some(JoinSpaced(before + ["razor.ip=" + ip] + after))) == Some(ip)
  {
    assert "razor." + IpKey + "=" + ip == "razor.ip=" + ip;
    BootLineValue(IpKey, before, ip, after);
  }

  /** Without any `razor.server=` token the DNS step looks up `razor`. */
  lemma DnsDefaultsToRazor(contents: string, hosts: map<string, seq<string>>)
    requires forall i :: 0 <= i < |Split(contents)| ==> KeyValue(ServerKey, Split(contents)[i]).None?
    ensures DiscoverByDns(Some(contents), hosts) ==
      if "razor" in hosts && |hosts["razor"]| > 0 then Some(hosts["razor"][0]) else None
  {
    NoMatchGivesNone(ServerKey, contents);
  }

  /** Two or more `razor.server=` tokens make the DNS step look up `razor` as well. */
  lemma DnsSeveralServersResolveRazor(contents: string, hosts: map<string, seq<string>>, i: nat, j: nat)
    requires i < j < |Split(contents)|
    requires KeyValue(ServerKey, Split(contents)[i]).Some? && KeyValue(ServerKey, Split(contents)[j]).Some?
    ensures DiscoverByDns(Some(contents), hosts) ==
      if "razor" in hosts && |hosts["razor"]| > 0 then Some(hosts["razor"][0]) else None
  {
    SeveralMatchesGiveNone(ServerKey, contents, i, j);
  }

  /** A single `razor.server=name` token makes the DNS step look up that name. */
  lemma DnsSingleServerResolvesIt(contents: string, hosts: map<string, seq<string>>, i: nat, name: string)
    requires i < |Split(contents)| && KeyValue(ServerKey, Split(contents)[i]) == Some(name)
    requires forall j :: 0 <= j < |Split(contents)| && j != i ==> KeyValue(ServerKey, Split(contents)[j]).None?
    ensures DiscoverByDns(Some(contents), hosts) ==
      if name in hosts && |hosts[name]| > 0 then Some(hosts[name][0]) else None
  {
    SingleValueIffUnique(ServerKey, contents, name);
  }

  /** The DHCP step returns the file's text without the surrounding whitespace, possibly "". */
  lemma DhcpStripsPadding(pre: string, v: string, post: string)
    requires forall i :: 0 <= i < |pre| ==> IsSpace(pre[i])
    requires forall i :: 0 <= i < |post| ==> IsTrailingJunk(post[i])
    requires v == [] || (!IsSpace(v[0]) && !IsTrailingJunk(v[|v| - 1]))
    ensures DiscoverByDhcp(Some(pre + v + post)) == Some(v)
  {
    StripPadded(pre, v, post);
  }

  /** A readable DHCP file always answers, so discovery fails only if that file is missing. */
  lemma DhcpAnswersWhenReadable(cmdline: Option<string>, hosts: map<string, seq<string>>, contents: string)
    ensures DiscoverRzServerIp(cmdline, hosts, Some(contents)).Some?
  {
  }

  // ---------------------------------------------------------------------------
  // The chain
  // ---------------------------------------------------------------------------

  /** The chain gives the first present answer among PXE, DNS and DHCP, in that order. */
  lemma DiscoverIsFirstSome(cmdline: Option<string>, hosts: map<string, seq<string>>, nextServerFile: Option<string>)
    ensures DiscoverRzServerIp(cmdline, hosts, nextServerFile) ==
      FirstSome([DiscoverByPxe(cmdline), DiscoverByDns(cmdline, hosts), DiscoverByDhcp(nextServerFile)])
  {
    var options := [DiscoverByPxe(cmdline), DiscoverByDns(cmdline, hosts), DiscoverByDhcp(nextServerFile)];
    assert FirstSome([options[2]]) == options[2] by {
      assert [options[2]][1..] == [];
    }
    assert FirstSome([options[1], options[2]]) == if options[1].Some? then options[1] else options[2] by {
      assert [options[1], options[2]][1..] == [options[2]];
    }
    assert options[1..] == [options[1], options[2]];
  }

  /** Once PXE answers, neither the resolver nor the DHCP file is consulted. */
  lemma PxeFirst(cmdline: Option<string>, hosts: map<string, seq<string>>, nextServerFile: Option<string>,
                 hosts': map<string, seq<string>>, nextServerFile': Option<string>)
    requires DiscoverByPxe(cmdline).Some?
    ensures DiscoverRzServerIp(cmdline, hosts, nextServerFile) == DiscoverByPxe(cmdline)
    ensures DiscoverRzServerIp(cmdline, hosts, nextServerFile) == DiscoverRzServerIp(cmdline, hosts', nextServerFile')
  {
  }

  /** When PXE has no answer and DNS has one, the DHCP file is not consulted. */
  lemma DnsSecond(cmdline: Option<string>, hosts: map<string, seq<string>>, nextServerFile: Option<string>, nextServerFile': Option<string>)
    requires DiscoverByPxe(cmdline).None? && DiscoverByDns(cmdline, hosts).Some?
    ensures DiscoverRzServerIp(cmdline, hosts, nextServerFile) == DiscoverByDns(cmdline, hosts)
    ensures DiscoverRzServerIp(cmdline, hosts, nextServerFile) == DiscoverRzServerIp(cmdline, hosts, nextServerFile')
  {
  }

  /** Discovery fails exactly when all three steps fail. */
  lemma DiscoverFailsIffAllFail(cmdline: Option<string>, hosts: map<string, seq<string>>, nextServerFile: Option<string>)
    ensures DiscoverRzServerIp(cmdline, hosts, nextServerFile).None? <==>
      DiscoverByPxe(cmdline).None? && DiscoverByDns(cmdline, hosts).None? && DiscoverByDhcp(nextServerFile).None?
  {
  }

  /** An unreadable command line leaves the answer to the DHCP file. */
  lemma NoCmdlineFallsBackToDhcp(hosts: map<string, seq<string>>, nextServerFile: Option<string>)
    ensures DiscoverRzServerIp(None, hosts, nextServerFile) == DiscoverByDhcp(nextServerFile)
  {
  }
}
