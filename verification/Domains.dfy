/** The second-level domain of a host name or URL (src/export.c, print_http_l2_domain). Whether
    a text is an IP address is left to an arbitrary predicate. */
module Domains {
  import opened Bytes
  import opened Escaper
  import opened Printbuf

  const SLASH: byte := 47
  const DOT: byte := 46
  const HTTP: bytes := [104, 116, 116, 112, 58, 47, 47]
  const HTTPS: bytes := [104, 116, 116, 112, 115, 58, 47, 47]

  // ---------------------------------------------------------------- searching

  /** memchr. */
  function FirstOf(s: bytes, b: byte): (i: Option<nat>)
    ensures i.Some? ==> i.value < |s| && s[i.value] == b && forall k | 0 <= k < i.value :: s[k] != b
    ensures i.None? ==> forall k | 0 <= k < |s| :: s[k] != b
  {
    if s == [] then None
    else if s[0] == b then Some(0)
    else match FirstOf(s[1..], b) case None => None case Some(i) => Some(i + 1)
  }

  /** memrchr. */
  function LastOf(s: bytes, b: byte): (i: Option<nat>)
    ensures i.Some? ==> i.value < |s| && s[i.value] == b && forall k | i.value < k < |s| :: s[k] != b
    ensures i.None? ==> forall k | 0 <= k < |s| :: s[k] != b
  {
    if s == [] then None
    else if s[|s| - 1] == b then Some(|s| - 1)
    else LastOf(s[..|s| - 1], b)
  }

  /** How many bytes `b` the string starts with. */
  function Run(s: bytes, b: byte): (n: nat)
    ensures n <= |s| && (forall k | 0 <= k < n :: s[k] == b) && (n < |s| ==> s[n] != b)
  {
    if s == [] || s[0] != b then 0 else 1 + Run(s[1..], b)
  }

  /** memcchrnul: the first byte from `start` that is not `b`, or the end. */
  method SkipRun(s: bytes, start: nat, b: byte) returns (i: nat)
    requires start <= |s|
    ensures i == start + Run(s[start..], b)
  {
    i := start;
    while i < |s| && s[i] == b
      invariant start <= i <= |s| && i + Run(s[i..], b) == start + Run(s[start..], b)
    {
      assert s[i..][1..] == s[i + 1..];
      i := i + 1;
    }
  }

  // ---------------------------------------------------------------- the slice that is printed

  /** Where the second-level domain starts and ends within the text. */
  function DomainSlice(host: bytes, isIp: bytes -> bool): (r: (nat, nat))
    ensures r.0 <= r.1 <= |host|
    decreases |host|
  {
    if HTTP <= host then
      var (start, end) := DomainSlice(host[|HTTP|..], isIp);
      (|HTTP| + start, |HTTP| + end)
    else if HTTPS <= host then
      var (start, end) := DomainSlice(host[|HTTPS|..], isIp);
      (|HTTPS| + start, |HTTPS| + end)
    else
      match FirstOf(host, SLASH)
      case Some(k) => DomainSlice(host[..k], isIp)
      case None => if isIp(host) then (0, |host|) else (LastTwoLabels(host), |host|)
  }

  /** Where the last two labels of a clean host name start. */
  function LastTwoLabels(host: bytes): (start: nat)
    ensures start <= |host|
  {
    var start :=
      match LastOf(host, DOT)
      case None => 0
      case Some(l1) => match LastOf(host[..l1], DOT) case None => 0 case Some(l2) => l2;
    start + Run(host[start..], DOT)
  }

  function Domain(host: bytes, isIp: bytes -> bool): bytes {
    var (start, end) := DomainSlice(host, isIp);
    host[start..end]
  }

  /** print_http_l2_domain: prints that slice, escaped. */
  method PrintHttpL2Domain(p: Printbuf, host: bytes, isIp: bytes -> bool) returns (grown: nat)
    requires p.Valid()
    modifies p, p.buf
    ensures p.Valid() && p.Contents() == old(p.Contents()) + Escape(Domain(host, isIp))
    ensures old(p.Terminated()) || Domain(host, isIp) != [] ==> p.Terminated()
    ensures grown == |Escape(Domain(host, isIp))|
    decreases |host|
  {
    hide Escape, Domain, DomainSlice, LastTwoLabels;
    if HTTP <= host {
      StripsProtocol(host, isIp, |HTTP|);
      grown := PrintHttpL2Domain(p, host[|HTTP|..], isIp);
      return;
    }
    if HTTPS <= host {
      StripsProtocol(host, isIp, |HTTPS|);
      grown := PrintHttpL2Domain(p, host[|HTTPS|..], isIp);
      return;
    }
    var slash := FirstOf(host, SLASH);
    if slash.Some? {
      StripsPath(host, isIp);
      grown := PrintHttpL2Domain(p, host[..slash.value], isIp);
      return;
    }
    NothingToStrip(host, isIp);
    if isIp(host) {
      grown := AppendEscaped(p, host);
      return;
    }
    var start := 0;
    var l1 := LastOf(host, DOT);
    if l1.Some? {
      var l2 := LastOf(host[..l1.value], DOT);
      if l2.Some? { start := l2.value; }
    }
    var first := SkipRun(host, start, DOT);
    LabelsStart(host, first);
    grown := AppendEscaped(p, host[first..]);
  }

  lemma StripsProtocol(host: bytes, isIp: bytes -> bool, n: nat)
    requires (HTTP <= host && n == |HTTP|) || (!(HTTP <= host) && HTTPS <= host && n == |HTTPS|)
    ensures Domain(host, isIp) == Domain(host[n..], isIp)
  {
    hide LastTwoLabels;
  }

  lemma StripsPath(host: bytes, isIp: bytes -> bool)
    requires !(HTTP <= host) && !(HTTPS <= host) && FirstOf(host, SLASH).Some?
    ensures Domain(host, isIp) == Domain(host[..FirstOf(host, SLASH).value], isIp)
  {
    hide LastTwoLabels;
  }

  lemma NothingToStrip(host: bytes, isIp: bytes -> bool)
    requires !(HTTP <= host) && !(HTTPS <= host) && FirstOf(host, SLASH).None?
    ensures Domain(host, isIp) == if isIp(host) then host else host[LastTwoLabels(host)..]
  {
    hide LastTwoLabels;
    assert host[0..|host|] == host;
  }

  lemma LabelsStart(host: bytes, first: nat)
    requires var l1 := LastOf(host, DOT);
             var l2 := if l1.Some? then LastOf(host[..l1.value], DOT) else None;
             first == if l2.Some? then l2.value + Run(host[l2.value..], DOT) else 0 + Run(host[0..], DOT)
    ensures LastTwoLabels(host) == first
  {
  }

  // ---------------------------------------------------------------- what the slice is like

  predicate Without(s: bytes, b: byte) {
    forall k | 0 <= k < |s| :: s[k] != b
  }

  /** No slash, no leading dot, and no two dots. */
  predicate Clean(s: bytes) {
    && Without(s, SLASH)
    && (s != [] ==> s[0] != DOT)
    && forall j, k | 0 <= j < k < |s| :: !(s[j] == DOT && s[k] == DOT)
  }

  lemma LastTwoLabelsAreClean(host: bytes)
    requires Without(host, SLASH)
    ensures Clean(host[LastTwoLabels(host)..])
  {
    var start := LastTwoLabels(host);
    var s := host[start..];
    forall j, k | 0 <= j < k < |s| ensures !(s[j] == DOT && s[k] == DOT) {
      assert s[j] == host[start + j] && s[k] == host[start + k];
      match LastOf(host, DOT)
      case None =>
      case Some(l1) =>
        if s[k] == DOT {
          assert start + j < l1;
          assert host[start + j] == host[..l1][start + j];
        }
    }
    if s != [] { StartsPastDots(host); }
  }

  lemma StartsPastDots(host: bytes)
    requires LastTwoLabels(host) < |host|
    ensures host[LastTwoLabels(host)] != DOT
  {
    var l1 := LastOf(host, DOT);
    var l2 := if l1.Some? then LastOf(host[..l1.value], DOT) else None;
    var start := if l2.Some? then l2.value else 0;
    assert LastTwoLabels(host) == start + Run(host[start..], DOT);
    assert host[start..][Run(host[start..], DOT)] == host[LastTwoLabels(host)];
  }

  /** Whatever the text, the slice has no slash, and is an IP address or has at most one dot,
      that is not its first byte. */
  lemma {:induction false} DomainIsClean(host: bytes, isIp: bytes -> bool)
    ensures Without(Domain(host, isIp), SLASH)
    ensures isIp(Domain(host, isIp)) || Clean(Domain(host, isIp))
    decreases |host|
  {
    hide LastTwoLabels, Clean;
    if HTTP <= host {
      StripsProtocol(host, isIp, |HTTP|);
      DomainIsClean(host[|HTTP|..], isIp);
    } else if HTTPS <= host {
      StripsProtocol(host, isIp, |HTTPS|);
      DomainIsClean(host[|HTTPS|..], isIp);
    } else {
      match FirstOf(host, SLASH)
      case Some(k) =>
        DomainIsClean(host[..k], isIp);
        StripsPath(host, isIp);
      case None =>
        assert host[..|host|] == host;
        LastTwoLabelsAreClean(host);
    }
  }

  lemma WithoutProtocol(s: bytes)
    requires Without(s, SLASH)
    ensures !(HTTP <= s) && !(HTTPS <= s)
  {
    assert HTTP[5] == SLASH && HTTPS[6] == SLASH;
    if |s| > 5 { assert s[5] != HTTP[5]; }
    if |s| > 6 { assert s[6] != HTTPS[6]; }
  }

  /** A clean text, or an IP address without slashes, is its own domain. */
  lemma CleanStays(s: bytes, isIp: bytes -> bool)
    requires Without(s, SLASH) && (isIp(s) || Clean(s))
    ensures Domain(s, isIp) == s
  {
    WithoutProtocol(s);
    if !isIp(s) {
      match LastOf(s, DOT)
      case None =>
      case Some(l1) => assert forall k | 0 <= k < l1 :: s[..l1][k] == s[k];
      assert LastTwoLabels(s) == 0;
    }
  }

  /** Taking the domain of a domain changes nothing. */
  lemma DomainIsIdempotent(host: bytes, isIp: bytes -> bool)
    ensures Domain(Domain(host, isIp), isIp) == Domain(host, isIp)
  {
    hide DomainSlice, Clean;
    DomainIsClean(host, isIp);
    CleanStays(Domain(host, isIp), isIp);
  }

  /** Of a host name with at least three labels the last two are kept, whatever protocol comes
      before them and whatever path after. */
  lemma KeepsLastTwo(sub: bytes, name: bytes, top: bytes, isIp: bytes -> bool)
    requires Without(sub, SLASH) && Without(name, SLASH) && Without(top, SLASH)
    requires Without(name, DOT) && name != [] && Without(top, DOT)
    requires !isIp(sub + [DOT] + name + [DOT] + top)
    ensures Domain(sub + [DOT] + name + [DOT] + top, isIp) == name + [DOT] + top
  {
    hide LastOf, Run, FirstOf;
    var front := sub + [DOT] + name;
    var host := front + [DOT] + top;
    assert forall k | 0 <= k < |host| :: host[k] != SLASH;
    WithoutProtocol(host);
    LastOfAfter(front, top);
    assert host[..|front|] == front;
    LastOfAfter(sub, name);
    assert host[|sub|..] == [DOT] + (name + [DOT] + top);
    OneDot(name + [DOT] + top);
    assert LastTwoLabels(host) == |sub| + 1;
    assert host[|sub| + 1..] == name + [DOT] + top;
    assert FirstOf(host, SLASH).None? by { NoSlash(host); }
  }

  lemma NoSlash(s: bytes)
    requires Without(s, SLASH)
    ensures FirstOf(s, SLASH).None?
  {
  }

  lemma LastOfAfter(front: bytes, last: bytes)
    requires Without(last, DOT)
    ensures LastOf(front + [DOT] + last, DOT) == Some(|front|)
  {
    var s := front + [DOT] + last;
    assert s[|front|] == DOT;
    assert forall k | |front| < k < |s| :: s[k] == last[k - |front| - 1];
  }

  lemma OneDot(rest: bytes)
    requires rest != [] && rest[0] != DOT
    ensures Run([DOT] + rest, DOT) == 1
  {
    assert ([DOT] + rest)[1..] == rest;
  }

  lemma NoProtocol(host: bytes, path: bytes)
    requires Without(host, SLASH) && host != HTTP[..5] && host != HTTPS[..6]
    requires path == [] || path[0] == SLASH
    ensures !(HTTP <= host + path) && !(HTTPS <= host + path)
  {
    Mismatch(HTTP, 5, host, path);
    Mismatch(HTTPS, 6, host, path);
  }

  /** A text whose first slash would be at `n` does not begin a host of another length. */
  lemma Mismatch(protocol: bytes, n: nat, host: bytes, path: bytes)
    requires n < |protocol| && protocol[n] == SLASH && Without(protocol[..n], SLASH)
    requires Without(host, SLASH) && host != protocol[..n] && (path == [] || path[0] == SLASH)
    ensures !(protocol <= host + path)
  {
    var t := host + path;
    if |host| > n {
      assert t[n] == host[n];
    } else if |host| < n && path != [] {
      assert t[|host|] == SLASH && protocol[|host|] == protocol[..n][|host|];
    } else if |host| == n {
      var i :| 0 <= i < n && host[i] != protocol[..n][i];
      assert t[i] != protocol[i];
    }
  }

  lemma PathGoes(host: bytes, path: bytes, isIp: bytes -> bool)
    requires Without(host, SLASH) && host != HTTP[..5] && host != HTTPS[..6]
    requires path == [] || path[0] == SLASH
    ensures Domain(host + path, isIp) == Domain(host, isIp)
  {
    hide LastTwoLabels;
    var t := host + path;
    NoProtocol(host, path);
    if path == [] {
      assert t == host;
    } else {
      assert t[|host|] == SLASH;
      assert forall k | 0 <= k < |host| :: t[k] == host[k];
      assert FirstOf(t, SLASH) == Some(|host|);
      assert t[..|host|] == host;
      StripsPath(t, isIp);
    }
  }

  /** A protocol before the host, and a path after it, do not matter, unless the host is itself
      the name of a protocol and its colon. */
  lemma ProtocolAndPathGo(protocol: bytes, host: bytes, path: bytes, isIp: bytes -> bool)
    requires protocol == [] || protocol == HTTP || protocol == HTTPS
    requires Without(host, SLASH) && host != HTTP[..5] && host != HTTPS[..6]
    requires path == [] || path[0] == SLASH
    ensures Domain(protocol + host + path, isIp) == Domain(host, isIp)
  {
    hide Domain;
    var t := protocol + host + path;
    PathGoes(host, path, isIp);
    assert t == protocol + (host + path);
    assert t[|protocol|..] == host + path;
    if protocol != [] {
      assert protocol <= t;
      assert t[4] == protocol[4] && HTTP[4] != HTTPS[4];
      StripsProtocol(t, isIp, |protocol|);
    }
  }
}
