/** `websocketpp::uri`: the parsing constructor and `str()`. */
module Uri {
  import opened Bytes
  import opened JsonMap
  import opened JsonNumber

  const COLON: byte := 0x3A
  const SLASH: byte := 0x2F
  const OPENING: byte := 0x5B
  const CLOSING: byte := 0x5D
  const SEPARATOR: bytes := [COLON, SLASH, SLASH]
  const WS: bytes := [0x77, 0x73]
  const WSS: bytes := [0x77, 0x73, 0x73]
  const HTTP: bytes := [0x68, 0x74, 0x74, 0x70]
  const HTTPS: bytes := [0x68, 0x74, 0x74, 0x70, 0x73]

  datatype Uri = Uri(scheme: bytes, secure: bool, host: bytes, port: nat, resource: bytes)

  function DefaultPort(secure: bool): nat {
    if secure then 443 else 80
  }

  // ---- parsing ----

  /** Position of the first `a` or `b`, or the length. */
  function First(t: bytes, a: byte, b: byte): (k: nat)
    ensures k <= |t|
    ensures k < |t| ==> t[k] == a || t[k] == b
    ensures forall i | 0 <= i < k :: t[i] != a && t[i] != b
  {
    if t == [] || t[0] == a || t[0] == b then 0 else 1 + First(t[1..], a, b)
  }

  datatype Head = Head(scheme: bytes, secure: bool)

  /** The scheme whose `scheme://` starts `s`, provided something follows. */
  function SchemeOf(s: bytes): Option<Head> {
    if |s| >= 7 && s[..6] == WSS + SEPARATOR then Some(Head(WSS, true))
    else if |s| >= 6 && s[..5] == WS + SEPARATOR then Some(Head(WS, false))
    else if |s| >= 8 && s[..7] == HTTP + SEPARATOR then Some(Head(HTTP, false))
    else if |s| >= 9 && s[..8] == HTTPS + SEPARATOR then Some(Head(HTTPS, true))
    else None
  }

  predicate IsBlank(c: byte) {
    c == 0x20 || 0x09 <= c <= 0x0D
  }

  function SkipBlanks(t: bytes): bytes {
    if t != [] && IsBlank(t[0]) then SkipBlanks(t[1..]) else t
  }

  function LeadingDigits(t: bytes): (ds: bytes)
    ensures AllDigits(ds)
  {
    if t != [] && IsDigit(t[0]) then [t[0]] + LeadingDigits(t[1..]) else []
  }

  const INT_MAX: int := 0x7FFF_FFFF

  /** `atoi`. Out of the range of `int` its answer is not defined; `wild` stands for it. */
  function Atoi(t: bytes, wild: bytes -> int): int {
    var u := SkipBlanks(t);
    var negative := u != [] && u[0] == MINUS;
    var signed := u != [] && (u[0] == MINUS || u[0] == 0x2B);
    var n := NumberOf(LeadingDigits(if signed then u[1..] else u));
    if n > INT_MAX + (if negative then 1 else 0) then wild(t) else if negative then 0 - n else n
  }

  /** `get_port_from_string` */
  function PortOf(secure: bool, port: bytes, wild: bytes -> int): Option<nat> {
    if port == [] then Some(DefaultPort(secure))
    else
      var t := Atoi(port, wild) % 0x1_0000_0000;
      if t > 65535 || t == 0 then None else Some(t)
  }

  function Finish(h: Head, host: bytes, port: bytes, rest: bytes, wild: bytes -> int): Option<Uri> {
    var p := PortOf(h.secure, port, wild);
    if p.None? then None else Some(Uri(h.scheme, h.secure, host, p.value, [SLASH] + rest))
  }

  /** After the host: `u` starts with the colon, the slash or nothing that ended it. */
  function AfterHost(h: Head, host: bytes, u: bytes, wild: bytes -> int): Option<Uri> {
    if u == [] then Finish(h, host, [], [], wild)
    else if u[0] == SLASH then Finish(h, host, [], u[1..], wild)
    else if u[0] == COLON then
      var t := u[1..];
      var k := First(t, SLASH, SLASH);
      Finish(h, host, t[..k], if k < |t| then t[k + 1..] else [], wild)
    else None
  }

  function ParseAuthority(h: Head, t: bytes, wild: bytes -> int): Option<Uri> {
    if t != [] && t[0] == OPENING then
      var k := First(t[1..], CLOSING, CLOSING);
      if k == |t| - 1 then None else AfterHost(h, t[1..k + 1], t[k + 2..], wild)
    else
      var k := First(t, COLON, SLASH);
      AfterHost(h, t[..k], t[k..], wild)
  }

  function Parse(s: bytes, wild: bytes -> int): Option<Uri> {
    var h := SchemeOf(s);
    if h.None? then None else ParseAuthority(h.value, s[|h.value.scheme| + 3..], wild)
  }

  /** The parsing constructor, with its iterator and state variable; None when `m_valid` stays false. */
  method ParseUri(s: bytes, wild: bytes -> int) returns (r: Option<Uri>)
    ensures r == Parse(s, wild)
  {
    hide AfterHost, Finish, SchemeOf, First;
    var h := SchemeOf(s);
    if h.None? {
      return None;
    }
    SchemeLeavesText(s);
    var it := |h.value.scheme| + 3;
    ghost var t := s[it..];
    assert t != [] && t[0] == s[it];
    var state, host := 0, [];
    if s[it] == OPENING {
      host, it, state := ReadBracketed(s, it + 1);
      assert t[1..] == s[|h.value.scheme| + 4..];
      BracketedHost(h.value, t, wild);
      if state == 0 {
        return None;
      }
    } else {
      host, it, state := ReadHost(s, it);
      EndsHost(h.value, host, t[First(t, COLON, SLASH)..], wild);
    }
    r := ParsePort(s, h.value, host, it, state, wild);
  }

  lemma SchemeLeavesText(s: bytes)
    ensures SchemeOf(s).Some? ==> |SchemeOf(s).value.scheme| + 3 < |s|
  {
  }

  /** What the bracket branch of the parser amounts to, over the text `t[1..]` behind the bracket. */
  lemma BracketedHost(h: Head, t: bytes, wild: bytes -> int)
    requires t != [] && t[0] == OPENING
    ensures var u := t[1..];
            var k := First(u, CLOSING, CLOSING);
            var r := ParseAuthority(h, t, wild);
            && (k == |u| ==> r.None?)
            && (k < |u| ==>
                  var v := u[k + 1..];
                  && (v == [] ==> r == Finish(h, u[..k], [], [], wild))
                  && (v != [] && v[0] == SLASH ==> r == Finish(h, u[..k], [], v[1..], wild))
                  && (v != [] && v[0] == COLON ==> r == AfterHost(h, u[..k], [COLON] + v[1..], wild))
                  && (v != [] && v[0] != SLASH && v[0] != COLON ==> r.None?))
  {
    hide AfterHost, Finish, First;
    var u := t[1..];
    var k := First(u, CLOSING, CLOSING);
    if k < |u| {
      assert t[1..k + 1] == u[..k] && t[k + 2..] == u[k + 1..];
      EndsHost(h, u[..k], u[k + 1..], wild);
    }
  }

  /** The bracket branch; state 0 stands for its early returns. */
  method ReadBracketed(s: bytes, start: nat) returns (host: bytes, it: nat, state: nat)
    requires start <= |s|
    ensures start <= it <= |s|
    ensures var u := s[start..];
            var k := First(u, CLOSING, CLOSING);
            && (k == |u| ==> state == 0)
            && (k < |u| ==>
                  var v := u[k + 1..];
                  && host == u[..k]
                  && (v == [] ==> state == 2 && it == |s|)
                  && (v != [] && v[0] == SLASH ==> state == 2 && s[it..] == v[1..])
                  && (v != [] && v[0] == COLON ==> state == 1 && s[it..] == v[1..])
                  && (v != [] && v[0] != SLASH && v[0] != COLON ==> state == 0))
  {
    hide First;
    host, it, state := [], start, 0;
    var temp := FindClosing(s, start);
    if temp == |s| {
      return;
    }
    host := s[start..temp];
    it := temp + 1;
    assert s[start..][temp - start + 1..] == s[it..];
    if it == |s| {
      state := 2;
    } else if s[it] == SLASH {
      state := 2;
      it := it + 1;
    } else if s[it] == COLON {
      state := 1;
      it := it + 1;
    }
  }

  /** What follows the host decides the next state. */
  lemma EndsHost(h: Head, host: bytes, u: bytes, wild: bytes -> int)
    ensures u == [] ==> AfterHost(h, host, u, wild) == Finish(h, host, [], [], wild)
    ensures u != [] && u[0] == SLASH ==> AfterHost(h, host, u, wild) == Finish(h, host, [], u[1..], wild)
    ensures u != [] && u[0] == COLON ==> u == [COLON] + u[1..]
    ensures u != [] && u[0] != SLASH && u[0] != COLON ==> AfterHost(h, host, u, wild).None?
  {
    hide Finish;
  }

  /** The loop that looks for the closing bracket. */
  method FindClosing(s: bytes, it: nat) returns (temp: nat)
    requires it <= |s|
    ensures it <= temp <= |s| && temp - it == First(s[it..], CLOSING, CLOSING)
  {
    temp := it;
    while temp != |s|
      invariant it <= temp <= |s|
      invariant forall j | it <= j < temp :: s[j] != CLOSING
    {
      if s[temp] == CLOSING {
        break;
      }
      temp := temp + 1;
    }
    FirstIs(s[it..], CLOSING, CLOSING, temp - it);
  }

  /** The loop over a host without brackets. */
  method ReadHost(s: bytes, start: nat) returns (host: bytes, it: nat, state: nat)
    requires start <= |s|
    ensures start <= it <= |s|
    ensures var t := s[start..];
            var k := First(t, COLON, SLASH);
            && host == t[..k]
            && (t[k..] == [] ==> state == 2 && it == |s|)
            && (t[k..] != [] && t[k] == SLASH ==> state == 2 && s[it..] == t[k..][1..])
            && (t[k..] != [] && t[k] == COLON ==> state == 1 && s[it..] == t[k..][1..])
  {
    host, it, state := [], start, 0;
    while state == 0
      invariant start <= it <= |s|
      invariant state == 0 ==> host == s[start..it] && forall j | start <= j < it :: s[j] != COLON && s[j] != SLASH
      invariant state != 0 ==>
                  && start < it && host == s[start..it - 1] && (forall j | start <= j < it - 1 :: s[j] != COLON && s[j] != SLASH)
                  && ((s[it - 1] == SLASH && state == 2) || (s[it - 1] == COLON && state == 1))
      decreases |s| - it, state == 0
    {
      if it == |s| {
        state := 2;
        FirstIs(s[start..], COLON, SLASH, it - start);
        return;
      } else if s[it] == SLASH {
        state := 2;
      } else if s[it] == COLON {
        state := 1;
      } else {
        host := host + [s[it]];
      }
      it := it + 1;
    }
    FirstIs(s[start..], COLON, SLASH, it - 1 - start);
  }

  /** The tail of the constructor: the port loop, the port number and the resource. */
  method ParsePort(s: bytes, h: Head, host: bytes, it0: nat, state0: nat, wild: bytes -> int) returns (r: Option<Uri>)
    requires it0 <= |s|
    ensures state0 == 1 ==> r == AfterHost(h, host, [COLON] + s[it0..], wild)
    ensures state0 == 2 ==> r == Finish(h, host, [], s[it0..], wild)
  {
    hide First, PortOf;
    var it, state := it0, state0;
    var port: bytes := [];
    ghost var t := s[it0..];
    while state == 1
      invariant it0 <= it <= |s|
      invariant state == 1 ==> port == s[it0..it] && forall j | it0 <= j < it :: s[j] != SLASH
      invariant state0 == 1 && state != 1 ==>
                  var k := First(t, SLASH, SLASH);
                  k < |t| && it == it0 + k + 1 && port == t[..k]
      invariant state0 != 1 ==> state == state0 && it == it0 && port == []
      decreases |s| - it, state == 1
    {
      if it == |s| {
        FirstIs(t, SLASH, SLASH, it - it0);
        break;
      } else if s[it] == SLASH {
        FirstIs(t, SLASH, SLASH, it - it0);
        state := 3;
      } else {
        port := port + [s[it]];
      }
      it := it + 1;
    }
    if state0 == 1 {
      var k := First(t, SLASH, SLASH);
      assert ([COLON] + t)[1..] == t;
      assert port == t[..k] && s[it..] == if k < |t| then t[k + 1..] else [];
    }
    var p := PortOf(h.secure, port, wild);
    if p.None? {
      return None;
    }
    r := Some(Uri(h.scheme, h.secure, host, p.value, [SLASH] + s[it..]));
  }

  lemma {:induction false} FirstIs(t: bytes, a: byte, b: byte, k: nat)
    requires k <= |t| && (forall i | 0 <= i < k :: t[i] != a && t[i] != b)
    requires k < |t| ==> t[k] == a || t[k] == b
    ensures First(t, a, b) == k
  {
  }

  // ---- printing ----

  function PortSuffix(u: Uri): bytes {
    if u.port != DefaultPort(u.secure) then [COLON] + Digits(u.port) else []
  }

  /** `str()`, which writes the host as it is, without brackets. */
  function Str(u: Uri): bytes {
    u.scheme + SEPARATOR + u.host + PortSuffix(u) + u.resource
  }

  // ---- parsing what was printed ----

  predicate KnownScheme(h: Head) {
    h in {Head(WS, false), Head(WSS, true), Head(HTTP, false), Head(HTTPS, true)}
  }

  /** What every parsed URI is like. */
  lemma ParsedShape(s: bytes, wild: bytes -> int)
    requires Parse(s, wild).Some?
    ensures var u := Parse(s, wild).value;
            && KnownScheme(Head(u.scheme, u.secure)) && 1 <= u.port <= 65535
            && u.resource != [] && u.resource[0] == SLASH
  {
    hide SchemeOf, ParseAuthority;
    var h := SchemeOf(s).value;
    SchemeIsKnown(s);
    SchemeLeavesText(s);
    AuthorityShape(h, s[|h.scheme| + 3..], wild);
  }

  lemma SchemeIsKnown(s: bytes)
    requires SchemeOf(s).Some?
    ensures KnownScheme(SchemeOf(s).value)
  {
  }

  lemma AuthorityShape(h: Head, t: bytes, wild: bytes -> int)
    ensures var r := ParseAuthority(h, t, wild);
            r.Some? ==>
              && r.value.scheme == h.scheme && r.value.secure == h.secure
              && 1 <= r.value.port <= 65535 && r.value.resource != [] && r.value.resource[0] == SLASH
  {
    hide AfterHost, First;
    if t != [] && t[0] == OPENING {
      var k := First(t[1..], CLOSING, CLOSING);
      if k < |t| - 1 {
        AfterHostShape(h, t[1..k + 1], t[k + 2..], wild);
      }
    } else {
      var k := First(t, COLON, SLASH);
      AfterHostShape(h, t[..k], t[k..], wild);
    }
  }

  lemma AfterHostShape(h: Head, host: bytes, u: bytes, wild: bytes -> int)
    ensures var r := AfterHost(h, host, u, wild);
            r.Some? ==>
              && r.value.scheme == h.scheme && r.value.secure == h.secure && r.value.host == host
              && 1 <= r.value.port <= 65535 && r.value.resource != [] && r.value.resource[0] == SLASH
  {
    hide Atoi;
  }

  lemma SchemeBack(h: Head, x: bytes)
    requires KnownScheme(h) && x != []
    ensures SchemeOf(h.scheme + SEPARATOR + x) == Some(h)
    ensures (h.scheme + SEPARATOR + x)[|h.scheme| + 3..] == x
  {
    var s := h.scheme + SEPARATOR + x;
    assert s[..|h.scheme| + 3] == h.scheme + SEPARATOR;
    if h == Head(HTTPS, true) {
      assert s[4] == 0x73 && (HTTP + SEPARATOR)[4] == COLON;
      assert s[..7][4] == s[4];
    }
    if h == Head(WSS, true) {
    } else {
      assert s[0] == h.scheme[0] && s[2] == if h.scheme == WS then COLON else 0x74;
      if |s| >= 6 { assert s[..6][2] == s[2] && s[..5][0] == s[0] && (WSS + SEPARATOR)[2] == 0x73; }
    }
  }

  lemma {:induction false} LeadingDigitsAll(ds: bytes)
    requires AllDigits(ds)
    ensures LeadingDigits(ds) == ds
  {
    if ds != [] {
      LeadingDigitsAll(ds[1..]);
    }
  }

  lemma AtoiOfDigits(ds: bytes, wild: bytes -> int)
    requires ds != [] && AllDigits(ds) && NumberOf(ds) <= INT_MAX
    ensures Atoi(ds, wild) == NumberOf(ds)
  {
    hide NumberOf, LeadingDigits;
    assert IsDigit(ds[0]);
    assert SkipBlanks(ds) == ds;
    LeadingDigitsAll(ds);
  }

  lemma PortBack(secure: bool, p: nat, wild: bytes -> int)
    requires 1 <= p <= 65535
    ensures PortOf(secure, Digits(p), wild) == Some(p)
  {
    hide Digits, NumberOf, Atoi, AllDigits;
    DigitsDenote(p);
    AtoiOfDigits(Digits(p), wild);
  }

  /** Neither a colon nor a slash in the host, and no bracket at its start. */
  predicate PlainHost(host: bytes) {
    COLON !in host && SLASH !in host && (host != [] ==> host[0] != OPENING)
  }

  lemma ParseBehindScheme(h: Head, x: bytes, wild: bytes -> int)
    requires KnownScheme(h) && x != []
    ensures Parse(h.scheme + SEPARATOR + x, wild) == ParseAuthority(h, x, wild)
  {
    hide SchemeOf, ParseAuthority, KnownScheme;
    SchemeBack(h, x);
  }

  /** Parsing printed text starts behind the scheme. */
  lemma ParseOfStr(u: Uri, wild: bytes -> int)
    requires KnownScheme(Head(u.scheme, u.secure)) && u.resource != []
    ensures Parse(Str(u), wild) == ParseAuthority(Head(u.scheme, u.secure), u.host + (PortSuffix(u) + u.resource), wild)
  {
    hide Parse, PortSuffix, ParseAuthority, KnownScheme;
    var x := u.host + (PortSuffix(u) + u.resource);
    assert Str(u) == u.scheme + SEPARATOR + x;
    ParseBehindScheme(Head(u.scheme, u.secure), x, wild);
  }

  lemma PlainReparses(u: Uri, wild: bytes -> int)
    requires KnownScheme(Head(u.scheme, u.secure)) && 1 <= u.port <= 65535
    requires u.resource != [] && u.resource[0] == SLASH && PlainHost(u.host)
    ensures Parse(Str(u), wild) == Some(u)
  {
    hide PortSuffix, Parse, Str, AfterHost, First, KnownScheme;
    ParseOfStr(u, wild);
    PortSuffixStart(u);
    PlainAuthority(Head(u.scheme, u.secure), u.host, PortSuffix(u) + u.resource, wild);
    TailReparses(u, wild);
  }

  lemma PlainAuthority(h: Head, host: bytes, tail: bytes, wild: bytes -> int)
    requires PlainHost(host) && tail != [] && tail[0] in {COLON, SLASH}
    ensures ParseAuthority(h, host + tail, wild) == AfterHost(h, host, tail, wild)
  {
    hide AfterHost, First;
    var x := host + tail;
    assert x[0] != OPENING;
    FirstIs(x, COLON, SLASH, |host|);
    assert x[..|host|] == host && x[|host|..] == tail;
  }

  lemma TailReparses(u: Uri, wild: bytes -> int)
    requires 1 <= u.port <= 65535 && u.resource != [] && u.resource[0] == SLASH
    ensures AfterHost(Head(u.scheme, u.secure), u.host, PortSuffix(u) + u.resource, wild) == Some(u)
  {
    hide First, Digits, PortOf, AfterHost;
    var h, tail := Head(u.scheme, u.secure), PortSuffix(u) + u.resource;
    assert u.resource == [SLASH] + u.resource[1..];
    if u.port == DefaultPort(u.secure) {
      assert tail == u.resource;
      EmptyPort(u.secure, wild);
      EndsHost(h, u.host, tail, wild);
    } else {
      PortBack(u.secure, u.port, wild);
      DigitsHaveNoSlash(u.port);
      PortAndSlash(h, u.host, Digits(u.port), u.resource[1..], wild);
      assert tail == [COLON] + (Digits(u.port) + u.resource);
    }
  }

  lemma EmptyPort(secure: bool, wild: bytes -> int)
    ensures PortOf(secure, [], wild) == Some(DefaultPort(secure))
  {
    hide Atoi;
  }

  lemma DigitsHaveNoSlash(n: nat)
    ensures SLASH !in Digits(n)
  {
    DigitsDenote(n);
  }

  lemma PortAndSlash(h: Head, host: bytes, port: bytes, rest: bytes, wild: bytes -> int)
    requires SLASH !in port
    ensures AfterHost(h, host, [COLON] + (port + ([SLASH] + rest)), wild) == Finish(h, host, port, rest, wild)
  {
    hide First, Finish;
    var t := port + ([SLASH] + rest);
    assert ([COLON] + t)[1..] == t;
    FirstIs(t, SLASH, SLASH, |port|);
    assert t[..|port|] == port && t[|port| + 1..] == rest;
  }

  /** A host cut at its first colon or slash comes back shorter. */
  lemma CutHostDiffers(u: Uri, wild: bytes -> int)
    requires KnownScheme(Head(u.scheme, u.secure)) && u.resource != []
    requires (COLON in u.host || SLASH in u.host) && u.host[0] != OPENING
    ensures Parse(Str(u), wild) != Some(u)
  {
    hide Parse, Str, ParseAuthority, PortSuffix, KnownScheme;
    ParseOfStr(u, wild);
    CutAuthorityDiffers(Head(u.scheme, u.secure), u.host, PortSuffix(u) + u.resource, wild);
  }

  lemma CutAuthorityDiffers(h: Head, host: bytes, tail: bytes, wild: bytes -> int)
    requires (COLON in host || SLASH in host) && host[0] != OPENING
    ensures var r := ParseAuthority(h, host + tail, wild); r.Some? ==> |r.value.host| < |host|
  {
    hide AfterHost, First;
    var x := host + tail;
    var k := First(x, COLON, SLASH);
    var i :| 0 <= i < |host| && (host[i] == COLON || host[i] == SLASH);
    assert x[i] == host[i];
    AfterHostKeepsHost(h, x[..k], x[k..], wild);
  }

  lemma AfterHostKeepsHost(h: Head, host: bytes, u: bytes, wild: bytes -> int)
    ensures var r := AfterHost(h, host, u, wild); r.Some? ==> r.value.host == host
  {
    hide PortOf;
  }

  /** A host that starts with a bracket is read as a bracketed one, and never comes back as it was. */
  lemma BracketHostDiffers(u: Uri, wild: bytes -> int)
    requires KnownScheme(Head(u.scheme, u.secure)) && u.resource != [] && u.resource[0] == SLASH
    requires u.host != [] && u.host[0] == OPENING
    ensures Parse(Str(u), wild) != Some(u)
  {
    hide Parse, Str, ParseAuthority, PortSuffix, KnownScheme;
    ParseOfStr(u, wild);
    PortSuffixStart(u);
    BracketAuthorityDiffers(Head(u.scheme, u.secure), u.host, PortSuffix(u) + u.resource, wild);
  }

  lemma PortSuffixStart(u: Uri)
    requires u.resource != [] && u.resource[0] == SLASH
    ensures (PortSuffix(u) + u.resource)[0] in {COLON, SLASH}
  {
    hide Digits;
  }

  lemma BracketAuthorityDiffers(h: Head, host: bytes, tail: bytes, wild: bytes -> int)
    requires host != [] && host[0] == OPENING && tail != [] && tail[0] != OPENING
    ensures var r := ParseAuthority(h, host + tail, wild); r.Some? ==> r.value.host != host
  {
    hide AfterHost, First;
    var x := host + tail;
    assert x[0] == OPENING;
    var k := First(x[1..], CLOSING, CLOSING);
    if k < |x| - 1 {
      AfterHostKeepsHost(h, x[1..k + 1], x[k + 2..], wild);
      BracketCutDiffers(host, tail, k);
    }
  }

  lemma BracketCutDiffers(host: bytes, tail: bytes, k: nat)
    requires host != [] && host[0] == OPENING && tail != [] && tail[0] != OPENING && k < |host + tail| - 1
    ensures (host + tail)[1..k + 1] != host
  {
    var x := host + tail;
    var cut := x[1..k + 1];
    if |cut| == |host| {
      assert cut[|host| - 1] == x[|host|] == tail[0];
      forall i | 0 <= i < |host| - 1 ensures cut[i] == host[i + 1] {
        assert cut[i] == x[i + 1];
      }
      ShiftedHost(host, cut, tail[0]);
    }
  }

  /** No text equals itself shifted by one with another character at the end than it starts with. */
  lemma ShiftedHost(host: bytes, shifted: bytes, c: byte)
    requires host != [] && host[0] == OPENING && c != OPENING
    requires |shifted| == |host| && (forall i | 0 <= i < |host| - 1 :: shifted[i] == host[i + 1]) && shifted[|host| - 1] == c
    ensures shifted != host
  {
    if shifted == host {
      var i := 0;
      while i < |host| - 1
        invariant 0 <= i <= |host| - 1 && host[i] == OPENING
      {
        assert host[i + 1] == shifted[i] == host[i];
        i := i + 1;
      }
      assert false;
    }
  }

  /**
    * Parsing what `str()` prints of a parsed URI gives that URI back exactly when the host has no
    * colon or slash and does not start with a bracket, so always for hosts written without brackets.
    */
  lemma RoundTripExactly(s: bytes, wild: bytes -> int)
    requires Parse(s, wild).Some?
    ensures var u := Parse(s, wild).value; Parse(Str(u), wild) == Some(u) <==> PlainHost(u.host)
  {
    hide Parse, Str;
    var u := Parse(s, wild).value;
    ParsedShape(s, wild);
    if PlainHost(u.host) {
      PlainReparses(u, wild);
    } else if u.host[0] == OPENING {
      BracketHostDiffers(u, wild);
    } else {
      CutHostDiffers(u, wild);
    }
  }

  /** `ws://[::1]` parses, and what `str()` prints of it does not give it back. */
  lemma BracketsAreLost(wild: bytes -> int)
    ensures var u := Uri(WS, false, [COLON, COLON, 0x31], 80, [SLASH]);
            && Parse(WS + SEPARATOR + [OPENING, COLON, COLON, 0x31, CLOSING], wild) == Some(u)
            && Parse(Str(u), wild) != Some(u)
  {
    hide Parse, Str, ParseAuthority;
    var u := Uri(WS, false, [COLON, COLON, 0x31], 80, [SLASH]);
    var t := [OPENING, COLON, COLON, 0x31, CLOSING];
    BracketedLoopback(wild);
    ParseBehindScheme(Head(WS, false), t, wild);
    assert u.host[0] == COLON;
    RoundTripExactly(WS + SEPARATOR + t, wild);
  }

  lemma BracketedLoopback(wild: bytes -> int)
    ensures ParseAuthority(Head(WS, false), [OPENING, COLON, COLON, 0x31, CLOSING], wild) ==
            Some(Uri(WS, false, [COLON, COLON, 0x31], 80, [SLASH]))
  {
    hide ParseAuthority, AfterHost, PortOf, First;
    var t := [OPENING, COLON, COLON, 0x31, CLOSING];
    assert t[1..] == [COLON, COLON, 0x31, CLOSING];
    FirstIs(t[1..], CLOSING, CLOSING, 3);
    assert t[1..][..3] == [COLON, COLON, 0x31] && t[1..][4..] == [];
    BracketedHost(Head(WS, false), t, wild);
    EmptyPort(false, wild);
    assert [SLASH] + [] == [SLASH];
  }

  /** Hosts written without brackets are plain. */
  lemma UnbracketedIsPlain(s: bytes, wild: bytes -> int)
    requires Parse(s, wild).Some? && s[|SchemeOf(s).value.scheme| + 3] != OPENING
    ensures PlainHost(Parse(s, wild).value.host)
  {
    hide First, SchemeOf, AfterHost;
    var h := SchemeOf(s).value;
    SchemeLeavesText(s);
    var t := s[|h.scheme| + 3..];
    var k := First(t, COLON, SLASH);
    AfterHostKeepsHost(h, t[..k], t[k..], wild);
  }

  // ---- what a text is parsed into ----

  /** A URI as written: scheme, host with or without brackets, `:` and a port, `/` and the rest. */
  datatype Parts = Parts(head: Head, bracketed: bool, host: bytes, port: Option<bytes>, path: Option<bytes>)

  /** "ws", "wss", "http" and "https", and which of them are secure. */
  predicate IsScheme(h: Head) {
    || h == Head([0x77, 0x73], false) || h == Head([0x77, 0x73, 0x73], true)
    || h == Head([0x68, 0x74, 0x74, 0x70], false) || h == Head([0x68, 0x74, 0x74, 0x70, 0x73], true)
  }

  predicate ValidParts(p: Parts) {
    && IsScheme(p.head) && AuthorityText(p) != []
    && (if p.bracketed then 0x5D !in p.host else 0x3A !in p.host && 0x2F !in p.host && (p.host != [] ==> p.host[0] != 0x5B))
    && (p.port.Some? ==> 0x2F !in p.port.value)
  }

  function TailText(p: Parts): bytes {
    (if p.port.Some? then [0x3A] + p.port.value else []) + (if p.path.Some? then [0x2F] + p.path.value else [])
  }

  function AuthorityText(p: Parts): bytes {
    (if p.bracketed then [0x5B] + p.host + [0x5D] else p.host) + TailText(p)
  }

  function PartsText(p: Parts): bytes {
    p.head.scheme + [0x3A, 0x2F, 0x2F] + AuthorityText(p)
  }

  /** The port as a number, 443 or 80 if none is written. */
  function PortNumber(p: Parts, wild: bytes -> int): Option<nat> {
    if p.port.None? || p.port.value == [] then Some(if p.head.secure then 443 else 80)
    else PortOf(p.head.secure, p.port.value, wild)
  }

  /** Decimal digits are the number they denote, from 1 to 65535; none other is a port. */
  lemma PortDigits(secure: bool, ds: bytes, wild: bytes -> int)
    requires ds != [] && AllDigits(ds) && NumberOf(ds) <= INT_MAX
    ensures PortOf(secure, ds, wild) == if 1 <= NumberOf(ds) <= 65535 then Some(NumberOf(ds)) else None
  {
    hide NumberOf, Atoi, AllDigits;
    AtoiOfDigits(ds, wild);
  }

  function Denoted(p: Parts, wild: bytes -> int): Option<Uri> {
    var n := PortNumber(p, wild);
    if n.None? then None
    else Some(Uri(p.head.scheme, p.head.secure, p.host, n.value, [0x2F] + if p.path.Some? then p.path.value else []))
  }

  lemma TailParses(p: Parts, wild: bytes -> int)
    requires p.port.Some? ==> 0x2F !in p.port.value
    ensures AfterHost(p.head, p.host, TailText(p), wild) == Denoted(p, wild)
  {
    hide First, Atoi, AfterHost, Finish, PortOf;
    var rest := if p.path.Some? then p.path.value else [];
    if p.port.None? {
      EndsHost(p.head, p.host, TailText(p), wild);
      assert p.path.Some? ==> TailText(p) == [SLASH] + rest && TailText(p)[1..] == rest;
      FinishIs(p, [], rest, wild);
    } else if p.path.None? {
      assert TailText(p) == [COLON] + p.port.value;
      PortAndEnd(p.head, p.host, p.port.value, wild);
      FinishIs(p, p.port.value, rest, wild);
    } else {
      assert TailText(p) == [COLON] + (p.port.value + ([SLASH] + rest));
      PortAndSlash(p.head, p.host, p.port.value, rest, wild);
      FinishIs(p, p.port.value, rest, wild);
    }
  }

  lemma PortAndEnd(h: Head, host: bytes, port: bytes, wild: bytes -> int)
    requires SLASH !in port
    ensures AfterHost(h, host, [COLON] + port, wild) == Finish(h, host, port, [], wild)
  {
    hide First, Finish;
    assert ([COLON] + port)[1..] == port;
    FirstIs(port, SLASH, SLASH, |port|);
    assert port[..|port|] == port;
  }

  lemma FinishIs(p: Parts, port: bytes, rest: bytes, wild: bytes -> int)
    requires port == (if p.port.Some? then p.port.value else []) && rest == (if p.path.Some? then p.path.value else [])
    ensures Finish(p.head, p.host, port, rest, wild) == Denoted(p, wild)
  {
    hide Atoi;
  }

  lemma AuthorityParses(p: Parts, wild: bytes -> int)
    requires ValidParts(p)
    ensures ParseAuthority(p.head, AuthorityText(p), wild) == Denoted(p, wild)
  {
    hide First, AfterHost, Denoted;
    var tail := TailText(p);
    TailParses(p, wild);
    if p.bracketed {
      var t := [OPENING] + p.host + [CLOSING] + tail;
      assert AuthorityText(p) == t && t[1..] == p.host + ([CLOSING] + tail);
      FirstIs(t[1..], CLOSING, CLOSING, |p.host|);
      assert t[1..|p.host| + 1] == p.host && t[|p.host| + 2..] == tail;
    } else {
      var x := p.host + tail;
      assert tail == [] || tail[0] in {COLON, SLASH};
      assert x[0] != OPENING;
      FirstIs(x, COLON, SLASH, |p.host|);
      assert x[..|p.host|] == p.host && x[|p.host|..] == tail;
    }
  }

  /** Every text made of such parts is parsed into them, or refused for its port. */
  lemma ParsesParts(p: Parts, wild: bytes -> int)
    requires ValidParts(p)
    ensures Parse(PartsText(p), wild) == Denoted(p, wild)
  {
    hide Parse, ParseAuthority, Denoted, AuthorityText;
    assert KnownScheme(p.head);
    ParseBehindScheme(p.head, AuthorityText(p), wild);
    AuthorityParses(p, wild);
  }

  /** And every text that is parsed is made of such parts. */
  lemma ParsedFromParts(s: bytes, wild: bytes -> int) returns (p: Parts)
    requires Parse(s, wild).Some?
    ensures ValidParts(p) && PartsText(p) == s && Parse(s, wild) == Denoted(p, wild)
  {
    hide ParseAuthority, Denoted, SchemeOf, AuthorityText;
    var h := SchemeOf(s).value;
    SchemeLeavesText(s);
    var x := s[|h.scheme| + 3..];
    SchemeThere(s);
    p := AuthorityParts(h, x, wild);
    assert PartsText(p) == s;
    ParsesParts(p, wild);
  }

  lemma SchemeThere(s: bytes)
    requires SchemeOf(s).Some?
    ensures IsScheme(SchemeOf(s).value) && |SchemeOf(s).value.scheme| + 3 <= |s|
    ensures var h := SchemeOf(s).value; s[..|h.scheme| + 3] == h.scheme + [0x3A, 0x2F, 0x2F]
  {
  }

  lemma AuthorityParts(h: Head, x: bytes, wild: bytes -> int) returns (p: Parts)
    requires IsScheme(h) && x != [] && ParseAuthority(h, x, wild).Some?
    ensures ValidParts(p) && p.head == h && AuthorityText(p) == x
  {
    hide First, AfterHost, IsScheme;
    if x[0] == OPENING {
      var k := First(x[1..], CLOSING, CLOSING);
      var host, tail := x[1..k + 1], x[k + 2..];
      var q := TailParts(h, host, tail, wild);
      p := q.(bracketed := true);
      assert forall i | 0 <= i < k :: host[i] == x[1..][i];
      assert x == [x[0]] + host + [x[k + 1]] + tail;
      assert x[k + 1] == x[1..][k];
    } else {
      var k := First(x, COLON, SLASH);
      p := TailParts(h, x[..k], x[k..], wild);
      assert x == x[..k] + x[k..];
    }
  }

  lemma TailParts(h: Head, host: bytes, u: bytes, wild: bytes -> int) returns (p: Parts)
    requires AfterHost(h, host, u, wild).Some?
    ensures p.head == h && !p.bracketed && p.host == host && TailText(p) == u && (p.port.Some? ==> 0x2F !in p.port.value)
  {
    hide First, Finish;
    if u == [] {
      p := Parts(h, false, host, None, None);
    } else if u[0] == SLASH {
      p := Parts(h, false, host, None, Some(u[1..]));
    } else {
      var t := u[1..];
      var k := First(t, SLASH, SLASH);
      p := Parts(h, false, host, Some(t[..k]), if k < |t| then Some(t[k + 1..]) else None);
      assert u == [u[0]] + t;
      if k < |t| {
        assert t == t[..k] + ([t[k]] + t[k + 1..]);
      } else {
        assert t[..k] == t;
      }
    }
  }
}
