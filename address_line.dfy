/**
 * The line matcher behind the two port-rewriting patterns of the start-up script,
 *
 *     ^\s*address\s+(?:([0-9a-fA-F\.\:\[\]]+):)?(\d+)\s*$          (ZEO server, `address`)
 *     ^\s*KEY\s*=?\s*(?:([0-9a-fA-F\.\:\[\]]+):)?(\d+)\s*$          (HTTP listener, KEY is
 *                                                                 `http-address` or `address`)
 *
 * applied in MULTILINE mode to one line at a time. A match is described by a `Match` value;
 * `MatchLine` is proved to accept exactly the lines that some well-formed `Match` renders to,
 * and to return that `Match` (the split the backtracking engine settles on).
 */
module AddressLine {
  import opened Wrappers
  import opened Text

  /** `\d`, for ASCII digits */
  predicate IsDigit(c: char) {
    '0' <= c <= '9'
  }

  /** The class `[0-9a-fA-F\.\:\[\]]` */
  predicate IsHostChar(c: char) {
    IsDigit(c) || ('a' <= c <= 'f') || ('A' <= c <= 'F') || c == '.' || c == ':' || c == '[' || c == ']'
  }

  /** `\d+` */
  predicate IsNumber(s: string) {
    s != [] && forall i :: 0 <= i < |s| ==> IsDigit(s[i])
  }

  /** `[0-9a-fA-F\.\:\[\]]+` */
  predicate IsHost(s: string) {
    s != [] && forall i :: 0 <= i < |s| ==> IsHostChar(s[i])
  }

  /** A directive name such as `address`: it does not start with whitespace */
  predicate IsKey(key: string) {
    key != [] && !IsSpace(key[0])
  }

  /** What the pattern matches between the directive name and the value: whitespace alone,
      or (where `=?` is allowed) whitespace, `=`, whitespace */
  datatype Sep = Spaces(spaces: string) | Equals(before: string, after: string)

  function SepText(sep: Sep): string {
    match sep
    case Spaces(s) => s
    case Equals(b, a) => b + (['='] + a)
  }

  /** `\s+` when `equals` is false, `\s*=?\s*` when it is true */
  predicate IsSeparator(sep: Sep, equals: bool) {
    match sep
    case Spaces(s) => AllSpace(s) && (equals || s != [])
    case Equals(b, a) => equals && AllSpace(b) && AllSpace(a)
  }

  /** What may follow the separator without the greedy pattern taking it in */
  predicate StopsSeparator(sep: Sep, rest: string, equals: bool) {
    rest == [] || (!IsSpace(rest[0]) && (equals && sep.Spaces? ==> rest[0] != '='))
  }

  /** The parts of a matched line: group 1 is `indent + key + sep`, then the optional host,
      the port, and `trail`, the whitespace the closing `\s*$` takes */
  datatype Match = Match(indent: string, sep: Sep, host: Option<string>, port: string, trail: string)

  /** The host and its colon, or nothing */
  function HostPart(host: Option<string>): string {
    match host
    case None => []
    case Some(h) => h + ":"
  }

  /** Group 1 of the pattern */
  function Lead(m: Match, key: string): string {
    m.indent + key + SepText(m.sep)
  }

  /** What follows group 1 in the line */
  function Value(m: Match): string {
    HostPart(m.host) + m.port + m.trail
  }

  /** The line a match was found in */
  function Render(m: Match, key: string): string {
    Lead(m, key) + Value(m)
  }

  /** A match the pattern can produce: indentation, a separator, an optional host, digits
      and trailing whitespace */
  predicate WellFormed(m: Match, equals: bool) {
    AllSpace(m.indent) && IsSeparator(m.sep, equals)
    && (m.host.Some? ==> IsHost(m.host.value))
    && IsNumber(m.port) && AllSpace(m.trail)
  }

  /** The separator the greedy pattern takes at the start of `s`, and what it leaves */
  function ParseSep(s: string, equals: bool): Option<(Sep, string)> {
    var (b, r) := SpanSpaces(s);
    if equals && r != [] && r[0] == '=' then
      var (a, r2) := SpanSpaces(r[1..]);
      Some((Equals(b, a), r2))
    else if !equals && b == [] then None
    else Some((Spaces(b), r))
  }

  /** Group 1 of the pattern, as (indentation, separator), and the rest of the line */
  function SplitLead(line: string, key: string, equals: bool): Option<(string, Sep, string)> {
    var (indent, r) := SpanSpaces(line);
    if !(key <= r) then None
    else
      match ParseSep(r[|key|..], equals)
      case None => None
      case Some((sep, rest)) => Some((indent, sep, rest))
  }

  /** `(?:(H+):)?(\d+)\s*$` on what follows group 1, as (host, port, trail) */
  function MatchValue(r: string): Option<(Option<string>, string, string)> {
    var v := TrimRight(r);
    match LastIndexOf(v, ':')
    case Some(k) =>
      if IsHost(v[..k]) && IsNumber(v[k + 1..]) then Some((Some(v[..k]), v[k + 1..], r[|v|..])) else None
    case None =>
      if IsNumber(v) then Some((None, v, r[|v|..])) else None
  }

  /** The match of the pattern for `key` in one line, if the line matches */
  function MatchLine(line: string, key: string, equals: bool): Option<Match> {
    match SplitLead(line, key, equals)
    case None => None
    case Some((indent, sep, rest)) =>
      match MatchValue(rest)
      case None => None
      case Some((host, port, trail)) => Some(Match(indent, sep, host, port, trail))
  }

  // ---------------------------------------------------------------------------------------
  // The matcher accepts exactly the well-formed matches

  /** The greedy separator at the start of `SepText(sep) + rest` is `sep` */
  lemma ParseSepOf(sep: Sep, rest: string, equals: bool)
    requires IsSeparator(sep, equals) && StopsSeparator(sep, rest, equals)
    ensures ParseSep(SepText(sep) + rest, equals) == Some((sep, rest))
  {
    match sep
    case Spaces(s) =>
      SpanSpacesOf(s, rest);
    case Equals(b, a) =>
      var eqa := ['='] + (a + rest);
      Assoc(b, ['='] + a, rest);
      Assoc(['='], a, rest);
      SpanSpacesOf(b, eqa);
      assert eqa[1..] == a + rest;
      SpanSpacesOf(a, rest);
  }

  /** What the greedy separator takes is a separator, and it stops where it must */
  lemma ParseSepSound(s: string, equals: bool)
    requires ParseSep(s, equals).Some?
    ensures var (sep, rest) := ParseSep(s, equals).value;
      SepText(sep) + rest == s && IsSeparator(sep, equals) && StopsSeparator(sep, rest, equals)
  {
    SpanSpacesSound(s);
    var (b, r) := SpanSpaces(s);
    if equals && r != [] && r[0] == '=' {
      SpanSpacesSound(r[1..]);
      var (a, r2) := SpanSpaces(r[1..]);
      assert r == ['='] + r[1..];
      Assoc(['='], a, r2);
      Assoc(b, ['='] + a, r2);
    }
  }

  /** A value starting with a host, or with text that is neither blank nor `=`, cannot be
      taken for part of the separator */
  lemma ValueStops(sep: Sep, host: Option<string>, rest: string, equals: bool)
    requires host.Some? ==> IsHost(host.value)
    requires rest != [] && !IsSpace(rest[0]) && rest[0] != '='
    ensures StopsSeparator(sep, HostPart(host) + rest, equals)
  {
    var z := HostPart(host) + rest;
    match host
    case None =>
      assert z == rest;
    case Some(h) =>
      assert z[0] == h[0] && IsHostChar(h[0]);
  }

  /** A line that starts with indentation, the directive name and a separator is split there */
  lemma SplitLeadOf(indent: string, key: string, sep: Sep, rest: string, equals: bool)
    requires AllSpace(indent) && IsKey(key) && IsSeparator(sep, equals) && StopsSeparator(sep, rest, equals)
    ensures SplitLead(indent + key + SepText(sep) + rest, key, equals) == Some((indent, sep, rest))
  {
    var after := SepText(sep) + rest;
    var tail := key + after;
    Assoc(indent, key, SepText(sep));
    Assoc(indent + key, SepText(sep), rest);
    Assoc(indent, key, after);
    assert tail[0] == key[0];
    SpanSpacesOf(indent, tail);
    assert tail[|key|..] == after;
    ParseSepOf(sep, rest, equals);
  }

  /** What the split finds is indentation, the name, a separator and the rest, in that order */
  lemma SplitLeadSound(line: string, key: string, equals: bool)
    requires SplitLead(line, key, equals).Some?
    ensures var (indent, sep, rest) := SplitLead(line, key, equals).value;
      line == indent + key + SepText(sep) + rest && AllSpace(indent)
      && IsSeparator(sep, equals) && StopsSeparator(sep, rest, equals)
  {
    SpanSpacesSound(line);
    var (indent, r) := SpanSpaces(line);
    var after := r[|key|..];
    ParseSepSound(after, equals);
    var (sep, rest) := ParseSep(after, equals).value;
    assert r == key + after by {
      assert r[..|key|] == key;
      TakeDrop(r, |key|);
    }
    Assoc(indent, key, after);
    Assoc(indent + key, SepText(sep), rest);
  }

  /** Digits contain no colon */
  lemma NumberHasNoColon(p: string)
    requires IsNumber(p)
    ensures ':' !in p
  {
  }

  /** A value and its trailing whitespace are split where the whitespace starts, and the
      value's last colon is the one after the host */
  lemma MatchValueOf(host: Option<string>, port: string, trail: string)
    requires host.Some? ==> IsHost(host.value)
    requires IsNumber(port) && AllSpace(trail)
    ensures MatchValue(HostPart(host) + port + trail) == Some((host, port, trail))
  {
    var v := HostPart(host) + port;
    assert v[|v| - 1] == port[|port| - 1];
    TrimRightSpaces(v, trail);
    assert (v + trail)[|v|..] == trail;
    NumberHasNoColon(port);
    match host
    case None =>
      assert v == port;
    case Some(h) =>
      LastIndexOfSplit(h, ':', port);
      assert v == h + [':'] + port;
      assert v[..|h|] == h;
      assert v[|h| + 1..] == port;
  }

  /** What the value matcher finds is an optional host and colon, digits and trailing whitespace */
  lemma MatchValueSound(r: string)
    requires MatchValue(r).Some?
    ensures var (host, port, trail) := MatchValue(r).value;
      r == HostPart(host) + port + trail && (host.Some? ==> IsHost(host.value))
      && IsNumber(port) && AllSpace(trail)
  {
    var v := TrimRight(r);
    TrimRightRemoves(r);
    match LastIndexOf(v, ':')
    case Some(k) =>
      assert v == v[..k] + ":" + v[k + 1..];
    case None =>
  }

  /** Soundness: a line the matcher accepts is the rendering of a well-formed match */
  lemma MatchLineSound(line: string, key: string, equals: bool)
    requires MatchLine(line, key, equals).Some?
    ensures var m := MatchLine(line, key, equals).value;
      Render(m, key) == line && WellFormed(m, equals)
  {
    SplitLeadSound(line, key, equals);
    var (indent, sep, rest) := SplitLead(line, key, equals).value;
    MatchValueSound(rest);
    var m := MatchLine(line, key, equals).value;
    assert Lead(m, key) == indent + key + SepText(sep);
    assert Value(m) == rest;
  }

  /** Completeness: every well-formed match is found, and found as itself */
  lemma MatchLineComplete(m: Match, key: string, equals: bool)
    requires IsKey(key) && WellFormed(m, equals)
    ensures MatchLine(Render(m, key), key, equals) == Some(m)
  {
    var rest := Value(m);
    Assoc(HostPart(m.host), m.port, m.trail);
    assert IsDigit(m.port[0]);
    ValueStops(m.sep, m.host, m.port + m.trail, equals);
    SplitLeadOf(m.indent, key, m.sep, rest, equals);
    MatchValueOf(m.host, m.port, m.trail);
  }

  // ---------------------------------------------------------------------------------------
  // The two rewrites built on the matcher

  /** One line of the ZEO server rewrite: a matching line keeps group 1 and ends in
      `bind:port`, dropping any old host and the trailing whitespace */
  function BindLine(line: string, bind: string, port: string): string {
    match MatchLine(line, "address", false)
    case None => line
    case Some(m) => Lead(m, "address") + (bind + ":" + port)
  }

  /** One line of the HTTP port rewrite for directive `key`: a matching line keeps group 1
      and any host, and ends in the new port */
  function HttpLine(line: string, key: string, port: string): string {
    match MatchLine(line, key, true)
    case None => line
    case Some(m) => Lead(m, key) + (HostPart(m.host) + port)
  }

  /** A matching line keeps group 1 and ends in `bind:port` */
  lemma BindLineRewrites(m: Match, bind: string, port: string)
    requires WellFormed(m, false)
    ensures BindLine(Render(m, "address"), bind, port) == Lead(m, "address") + (bind + ":" + port)
  {
    MatchLineComplete(m, "address", false);
  }

  /** A line that is no rendering of a match is left as it is */
  lemma BindLineKeeps(line: string, bind: string, port: string)
    requires forall m :: WellFormed(m, false) ==> Render(m, "address") != line
    ensures BindLine(line, bind, port) == line
  {
    if MatchLine(line, "address", false).Some? {
      MatchLineSound(line, "address", false);
    }
  }

  /** A line made of the directive, a separator and `bind:port` is left as it is, when the
      bind address does not start with whitespace */
  lemma BindLineFixed(indent: string, sep: Sep, bind: string, port: string)
    requires AllSpace(indent) && IsSeparator(sep, false)
    requires bind != [] && !IsSpace(bind[0])
    ensures var line := indent + "address" + SepText(sep) + (bind + ":" + port);
      BindLine(line, bind, port) == line
  {
    var key := "address";
    var z := bind + ":" + port;
    assert z[0] == bind[0];
    SplitLeadOf(indent, key, sep, z, false);
    match MatchLine(indent + key + SepText(sep) + z, key, false)
    case None =>
    case Some(m) =>
      assert Lead(m, key) == indent + key + SepText(sep);
  }

  /** A line already rewritten is left as it is when the bind address does not start with
      whitespace */
  lemma BindLineIdempotent(line: string, bind: string, port: string)
    requires bind != [] && !IsSpace(bind[0])
    ensures BindLine(BindLine(line, bind, port), bind, port) == BindLine(line, bind, port)
  {
    match MatchLine(line, "address", false)
    case None =>
    case Some(m) =>
      MatchLineSound(line, "address", false);
      BindLineFixed(m.indent, m.sep, bind, port);
  }

  /** A matching line keeps group 1 and its host, and ends in the new port */
  lemma HttpLineRewrites(m: Match, key: string, port: string)
    requires IsKey(key) && WellFormed(m, true)
    ensures HttpLine(Render(m, key), key, port) == Lead(m, key) + (HostPart(m.host) + port)
  {
    MatchLineComplete(m, key, true);
  }

  /** A line that is no rendering of a match is left as it is */
  lemma HttpLineKeeps(line: string, key: string, port: string)
    requires forall m :: WellFormed(m, true) ==> Render(m, key) != line
    ensures HttpLine(line, key, port) == line
  {
    if MatchLine(line, key, true).Some? {
      MatchLineSound(line, key, true);
    }
  }

  /** A rewritten line still starts with its indentation and the directive name */
  lemma HttpLineShape(line: string, key: string, port: string)
    requires MatchLine(line, key, true).Some?
    ensures var m := MatchLine(line, key, true).value;
      AllSpace(m.indent)
      && HttpLine(line, key, port) == m.indent + key + (SepText(m.sep) + (HostPart(m.host) + port))
  {
    var m := MatchLine(line, key, true).value;
    MatchLineSound(line, key, true);
    Assoc(m.indent + key, SepText(m.sep), HostPart(m.host) + port);
    Assoc(m.indent, key, SepText(m.sep) + (HostPart(m.host) + port));
  }

  /** A port fit to be written after a host: no colon, no whitespace at either end, and
      not starting with an equals sign */
  predicate IsPortText(port: string) {
    port != [] && ':' !in port && !IsSpace(port[0]) && !IsSpace(port[|port| - 1]) && port[0] != '='
  }

  /** A host and a port fit to be written after it are matched as that host again */
  lemma MatchValueKeepsHost(host: Option<string>, port: string)
    requires host.Some? ==> IsHost(host.value)
    requires IsPortText(port)
    ensures MatchValue(HostPart(host) + port).Some? ==> MatchValue(HostPart(host) + port).value.0 == host
  {
    var z := HostPart(host) + port;
    assert TrimRight(z) == z by {
      assert z[|z| - 1] == port[|port| - 1];
      TrimRightSpaces(z, []);
      assert z + [] == z;
    }
    match host
    case None =>
      assert z == port;
    case Some(h) =>
      LastIndexOfSplit(h, ':', port);
      assert z == h + [':'] + port;
      assert z[..|h|] == h;
  }

  /** Rewriting a line a second time with the same port changes nothing */
  lemma HttpLineIdempotent(line: string, key: string, port: string)
    requires IsKey(key) && IsPortText(port)
    ensures HttpLine(HttpLine(line, key, port), key, port) == HttpLine(line, key, port)
  {
    match MatchLine(line, key, true)
    case None =>
    case Some(m) =>
      MatchLineSound(line, key, true);
      var z := HostPart(m.host) + port;
      ValueStops(m.sep, m.host, port, true);
      SplitLeadOf(m.indent, key, m.sep, z, true);
      var out := Lead(m, key) + z;
      assert HttpLine(line, key, port) == out;
      MatchValueKeepsHost(m.host, port);
      match MatchLine(out, key, true)
      case None =>
      case Some(m2) =>
        assert Lead(m2, key) == Lead(m, key) && m2.host == m.host;
  }

  /** A line that starts with one directive name does not match a pattern for a name with a
      different first letter */
  lemma OtherKey(indent: string, key: string, rest: string, other: string, equals: bool)
    requires AllSpace(indent) && IsKey(key) && IsKey(other) && key[0] != other[0]
    ensures SplitLead(indent + key + rest, other, equals) == None
    ensures MatchLine(indent + key + rest, other, equals) == None
  {
    var tail := key + rest;
    Assoc(indent, key, rest);
    assert tail[0] == key[0];
    SpanSpacesOf(indent, tail);
  }
}
