/**
 * The zeopack helper script (`Environment.zeopack`): ZEO_ADDRESS is split into host and
 * port, and the quoted values assigned to `address`, `host` and `port` in the script are
 * replaced.
 */
module PackScript {
  import opened Wrappers
  import opened Text

  const DefaultPort := "8080"

  /** The number of times `c` occurs in `s` */
  function CountChar(s: string, c: char): nat
    decreases |s|
  {
    if s == [] then 0 else (if s[0] == c then 1 else 0) + CountChar(s[1..], c)
  }

  /** `host, port = server.split(":")` when the address has a colon, `(server, "8080")`
      otherwise; the unpacking fails unless the split gives exactly two pieces */
  function SplitAddress(server: string): Result<(string, string)> {
    if ':' in server then
      var parts := Split(server, ":");
      if |parts| == 2 then Ok((parts[0], parts[1])) else Err(BadAddress(server))
    else Ok((server, DefaultPort))
  }

  // ---------------------------------------------------------------------------------------
  // Splitting the address

  /** A character occurs in a text exactly when it is counted there */
  lemma {:induction false} CountPresent(s: string, c: char)
    ensures CountChar(s, c) > 0 <==> c in s
    decreases |s|
  {
    if s != [] {
      CountPresent(s[1..], c);
      assert s == [s[0]] + s[1..];
    }
  }

  /** Splitting at a character gives one piece more than there are separators */
  lemma {:induction false} SplitCount(s: string, c: char)
    ensures |Split(s, [c])| == CountChar(s, c) + 1
    decreases |s|
  {
    if s != [] {
      SplitCount(s[1..], c);
      if [c] <= s {
        assert s[0] == c;
      } else {
        assert s[0] != c;
      }
    }
  }

  /** The address is rejected exactly when it has two colons or more; an accepted address
      with a colon is its host and port put back together around it */
  lemma SplitAddressSpec(server: string)
    ensures SplitAddress(server).Err? <==> CountChar(server, ':') >= 2
    ensures SplitAddress(server).Ok? && ':' in server ==>
      var (host, port) := SplitAddress(server).value;
      host + ":" + port == server && ':' !in host && ':' !in port
    ensures ':' !in server ==> SplitAddress(server) == Ok((server, DefaultPort))
  {
    CountPresent(server, ':');
    SplitCount(server, ':');
    var parts := Split(server, ":");
    if ':' in server && |parts| == 2 {
      JoinSplit(server, ":");
      assert parts == [parts[0]] + parts[1..];
      JoinCons(parts[0], parts[1..], ":");
    }
  }

  /** `host:port` with one colon splits into that host and port */
  lemma SplitAddressOf(host: string, port: string)
    requires ':' !in host && ':' !in port
    ensures SplitAddress(host + ":" + port) == Ok((host, port))
  {
    var s := host + ":" + port;
    assert s[|host|] == ':';
    SplitAfter(host, ':', port);
    SplitNone(port, ':');
  }

  // ---------------------------------------------------------------------------------------
  // The substitution `re.sub(r'KEY\s*=\s*".*?"', REPLACEMENT, text)`

  /** An assignment the pattern matches after the name: whitespace, `=`, whitespace, and a
      value in double quotes */
  datatype Assign = Assign(before: string, after: string, value: string)

  predicate IsAssignment(x: Assign) {
    AllSpace(x.before) && AllSpace(x.after) && '"' !in x.value && '\n' !in x.value
  }

  /** The text of an assignment to `key`, followed by `rest` */
  function AssignText(key: string, x: Assign, rest: string): string {
    key + (x.before + (['='] + (x.after + (['"'] + (x.value + (['"'] + rest))))))
  }

  /** `.*?"`: the value up to the first double quote, and what follows the quote; there is
      no match when a newline comes first */
  function QuoteEnd(s: string): (r: Option<(string, string)>)
    ensures r.Some? ==> |r.value.1| < |s|
    decreases |s|
  {
    if s == [] || s[0] == '\n' then None
    else if s[0] == '"' then Some(([], s[1..]))
    else
      match QuoteEnd(s[1..])
      case None => None
      case Some((v, rest)) => Some(([s[0]] + v, rest))
  }

  /** The match of `\s*".*?"` at the start of `s`, as the whitespace, the value and the text
      after the closing quote */
  function ValueAt(s: string): (r: Option<(string, string, string)>)
    ensures r.Some? ==> |r.value.2| < |s|
  {
    var (a, r2) := SpanSpaces(s);
    if r2 == [] || r2[0] != '"' then None
    else
      match QuoteEnd(r2[1..])
      case None => None
      case Some((v, rest)) => Some((a, v, rest))
  }

  /** The match of `\s*=\s*".*?"` at the start of `s` */
  function EqualsAt(s: string): (r: Option<(Assign, string)>)
    ensures r.Some? ==> |r.value.1| < |s|
  {
    var (b, r1) := SpanSpaces(s);
    if r1 == [] || r1[0] != '=' then None
    else
      match ValueAt(r1[1..])
      case None => None
      case Some((a, v, rest)) => Some((Assign(b, a, v), rest))
  }

  /** The match of `KEY\s*=\s*".*?"` at the start of `t`, as the assignment and the text
      after it */
  function AssignAt(t: string, key: string): (r: Option<(Assign, string)>)
    ensures r.Some? ==> |r.value.1| < |t|
  {
    if !(key <= t) then None else EqualsAt(t[|key|..])
  }

  /** `re.sub` of the assignment pattern for `key`: each match, found left to right, is
      replaced by `rep` */
  function SubAssign(t: string, key: string, rep: string): string
    requires key != []
    decreases |t|
  {
    if t == [] then []
    else
      match AssignAt(t, key)
      case Some((_, rest)) => rep + SubAssign(rest, key, rep)
      case None => [t[0]] + SubAssign(t[1..], key, rep)
  }

  /** What the step writes for `key`: `key = "value"` */
  function Quoted(key: string, value: string): string {
    key + " = \"" + value + "\""
  }

  /** The three substitutions, in the order the step makes them */
  function PackText(text: string, server: string, host: string, port: string): string {
    var t1 := SubAssign(text, "address", Quoted("address", server));
    var t2 := SubAssign(t1, "host", Quoted("host", host));
    SubAssign(t2, "port", Quoted("port", port))
  }

  // ---------------------------------------------------------------------------------------

  /** A value without quotes or newlines ends at the quote after it */
  lemma {:induction false} QuoteEndOf(v: string, rest: string)
    requires '"' !in v && '\n' !in v
    ensures QuoteEnd(v + (['"'] + rest)) == Some((v, rest))
    decreases |v|
  {
    var s := v + (['"'] + rest);
    if v == [] {
      assert s == ['"'] + rest;
    } else {
      assert s[0] == v[0];
      assert s[1..] == v[1..] + (['"'] + rest);
      QuoteEndOf(v[1..], rest);
      assert v == [v[0]] + v[1..];
    }
  }

  /** What `.*?"` takes is a value without quotes or newlines, then the quote */
  lemma {:induction false} QuoteEndSound(s: string)
    requires QuoteEnd(s).Some?
    ensures var (v, rest) := QuoteEnd(s).value;
      s == v + (['"'] + rest) && '"' !in v && '\n' !in v
    decreases |s|
  {
    if s[0] != '"' {
      QuoteEndSound(s[1..]);
      var (v, rest) := QuoteEnd(s[1..]).value;
      assert s == [s[0]] + (v + (['"'] + rest));
    }
  }

  lemma ValueAtOf(a: string, v: string, rest: string)
    requires AllSpace(a) && '"' !in v && '\n' !in v
    ensures ValueAt(a + (['"'] + (v + (['"'] + rest)))) == Some((a, v, rest))
  {
    var q := ['"'] + (v + (['"'] + rest));
    SpanSpacesOf(a, q);
    assert q[1..] == v + (['"'] + rest);
    QuoteEndOf(v, rest);
  }

  lemma EqualsAtOf(x: Assign, rest: string)
    requires IsAssignment(x)
    ensures EqualsAt(x.before + (['='] + (x.after + (['"'] + (x.value + (['"'] + rest))))))
      == Some((x, rest))
  {
    var q := x.after + (['"'] + (x.value + (['"'] + rest)));
    var e := ['='] + q;
    SpanSpacesOf(x.before, e);
    assert e[1..] == q;
    ValueAtOf(x.after, x.value, rest);
  }

  /** The pattern matches an assignment exactly, however it is spaced, and stops at the
      closing quote */
  lemma AssignAtOf(key: string, x: Assign, rest: string)
    requires IsAssignment(x)
    ensures AssignAt(AssignText(key, x, rest), key) == Some((x, rest))
  {
    var e := x.before + (['='] + (x.after + (['"'] + (x.value + (['"'] + rest)))));
    var t := AssignText(key, x, rest);
    assert t == key + e;
    assert t[|key|..] == e;
    EqualsAtOf(x, rest);
  }

  lemma ValueAtSound(s: string)
    requires ValueAt(s).Some?
    ensures var (a, v, rest) := ValueAt(s).value;
      s == a + (['"'] + (v + (['"'] + rest))) && AllSpace(a) && '"' !in v && '\n' !in v
  {
    SpanSpacesSound(s);
    var (a, r2) := SpanSpaces(s);
    var u := r2[1..];
    QuoteEndSound(u);
    var (v, rest) := QuoteEnd(u).value;
    assert ValueAt(s) == Some((a, v, rest));
    assert r2 == ['"'] + u;
  }

  lemma EqualsAtSound(s: string)
    requires EqualsAt(s).Some?
    ensures var (x, rest) := EqualsAt(s).value;
      s == x.before + (['='] + (x.after + (['"'] + (x.value + (['"'] + rest))))) && IsAssignment(x)
  {
    var (b, r1) := SpanSpaces(s);
    var u := r1[1..];
    var (a, v, rest) := ValueAt(u).value;
    assert EqualsAt(s) == Some((Assign(b, a, v), rest));
    assert s == b + (['='] + u) && AllSpace(b) by {
      SpanSpacesSound(s);
      assert r1 == ['='] + u;
    }
    assert u == a + (['"'] + (v + (['"'] + rest))) && AllSpace(a) && '"' !in v && '\n' !in v by {
      ValueAtSound(u);
    }
  }

  /** The pattern matches only at an assignment */
  lemma AssignAtSound(t: string, key: string)
    requires AssignAt(t, key).Some?
    ensures var (x, rest) := AssignAt(t, key).value;
      IsAssignment(x) && t == AssignText(key, x, rest)
  {
    var u := t[|key|..];
    EqualsAtSound(u);
    assert t == key + u;
  }

  /** Text without the name is left as it is */
  lemma {:induction false} SubAssignNoKey(t: string, key: string, rep: string)
    requires key != [] && !Contains(t, key)
    ensures SubAssign(t, key, rep) == t
    decreases |t|
  {
    if t != [] {
      SubAssignNoKey(t[1..], key, rep);
      assert t == [t[0]] + t[1..];
    }
  }

  /** The match of the pattern for `key` at position `i` of `t` */
  function MatchAt(t: string, key: string, i: nat): Option<(Assign, string)>
    requires i <= |t|
  {
    AssignAt(t[i..], key)
  }

  /** No match of the pattern for `key` starts in `t` before position `k` */
  predicate NoMatchBefore(t: string, key: string, k: nat) {
    forall i :: 0 <= i < k && i < |t| ==> MatchAt(t, key, i).None?
  }

  /** No match of the pattern for `key` starts anywhere in `t` */
  predicate NoMatchIn(t: string, key: string) {
    NoMatchBefore(t, key, |t|)
  }

  /** Past a position where no match starts, the positions after it are free of matches too */
  lemma NoMatchTail(t: string, key: string, k: nat)
    requires 0 < k <= |t| && NoMatchBefore(t, key, k)
    ensures NoMatchBefore(t[1..], key, k - 1)
  {
    forall i | 0 <= i < k - 1 && i < |t| - 1 ensures MatchAt(t[1..], key, i).None? {
      assert MatchAt(t, key, i + 1).None?;
      assert t[1..][i..] == t[i + 1..];
    }
  }

  /** A first character where no match starts is copied over */
  lemma SkipFirst(t: string, key: string, k: nat, rep: string)
    requires key != [] && 0 < k <= |t| && NoMatchBefore(t, key, k)
    ensures SubAssign(t, key, rep) == [t[0]] + SubAssign(t[1..], key, rep)
  {
    assert MatchAt(t, key, 0).None? && t[0..] == t;
  }

  lemma ConsTake(t: string, k: nat, r: string)
    requires 0 < k <= |t|
    ensures [t[0]] + (t[1..][..k - 1] + r) == t[..k] + r
  {
    assert t[..k] == [t[0]] + t[1..][..k - 1];
  }

  /** The text before position `k`, where no match starts, is copied over */
  lemma {:induction false} SubAssignSkip(t: string, k: nat, key: string, rep: string)
    requires key != [] && k <= |t| && NoMatchBefore(t, key, k)
    ensures SubAssign(t, key, rep) == t[..k] + SubAssign(t[k..], key, rep)
    decreases k
  {
    if k == 0 {
      assert t[0..] == t;
    } else {
      SkipFirst(t, key, k, rep);
      NoMatchTail(t, key, k);
      SubAssignSkip(t[1..], k - 1, key, rep);
      assert t[1..][k - 1..] == t[k..];
      ConsTake(t, k, SubAssign(t[k..], key, rep));
    }
  }

  /** A prefix in which no match starts is copied over */
  lemma SubAssignPeel(u: string, w: string, key: string, rep: string)
    requires key != [] && NoMatchBefore(u + w, key, |u|)
    ensures SubAssign(u + w, key, rep) == u + SubAssign(w, key, rep)
  {
    SubAssignSkip(u + w, |u|, key, rep);
    assert (u + w)[..|u|] == u && (u + w)[|u|..] == w;
  }

  /** A text in which no match starts is left as it is */
  lemma SubAssignKeeps(t: string, key: string, rep: string)
    requires key != [] && NoMatchIn(t, key)
    ensures SubAssign(t, key, rep) == t
  {
    SubAssignSkip(t, |t|, key, rep);
    assert t[..|t|] == t;
  }

  /** An assignment is replaced as a whole when no match starts before it, and the text after
      it is kept when no match starts there either */
  lemma SubAssignReplaces(p: string, key: string, x: Assign, rest: string, rep: string)
    requires key != [] && IsAssignment(x)
    requires NoMatchBefore(p + AssignText(key, x, rest), key, |p|) && NoMatchIn(rest, key)
    ensures SubAssign(p + AssignText(key, x, rest), key, rep) == p + (rep + rest)
  {
    SubAssignPeel(p, AssignText(key, x, rest), key, rep);
    AssignAtOf(key, x, rest);
    SubAssignKeeps(rest, key, rep);
  }

  /** What the step writes is itself an assignment the pattern matches */
  lemma QuotedIsAssignment(key: string, value: string)
    requires '"' !in value && '\n' !in value
    ensures Quoted(key, value) == AssignText(key, Assign(" ", " ", value), [])
    ensures IsAssignment(Assign(" ", " ", value))
  {
  }

  // ---------------------------------------------------------------------------------------
  // Where matches cannot start

  /** A name the pattern can look for: it does not start with whitespace, `=` or a quote, and
      holds no quote or newline */
  predicate IsName(key: string) {
    key != [] && !IsSpace(key[0]) && key[0] != '=' && key[0] != '"' && '"' !in key && '\n' !in key
  }

  /** The text is empty or ends with a newline */
  predicate LineEnded(s: string) {
    s == [] || s[|s| - 1] == '\n'
  }

  /** The text does not start with whitespace, `=` or a quote, which is all a match could
      carry over from the line before */
  predicate StartsPlain(w: string) {
    w == [] || (!IsSpace(w[0]) && w[0] != '=' && w[0] != '"')
  }

  /** No match starts at a character other than the first of the name */
  lemma NoMatchAtChars(u: string, w: string, key: string)
    requires key != [] && key[0] !in u
    ensures NoMatchBefore(u + w, key, |u|)
  {
    forall i | 0 <= i < |u| ensures MatchAt(u + w, key, i).None? {
      assert (u + w)[i..][0] == u[i];
    }
  }

  /** Positions with no match before `|u|` and, in `w`, before `k` */
  lemma NoMatchJoin(u: string, w: string, key: string, k: nat)
    requires NoMatchBefore(u + w, key, |u|) && NoMatchBefore(w, key, k)
    ensures NoMatchBefore(u + w, key, |u| + k)
  {
    forall i | |u| <= i < |u| + k && i < |u + w| ensures MatchAt(u + w, key, i).None? {
      ShiftMatch(u, w, key, i);
    }
  }

  /** A match in `w` is a match in `u + w`, `|u|` positions on */
  lemma ShiftMatch(u: string, w: string, key: string, i: nat)
    requires |u| <= i <= |u + w|
    ensures MatchAt(u + w, key, i) == MatchAt(w, key, i - |u|)
  {
    assert (u + w)[i..] == w[i - |u|..];
  }

  /** Two texts that each put a first double quote after a quote-free part split alike */
  lemma FirstQuote(x1: string, y1: string, x2: string, y2: string)
    requires '"' !in x1 && '"' !in x2 && x1 + (['"'] + y1) == x2 + (['"'] + y2)
    ensures x1 == x2 && y1 == y2
  {
    var s := x1 + (['"'] + y1);
    assert s[|x1|] == '"' && (x2 + (['"'] + y2))[|x2|] == '"';
    assert |x1| == |x2|;
    assert x1 == s[..|x1|] && x2 == s[..|x2|];
    assert y1 == s[|x1| + 1..] && y2 == s[|x2| + 1..];
  }

  /** The part of an assignment before its opening quote holds no quote */
  lemma HeadNoQuote(key: string, x: Assign, rest: string)
    requires '"' !in key && IsAssignment(x)
    ensures var head := key + (x.before + (['='] + x.after));
      '"' !in head && AssignText(key, x, rest) == head + (['"'] + (x.value + (['"'] + rest)))
  {
    assert !IsSpace('"');
    assert '"' !in x.before && '"' !in x.after;
  }

  /** The value of a match opens at the first quote after its start, so what follows that
      quote must run to a closing quote on the same line */
  lemma QuoteAfterMatch(u: string, y: string, key: string)
    requires '"' !in u && '"' !in key
    ensures AssignAt(u + (['"'] + y), key).Some? ==> QuoteEnd(y).Some?
  {
    var s := u + (['"'] + y);
    if AssignAt(s, key).Some? {
      AssignAtSound(s, key);
      var (x, rest) := AssignAt(s, key).value;
      HeadNoQuote(key, x, rest);
      var head := key + (x.before + (['='] + x.after));
      FirstQuote(u, y, head, x.value + (['"'] + rest));
      QuoteEndOf(x.value, rest);
    }
  }

  /** No match starts inside a quoted value whose line ends at the closing quote, nor at that
      quote or the newline */
  lemma NoMatchInValue(v: string, w: string, key: string)
    requires '"' !in v && IsName(key)
    ensures NoMatchBefore(v + (['"'] + ("\n" + w)), key, |v| + 2)
  {
    var t := v + (['"'] + ("\n" + w));
    forall i | 0 <= i < |v| + 2 && i < |t| ensures MatchAt(t, key, i).None? {
      if i < |v| {
        assert t[i..] == v[i..] + (['"'] + ("\n" + w));
        QuoteAfterMatch(v[i..], "\n" + w, key);
      } else {
        assert t[i..][0] == t[i];
      }
    }
  }

  /** No match of another name starts in an assignment line or at its newline */
  lemma NoMatchInLine(k: string, x: Assign, w: string, key: string)
    requires IsAssignment(x) && IsName(key) && key[0] !in k
    ensures NoMatchBefore(AssignText(k, x, []) + ("\n" + w), key, |AssignText(k, x, [])| + 1)
  {
    var head := k + (x.before + (['='] + (x.after + ['"'])));
    var tail := x.value + (['"'] + ("\n" + w));
    assert AssignText(k, x, []) + ("\n" + w) == head + tail;
    assert key[0] !in head by {
      assert key[0] !in x.before && key[0] !in x.after;
    }
    NoMatchAtChars(head, tail, key);
    NoMatchInValue(x.value, w, key);
    NoMatchJoin(head, tail, key, |x.value| + 2);
  }

  // ---------------------------------------------------------------------------------------
  // Matches do not reach across the end of a line into plain text

  lemma {:induction false} QuoteEndAppend(p: string, q: string)
    requires p != [] && p[|p| - 1] == '\n' && QuoteEnd(p).None?
    ensures QuoteEnd(p + q).None?
    decreases |p|
  {
    if p[0] != '\n' {
      assert (p + q)[1..] == p[1..] + q;
      QuoteEndAppend(p[1..], q);
    }
  }

  lemma ValueAtAppend(p: string, q: string)
    requires p != [] && p[|p| - 1] == '\n' && StartsPlain(q) && ValueAt(p).None?
    ensures ValueAt(p + q).None?
  {
    SpanSpacesSound(p);
    var (a, r) := SpanSpaces(p);
    if r == [] {
      assert p == a;
      SpanSpacesOf(p, q);
    } else {
      assert p + q == a + (r + q);
      SpanSpacesOf(a, r + q);
      if r[0] == '"' {
        assert r[|r| - 1] == p[|p| - 1];
        assert (r + q)[1..] == r[1..] + q;
        QuoteEndAppend(r[1..], q);
      }
    }
  }

  lemma EqualsAtAppend(p: string, q: string)
    requires p != [] && p[|p| - 1] == '\n' && StartsPlain(q) && EqualsAt(p).None?
    ensures EqualsAt(p + q).None?
  {
    SpanSpacesSound(p);
    var (b, r) := SpanSpaces(p);
    if r == [] {
      assert p == b;
      SpanSpacesOf(p, q);
    } else {
      assert p + q == b + (r + q);
      SpanSpacesOf(b, r + q);
      if r[0] == '=' {
        assert r[|r| - 1] == p[|p| - 1];
        assert (r + q)[1..] == r[1..] + q;
        ValueAtAppend(r[1..], q);
      }
    }
  }

  /** A match that does not start in a line, taken on its own, does not start there either
      when plain text follows the line */
  /** A key without a line end that prefixes a line followed by more text lies inside the line */
  lemma KeyWithinLine(p: string, q: string, key: string)
    requires p != [] && p[|p| - 1] == '\n' && '\n' !in key && key <= p + q
    ensures |key| < |p| && key <= p && (p + q)[|key|..] == p[|key|..] + q
  {
    assert (p + q)[|p| - 1] == '\n';
    assert |key| < |p|;
    assert key <= p;
  }

  lemma AssignAtAppend(p: string, q: string, key: string)
    requires p != [] && p[|p| - 1] == '\n' && StartsPlain(q) && '\n' !in key
    requires AssignAt(p, key).None?
    ensures AssignAt(p + q, key).None?
  {
    if key <= p + q {
      KeyWithinLine(p, q, key);
      EqualsAtAppend(p[|key|..], q);
    }
  }

  /** A match does not start in a line without one and reach into plain text after it */
  lemma NoMatchInGapAt(g: string, w: string, key: string, i: nat)
    requires IsName(key) && LineEnded(g) && NoMatchIn(g, key) && StartsPlain(w) && i < |g|
    ensures MatchAt(g + w, key, i).None?
  {
    var p := g[i..];
    assert MatchAt(g, key, i).None?;
    assert p[|p| - 1] == g[|g| - 1];
    assert (g + w)[i..] == p + w;
    AssignAtAppend(p, w, key);
  }

  /** No match starts in whole lines without a match when plain text follows them */
  lemma NoMatchInGap(g: string, w: string, key: string)
    requires IsName(key) && LineEnded(g) && NoMatchIn(g, key) && StartsPlain(w)
    ensures NoMatchBefore(g + w, key, |g|)
  {
    forall i | 0 <= i < |g| ensures MatchAt(g + w, key, i).None? {
      NoMatchInGapAt(g, w, key, i);
    }
  }

  /** Text made of whole lines in which no match starts is copied over when plain text
      follows it */
  lemma SubAssignGap(g: string, w: string, key: string, rep: string)
    requires IsName(key) && LineEnded(g) && NoMatchIn(g, key) && StartsPlain(w)
    ensures SubAssign(g + w, key, rep) == g + SubAssign(w, key, rep)
  {
    NoMatchInGap(g, w, key);
    SubAssignPeel(g, w, key, rep);
  }

  /** An assignment line to another name is copied over with its newline */
  lemma SubAssignOtherLine(k: string, x: Assign, w: string, key: string, rep: string)
    requires IsAssignment(x) && IsName(key) && key[0] !in k
    ensures SubAssign(AssignText(k, x, []) + ("\n" + w), key, rep)
      == AssignText(k, x, []) + ("\n" + SubAssign(w, key, rep))
  {
    var line := AssignText(k, x, []);
    NoMatchInLine(k, x, w, key);
    Assoc(line, "\n", w);
    SubAssignPeel(line + "\n", w, key, rep);
    Assoc(line, "\n", SubAssign(w, key, rep));
  }

  lemma AssignTextAppend(key: string, x: Assign, r: string)
    ensures AssignText(key, x, []) + r == AssignText(key, x, r)
  {
  }

  /** No match starts at a newline */
  lemma SubAssignNewline(w: string, key: string, rep: string)
    requires IsName(key)
    ensures SubAssign("\n" + w, key, rep) == "\n" + SubAssign(w, key, rep)
  {
    assert ("\n" + w)[0] != key[0] && ("\n" + w)[1..] == w;
  }

  /** An assignment line to the name itself is replaced, and its newline kept */
  lemma SubAssignOwnLine(x: Assign, w: string, key: string, rep: string)
    requires IsAssignment(x) && IsName(key)
    ensures SubAssign(AssignText(key, x, []) + ("\n" + w), key, rep)
      == rep + ("\n" + SubAssign(w, key, rep))
  {
    AssignTextAppend(key, x, "\n" + w);
    AssignAtOf(key, x, "\n" + w);
    SubAssignNewline(w, key, rep);
  }

  // ---------------------------------------------------------------------------------------
  // A script with one assignment line to each name

  /** A script with three lines of its own `la`, `lh`, `lp`, in this order, after the texts
      `a`, `b`, `c` and before the text `e` */
  function Layout(a: string, la: string, b: string, lh: string, c: string, lp: string, e: string): string {
    a + (la + ("\n" + (b + (lh + ("\n" + (c + (lp + ("\n" + e))))))))
  }

  /** The text holds no match for any of the three names */
  predicate Plain(g: string) {
    NoMatchIn(g, "address") && NoMatchIn(g, "host") && NoMatchIn(g, "port")
  }

  /** A value that can stand between the quotes of an assignment line */
  predicate Quotable(v: string) {
    '"' !in v && '\n' !in v
  }

  /** The substitution for the name of the first of the three lines */
  lemma SubFirstLine(a: string, x1: string, b: string, k2: string, x2: Assign, c: string,
                     k3: string, x3: Assign, e: string, key: string, y: Assign, rep: string)
    requires IsName(key) && IsName(k2) && IsName(k3) && key[0] !in k2 && key[0] !in k3
    requires IsAssignment(y) && IsAssignment(x2) && IsAssignment(x3) && x1 == AssignText(key, y, [])
    requires LineEnded(a) && LineEnded(b) && LineEnded(c)
    requires NoMatchIn(a, key) && NoMatchIn(b, key) && NoMatchIn(c, key) && NoMatchIn(e, key)
    ensures var l2, l3 := AssignText(k2, x2, []), AssignText(k3, x3, []);
      SubAssign(Layout(a, x1, b, l2, c, l3, e), key, rep) == Layout(a, rep, b, l2, c, l3, e)
  {
    var l2, l3 := AssignText(k2, x2, []), AssignText(k3, x3, []);
    var w3 := c + (l3 + ("\n" + e));
    var w2 := b + (l2 + ("\n" + w3));
    SubAssignGap(a, x1 + ("\n" + w2), key, rep);
    SubAssignOwnLine(y, w2, key, rep);
    SubAssignGap(b, l2 + ("\n" + w3), key, rep);
    SubAssignOtherLine(k2, x2, w3, key, rep);
    SubAssignGap(c, l3 + ("\n" + e), key, rep);
    SubAssignOtherLine(k3, x3, e, key, rep);
    SubAssignKeeps(e, key, rep);
  }

  /** The substitution for the name of the second of the three lines */
  lemma SubSecondLine(a: string, k1: string, x1: Assign, b: string, x2: string, c: string,
                      k3: string, x3: Assign, e: string, key: string, y: Assign, rep: string)
    requires IsName(key) && IsName(k1) && IsName(k3) && key[0] !in k1 && key[0] !in k3
    requires IsAssignment(y) && IsAssignment(x1) && IsAssignment(x3) && x2 == AssignText(key, y, [])
    requires LineEnded(a) && LineEnded(b) && LineEnded(c)
    requires NoMatchIn(a, key) && NoMatchIn(b, key) && NoMatchIn(c, key) && NoMatchIn(e, key)
    ensures var l1, l3 := AssignText(k1, x1, []), AssignText(k3, x3, []);
      SubAssign(Layout(a, l1, b, x2, c, l3, e), key, rep) == Layout(a, l1, b, rep, c, l3, e)
  {
    var l1, l3 := AssignText(k1, x1, []), AssignText(k3, x3, []);
    var w3 := c + (l3 + ("\n" + e));
    var w2 := b + (x2 + ("\n" + w3));
    SubAssignGap(a, l1 + ("\n" + w2), key, rep);
    SubAssignOtherLine(k1, x1, w2, key, rep);
    SubAssignGap(b, x2 + ("\n" + w3), key, rep);
    SubAssignOwnLine(y, w3, key, rep);
    SubAssignGap(c, l3 + ("\n" + e), key, rep);
    SubAssignOtherLine(k3, x3, e, key, rep);
    SubAssignKeeps(e, key, rep);
  }

  /** The substitution for the name of the third of the three lines */
  lemma SubThirdLine(a: string, k1: string, x1: Assign, b: string, k2: string, x2: Assign,
                     c: string, x3: string, e: string, key: string, y: Assign, rep: string)
    requires IsName(key) && IsName(k1) && IsName(k2) && key[0] !in k1 && key[0] !in k2
    requires IsAssignment(y) && IsAssignment(x1) && IsAssignment(x2) && x3 == AssignText(key, y, [])
    requires LineEnded(a) && LineEnded(b) && LineEnded(c)
    requires NoMatchIn(a, key) && NoMatchIn(b, key) && NoMatchIn(c, key) && NoMatchIn(e, key)
    ensures var l1, l2 := AssignText(k1, x1, []), AssignText(k2, x2, []);
      SubAssign(Layout(a, l1, b, l2, c, x3, e), key, rep) == Layout(a, l1, b, l2, c, rep, e)
  {
    var l1, l2 := AssignText(k1, x1, []), AssignText(k2, x2, []);
    var w3 := c + (x3 + ("\n" + e));
    var w2 := b + (l2 + ("\n" + w3));
    SubAssignGap(a, l1 + ("\n" + w2), key, rep);
    SubAssignOtherLine(k1, x1, w2, key, rep);
    SubAssignGap(b, l2 + ("\n" + w3), key, rep);
    SubAssignOtherLine(k2, x2, w3, key, rep);
    SubAssignGap(c, x3 + ("\n" + e), key, rep);
    SubAssignOwnLine(y, e, key, rep);
    SubAssignKeeps(e, key, rep);
  }

  /** The three names can be looked for, and each starts with a letter the other two lack */
  lemma ThreeNames()
    ensures IsName("address") && IsName("host") && IsName("port")
    ensures 'a' !in "host" && 'a' !in "port" && 'h' !in "address" && 'h' !in "port"
    ensures 'p' !in "address" && 'p' !in "host"
  {
    assert !IsSpace('a') && !IsSpace('h') && !IsSpace('p');
  }

  /** In a script with one assignment line to each name, in the order address, host, port,
      the step puts the three new assignments in their places and keeps everything else */
  lemma PackTextLines(a: string, xa: Assign, b: string, xh: Assign, c: string, xp: Assign,
                      e: string, server: string, host: string, port: string)
    requires IsAssignment(xa) && IsAssignment(xh) && IsAssignment(xp)
    requires LineEnded(a) && LineEnded(b) && LineEnded(c)
    requires Plain(a) && Plain(b) && Plain(c) && Plain(e)
    requires Quotable(server) && Quotable(host) && Quotable(port)
    ensures PackText(Layout(a, AssignText("address", xa, []), b, AssignText("host", xh, []),
                            c, AssignText("port", xp, []), e), server, host, port)
      == Layout(a, Quoted("address", server), b, Quoted("host", host), c, Quoted("port", port), e)
  {
    var qa, qh, qp := Quoted("address", server), Quoted("host", host), Quoted("port", port);
    var ya, yh, yp := Assign(" ", " ", server), Assign(" ", " ", host), Assign(" ", " ", port);
    QuotedIsAssignment("address", server);
    QuotedIsAssignment("host", host);
    QuotedIsAssignment("port", port);
    ThreeNames();
    SubFirstLine(a, AssignText("address", xa, []), b, "host", xh, c, "port", xp, e,
                 "address", xa, qa);
    SubSecondLine(a, "address", ya, b, AssignText("host", xh, []), c, "port", xp, e,
                  "host", xh, qh);
    SubThirdLine(a, "address", ya, b, "host", yh, c, AssignText("port", xp, []), e,
                 "port", xp, qp);
  }
}
