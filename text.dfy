/**
 * The operations of Python's `str` that the start-up script relies on, over `seq<char>`:
 * `isspace`, `strip`, `split()`, `split(sep)`, `sep.join`, `in`, `find`, `rfind`,
 * `replace` and (for ASCII letters) `lower`.
 */
module Text {
  import opened Wrappers

  /** `c.isspace()`; also the characters that `\s` matches in a pattern */
  predicate IsSpace(c: char) {
    ('\t' <= c <= '\r') || ('\U{1C}' <= c <= ' ') || c == '\U{85}' || c == '\U{A0}'
    || c == '\U{1680}' || ('\U{2000}' <= c <= '\U{200A}') || c == '\U{2028}' || c == '\U{2029}'
    || c == '\U{202F}' || c == '\U{205F}' || c == '\U{3000}'
  }

  predicate AllSpace(s: string) {
    forall i :: 0 <= i < |s| ==> IsSpace(s[i])
  }

  predicate NoSpace(s: string) {
    forall i :: 0 <= i < |s| ==> !IsSpace(s[i])
  }

  /** The number of whitespace characters `s` starts with */
  function LeadingSpaces(s: string): (n: nat)
    ensures n <= |s|
    ensures n == |s| || !IsSpace(s[n])
  {
    if s != [] && IsSpace(s[0]) then 1 + LeadingSpaces(s[1..]) else 0
  }

  /** The leading run counted by `LeadingSpaces` is whitespace */
  lemma {:induction false} LeadingSpacesAreSpace(s: string)
    ensures AllSpace(s[..LeadingSpaces(s)])
    decreases |s|
  {
    if s != [] && IsSpace(s[0]) {
      LeadingSpacesAreSpace(s[1..]);
      assert s[..LeadingSpaces(s)] == [s[0]] + s[1..][..LeadingSpaces(s[1..])];
    }
  }

  /** `s.lstrip()`: the suffix left after the leading whitespace */
  function TrimLeft(s: string): (r: string)
    ensures r == [] || !IsSpace(r[0])
  {
    s[LeadingSpaces(s)..]
  }

  /** The leading whitespace of `s` and what follows it, as the pattern `\s*` splits them */
  function SpanSpaces(s: string): (string, string) {
    (s[..LeadingSpaces(s)], s[LeadingSpaces(s)..])
  }

  lemma SpanSpacesSound(s: string)
    ensures SpanSpaces(s).0 + SpanSpaces(s).1 == s
    ensures AllSpace(SpanSpaces(s).0)
    ensures SpanSpaces(s).1 == [] || !IsSpace(SpanSpaces(s).1[0])
  {
    LeadingSpacesAreSpace(s);
    TakeDrop(s, LeadingSpaces(s));
  }

  /** `\s*` takes all the whitespace before a non-blank character, and no more */
  lemma SpanSpacesOf(a: string, b: string)
    requires AllSpace(a) && (b == [] || !IsSpace(b[0]))
    ensures SpanSpaces(a + b) == (a, b)
  {
    LeadingSpacesOf(a, b);
    assert (a + b)[..|a|] == a && (a + b)[|a|..] == b;
  }

  /** `lstrip` leaves a text that does not start with whitespace as it is */
  lemma TrimLeftNone(s: string)
    requires s == [] || !IsSpace(s[0])
    ensures TrimLeft(s) == s
  {
    LeadingSpacesOf([], s);
    assert [] + s == s;
  }

  /** What `lstrip` removes is whitespace */
  lemma TrimLeftRemoves(s: string)
    ensures s == s[..|s| - |TrimLeft(s)|] + TrimLeft(s)
    ensures AllSpace(s[..|s| - |TrimLeft(s)|])
  {
    LeadingSpacesAreSpace(s);
  }

  /** `lstrip` leaves nothing exactly when the text is all whitespace */
  lemma TrimLeftEmpty(s: string)
    ensures TrimLeft(s) == [] <==> AllSpace(s)
  {
    LeadingSpacesAreSpace(s);
    assert LeadingSpaces(s) == |s| ==> s[..LeadingSpaces(s)] == s;
  }

  /** The number of whitespace characters `s` ends with */
  function TrailingSpaces(s: string): (n: nat)
    ensures n <= |s|
    ensures n == |s| || !IsSpace(s[|s| - 1 - n])
  {
    if s != [] && IsSpace(s[|s| - 1]) then 1 + TrailingSpaces(s[..|s| - 1]) else 0
  }

  /** The trailing run counted by `TrailingSpaces` is whitespace */
  lemma {:induction false} TrailingSpacesAreSpace(s: string)
    ensures AllSpace(s[|s| - TrailingSpaces(s)..])
    decreases |s|
  {
    if s != [] && IsSpace(s[|s| - 1]) {
      var u := s[..|s| - 1];
      var k := |u| - TrailingSpaces(u);
      TrailingSpacesAreSpace(u);
      forall i | 0 <= i < |s| - k ensures IsSpace(s[k..][i]) {
        if i < |u| - k {
          assert s[k..][i] == u[k..][i];
        }
      }
    }
  }

  /** `s.rstrip()`: the prefix left before the trailing whitespace */
  function TrimRight(s: string): (r: string)
    ensures r == [] || !IsSpace(r[|r| - 1])
  {
    s[..|s| - TrailingSpaces(s)]
  }

  /** What `rstrip` removes is whitespace */
  lemma TrimRightRemoves(s: string)
    ensures s == TrimRight(s) + s[|TrimRight(s)|..]
    ensures AllSpace(s[|TrimRight(s)|..])
  {
    TrailingSpacesAreSpace(s);
  }

  /** `s.strip()` */
  function Strip(s: string): (r: string)
    ensures r == [] || (!IsSpace(r[0]) && !IsSpace(r[|r| - 1]))
  {
    TrimRight(TrimLeft(s))
  }

  /** `s.strip()` is empty exactly when `s` is all whitespace */
  lemma StripEmpty(s: string)
    ensures Strip(s) == [] <==> AllSpace(s)
  {
    var t := TrimLeft(s);
    TrimLeftEmpty(s);
    TrimRightRemoves(t);
  }

  /** Python's `lower()` restricted to ASCII letters */
  function LowerChar(c: char): char {
    if 'A' <= c <= 'Z' then (c as int + 32) as char else c
  }

  function Lower(s: string): string {
    seq(|s|, i requires 0 <= i < |s| => LowerChar(s[i]))
  }

  /** Lowering a lowered text changes nothing */
  lemma LowerLower(s: string)
    ensures Lower(Lower(s)) == Lower(s)
  {
    assert forall i :: 0 <= i < |s| ==> LowerChar(LowerChar(s[i])) == LowerChar(s[i]);
  }

  /** The leading run of non-whitespace characters of `s` */
  function FirstWord(s: string): (w: string)
    ensures |w| <= |s| && w == s[..|w|] && NoSpace(w)
    ensures w == s || IsSpace(s[|w|])
    ensures s != [] && !IsSpace(s[0]) ==> w != []
  {
    if s == [] || IsSpace(s[0]) then [] else [s[0]] + FirstWord(s[1..])
  }

  /** A non-empty run of non-whitespace characters */
  predicate IsWord(w: string) {
    w != [] && NoSpace(w)
  }

  predicate AllWords(ws: seq<string>) {
    forall i :: 0 <= i < |ws| ==> IsWord(ws[i])
  }

  /** `s.split()`: the maximal runs of non-whitespace characters, in order */
  function Words(s: string): (r: seq<string>)
    ensures AllWords(r)
    decreases |s|
  {
    if s == [] then []
    else if IsSpace(s[0]) then Words(s[1..])
    else
      var w := FirstWord(s);
      assert IsWord(w);
      var rest := Words(s[|w|..]);
      assert forall i :: 0 <= i < |rest| ==> ([w] + rest)[i + 1] == rest[i];
      [w] + rest
  }

  /** A text has no words exactly when it is all whitespace */
  lemma {:induction false} WordsEmpty(s: string)
    ensures Words(s) == [] <==> AllSpace(s)
    decreases |s|
  {
    if s != [] && IsSpace(s[0]) {
      WordsEmpty(s[1..]);
      if AllSpace(s[1..]) {
        forall i | 0 <= i < |s| ensures IsSpace(s[i]) {
          if i > 0 { assert s[i] == s[1..][i - 1]; }
        }
      }
    }
  }

  /** `sep.join(parts)` */
  function Join(parts: seq<string>, sep: string): string {
    if parts == [] then []
    else if |parts| == 1 then parts[0]
    else parts[0] + sep + Join(parts[1..], sep)
  }

  /** No piece contains the character `c` */
  predicate NoneHas(pieces: seq<string>, c: char) {
    forall i :: 0 <= i < |pieces| ==> c !in pieces[i]
  }

  /** `s.split(sep)` for a non-empty separator: the pieces between the occurrences of `sep`,
      found left to right */
  function Split(s: string, sep: string): (r: seq<string>)
    requires sep != []
    ensures |r| >= 1
    ensures |sep| == 1 ==> NoneHas(r, sep[0])
    decreases |s|
  {
    if s == [] then [[]]
    else if sep <= s then [[]] + Split(s[|sep|..], sep)
    else
      var rest := Split(s[1..], sep);
      [[s[0]] + rest[0]] + rest[1..]
  }

  /** The lines of a text: the pieces between its newline characters */
  function Lines(s: string): (r: seq<string>)
    ensures |r| >= 1 && NoneHas(r, '\n')
  {
    Split(s, "\n")
  }

  function Unlines(lines: seq<string>): string {
    Join(lines, "\n")
  }

  /** `p in t` */
  predicate Contains(t: string, p: string)
    decreases |t|
  {
    p <= t || (t != [] && Contains(t[1..], p))
  }

  /** `p` occurs in `t` starting at index `i` */
  predicate OccursAt(t: string, p: string, i: nat) {
    i <= |t| && p <= t[i..]
  }

  /** A one-character pattern occurs where that character is */
  lemma OccursChar(t: string, c: char)
    ensures forall i: nat :: OccursAt(t, [c], i) <==> i < |t| && t[i] == c
  {
    forall i: nat ensures OccursAt(t, [c], i) <==> i < |t| && t[i] == c {
      if i < |t| { assert t[i..][..1] == [t[i]]; }
    }
  }

  /** `p` occurs in `t` at no index below `k` */
  ghost predicate NoneBefore(t: string, p: string, k: nat) {
    forall j: nat :: j < k ==> !OccursAt(t, p, j)
  }

  /** `p` occurs in `t` at no index above `k` */
  ghost predicate NoneAfter(t: string, p: string, k: nat) {
    forall j: nat :: k < j ==> !OccursAt(t, p, j)
  }

  /** `p` occurs nowhere in `t` */
  ghost predicate Nowhere(t: string, p: string) {
    forall j: nat :: !OccursAt(t, p, j)
  }

  /** `t.find(p)`: the first index at which `p` occurs, if any */
  function FirstIndex(t: string, p: string): (r: Option<nat>)
    ensures r.Some? ==> OccursAt(t, p, r.value)
    decreases |t|
  {
    if p <= t then Some(0)
    else if t == [] then None
    else
      match FirstIndex(t[1..], p)
      case None => None
      case Some(i) =>
        assert t[i + 1..] == t[1..][i..];
        Some(i + 1)
  }

  /** An occurrence in `t` after its first character is an occurrence in `t[1..]`, one earlier */
  lemma OccursInTail(t: string, p: string)
    requires t != []
    ensures forall j: nat :: OccursAt(t, p, j + 1) <==> OccursAt(t[1..], p, j)
  {
    forall j: nat ensures OccursAt(t, p, j + 1) <==> OccursAt(t[1..], p, j) {
      if j + 1 <= |t| { assert t[j + 1..] == t[1..][j..]; }
    }
  }

  /** `find` finds the first occurrence, and finds one exactly when there is one */
  lemma {:induction false} FirstIndexSpec(t: string, p: string)
    ensures FirstIndex(t, p).Some? <==> Contains(t, p)
    ensures FirstIndex(t, p).Some? ==> NoneBefore(t, p, FirstIndex(t, p).value)
    ensures FirstIndex(t, p).None? ==> Nowhere(t, p)
    decreases |t|
  {
    if !(p <= t) {
      if t == [] {
        forall j: nat ensures !OccursAt(t, p, j) {
          if j == 0 { assert t[j..] == t; }
        }
      } else {
        FirstIndexSpec(t[1..], p);
        OccursInTail(t, p);
        forall j: nat ensures OccursAt(t, p, j) <==> j > 0 && OccursAt(t[1..], p, j - 1) {
          if j == 0 { assert t[j..] == t; } else { assert j == (j - 1) + 1; }
        }
      }
    }
  }

  /** `t.rfind(p)`: the last index at which `p` occurs, if any */
  function LastIndex(t: string, p: string): (r: Option<nat>)
    ensures r.Some? ==> OccursAt(t, p, r.value)
    decreases |t|
  {
    if |t| < |p| then None
    else if p <= t[|t| - |p|..] then Some(|t| - |p|)
    else
      match LastIndex(t[..|t| - 1], p)
      case None => None
      case Some(i) =>
        assert t[..|t| - 1][i..][..|p|] == t[i..][..|p|];
        Some(i)
  }

  /** `rfind` finds the last occurrence, and none only when there is none */
  lemma {:induction false} LastIndexSpec(t: string, p: string)
    ensures LastIndex(t, p).Some? ==> NoneAfter(t, p, LastIndex(t, p).value)
    ensures LastIndex(t, p).None? ==> Nowhere(t, p)
    decreases |t|
  {
    if |t| >= |p| && !(p <= t[|t| - |p|..]) {
      LastIndexSpec(t[..|t| - 1], p);
      OccursInInit(t, p);
    }
  }

  /** `s.rfind(c)` for a single character */
  function LastIndexOf(s: string, c: char): (r: Option<nat>)
    ensures r.Some? ==> r.value < |s| && s[r.value] == c && c !in s[r.value + 1..]
    ensures r.None? ==> c !in s
  {
    if s == [] then None
    else if s[|s| - 1] == c then Some(|s| - 1)
    else
      var u := s[..|s| - 1];
      match LastIndexOf(u, c)
      case None =>
        assert s == u + [s[|s| - 1]];
        None
      case Some(k) =>
        assert s[k + 1..] == u[k + 1..] + [s[|s| - 1]];
        Some(k)
  }

  /** The last `c` of `a + [c] + b` is the one after `a` when `b` has none */
  lemma LastIndexOfSplit(a: string, c: char, b: string)
    requires c !in b
    ensures LastIndexOf(a + [c] + b, c) == Some(|a|)
  {
    var s := a + [c] + b;
    assert s[|a|] == c;
    var r := LastIndexOf(s, c);
    assert s[|a| + 1..] == b;
  }

  /** When `p` does not end `t`, its occurrences in `t` are those in `t` without its last character */
  lemma OccursInInit(t: string, p: string)
    requires |p| <= |t| && !(p <= t[|t| - |p|..])
    ensures forall j: nat :: OccursAt(t, p, j) ==> OccursAt(t[..|t| - 1], p, j)
  {
    forall j: nat | OccursAt(t, p, j) ensures OccursAt(t[..|t| - 1], p, j) {
      assert j + |p| < |t|;
      assert t[..|t| - 1][j..][..|p|] == t[j..][..|p|];
    }
  }

  /** `t.replace(p, rep)` for a non-empty `p`: the occurrences of `p`, found left to right
      without overlap, each replaced by `rep` */
  function ReplaceAll(t: string, p: string, rep: string): string
    requires p != []
    decreases |t|
  {
    if t == [] then []
    else if p <= t then rep + ReplaceAll(t[|p|..], p, rep)
    else [t[0]] + ReplaceAll(t[1..], p, rep)
  }

  // ---------------------------------------------------------------------------------------
  // Facts about the operations above

  /** `sep.join` of a list whose head is `x`: `x`, then the separator and the rest, if any */
  lemma JoinCons(x: string, rest: seq<string>, sep: string)
    ensures Join([x] + rest, sep) == x + (if rest == [] then [] else sep + Join(rest, sep))
  {
    assert ([x] + rest)[1..] == rest;
  }

  /** Putting a character in front of the first part puts it in front of the join */
  lemma JoinConsHead(c: char, parts: seq<string>, sep: string)
    requires parts != []
    ensures Join([[c] + parts[0]] + parts[1..], sep) == [c] + Join(parts, sep)
  {
    assert parts == [parts[0]] + parts[1..];
    JoinCons(parts[0], parts[1..], sep);
    JoinCons([c] + parts[0], parts[1..], sep);
  }

  /** Joining two non-empty lists is joining each and putting the separator between them */
  lemma {:induction false} JoinAppend(xs: seq<string>, ys: seq<string>, sep: string)
    requires xs != [] && ys != []
    ensures Join(xs + ys, sep) == Join(xs, sep) + sep + Join(ys, sep)
    decreases |xs|
  {
    assert xs + ys == [xs[0]] + (xs[1..] + ys);
    JoinCons(xs[0], xs[1..] + ys, sep);
    JoinCons(xs[0], xs[1..], sep);
    if |xs| > 1 {
      JoinAppend(xs[1..], ys, sep);
    }
  }

  /** `sep.join(s.split(sep)) == s`: splitting loses nothing */
  lemma {:induction false} JoinSplit(s: string, sep: string)
    requires sep != []
    ensures Join(Split(s, sep), sep) == s
    decreases |s|
  {
    if s == [] {
    } else if sep <= s {
      JoinSplit(s[|sep|..], sep);
      JoinCons([], Split(s[|sep|..], sep), sep);
      assert s == sep + s[|sep|..];
    } else {
      JoinSplit(s[1..], sep);
      JoinConsHead(s[0], Split(s[1..], sep), sep);
      assert s == [s[0]] + s[1..];
    }
  }

  /** `t.replace(p, rep) == rep.join(t.split(p))`: every occurrence of `p` becomes `rep`
      and the text between occurrences is kept */
  lemma {:induction false} ReplaceAllIsJoin(t: string, p: string, rep: string)
    requires p != []
    ensures ReplaceAll(t, p, rep) == Join(Split(t, p), rep)
    decreases |t|
  {
    if t == [] {
    } else if p <= t {
      ReplaceAllIsJoin(t[|p|..], p, rep);
      JoinCons([], Split(t[|p|..], p), rep);
    } else {
      ReplaceAllIsJoin(t[1..], p, rep);
      JoinConsHead(t[0], Split(t[1..], p), rep);
    }
  }

  /** Replacing a pattern that does not occur changes nothing */
  lemma {:induction false} ReplaceAbsent(t: string, p: string, rep: string)
    requires p != [] && !Contains(t, p)
    ensures ReplaceAll(t, p, rep) == t
    decreases |t|
  {
    if t != [] {
      ReplaceAbsent(t[1..], p, rep);
      assert t == [t[0]] + t[1..];
    }
  }

  /** Once a pattern occurs, its replacement occurs in the result */
  lemma {:induction false} ReplacePresent(t: string, p: string, rep: string)
    requires p != [] && Contains(t, p)
    ensures Contains(ReplaceAll(t, p, rep), rep)
    decreases |t|
  {
    if p <= t {
      ContainsPrefix(rep, ReplaceAll(t[|p|..], p, rep));
    } else {
      var r := ReplaceAll(t[1..], p, rep);
      ReplacePresent(t[1..], p, rep);
      assert ([t[0]] + r)[1..] == r;
    }
  }

  lemma ContainsPrefix(a: string, b: string)
    ensures Contains(a + b, a)
  {
  }

  /** What a text contains, it still contains with more text after it */
  lemma {:induction false} ContainsAppend(a: string, b: string, c: string)
    requires Contains(a, c)
    ensures Contains(a + b, c)
    decreases |a|
  {
    if !(c <= a) {
      ContainsAppend(a[1..], b, c);
      assert (a + b)[1..] == a[1..] + b;
    }
  }

  /** Containment of texts is transitive */
  lemma {:induction false} ContainsWithin(a: string, b: string, c: string)
    requires Contains(a, b) && Contains(b, c)
    ensures Contains(a, c)
    decreases |a|
  {
    if b <= a {
      ContainsAppend(b, a[|b|..], c);
      assert a == b + a[|b|..];
    } else {
      ContainsWithin(a[1..], b, c);
    }
  }

  /** What a text contains, it still contains with more text before it */
  lemma {:induction false} ContainsAfter(a: string, b: string, c: string)
    requires Contains(b, c)
    ensures Contains(a + b, c)
    decreases |a|
  {
    if a == [] {
      assert a + b == b;
    } else {
      ContainsAfter(a[1..], b, c);
      assert (a + b)[1..] == a[1..] + b;
    }
  }

  /** The first piece of `s.split(c)` is the text before the first `c`, or all of `s` */
  lemma {:induction false} SplitFirst(s: string, c: char)
    ensures var h := Split(s, [c])[0];
      h <= s && c !in h && (h == s || s[|h|] == c)
    decreases |s|
  {
    if s != [] && !([c] <= s) {
      SplitFirst(s[1..], c);
      assert s[0] != c;
      assert s == [s[0]] + s[1..];
    }
  }

  /** A text without the separator character is a single piece */
  lemma {:induction false} SplitNone(x: string, c: char)
    requires c !in x
    ensures Split(x, [c]) == [x]
    decreases |x|
  {
    if x != [] {
      SplitNone(x[1..], c);
      assert x == [x[0]] + x[1..];
    }
  }

  /** A piece without the separator character, then the separator, starts a new piece */
  lemma {:induction false} SplitAfter(x: string, c: char, rest: string)
    requires c !in x
    ensures Split(x + [c] + rest, [c]) == [x] + Split(rest, [c])
    decreases |x|
  {
    var u := x + [c] + rest;
    if x == [] {
      assert u == [c] + rest && [c] <= u;
      assert u[1..] == rest;
    } else {
      assert u[0] == x[0] && x[0] != c;
      assert !([c] <= u);
      assert u[1..] == x[1..] + [c] + rest;
      SplitAfter(x[1..], c, rest);
      assert Split(u, [c]) == [[u[0]] + x[1..]] + Split(rest, [c]);
      assert x == [x[0]] + x[1..];
    }
  }

  /** Text on both sides of a separator character splits into the pieces of each side */
  lemma {:induction false} SplitConcat(x: string, c: char, y: string)
    ensures Split(x + [c] + y, [c]) == Split(x, [c]) + Split(y, [c])
    decreases |x|
  {
    var u := x + [c] + y;
    if x == [] {
      assert u == [c] + y && [c] <= u;
      assert u[1..] == y;
    } else if x[0] == c {
      assert [c] <= u && [c] <= x;
      assert u[1..] == x[1..] + [c] + y;
      SplitConcat(x[1..], c, y);
    } else {
      assert u[0] == x[0] && !([c] <= u) && !([c] <= x);
      assert u[1..] == x[1..] + [c] + y;
      SplitConcat(x[1..], c, y);
    }
  }

  /** `s.join(parts).split(s) == parts` for a one-character separator the parts do not contain */
  lemma {:induction false} SplitJoin(parts: seq<string>, c: char)
    requires parts != []
    requires NoneHas(parts, c)
    ensures Split(Join(parts, [c]), [c]) == parts
    decreases |parts|
  {
    if |parts| == 1 {
      SplitNone(parts[0], c);
    } else {
      SplitJoin(parts[1..], c);
      SplitAfter(parts[0], c, Join(parts[1..], [c]));
      assert parts == [parts[0]] + parts[1..];
    }
  }

  /** The lines of text assembled from lines without newlines are those lines */
  lemma LinesOfUnlines(lines: seq<string>)
    requires lines != []
    requires NoneHas(lines, '\n')
    ensures Lines(Unlines(lines)) == lines
  {
    SplitJoin(lines, '\n');
  }

  /** Splitting a text at an index and putting it back together */
  lemma TakeDrop(s: string, i: nat)
    requires i <= |s|
    ensures s[..i] + s[i..] == s
  {
  }

  lemma Assoc(a: string, b: string, c: string)
    ensures a + b + c == a + (b + c)
  {
  }

  /** Whitespace followed by nothing or by a non-blank character: `^\s*` takes exactly it */
  lemma LeadingSpacesOf(a: string, b: string)
    requires AllSpace(a) && (b == [] || !IsSpace(b[0]))
    ensures LeadingSpaces(a + b) == |a|
  {
    assert LeadingSpaces(b) == 0;
    LeadingSpacesAppend(a, b);
  }

  /** Leading whitespace does not change what `lstrip` leaves */
  lemma {:induction false} LeadingSpacesAppend(a: string, b: string)
    requires AllSpace(a)
    ensures LeadingSpaces(a + b) == |a| + LeadingSpaces(b)
    decreases |a|
  {
    if a != [] {
      var u := a + b;
      assert u[0] == a[0];
      assert u[1..] == a[1..] + b;
      assert AllSpace(a[1..]) by {
        forall i | 0 <= i < |a| - 1 ensures IsSpace(a[1..][i]) {
          assert a[1..][i] == a[i + 1];
        }
      }
      LeadingSpacesAppend(a[1..], b);
    } else {
      assert a + b == b;
    }
  }

  lemma TrimLeftSpaces(a: string, b: string)
    requires AllSpace(a)
    ensures TrimLeft(a + b) == TrimLeft(b)
  {
    LeadingSpacesAppend(a, b);
    assert (a + b)[|a| + LeadingSpaces(b)..] == b[LeadingSpaces(b)..];
  }

  /** Text after a part that is not all whitespace survives `lstrip` untouched */
  lemma {:induction false} LeadingSpacesWithin(a: string, b: string)
    requires LeadingSpaces(a) < |a|
    ensures LeadingSpaces(a + b) == LeadingSpaces(a)
    decreases |a|
  {
    var u := a + b;
    assert u[0] == a[0];
    if IsSpace(a[0]) {
      assert u[1..] == a[1..] + b;
      LeadingSpacesWithin(a[1..], b);
    }
  }

  lemma TrimLeftKeep(a: string, b: string)
    requires TrimLeft(a) != []
    ensures TrimLeft(a + b) == TrimLeft(a) + b
  {
    LeadingSpacesWithin(a, b);
    assert (a + b)[LeadingSpaces(a)..] == a[LeadingSpaces(a)..] + b;
  }

  /** Trailing whitespace after a part that ends in non-whitespace is what `rstrip` removes */
  lemma {:induction false} TrailingSpacesAppend(a: string, b: string)
    requires AllSpace(b)
    requires a == [] || !IsSpace(a[|a| - 1])
    ensures TrailingSpaces(a + b) == |b|
    decreases |b|
  {
    if b != [] {
      var u := a + b;
      assert u[|u| - 1] == b[|b| - 1];
      assert u[..|u| - 1] == a + b[..|b| - 1];
      TrailingSpacesAppend(a, b[..|b| - 1]);
    } else {
      assert a + b == a;
    }
  }

  lemma TrimRightSpaces(a: string, b: string)
    requires AllSpace(b)
    requires a == [] || !IsSpace(a[|a| - 1])
    ensures TrimRight(a + b) == a
  {
    TrailingSpacesAppend(a, b);
    assert (a + b)[..|a|] == a;
  }

  /** A word followed by whitespace or nothing is the first word */
  lemma {:induction false} FirstWordOf(w: string, rest: string)
    requires NoSpace(w)
    requires rest == [] || IsSpace(rest[0])
    ensures FirstWord(w + rest) == w
    decreases |w|
  {
    if w != [] {
      assert (w + rest)[1..] == w[1..] + rest;
      FirstWordOf(w[1..], rest);
    } else {
      assert w + rest == rest;
    }
  }

  /** Leading whitespace does not change the words of a text */
  lemma {:induction false} WordsSpaces(a: string, b: string)
    requires AllSpace(a)
    ensures Words(a + b) == Words(b)
    decreases |a|
  {
    if a != [] {
      var u := a + b;
      assert u[0] == a[0] && IsSpace(u[0]);
      assert u[1..] == a[1..] + b;
      assert AllSpace(a[1..]) by {
        forall i | 0 <= i < |a| - 1 ensures IsSpace(a[1..][i]) {
          assert a[1..][i] == a[i + 1];
        }
      }
      WordsSpaces(a[1..], b);
    } else {
      assert a + b == b;
    }
  }

  /** A word followed by whitespace or nothing is the first of the words */
  lemma WordsCons(w: string, rest: string)
    requires IsWord(w)
    requires rest == [] || IsSpace(rest[0])
    ensures Words(w + rest) == [w] + Words(rest)
  {
    FirstWordOf(w, rest);
    assert (w + rest)[0] == w[0];
    assert (w + rest)[|w|..] == rest;
  }

  /** `sep.join(words).split() == words` for a whitespace separator: the lists the
      manifest renders read back as the words they were made of */
  lemma {:induction false} WordsJoin(words: seq<string>, sep: string)
    requires sep != [] && AllSpace(sep)
    requires AllWords(words)
    ensures Words(Join(words, sep)) == words
    decreases |words|
  {
    if words == [] {
    } else if |words| == 1 {
      WordsCons(words[0], []);
      assert words[0] + [] == words[0];
    } else {
      var w := words[0];
      var tail := Join(words[1..], sep);
      JoinCons(w, words[1..], sep);
      assert words == [w] + words[1..];
      assert Join(words, sep) == w + (sep + tail);
      WordsCons(w, sep + tail);
      WordsSpaces(sep, tail);
      WordsJoin(words[1..], sep);
    }
  }
}
