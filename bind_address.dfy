/**
 * The ZEO server's listening address (`Environment.set_zeo_bind_port`): every
 * `address [host:]port` line of a zeo.conf is rewritten to `address BIND:PORT`, and a
 * configuration left without any `address` directive gets one appended.
 */
module BindAddress {
  import opened Wrappers
  import opened Text
  import opened Environ
  import opened AddressLine

  const DefaultBind := "127.0.0.1"

  /** `env.get("ZEO_PORT", "").strip()`; the step does nothing when it is empty */
  function ZeoPort(env: Env): string {
    Strip(Get(env, "ZEO_PORT", ""))
  }

  /** `env.get("ZEO_BIND", "").strip() or "127.0.0.1"` */
  function ZeoBind(env: Env): string {
    var b := Strip(Get(env, "ZEO_BIND", ""));
    if b == [] then DefaultBind else b
  }

  /** The bind address is ZEO_BIND without surrounding whitespace, or the loopback address
      when ZEO_BIND is unset, empty or blank; either way it starts with a non-blank character */
  lemma ZeoBindDefault(env: Env)
    ensures AllSpace(Get(env, "ZEO_BIND", "")) ==> ZeoBind(env) == DefaultBind
    ensures !AllSpace(Get(env, "ZEO_BIND", "")) ==> ZeoBind(env) == Strip(Get(env, "ZEO_BIND", ""))
    ensures ZeoBind(env) != [] && !IsSpace(ZeoBind(env)[0])
  {
    StripEmpty(Get(env, "ZEO_BIND", ""));
  }

  /** The substitution applied to each line */
  function BindLines(lines: seq<string>, bind: string, port: string): seq<string> {
    seq(|lines|, i requires 0 <= i < |lines| => BindLine(lines[i], bind, port))
  }

  /** The `re.sub` of the address pattern over the whole text */
  function RewriteBind(text: string, bind: string, port: string): string {
    Unlines(BindLines(Lines(text), bind, port))
  }

  /** A line where `^\s*address\s+` matches; the whitespace after the name may be the
      newline that ends the line, so a bare `address` counts unless it is the last line */
  predicate DirectiveLine(line: string, last: bool) {
    var t := TrimLeft(line);
    "address" <= t && ((|t| > 7 && IsSpace(t[7])) || (|t| == 7 && !last))
  }

  /** `re.search(r'^\s*address\s+', text, flags=re.M)` */
  predicate HasDirective(text: string) {
    var lines := Lines(text);
    exists i :: 0 <= i < |lines| && DirectiveLine(lines[i], i == |lines| - 1)
  }

  /** The line the step appends when no directive is left */
  function AppendedLine(bind: string, port: string): string {
    "  address " + bind + ":" + port
  }

  /** The rewritten text of one zeo.conf */
  function BindText(text: string, bind: string, port: string): string {
    var rewritten := RewriteBind(text, bind, port);
    if HasDirective(rewritten) then rewritten else rewritten + "\n" + AppendedLine(bind, port) + "\n"
  }

  /** What the step writes to one zeo.conf: the rewritten text, only when it differs */
  function BindWrite(text: string, bind: string, port: string): Option<string> {
    var rewritten := BindText(text, bind, port);
    if rewritten != text then Some(rewritten) else None
  }

  // ---------------------------------------------------------------------------------------

  /** The rewrite of a line is still one line */
  lemma BindLineNoNewline(line: string, bind: string, port: string)
    requires '\n' !in line && '\n' !in bind && '\n' !in port
    ensures '\n' !in BindLine(line, bind, port)
  {
    match MatchLine(line, "address", false)
    case None =>
    case Some(m) =>
      MatchLineSound(line, "address", false);
      assert Lead(m, "address") + Value(m) == line;
  }

  /** The rewrite works line by line: the lines of the result are the rewritten lines */
  lemma RewriteBindLines(text: string, bind: string, port: string)
    requires '\n' !in bind && '\n' !in port
    ensures Lines(RewriteBind(text, bind, port)) == BindLines(Lines(text), bind, port)
  {
    var lines := Lines(text);
    var out := BindLines(lines, bind, port);
    forall i | 0 <= i < |out| ensures '\n' !in out[i] {
      BindLineNoNewline(lines[i], bind, port);
    }
    LinesOfUnlines(out);
  }

  /** The lines of a text with a line and a newline appended */
  lemma LinesAppended(text: string, line: string)
    requires '\n' !in line
    ensures Lines(text + "\n" + line + "\n") == Lines(text) + [line, []]
  {
    var u := text + "\n" + line + "\n";
    assert u == text + ['\n'] + (line + ['\n'] + []);
    SplitConcat(text, '\n', line + ['\n'] + []);
    SplitConcat(line, '\n', []);
    SplitNone(line, '\n');
  }

  /** A line that starts with the appended line's indentation and name is a directive */
  lemma AppendedIsDirective(z: string)
    ensures DirectiveLine("  address " + z, false)
  {
    var rest := "address " + z;
    assert "  address " + z == "  " + rest;
    TrimLeftSpaces("  ", rest);
    TrimLeftNone(rest);
  }

  /** A text ending with a newline has a first line before that newline, and more lines
      after it */
  lemma FirstLineBefore(y: string)
    requires y != [] && y[|y| - 1] == '\n'
    ensures var h := Split(y, "\n")[0];
      |Split(y, "\n")| > 1 && h <= y && |h| < |y| && y[|h|] == '\n'
  {
    SplitFirst(y, '\n');
    var h := Split(y, "\n")[0];
    assert |h| < |y|;
    var rest := y[|h| + 1..];
    assert y == h + ['\n'] + rest;
    SplitAfter(h, '\n', rest);
  }

  /** The line after a text and a newline is the first line of what follows the newline,
      and it is not the last line when what follows ends with a newline */
  lemma LineAfter(text: string, y: string)
    requires y != [] && y[|y| - 1] == '\n'
    ensures var lines, h := Lines(text + "\n" + y), Split(y, "\n")[0];
      |lines| > |Lines(text)| + 1 && lines[|Lines(text)|] == h
      && h <= y && |h| < |y| && y[|h|] == '\n'
  {
    SplitConcat(text, '\n', y);
    FirstLineBefore(y);
  }

  /** The first line of the appended text is a directive, whatever follows the name */
  lemma AppendedFirstLine(z: string)
    ensures DirectiveLine(Split("  address " + z + "\n", "\n")[0], false)
  {
    var y := "  address " + z + "\n";
    FirstLineBefore(y);
    var h := Split(y, "\n")[0];
    assert |h| >= 10 by {
      assert forall i :: 0 <= i < 10 ==> y[i] == "  address "[i];
    }
    assert h == "  address " + h[10..];
    AppendedIsDirective(h[10..]);
  }

  /** Any text with the directive line appended has a directive */
  lemma AppendedHasDirective(text: string, bind: string, port: string)
    ensures HasDirective(text + "\n" + AppendedLine(bind, port) + "\n")
  {
    var z := bind + ":" + port;
    var y := "  address " + z + "\n";
    assert text + "\n" + AppendedLine(bind, port) + "\n" == text + "\n" + y;
    LineAfter(text, y);
    AppendedFirstLine(z);
    var lines := Lines(text + "\n" + y);
    assert DirectiveLine(lines[|Lines(text)|], |Lines(text)| == |lines| - 1);
  }

  /** After the step a zeo.conf always has an address directive, whatever the bind address
      and port hold */
  lemma BindTextHasDirective(text: string, bind: string, port: string)
    ensures HasDirective(BindText(text, bind, port))
  {
    var rewritten := RewriteBind(text, bind, port);
    if !HasDirective(rewritten) {
      AppendedHasDirective(rewritten, bind, port);
    }
  }

  /** Every line of `text` is left alone by the rewrite */
  predicate AllFixed(text: string, bind: string, port: string) {
    forall i :: 0 <= i < |Lines(text)| ==> BindLine(Lines(text)[i], bind, port) == Lines(text)[i]
  }

  /** Lines that the rewrite leaves alone make a text it leaves alone */
  lemma RewriteFixed(text: string, bind: string, port: string)
    requires AllFixed(text, bind, port)
    ensures RewriteBind(text, bind, port) == text
  {
    assert BindLines(Lines(text), bind, port) == Lines(text);
    JoinSplit(text, "\n");
  }

  /** The rewrite leaves its own lines alone */
  lemma RewrittenFixed(text: string, bind: string, port: string)
    requires bind != [] && !IsSpace(bind[0]) && '\n' !in bind && '\n' !in port
    ensures AllFixed(RewriteBind(text, bind, port), bind, port)
  {
    RewriteBindLines(text, bind, port);
    var lines := Lines(text);
    var out := RewriteBind(text, bind, port);
    forall i | 0 <= i < |lines| ensures BindLine(Lines(out)[i], bind, port) == Lines(out)[i] {
      BindLineIdempotent(lines[i], bind, port);
    }
  }

  /** The appended line is left alone by the rewrite */
  lemma AppendedLineFixed(bind: string, port: string)
    requires bind != [] && !IsSpace(bind[0])
    ensures BindLine(AppendedLine(bind, port), bind, port) == AppendedLine(bind, port)
  {
    assert AppendedLine(bind, port) == "  " + "address" + SepText(Spaces(" ")) + (bind + ":" + port);
    BindLineFixed("  ", Spaces(" "), bind, port);
  }

  /** The appended line, and the empty line after it, are left alone */
  lemma AppendedFixed(text: string, bind: string, port: string)
    requires bind != [] && !IsSpace(bind[0]) && '\n' !in bind && '\n' !in port
    requires AllFixed(text, bind, port)
    ensures AllFixed(text + "\n" + AppendedLine(bind, port) + "\n", bind, port)
  {
    var a := AppendedLine(bind, port);
    var lines := Lines(text);
    var all := lines + [a, []];
    LinesAppended(text, a);
    forall i | 0 <= i < |all| ensures BindLine(all[i], bind, port) == all[i] {
      if i < |lines| {
        assert all[i] == lines[i];
      } else if i == |lines| {
        AppendedLineFixed(bind, port);
      } else {
        assert MatchLine([], "address", false).None?;
      }
    }
  }

  /** The step's own output is left as it is: a second run writes nothing */
  lemma BindTextIdempotent(text: string, bind: string, port: string)
    requires bind != [] && !IsSpace(bind[0]) && '\n' !in bind && '\n' !in port
    ensures BindText(BindText(text, bind, port), bind, port) == BindText(text, bind, port)
    ensures BindWrite(BindText(text, bind, port), bind, port) == None
  {
    var rewritten := RewriteBind(text, bind, port);
    RewrittenFixed(text, bind, port);
    if !HasDirective(rewritten) {
      AppendedFixed(rewritten, bind, port);
    }
    var out := BindText(text, bind, port);
    RewriteFixed(out, bind, port);
    BindTextHasDirective(text, bind, port);
  }
}
