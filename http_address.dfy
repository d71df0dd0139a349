/**
 * The instance's HTTP port (`Environment.set_http_port`): in zope.conf, every
 * `http-address [=] [host:]port` line and then every `address [=] [host:]port` line gets
 * HTTP_PORT as its port, keeping its host.
 */
module HttpAddress {
  import opened Wrappers
  import opened Text
  import opened Environ
  import opened AddressLine

  /** `env.get("HTTP_PORT", "").strip()`; the step does nothing when it is empty */
  function HttpPort(env: Env): string {
    Strip(Get(env, "HTTP_PORT", ""))
  }

  /** One pattern's substitution applied to each line */
  function HttpLines(lines: seq<string>, key: string, port: string): seq<string> {
    seq(|lines|, i requires 0 <= i < |lines| => HttpLine(lines[i], key, port))
  }

  /** The `re.sub` of the pattern for `key` over the whole text */
  function RewriteHttp(text: string, key: string, port: string): string {
    Unlines(HttpLines(Lines(text), key, port))
  }

  /** The two substitutions, `http-address` first */
  function HttpText(text: string, port: string): string {
    RewriteHttp(RewriteHttp(text, "http-address", port), "address", port)
  }

  /** What the step writes to zope.conf: the new text, only when it differs */
  function HttpWrite(text: string, port: string): Option<string> {
    var rewritten := HttpText(text, port);
    if rewritten != text then Some(rewritten) else None
  }

  /** Both substitutions on one line */
  function BothLines(line: string, port: string): string {
    HttpLine(HttpLine(line, "http-address", port), "address", port)
  }

  // ---------------------------------------------------------------------------------------

  /** The rewrite of a line is still one line */
  lemma HttpLineNoNewline(line: string, key: string, port: string)
    requires '\n' !in line && '\n' !in port
    ensures '\n' !in HttpLine(line, key, port)
  {
    match MatchLine(line, key, true)
    case None =>
    case Some(m) =>
      MatchLineSound(line, key, true);
      assert Lead(m, key) + Value(m) == line;
      assert HostPart(m.host) <= Value(m);
  }

  /** Each substitution works line by line */
  lemma RewriteHttpLines(text: string, key: string, port: string)
    requires '\n' !in port
    ensures Lines(RewriteHttp(text, key, port)) == HttpLines(Lines(text), key, port)
  {
    var lines := Lines(text);
    var out := HttpLines(lines, key, port);
    forall i | 0 <= i < |out| ensures '\n' !in out[i] {
      HttpLineNoNewline(lines[i], key, port);
    }
    LinesOfUnlines(out);
  }

  /** The whole step is both substitutions applied to each line */
  lemma HttpTextByLine(text: string, port: string)
    requires '\n' !in port
    ensures var lines := Lines(text);
      HttpText(text, port) == Unlines(seq(|lines|, i requires 0 <= i < |lines| => BothLines(lines[i], port)))
  {
    var lines := Lines(text);
    var first := HttpLines(lines, "http-address", port);
    RewriteHttpLines(text, "http-address", port);
    assert HttpLines(first, "address", port)
      == seq(|lines|, i requires 0 <= i < |lines| => BothLines(lines[i], port));
  }

  /** A line rewritten for `http-address` is not touched by the `address` pattern, so each
      line is rewritten by at most one of the two */
  lemma BothLinesOnce(line: string, port: string)
    ensures MatchLine(line, "http-address", true).Some? ==>
      BothLines(line, port) == HttpLine(line, "http-address", port)
    ensures MatchLine(line, "http-address", true).None? ==>
      BothLines(line, port) == HttpLine(line, "address", port)
  {
    var key := "http-address";
    match MatchLine(line, key, true)
    case None =>
    case Some(m) =>
      HttpLineShape(line, key, port);
      OtherKey(m.indent, key, SepText(m.sep) + (HostPart(m.host) + port), "address", true);
  }

  /** A line the `address` pattern rewrote is not touched by the `http-address` pattern */
  lemma AddressLineUntouched(line: string, port: string)
    requires MatchLine(line, "address", true).Some?
    ensures MatchLine(HttpLine(line, "address", port), "http-address", true) == None
  {
    var key := "address";
    var m := MatchLine(line, key, true).value;
    HttpLineShape(line, key, port);
    OtherKey(m.indent, key, SepText(m.sep) + (HostPart(m.host) + port), "http-address", true);
  }

  /** Rewriting a line twice gives what rewriting it once gave */
  lemma BothLinesIdempotent(line: string, port: string)
    requires IsPortText(port)
    ensures BothLines(BothLines(line, port), port) == BothLines(line, port)
  {
    var once := BothLines(line, port);
    BothLinesOnce(line, port);
    if MatchLine(line, "http-address", true).Some? {
      HttpLineIdempotent(line, "http-address", port);
      BothLinesOnce(once, port);
      BothLinesOnce(HttpLine(line, "http-address", port), port);
    } else if MatchLine(line, "address", true).Some? {
      AddressLineUntouched(line, port);
      BothLinesOnce(once, port);
      HttpLineIdempotent(line, "address", port);
    } else {
      assert once == line;
    }
  }

  /** Running the step on its own output changes nothing, so it writes nothing */
  lemma HttpTextIdempotent(text: string, port: string)
    requires IsPortText(port) && '\n' !in port
    ensures HttpText(HttpText(text, port), port) == HttpText(text, port)
    ensures HttpWrite(HttpText(text, port), port) == None
  {
    var lines := Lines(text);
    var both := seq(|lines|, i requires 0 <= i < |lines| => BothLines(lines[i], port));
    var out := HttpText(text, port);
    HttpTextByLine(text, port);
    forall i | 0 <= i < |both| ensures '\n' !in both[i] {
      HttpLineNoNewline(lines[i], "http-address", port);
      HttpLineNoNewline(HttpLine(lines[i], "http-address", port), "address", port);
    }
    LinesOfUnlines(both);
    HttpTextByLine(out, port);
    forall i | 0 <= i < |both| ensures BothLines(both[i], port) == both[i] {
      BothLinesIdempotent(lines[i], port);
    }
    var again := seq(|both|, i requires 0 <= i < |both| => BothLines(both[i], port));
    assert again == both;
  }

  /** The match of `http-address 0.0.0.0:8080` */
  const ExampleMatch := Match([], Spaces(" "), Some("0.0.0.0"), "8080", [])

  lemma ExampleMatchRenders()
    ensures Render(ExampleMatch, "http-address") == "http-address 0.0.0.0:8080"
    ensures WellFormed(ExampleMatch, true)
    ensures Lead(ExampleMatch, "http-address") + (HostPart(ExampleMatch.host) + "8081") == "http-address 0.0.0.0:8081"
  {
    var key := "http-address";
    var m := ExampleMatch;
    assert Lead(m, key) == "http-address " by {
      assert [] + key == key;
    }
    assert Value(m) == "0.0.0.0:8080";
    assert IsHost("0.0.0.0") && IsNumber("8080") && AllSpace(" ");
  }

  /** `http-address 0.0.0.0:8080` with HTTP_PORT=8081 becomes `http-address 0.0.0.0:8081` */
  lemma HttpExample()
    ensures HttpLine("http-address 0.0.0.0:8080", "http-address", "8081") == "http-address 0.0.0.0:8081"
  {
    ExampleMatchRenders();
    HttpLineRewrites(ExampleMatch, "http-address", "8081");
  }
}
