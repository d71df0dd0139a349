/**
 * The start-up sequence (`Environment.setup`): seven steps, in order, each reading the
 * environment and rewriting at most its own configuration files. A missing zope.conf in
 * the ZEO client step and a ZEO_ADDRESS with two colons in the zeopack step raise, which
 * ends the sequence with the files written so far kept.
 *
 * Each step is a method of `Environment` proved against a function from the files before
 * to the files after; the lemmas at the end are about those functions.
 */
module Startup {
  import opened Wrappers
  import opened Text
  import opened Environ
  import opened Files
  import Manifest
  import CorsPolicy
  import ZeoClient
  import PackScript
  import KeepOld
  import BindAddress
  import HttpAddress
  import AddressLine

  const DefaultZopeConf := "/home/senaite/senaitelims/parts/instance/etc/zope.conf"
  const DefaultCustomConf := "/home/senaite/senaitelims/custom.cfg"
  const DefaultZeopackConf := "/home/senaite/senaitelims/bin/zeopack"
  const DefaultCorsConf :=
    "/home/senaite/senaitelims/parts/instance/etc/package-includes/999-additional-overrides.zcml"

  /** zeo.conf lives in parts/zeo or parts/zeoserver, depending on the buildout */
  const ZeoConfs := ["/home/senaite/senaitelims/parts/zeo/etc/zeo.conf",
                     "/home/senaite/senaitelims/parts/zeoserver/etc/zeo.conf"]

  /** Where the steps find their files */
  datatype Paths = Paths(
    zopeConf: string, customConf: string, zeopackConf: string, corsConf: string,
    zeoConfs: seq<string>)

  // ---- What the steps read from the environment ----------------------------------------

  /** The `<zeoclient>` section, when ZEO_ADDRESS is set */
  function ClientBlock(env: Env): Option<string> {
    match Present(env, "ZEO_ADDRESS")
    case Some(server) => Some(ZeoClient.Block(ZeoClient.Settings(env, server)))
    case None => None
  }

  /** Whether ZEO_PACK_KEEP_OLD asks for `pack-keep-old false` */
  function KeepOldSetting(env: Env): bool {
    KeepOld.IsFalsy(Get(env, "ZEO_PACK_KEEP_OLD", ""))
  }

  /** The ZEO bind address and port, when ZEO_PORT is set */
  function BindSetting(env: Env): Option<(string, string)> {
    var port := BindAddress.ZeoPort(env);
    if port == [] then None else Some((BindAddress.ZeoBind(env), port))
  }

  /** The HTTP port, when HTTP_PORT is set */
  function HttpSetting(env: Env): Option<string> {
    var port := HttpAddress.HttpPort(env);
    if port == [] then None else Some(port)
  }

  /** Everything the seven steps take from the environment */
  datatype Config = Config(
    manifest: Option<string>, cors: Option<string>, block: Option<string>,
    server: Option<string>, keepOld: bool, bind: Option<(string, string)>,
    httpPort: Option<string>)

  function ConfigOf(env: Env): Config {
    Config(
      Manifest.ManifestFor(env),
      CorsPolicy.CorsWrite(env),
      ClientBlock(env),
      Present(env, "ZEO_ADDRESS"),
      KeepOldSetting(env),
      BindSetting(env),
      HttpSetting(env))
  }

  // ---- The steps as functions of the files -----------------------------------------------

  /** A write of `text` to `path`, if there is a text */
  function Put(d: Disk, path: string, text: Option<string>): Disk {
    match text
    case Some(t) => d[path := t]
    case None => d
  }

  /** `buildout`: writes custom.cfg unless it exists */
  function BuildoutFiles(manifest: Option<string>, p: Paths, d: Disk): Disk {
    if p.customConf in d then d else Put(d, p.customConf, manifest)
  }

  /** `cors`: writes the override file when a CORS_* variable is set */
  function CorsFiles(cors: Option<string>, p: Paths, d: Disk): Disk {
    Put(d, p.corsConf, cors)
  }

  /** `zeoclient`: with ZEO_ADDRESS set, zope.conf must exist */
  function ZeoClientFiles(block: Option<string>, p: Paths, d: Disk): Result<Disk> {
    match block
    case None => Ok(d)
    case Some(b) =>
      if p.zopeConf !in d then Err(MissingFile(p.zopeConf))
      else Ok(Put(d, p.zopeConf, ZeoClient.ZeoClientWrite(d[p.zopeConf], b)))
  }

  /** `zeopack`: the address is split before the script is looked for */
  function ZeoPackFiles(server: Option<string>, p: Paths, d: Disk): Result<Disk> {
    match server
    case None => Ok(d)
    case Some(s) =>
      match PackScript.SplitAddress(s)
      case Err(f) => Err(f)
      case Ok((host, port)) =>
        if p.zeopackConf !in d then Ok(d)
        else Ok(d[p.zeopackConf := PackScript.PackText(d[p.zeopackConf], s, host, port)])
  }

  /** `zeoserver` on one zeo.conf */
  function KeepOldConf(conf: string, d: Disk): Disk {
    if conf !in d then d else Put(d, conf, KeepOld.KeepOldWrite(d[conf]))
  }

  /** `zeoserver` on each zeo.conf in turn */
  function KeepOldConfs(confs: seq<string>, d: Disk): Disk {
    if confs == [] then d
    else KeepOldConf(confs[|confs| - 1], KeepOldConfs(confs[..|confs| - 1], d))
  }

  lemma KeepOldConfsStep(confs: seq<string>, i: nat, d: Disk)
    requires i < |confs|
    ensures KeepOldConfs(confs[..i + 1], d) == KeepOldConf(confs[i], KeepOldConfs(confs[..i], d))
  {
    assert confs[..i + 1][..i] == confs[..i];
  }

  /** `zeoserver`: only when ZEO_PACK_KEEP_OLD is falsy */
  function ZeoServerFiles(keepOld: bool, p: Paths, d: Disk): Disk {
    if keepOld then KeepOldConfs(p.zeoConfs, d) else d
  }

  /** `set_zeo_bind_port` on one zeo.conf */
  function BindConf(conf: string, bind: string, port: string, d: Disk): Disk {
    if conf !in d then d else Put(d, conf, BindAddress.BindWrite(d[conf], bind, port))
  }

  /** `set_zeo_bind_port` on each zeo.conf in turn */
  function BindConfs(confs: seq<string>, bind: string, port: string, d: Disk): Disk {
    if confs == [] then d
    else BindConf(confs[|confs| - 1], bind, port, BindConfs(confs[..|confs| - 1], bind, port, d))
  }

  lemma BindConfsStep(confs: seq<string>, i: nat, bind: string, port: string, d: Disk)
    requires i < |confs|
    ensures BindConfs(confs[..i + 1], bind, port, d)
      == BindConf(confs[i], bind, port, BindConfs(confs[..i], bind, port, d))
  {
    assert confs[..i + 1][..i] == confs[..i];
  }

  /** `set_zeo_bind_port`: only when ZEO_PORT is set */
  function BindFiles(bind: Option<(string, string)>, p: Paths, d: Disk): Disk {
    match bind
    case None => d
    case Some((address, port)) => BindConfs(p.zeoConfs, address, port, d)
  }

  /** `set_http_port`: only when HTTP_PORT is set and zope.conf exists */
  function HttpFiles(port: Option<string>, p: Paths, d: Disk): Disk {
    match port
    case None => d
    case Some(pt) =>
      if p.zopeConf !in d then d else Put(d, p.zopeConf, HttpAddress.HttpWrite(d[p.zopeConf], pt))
  }

  /** `setup`: the seven steps in order; the exception of a step ends the sequence */
  function SetupFiles(c: Config, p: Paths, d: Disk): (Option<Failure>, Disk) {
    var d1 := CorsFiles(c.cors, p, BuildoutFiles(c.manifest, p, d));
    match ZeoClientFiles(c.block, p, d1)
    case Err(f) => (Some(f), d1)
    case Ok(d2) =>
      match ZeoPackFiles(c.server, p, d2)
      case Err(f) => (Some(f), d2)
      case Ok(d3) =>
        (None, HttpFiles(c.httpPort, p, BindFiles(c.bind, p, ZeoServerFiles(c.keepOld, p, d3))))
  }

  // ---- The steps as methods --------------------------------------------------------------

  /** The environment the container starts in, the paths of its files and the files */
  class Environment {
    const env: Env
    const paths: Paths
    const fs: FileSystem

    constructor (env: Env, zopeConf: string, customConf: string, zeopackConf: string,
                 corsConf: string, fs: FileSystem)
      ensures this.env == env && this.fs == fs
      ensures paths == Paths(zopeConf, customConf, zeopackConf, corsConf, ZeoConfs)
    {
      this.env := env;
      this.paths := Paths(zopeConf, customConf, zeopackConf, corsConf, ZeoConfs);
      this.fs := fs;
    }

    method Buildout()
      modifies fs
      ensures fs.files == BuildoutFiles(Manifest.ManifestFor(env), paths, old(fs.files))
    {
      var present := fs.Exists(paths.customConf);
      if present {
        return;
      }
      var manifest := Manifest.BuildManifest(env);
      if manifest.None? {
        return;
      }
      fs.Write(paths.customConf, manifest.value);
    }

    method Cors()
      modifies fs
      ensures fs.files == CorsFiles(CorsPolicy.CorsWrite(env), paths, old(fs.files))
    {
      if !CorsPolicy.Triggered(env) {
        return;
      }
      var text := CorsPolicy.CorsText(CorsPolicy.PolicyOf(env));
      fs.Write(paths.corsConf, text);
    }

    method ZeoClientStep() returns (failure: Option<Failure>)
      modifies fs
      ensures match ZeoClientFiles(ClientBlock(env), paths, old(fs.files))
        case Ok(d) => failure == None && fs.files == d
        case Err(f) => failure == Some(f) && fs.files == old(fs.files)
    {
      failure := None;
      var server := Present(env, "ZEO_ADDRESS");
      if server.None? {
        return;
      }
      var read := fs.Read(paths.zopeConf);
      if read.Err? {
        failure := Some(read.failure);
        return;
      }
      var config := read.value;
      if !Contains(config, ZeoClient.Opening) {
        return;
      }
      var block := ZeoClient.Block(ZeoClient.Settings(env, server.value));
      config := ZeoClient.ReplaceBlob(config, block);
      fs.Write(paths.zopeConf, config);
    }

    method ZeoPack() returns (failure: Option<Failure>)
      modifies fs
      ensures match ZeoPackFiles(Present(env, "ZEO_ADDRESS"), paths, old(fs.files))
        case Ok(d) => failure == None && fs.files == d
        case Err(f) => failure == Some(f) && fs.files == old(fs.files)
    {
      failure := None;
      var server := Present(env, "ZEO_ADDRESS");
      if server.None? {
        return;
      }
      var split := PackScript.SplitAddress(server.value);
      if split.Err? {
        failure := Some(split.failure);
        return;
      }
      var (host, port) := split.value;
      var present := fs.Exists(paths.zeopackConf);
      if !present {
        return;
      }
      var read := fs.Read(paths.zeopackConf);
      var text := PackScript.PackText(read.value, server.value, host, port);
      fs.Write(paths.zeopackConf, text);
    }

    method ZeoServer()
      modifies fs
      ensures fs.files == ZeoServerFiles(KeepOldSetting(env), paths, old(fs.files))
    {
      if !KeepOld.IsFalsy(Get(env, "ZEO_PACK_KEEP_OLD", "")) {
        return;
      }
      var confs := paths.zeoConfs;
      for i := 0 to |confs|
        invariant fs.files == KeepOldConfs(confs[..i], old(fs.files))
      {
        KeepOldConfsStep(confs, i, old(fs.files));
        var present := fs.Exists(confs[i]);
        if present {
          var read := fs.Read(confs[i]);
          var text := read.value;
          if !Contains(text, KeepOld.OptionName) {
            text := ReplaceAll(text, KeepOld.Closing, KeepOld.Inserted + KeepOld.Closing);
            fs.Write(confs[i], text);
          }
        }
      }
      assert confs[..|confs|] == confs;
    }

    method SetZeoBindPort()
      modifies fs
      ensures fs.files == BindFiles(BindSetting(env), paths, old(fs.files))
    {
      var port := BindAddress.ZeoPort(env);
      var bind := BindAddress.ZeoBind(env);
      if port == [] {
        return;
      }
      var confs := paths.zeoConfs;
      for i := 0 to |confs|
        invariant fs.files == BindConfs(confs[..i], bind, port, old(fs.files))
      {
        BindConfsStep(confs, i, bind, port, old(fs.files));
        BindOne(confs[i], bind, port);
      }
      assert confs[..|confs|] == confs;
    }

    /** The body of the loop over the zeo.conf files */
    method BindOne(conf: string, bind: string, port: string)
      modifies fs
      ensures fs.files == BindConf(conf, bind, port, old(fs.files))
    {
      var present := fs.Exists(conf);
      if present {
        var read := fs.Read(conf);
        var text := read.value;
        var rewritten := BindAddress.BindText(text, bind, port);
        if rewritten != text {
          fs.Write(conf, rewritten);
        }
      }
    }

    method SetHttpPort()
      modifies fs
      ensures fs.files == HttpFiles(HttpSetting(env), paths, old(fs.files))
    {
      var port := HttpAddress.HttpPort(env);
      if port == [] {
        return;
      }
      var present := fs.Exists(paths.zopeConf);
      if !present {
        return;
      }
      var read := fs.Read(paths.zopeConf);
      var text := read.value;
      var rewritten := HttpAddress.HttpText(text, port);
      if rewritten != text {
        fs.Write(paths.zopeConf, rewritten);
      }
    }

    /** The seven steps; an exception ends the sequence and is reported */
    method Setup() returns (failure: Option<Failure>)
      modifies fs
      ensures (failure, fs.files) == SetupFiles(ConfigOf(env), paths, old(fs.files))
    {
      Buildout();
      Cors();
      failure := ZeoClientStep();
      if failure.Some? {
        return;
      }
      failure := ZeoPack();
      if failure.Some? {
        return;
      }
      ZeoServer();
      SetZeoBindPort();
      SetHttpPort();
    }
  }

  // ---- What the steps promise -------------------------------------------------------------

  /** Outside `touched`, the two sets of files are the same */
  ghost predicate SameOutside(d: Disk, e: Disk, touched: set<string>) {
    forall q :: q !in touched ==> (q in d <==> q in e) && (q in d ==> d[q] == e[q])
  }

  /** The files a start-up may write */
  function Touched(p: Paths): set<string> {
    {p.customConf, p.corsConf, p.zopeConf, p.zeopackConf} + set c | c in p.zeoConfs
  }

  lemma SameOutsideTrans(d1: Disk, d2: Disk, d3: Disk, touched: set<string>)
    requires SameOutside(d1, d2, touched) && SameOutside(d2, d3, touched)
    ensures SameOutside(d1, d3, touched)
  {
  }

  /** Each zeo.conf loop writes nothing but the zeo.conf files */
  lemma {:induction false} KeepOldConfsTouch(confs: seq<string>, d: Disk, touched: set<string>)
    requires forall c :: c in confs ==> c in touched
    ensures SameOutside(d, KeepOldConfs(confs, d), touched)
    decreases |confs|
  {
    if confs != [] {
      KeepOldConfsTouch(confs[..|confs| - 1], d, touched);
    }
  }

  lemma {:induction false} BindConfsTouch(confs: seq<string>, bind: string, port: string, d: Disk,
                                          touched: set<string>)
    requires forall c :: c in confs ==> c in touched
    ensures SameOutside(d, BindConfs(confs, bind, port, d), touched)
    decreases |confs|
  {
    if confs != [] {
      BindConfsTouch(confs[..|confs| - 1], bind, port, d, touched);
    }
  }

  /** Each write leaves the other files alone */
  lemma PutTouch(d: Disk, path: string, text: Option<string>, touched: set<string>)
    requires path in touched
    ensures SameOutside(d, Put(d, path, text), touched)
  {
  }

  /** The steps after the zeopack step write only the zeo.conf files and zope.conf */
  lemma LateStepsTouch(c: Config, p: Paths, d3: Disk, t: set<string>)
    requires p.zopeConf in t && forall q :: q in p.zeoConfs ==> q in t
    ensures SameOutside(d3, HttpFiles(c.httpPort, p, BindFiles(c.bind, p, ZeoServerFiles(c.keepOld, p, d3))), t)
  {
    var d4 := ZeoServerFiles(c.keepOld, p, d3);
    KeepOldConfsTouch(p.zeoConfs, d3, t);
    var d5 := BindFiles(c.bind, p, d4);
    if c.bind.Some? {
      BindConfsTouch(p.zeoConfs, c.bind.value.0, c.bind.value.1, d4, t);
    }
    SameOutsideTrans(d3, d4, d5, t);
    SameOutsideTrans(d3, d5, HttpFiles(c.httpPort, p, d5), t);
  }

  /** A start-up writes no file but the ones it configures, whether it ends normally or by
      an exception */
  lemma SetupTouches(c: Config, p: Paths, d: Disk)
    ensures SameOutside(d, SetupFiles(c, p, d).1, Touched(p))
  {
    var t := Touched(p);
    var d0 := BuildoutFiles(c.manifest, p, d);
    var d1 := CorsFiles(c.cors, p, d0);
    assert SameOutside(d, d1, t) by {
      PutTouch(d0, p.corsConf, c.cors, t);
      SameOutsideTrans(d, d0, d1, t);
    }
    match ZeoClientFiles(c.block, p, d1)
    case Err(_) =>
    case Ok(d2) =>
      SameOutsideTrans(d, d1, d2, t);
      match ZeoPackFiles(c.server, p, d2)
      case Err(_) =>
      case Ok(d3) =>
        SameOutsideTrans(d, d2, d3, t);
        LateStepsTouch(c, p, d3, t);
        SameOutsideTrans(d, d3, SetupFiles(c, p, d).1, t);
  }

  /** The files the steps after the CORS step may write */
  function Later(p: Paths): set<string> {
    {p.zopeConf, p.zeopackConf} + set q | q in p.zeoConfs
  }

  /** The steps after the CORS step leave the override file as that step left it, whether
      the start-up ends normally or by an exception */
  lemma SetupKeepsCors(c: Config, p: Paths, d: Disk)
    requires p.corsConf !in Later(p)
    ensures var e := SetupFiles(c, p, d).1;
      c.cors.Some? ==> p.corsConf in e && e[p.corsConf] == c.cors.value
    ensures var e := SetupFiles(c, p, d).1;
      c.cors.None? && p.corsConf != p.customConf ==>
        (p.corsConf in e <==> p.corsConf in d) && (p.corsConf in d ==> e[p.corsConf] == d[p.corsConf])
  {
    var t := Later(p);
    var d1 := CorsFiles(c.cors, p, BuildoutFiles(c.manifest, p, d));
    match ZeoClientFiles(c.block, p, d1)
    case Err(_) =>
    case Ok(d2) =>
      assert SameOutside(d1, d2, t);
      match ZeoPackFiles(c.server, p, d2)
      case Err(_) =>
      case Ok(d3) =>
        assert SameOutside(d2, d3, t);
        LateStepsTouch(c, p, d3, t);
        SameOutsideTrans(d1, d2, d3, t);
        SameOutsideTrans(d1, d3, SetupFiles(c, p, d).1, t);
  }

  /** After a start-up the CORS override file holds the policy the `CORS_*` variables give
      when any of them is set, however the start-up ends, and is as it was otherwise; the
      configuration `ConfigOf(env)` reads its CORS part from `env` this way */
  lemma SetupCors(env: Env, c: Config, p: Paths, d: Disk)
    requires c.cors == CorsPolicy.CorsWrite(env)
    requires p.corsConf != p.zopeConf && p.corsConf != p.zeopackConf && p.corsConf !in p.zeoConfs
    ensures var e := SetupFiles(c, p, d).1;
      CorsPolicy.Triggered(env) ==>
        p.corsConf in e && e[p.corsConf] == CorsPolicy.CorsText(CorsPolicy.PolicyOf(env))
    ensures var e := SetupFiles(c, p, d).1;
      !CorsPolicy.Triggered(env) && p.corsConf != p.customConf ==>
        (p.corsConf in e <==> p.corsConf in d) && (p.corsConf in d ==> e[p.corsConf] == d[p.corsConf])
  {
    SetupKeepsCors(c, p, d);
  }

  /** With ZEO_ADDRESS set and no zope.conf, the start-up ends in the ZEO client step with
      the manifest and the CORS policy already written */
  lemma SetupMissingZopeConf(c: Config, p: Paths, d: Disk)
    requires c.block.Some?
    requires p.zopeConf !in d && p.zopeConf != p.customConf && p.zopeConf != p.corsConf
    ensures SetupFiles(c, p, d)
      == (Some(MissingFile(p.zopeConf)), CorsFiles(c.cors, p, BuildoutFiles(c.manifest, p, d)))
  {
  }

  /** With a ZEO_ADDRESS of two or more colons, the start-up ends in the zeopack step,
      after the ZEO client step */
  lemma SetupBadAddress(c: Config, p: Paths, d: Disk, server: string)
    requires c.server == Some(server) && PackScript.CountChar(server, ':') >= 2
    requires c.block.None? || p.zopeConf in d
    ensures SetupFiles(c, p, d).0 == Some(BadAddress(server))
  {
    PackScript.SplitAddressSpec(server);
  }

  /** The environment's ZEO_ADDRESS is what both ZEO client steps read */
  lemma ConfigServer(env: Env)
    ensures ConfigOf(env).block.Some? <==> ConfigOf(env).server.Some?
    ensures ConfigOf(env).server.Some? <==> "ZEO_ADDRESS" in env && env["ZEO_ADDRESS"] != []
  {
  }

  /** The keep-old step on a zeo.conf it has already handled changes nothing */
  lemma KeepOldConfTwice(conf: string, d: Disk)
    ensures KeepOldConf(conf, KeepOldConf(conf, d)) == KeepOldConf(conf, d)
  {
    if conf in d {
      KeepOld.KeepOldIdempotent(d[conf]);
    }
  }

  /** The bind step on a zeo.conf it has already handled writes nothing */
  lemma BindConfTwice(conf: string, bind: string, port: string, d: Disk)
    requires bind != [] && !IsSpace(bind[0]) && '\n' !in bind && '\n' !in port
    ensures BindConf(conf, bind, port, BindConf(conf, bind, port, d)) == BindConf(conf, bind, port, d)
  {
    if conf in d {
      BindAddress.BindTextIdempotent(d[conf], bind, port);
    }
  }

  /** The HTTP port step on a zope.conf it has already handled writes nothing */
  lemma HttpFilesTwice(port: Option<string>, p: Paths, d: Disk)
    requires port.Some? ==> AddressLine.IsPortText(port.value) && '\n' !in port.value
    ensures HttpFiles(port, p, HttpFiles(port, p, d)) == HttpFiles(port, p, d)
  {
    if port.Some? && p.zopeConf in d {
      HttpAddress.HttpTextIdempotent(d[p.zopeConf], port.value);
    }
  }
}
