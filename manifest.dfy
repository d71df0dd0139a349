/**
 * The buildout manifest (`Environment.buildout`): when custom.cfg does not exist yet and
 * at least one of the add-ons, ZCML slugs, develop eggs, site id or admin password is set,
 * custom.cfg is written from the `[buildout]` template, followed by a `[plonesite]`
 * section when a site id is set and an `[instance]` section when ZEO_ADDRESS is set.
 */
module Manifest {
  import opened Wrappers
  import opened Text
  import opened Environ

  /** `env.get("PLONE_" + name, env.get(name, ""))`: the prefixed variable wins */
  function Setting(env: Env, name: string): string {
    Get(env, "PLONE_" + name, Get(env, name, ""))
  }

  /** What the manifest is made of, as read from the environment */
  datatype Settings = Settings(
    findLinks: seq<string>, eggs: seq<string>, zcml: seq<string>, develop: seq<string>,
    site: string, profiles: seq<string>, versions: seq<string>, sources: seq<string>,
    password: string, server: Option<string>)

  /** The settings before any profile is derived */
  function SettingsOf(env: Env): Settings {
    Settings(
      Words(Strip(Get(env, "FIND_LINKS", ""))),
      Words(Strip(Setting(env, "ADDONS"))),
      Words(Strip(Setting(env, "ZCML"))),
      Words(Strip(Setting(env, "DEVELOP"))),
      Strip(Setting(env, "SITE")),
      Words(Strip(Setting(env, "PROFILES"))),
      Words(Strip(Setting(env, "VERSIONS"))),
      Split(Strip(Get(env, "SOURCES", "")), ","),
      Strip(Get(env, "PASSWORD", "")),
      Present(env, "ZEO_ADDRESS"))
  }

  /** `egg.split("=")[0]`: the egg's name without its version pin */
  function EggName(egg: string): (base: string)
    ensures base <= egg && '=' !in base
    ensures base == egg || egg[|base|] == '='
  {
    SplitFirst(egg, '=');
    Split(egg, "=")[0]
  }

  /** The profiles derived from the add-on eggs: `<name>:default` for each egg, in order */
  function DefaultProfiles(eggs: seq<string>): seq<string> {
    seq(|eggs|, i requires 0 <= i < |eggs| => EggName(eggs[i]) + ":default")
  }

  /** The derivation of line 216-219: each egg appends its profile to the list */
  method DeriveProfiles(eggs: seq<string>) returns (profiles: seq<string>)
    ensures profiles == DefaultProfiles(eggs)
  {
    profiles := [];
    for i := 0 to |eggs|
      invariant profiles == DefaultProfiles(eggs[..i])
    {
      var base := EggName(eggs[i]);
      profiles := profiles + [base + ":default"];
      DefaultProfilesAppend(eggs[..i], eggs[i]);
      assert eggs[..i + 1] == eggs[..i] + [eggs[i]];
    }
    assert eggs[..|eggs|] == eggs;
  }

  /** The profiles the manifest uses: the given ones, or the derived ones when none is given */
  function Complete(m: Settings): Settings {
    if m.profiles == [] then m.(profiles := DefaultProfiles(m.eggs)) else m
  }

  /** Something worth a manifest is set */
  predicate Wanted(m: Settings) {
    m.eggs != [] || m.zcml != [] || m.develop != [] || m.site != [] || m.password != []
  }

  /** The `[buildout]` template, filled in */
  function BuildoutText(m: Settings): string {
    "\n[buildout]\nextends = buildout.cfg\nuser=admin:"
      + (if m.password == [] then "admin" else m.password)
      + "\nfind-links += " + Join(m.findLinks, "\n\t")
      + "\ndevelop += " + Join(m.develop, "\n\t")
      + "\neggs += " + Join(m.eggs, "\n\t")
      + "\nzcml += " + Join(m.zcml, "\n\t")
      + "\n\n[versions]\n" + Join(m.versions, "\n")
      + "\n\n[sources]\n" + Join(m.sources, "\n") + "\n"
  }

  /** The `[plonesite]` template, filled in */
  function SiteText(site: string, profiles: seq<string>): string {
    "\n\n[plonesite]\nenabled = true\nsite-id = " + site
      + "\nprofiles += " + Join(profiles, "\n\t") + "\n"
  }

  /** The `[instance]` template, filled in */
  function InstanceText(server: string): string {
    "\n\n[instance]\nzeo-client = true\nzeo-address = " + server
      + "\nshared-blob = off\nhttp-fast-listen = off\n"
  }

  /** The whole manifest */
  function ManifestText(m: Settings): string {
    BuildoutText(m)
      + (if m.site != [] then SiteText(m.site, m.profiles) else [])
      + (match m.server case Some(server) => InstanceText(server) case None => [])
  }

  /** The manifest the environment asks for, if any: the step writes it to custom.cfg
      unless that file already exists */
  function ManifestFor(env: Env): Option<string> {
    var m := Complete(SettingsOf(env));
    if Wanted(m) then Some(ManifestText(m)) else None
  }

  /** Lines 206-244 of the step: the settings, the derived profiles, the guard and the
      filled-in templates */
  method BuildManifest(env: Env) returns (manifest: Option<string>)
    ensures manifest == ManifestFor(env)
  {
    var m := SettingsOf(env);
    if m.profiles == [] {
      var profiles := DeriveProfiles(m.eggs);
      m := m.(profiles := profiles);
    }
    if !Wanted(m) {
      return None;
    }
    return Some(ManifestText(m));
  }

  // ---------------------------------------------------------------------------------------

  lemma DefaultProfilesAppend(eggs: seq<string>, egg: string)
    ensures DefaultProfiles(eggs + [egg]) == DefaultProfiles(eggs) + [EggName(egg) + ":default"]
  {
  }

  /** An egg pinned to a version gives its name */
  lemma PinnedEgg(name: string, version: string)
    requires '=' !in name
    ensures EggName(name + "=" + version) == name
  {
    SplitAfter(name, '=', version);
  }

  /** An unpinned egg is its own name */
  lemma UnpinnedEgg(name: string)
    requires '=' !in name
    ensures EggName(name) == name
  {
    SplitNone(name, '=');
  }

  lemma NoSpaceAppend(a: string, b: string)
    requires NoSpace(a) && NoSpace(b)
    ensures NoSpace(a + b)
  {
    assert forall i :: |a| <= i < |a + b| ==> (a + b)[i] == b[i - |a|];
  }

  /** Two words with a space between them */
  lemma TwoWords(a: string, b: string)
    requires IsWord(a) && IsWord(b)
    ensures Words(a + " " + b) == [a, b]
  {
    WordsCons(b, []);
    assert b + [] == b;
    WordsSpaces(" ", b);
    WordsCons(a, " " + b);
    assert a + (" " + b) == a + " " + b;
  }

  /** A pinned egg followed by an unpinned one gives the profiles of their two names */
  lemma PinnedThenUnpinned(name: string, version: string, other: string)
    requires IsWord(name) && NoSpace(version) && IsWord(other)
    requires '=' !in name && '=' !in other
    ensures DefaultProfiles(Words(name + "=" + version + " " + other))
      == [name + ":default", other + ":default"]
  {
    var pinned := name + "=" + version;
    assert IsWord(pinned) by {
      assert NoSpace("=");
      NoSpaceAppend(name, "=");
      NoSpaceAppend(name + "=", version);
    }
    TwoWords(pinned, other);
    TwoProfiles(name, version, other);
  }

  lemma TwoProfiles(name: string, version: string, other: string)
    requires '=' !in name && '=' !in other
    ensures DefaultProfiles([name + "=" + version, other]) == [name + ":default", other + ":default"]
  {
    PinnedEgg(name, version);
    UnpinnedEgg(other);
  }

  /** The add-ons `foo.bar=1.0 baz.qux` give the profiles `foo.bar:default` and
      `baz.qux:default` */
  lemma ProfilesExample()
    ensures DefaultProfiles(Words("foo.bar" + "=" + "1.0" + " " + "baz.qux"))
      == ["foo.bar" + ":default", "baz.qux" + ":default"]
  {
    PinnedThenUnpinned("foo.bar", "1.0", "baz.qux");
  }

  /** Unset and blank variables give no words */
  lemma NoWords(s: string)
    ensures Words(Strip(s)) == [] <==> AllSpace(s)
  {
    StripEmpty(s);
    WordsEmpty(Strip(s));
    var t := Strip(s);
    if t != [] {
      assert !IsSpace(t[0]);
    }
  }

  /** There is a manifest exactly when one of the add-ons, ZCML slugs, develop eggs, site id
      and password is set to something other than whitespace */
  lemma ManifestForWhen(env: Env)
    ensures ManifestFor(env).Some? <==>
      !(AllSpace(Setting(env, "ADDONS")) && AllSpace(Setting(env, "ZCML"))
        && AllSpace(Setting(env, "DEVELOP")) && AllSpace(Setting(env, "SITE"))
        && AllSpace(Get(env, "PASSWORD", "")))
  {
    NoWords(Setting(env, "ADDONS"));
    NoWords(Setting(env, "ZCML"));
    NoWords(Setting(env, "DEVELOP"));
    StripEmpty(Setting(env, "SITE"));
    StripEmpty(Get(env, "PASSWORD", ""));
  }

  /** Without PROFILES, the manifest lists one derived profile per add-on egg */
  lemma CompleteProfiles(env: Env)
    ensures AllSpace(Setting(env, "PROFILES")) ==>
      Complete(SettingsOf(env)).profiles == DefaultProfiles(SettingsOf(env).eggs)
    ensures !AllSpace(Setting(env, "PROFILES")) ==>
      Complete(SettingsOf(env)).profiles == Words(Strip(Setting(env, "PROFILES")))
  {
    NoWords(Setting(env, "PROFILES"));
  }

  /** The word lists the manifest joins read back as the same words */
  lemma ListsReadBack(env: Env)
    ensures var m := Complete(SettingsOf(env));
      Words(Join(m.eggs, "\n\t")) == m.eggs && Words(Join(m.zcml, "\n\t")) == m.zcml
      && Words(Join(m.develop, "\n\t")) == m.develop
  {
    var m := Complete(SettingsOf(env));
    assert AllSpace("\n\t") by { assert IsSpace('\n') && IsSpace('\t'); }
    WordsJoin(m.eggs, "\n\t");
    WordsJoin(m.zcml, "\n\t");
    WordsJoin(m.develop, "\n\t");
  }
}
