# SENAITE container start-up, modelled in Dafny

The SENAITE LIMS Docker image configures itself when a container starts. A Python script,
`latest/docker-initialize.py`, defines the class `Environment`. Its `setup` method reads the
process environment and runs seven steps, in order. Each step rewrites at most its own
configuration files:

1. `buildout` writes `custom.cfg` from ADDONS, ZCML, DEVELOP, SITE, PROFILES, VERSIONS, SOURCES,
   PASSWORD and ZEO_ADDRESS. It skips the file when it already exists or when nothing worth a
   manifest is set. Without PROFILES, it derives one `<egg>:default` profile per add-on egg.
2. `cors` writes a `<plone:CORSPolicy>` override when some `CORS_*` variable is set. Unset
   attributes take their documented defaults.
3. `zeoclient` replaces the `<blobstorage>` section of `zope.conf` with a `<zeoclient>` section
   when ZEO_ADDRESS is set. A missing `zope.conf` raises here.
4. `zeopack` points the `bin/zeopack` script at ZEO_ADDRESS. An address with two or more colons
   raises here.
5. `zeoserver` inserts `pack-keep-old false` before each `</filestorage>` of every `zeo.conf`.
   It does this when ZEO_PACK_KEEP_OLD is falsy and the option is not there yet.
6. `set_zeo_bind_port` rewrites every `address` line of each `zeo.conf` to `ZEO_BIND:ZEO_PORT`.
   If no directive is left, it appends one.
7. `set_http_port` rewrites the port of the `http-address` and `address` lines of `zope.conf`.
   It keeps any host those lines name.

The model has these modules:

- `Text` models the Python string operations the script uses. These are `strip`, `split()`,
  `split(sep)`, `join`, `in`, `replace` and ASCII `lower`. It also has `lstrip`, `find` and
  `rfind`, which the script does not call. The model uses them to state `strip()` and the
  greedy `re.sub` of the `<blobstorage>` section. Each is a function with its properties
  proved as lemmas.
- `AddressLine` models the three port patterns on one line. The line matcher is sound and
  complete with respect to an explicit description of what the pattern matches.
- `Manifest`, `CorsPolicy`, `ZeoClient`, `PackScript`, `KeepOld`, `BindAddress` and
  `HttpAddress` each model one step as functions of the environment and the file text. Each
  comes with lemmas about when it writes, what it writes and what running it again does.
- `Files` models the container's files as a `FileSystem` object holding a map from path to
  contents.
- `Startup` holds the `Environment` class with one method per step and `Setup`. Each method is
  proved equal to a function from the files before to the files after. The lemmas about those
  functions cover the following:
  - which files a start-up may touch;
  - how each of the two exceptions ends it;
  - that the per-file steps have nothing left to do on their own output.

## Model

| member | source | states |
|---|---|---|
| Text.StripEmpty | latest/docker-initialize.py:64-66 | `strip()` leaves nothing exactly when the variable is all whitespace, so a blank ZEO_PORT switches the step off |
| Text.TrimLeftEmpty | latest/docker-initialize.py:99-101 | removing the leading whitespace, the first half of `strip()`, leaves nothing exactly when the text is all whitespace |
| Text.WordsEmpty | latest/docker-initialize.py:206-212 | `split()` gives no words exactly when the text is all whitespace |
| Text.WordsJoin | latest/docker-initialize.py:226-229 | words joined with a whitespace separator split back into the same words |
| Text.JoinSplit | latest/docker-initialize.py:213 | joining the pieces of `split(sep)` with `sep` gives back the text |
| Text.SplitJoin | latest/docker-initialize.py:230-231 | pieces without the separator, joined with it, split back into the same pieces |
| Text.SplitFirst | latest/docker-initialize.py:218 | the first piece of `split("=")` is the text before the first `=`, or the whole text when it has none |
| Text.FirstIndexSpec | latest/docker-initialize.py:56 | the first-occurrence search, which places the start of the DOTALL `<blobstorage>.+</blobstorage>` match, reports the first occurrence, and reports one exactly when the pattern occurs |
| Text.LastIndexSpec | latest/docker-initialize.py:56 | the last-occurrence search, which places the end of the greedy `.+` match, reports the last occurrence, and reports one exactly when the pattern occurs |
| Text.ReplaceAllIsJoin | latest/docker-initialize.py:167-170 | `replace` turns every occurrence into the replacement and keeps the text between occurrences |
| Text.ReplaceAbsent | latest/docker-initialize.py:167-170 | replacing a pattern that does not occur changes nothing |
| Text.ReplacePresent | latest/docker-initialize.py:167-170 | once the pattern occurs, the replacement occurs in the result |
| Text.LinesOfUnlines | latest/docker-initialize.py:83-87 | lines without newlines, joined with newlines, are the lines of the result (the `re.M` line view) |
| AddressLine.ParseSepOf | latest/docker-initialize.py:117 | the greedy `\s*=?\s*` (or `\s+`) takes exactly a separator that the value cannot extend |
| AddressLine.SplitLeadOf | latest/docker-initialize.py:84 | a line of indentation, directive name, separator and rest is split into group 1 and the rest |
| AddressLine.SplitLeadSound | latest/docker-initialize.py:84 | what group 1 takes is indentation, the name and a separator, in that order |
| AddressLine.MatchValueOf | latest/docker-initialize.py:84 | an optional host and colon, digits and trailing whitespace are matched as exactly those parts |
| AddressLine.MatchValueSound | latest/docker-initialize.py:84 | what the value matcher accepts is an optional host and colon, digits and trailing whitespace |
| AddressLine.MatchLineSound | latest/docker-initialize.py:84 | a line the matcher accepts is the rendering of a well-formed match |
| AddressLine.MatchLineComplete | latest/docker-initialize.py:124 | every well-formed match is found in its rendering, and found as itself |
| AddressLine.BindLineRewrites | latest/docker-initialize.py:83-87 | a matching `address` line keeps group 1 and ends in `bind:port`, dropping any host it had |
| AddressLine.BindLineKeeps | latest/docker-initialize.py:83-87 | a line the pattern does not match is left as it is |
| AddressLine.BindLineFixed | latest/docker-initialize.py:83-87 | a line already reading `address bind:port` is rewritten to itself |
| AddressLine.BindLineIdempotent | latest/docker-initialize.py:83-87 | rewriting a rewritten line changes nothing |
| AddressLine.HttpLineRewrites | latest/docker-initialize.py:116-120 | a matching line keeps group 1 and its host with its colon, and ends in the new port |
| AddressLine.HttpLineKeeps | latest/docker-initialize.py:116-120 | a line the pattern does not match is left as it is |
| AddressLine.HttpLineShape | latest/docker-initialize.py:116-120 | a rewritten line still starts with its indentation and the directive name |
| AddressLine.MatchValueKeepsHost | latest/docker-initialize.py:118 | when a kept host followed by the new port is matched again, it is matched with the same host |
| AddressLine.HttpLineIdempotent | latest/docker-initialize.py:116-127 | rewriting a line a second time with the same port changes nothing |
| AddressLine.OtherKey | latest/docker-initialize.py:116-127 | a line that starts with one directive name is not matched by the pattern for a name with another first letter |
| BindAddress.ZeoBindDefault | latest/docker-initialize.py:65 | the bind address is ZEO_BIND stripped, or `127.0.0.1` when that is blank; it never starts with whitespace |
| BindAddress.RewriteBindLines | latest/docker-initialize.py:83-87 | the lines of the rewritten text are the rewritten lines |
| BindAddress.LinesAppended | latest/docker-initialize.py:91 | appending `\n line \n` adds that line and an empty one |
| BindAddress.AppendedIsDirective | latest/docker-initialize.py:90-91 | a line that starts like the appended `  address bind:port`, whatever follows, is one the directive search finds |
| BindAddress.BindTextHasDirective | latest/docker-initialize.py:83-91 | after the step the file always has an `address` directive, for any bind address and port |
| BindAddress.RewriteFixed | latest/docker-initialize.py:83-87 | a text whose every line the rewrite leaves alone is left alone |
| BindAddress.RewrittenFixed | latest/docker-initialize.py:83-87 | the rewrite leaves its own output's lines alone |
| BindAddress.AppendedLineFixed | latest/docker-initialize.py:91 | the appended line is left alone by the rewrite |
| BindAddress.AppendedFixed | latest/docker-initialize.py:91 | under the line-by-line rewrite, a text with the line appended is left alone (the source's `\s*$` still takes the final newline, see "## Left out") |
| BindAddress.BindTextIdempotent | latest/docker-initialize.py:83-95 | the model's step (line-by-line rewrite, then the append) maps its own output to itself; in the source this holds unless the first run appended the line, see "## Left out" |
| HttpAddress.RewriteHttpLines | latest/docker-initialize.py:116-120 | each substitution works line by line |
| HttpAddress.HttpTextByLine | latest/docker-initialize.py:116-127 | the step is the two substitutions, `http-address` first, applied to each line |
| HttpAddress.BothLinesOnce | latest/docker-initialize.py:116-127 | a line is rewritten by at most one of the two patterns |
| HttpAddress.AddressLineUntouched | latest/docker-initialize.py:122-127 | a line the `address` pattern rewrote is not matched by the `http-address` pattern |
| HttpAddress.BothLinesIdempotent | latest/docker-initialize.py:116-127 | both substitutions on a rewritten line change nothing |
| HttpAddress.HttpTextIdempotent | latest/docker-initialize.py:116-131 | the step on its own output gives the same text, so a second run writes nothing |
| HttpAddress.HttpExample | latest/docker-initialize.py:114-120 | `http-address 0.0.0.0:8080` with HTTP_PORT 8081 becomes `http-address 0.0.0.0:8081` |
| PackScript.CountPresent | latest/docker-initialize.py:139 | a character occurs in the address exactly when it is counted there |
| PackScript.SplitCount | latest/docker-initialize.py:140 | `split(":")` gives one piece more than there are colons |
| PackScript.SplitAddressSpec | latest/docker-initialize.py:139-142 | the address is rejected exactly when it has two or more colons; with one colon, `host + ":" + port` is the address; with none, the port is 8080 |
| PackScript.SplitAddressOf | latest/docker-initialize.py:139-140 | `host:port` with one colon splits into that host and that port |
| PackScript.QuoteEndOf | latest/docker-initialize.py:150 | the lazy `.*?"` stops at the first quote after a value without quotes or newlines |
| PackScript.QuoteEndSound | latest/docker-initialize.py:150 | what `.*?"` takes is a value without quotes or newlines, then the quote |
| PackScript.AssignAtOf | latest/docker-initialize.py:150-152 | the pattern matches an assignment `key = "value"` however it is spaced, and stops at its closing quote |
| PackScript.AssignAtSound | latest/docker-initialize.py:150-152 | the pattern matches only at the name followed by an assignment |
| PackScript.SubAssignNoKey | latest/docker-initialize.py:150-152 | a text without the name is left as it is |
| PackScript.SubAssignSkip | latest/docker-initialize.py:150-152 | the text before a position where no match starts is copied over unchanged |
| PackScript.SubAssignReplaces | latest/docker-initialize.py:150-152 | an assignment with no match starting before it or after it is replaced by the new one, and everything around it is kept |
| PackScript.QuotedIsAssignment | latest/docker-initialize.py:150-152 | what the step writes, `key = "value"`, is itself an assignment the pattern matches |
| PackScript.QuoteAfterMatch | latest/docker-initialize.py:150-152 | a match's value opens at the first quote after its start, so a quote followed by a newline opens no match |
| PackScript.NoMatchInLine | latest/docker-initialize.py:150-152 | no match of one name starts in an assignment line to a name with another first letter |
| PackScript.AssignAtAppend | latest/docker-initialize.py:150-152 | a match cannot start in a line and reach past its newline into text that starts with neither whitespace, `=` nor a quote |
| PackScript.SubAssignGap | latest/docker-initialize.py:150-152 | whole lines without a match, followed by such text, are copied over unchanged |
| PackScript.SubAssignOtherLine | latest/docker-initialize.py:150-152 | an assignment line to another name is copied over with its newline |
| PackScript.SubAssignOwnLine | latest/docker-initialize.py:150-152 | an assignment line to the name is replaced as a whole and its newline kept |
| PackScript.PackTextLines | latest/docker-initialize.py:150-152 | in a script with one assignment line each to `address`, `host` and `port`, in that order, the step writes the three new assignments in their places and keeps every other character |
| ZeoClient.SettingsDefaults | latest/docker-initialize.py:40-44 | each variable defaults on its own when unset: read-only `false`, fallback `false`, shared blob dir `off`, storage `1`, cache `128MB`; the server is ZEO_ADDRESS |
| ZeoClient.BlockServerLine | latest/docker-initialize.py:259-271 | the section has `server ZEO_ADDRESS` as a line of its own, the sixth of the section |
| ZeoClient.ReplaceBlobMatch | latest/docker-initialize.py:56-57 | from the first `<blobstorage>` to the last `</blobstorage>` at least one character later, the text is replaced by the section; the rest is kept |
| ZeoClient.ReplaceBlobNoMatch | latest/docker-initialize.py:56-57 | without a closing tag far enough after the first opening tag, nothing is replaced |
| ZeoClient.ZeoClientDone | latest/docker-initialize.py:37-39 | a configuration without `<blobstorage>` is not written |
| ZeoClient.ReplaceBlobLeaves | latest/docker-initialize.py:56-57 | the replacement runs from the first `<blobstorage>` `find` reports to the last `</blobstorage>` `rfind` reports, with none before and none after those |
| CorsPolicy.PolicyDefaults | latest/docker-initialize.py:179-188 | each attribute whose own `CORS_*` variable is unset takes its documented default, whatever other variables are set |
| CorsPolicy.CorsWriteDefaults | latest/docker-initialize.py:176-199 | once any `CORS_*` variable triggers the step, the written file has the default attribute line for every attribute whose variable is unset (`CORS_MAX_AGE` alone still writes the default origins) |
| CorsPolicy.CorsTextAttributes | latest/docker-initialize.py:278-285 | each of the six values appears in the file as its own `name="value"` attribute line |
| CorsPolicy.CorsWriteUses | latest/docker-initialize.py:179-199 | a set CORS_ALLOW_ORIGIN is written, and appears as the `allow_origin` attribute |
| KeepOld.FalsyIgnoresCase | latest/docker-initialize.py:160 | the falsy test gives the same answer for a value and its lower-case form |
| KeepOld.KeepOldInserts | latest/docker-initialize.py:166-170 | without the option, the result is the text's pieces between closing tags, joined by the option line and the closing tag |
| KeepOld.KeepOldNoClosing | latest/docker-initialize.py:166-172 | a file without the option and without `</filestorage>` is written back unchanged |
| KeepOld.KeepOldThenNothing | latest/docker-initialize.py:166-172 | once the option has been inserted, a second run writes nothing |
| KeepOld.KeepOldIdempotent | latest/docker-initialize.py:166-170 | the step on its own output leaves the same text |
| Manifest.EggName | latest/docker-initialize.py:218 | the base name is a prefix of the egg without `=`, and is followed by `=` unless it is the whole egg |
| Manifest.DeriveProfiles | latest/docker-initialize.py:216-219 | the loop produces one `<name>:default` per egg, in order |
| Manifest.DefaultProfilesAppend | latest/docker-initialize.py:217-219 | one more egg appends its profile at the end |
| Manifest.PinnedEgg | latest/docker-initialize.py:218 | an egg pinned as `name=version` gives `name` |
| Manifest.UnpinnedEgg | latest/docker-initialize.py:218 | an unpinned egg is its own name |
| Manifest.TwoWords | latest/docker-initialize.py:207 | two words with a space between them split into those two words |
| Manifest.PinnedThenUnpinned | latest/docker-initialize.py:207-219 | a pinned egg then an unpinned one give the profiles of their two names |
| Manifest.ProfilesExample | latest/docker-initialize.py:207-219 | `foo.bar=1.0 baz.qux` gives the profiles `foo.bar:default` and `baz.qux:default` |
| Manifest.NoWords | latest/docker-initialize.py:206-212 | a stripped and split variable has no words exactly when it is blank |
| Manifest.ManifestForWhen | latest/docker-initialize.py:221-222 | a manifest is written exactly when one of the add-ons, ZCML slugs, develop eggs, site id or password is not blank |
| Manifest.CompleteProfiles | latest/docker-initialize.py:211-219 | without PROFILES the manifest's profiles are the ones derived from the eggs; with it, they are its words |
| Manifest.ListsReadBack | latest/docker-initialize.py:226-229 | the egg, ZCML and develop lists rendered into the manifest split back into the same words |
| Manifest.BuildManifest | latest/docker-initialize.py:206-244 | the settings, the derived profiles, the guard and the three templates give the manifest the environment asks for |
| Files.FileSystem.Exists | latest/docker-initialize.py:144 | `os.path.exists` is true exactly when the file is there |
| Files.FileSystem.Read | latest/docker-initialize.py:34-35 | reading gives the contents, or the missing-file failure when there is no such file |
| Files.FileSystem.Write | latest/docker-initialize.py:59-60 | writing replaces or creates that file and leaves every other file alone |
| Startup.Environment.constructor | latest/docker-initialize.py:9-26 | the paths are the four given ones and the two `zeo.conf` locations |
| Startup.Environment.Buildout | latest/docker-initialize.py:201-247 | `custom.cfg` is left alone when it exists, and is otherwise written with the manifest, if there is one |
| Startup.Environment.Cors | latest/docker-initialize.py:174-199 | the override file is written with the policy exactly when the step is triggered |
| Startup.Environment.ZeoClientStep | latest/docker-initialize.py:28-60 | with ZEO_ADDRESS set, a missing `zope.conf` is reported and nothing changes; a `zope.conf` that still has `<blobstorage>` is written with the section replaced |
| Startup.Environment.ZeoPack | latest/docker-initialize.py:133-155 | a bad address is reported with no change; otherwise an existing script has its three assignments rewritten |
| Startup.Environment.ZeoServer | latest/docker-initialize.py:157-172 | each existing `zeo.conf` without the option gets it, in order, when ZEO_PACK_KEEP_OLD is falsy |
| Startup.Environment.SetZeoBindPort | latest/docker-initialize.py:62-95 | each existing `zeo.conf` is rewritten in turn when ZEO_PORT is set |
| Startup.Environment.BindOne | latest/docker-initialize.py:70-95 | one `zeo.conf` is written only when it exists and the rewrite changes it |
| Startup.Environment.SetHttpPort | latest/docker-initialize.py:97-131 | an existing `zope.conf` is written only when HTTP_PORT is set and the rewrite changes it |
| Startup.Environment.Setup | latest/docker-initialize.py:249-256 | the seven steps run in order; an exception ends the run, keeping the files written so far, and is reported |
| Startup.SetupKeepsCors | latest/docker-initialize.py:249-256 | the steps after the CORS step never change the override file, so after any start-up it holds what that step wrote, or what it held before when the step wrote nothing |
| Startup.SetupCors | latest/docker-initialize.py:174-199 | for the configuration read from the environment (any whose CORS part is the one `CorsWrite` gives, as `ConfigOf` builds it), after any start-up, however it ends, the override file holds the policy of the `CORS_*` variables when some variable's name starts with `CORS_`, and is as it was otherwise |
| Startup.SetupTouches | latest/docker-initialize.py:249-256 | a start-up changes no file other than the six it configures, however it ends |
| Startup.SetupMissingZopeConf | latest/docker-initialize.py:34-35 | with ZEO_ADDRESS set and no `zope.conf`, the run ends in the ZEO client step with only the manifest and the CORS policy written |
| Startup.SetupBadAddress | latest/docker-initialize.py:139-140 | a ZEO_ADDRESS with two or more colons ends the run with that address's failure, once the ZEO client step gets through |
| Startup.ConfigServer | latest/docker-initialize.py:30-32 | the ZEO client and zeopack steps both act exactly when ZEO_ADDRESS is set and nonempty |
| Startup.KeepOldConfTwice | latest/docker-initialize.py:161-172 | the keep-old step on a `zeo.conf` it already handled changes nothing |
| Startup.BindConfTwice | latest/docker-initialize.py:69-95 | the model's bind step on a `zeo.conf` it already handled changes nothing; in the source a `zeo.conf` that got the appended line is written once more, see "## Left out" |
| Startup.HttpFilesTwice | latest/docker-initialize.py:97-131 | the HTTP port step on a `zope.conf` it already handled changes nothing |

## Left out

- File I/O is a map from path to contents held by `Files.FileSystem`. Write errors, permissions, encodings and partial writes are not modelled.
- The process environment (`os.environ`) is a parameter, a map from name to value.
- `initialize()` and the `__main__` entry point only construct an `Environment` with its default paths and call `setup`. They are not modelled separately.
- Exceptions other than the two the steps can raise on their own input are not modelled: the missing `zope.conf` in `zeoclient` and the two-colon address in `zeopack`.
- `re.sub` raises `re.error` on a bad escape or group reference in its replacement text, such as `\q` or `\1`. Such text can come from the ZEO_* values in the `<zeoclient>` section (line 57) or from ZEO_ADDRESS and its host and port (lines 150-152). This exception is not modelled.
- The regular expressions run with `re.M` are modelled line by line. Where `\s*$`, `\s+` or `\s*=?\s*` would cross a newline, the model keeps within the line. These cases are not modelled:
  - a directive whose value is followed by blank lines, where `\s*$` takes them;
  - a directive on the last line followed by the file's final newline, which `\s*$` takes as well;
  - `http-address` or `address`, with or without `=`, whose value is on the next line (lines 117 and 124);
  - an `address` with nothing after it on the line, in the bind rewrite.
  One exception is modelled exactly: `re.search(r'^\s*address\s+')`, where a bare `address` line counts unless it is the last line.
- `\d` is modelled as the ASCII digits and `lower()` as ASCII lowering; Python's Unicode digits and case mappings are not modelled.
- `re.sub` processes backslash escapes in a replacement template. The model leaves the replacement text of the `zeoclient` and `zeopack` substitutions as it is.
- `str.format` and `%` formatting are modelled as concatenation of the values into the fixed template text.
- ZeoClient.BlockServerLine: states where the `server` line sits in the `<zeoclient>` section, not the contents of the section's other lines.
- BindAddress.BindTextIdempotent: requires a bind address that does not start with whitespace and a port and address without newlines. `ZeoBindDefault` shows the first always holds for what the step reads. It also holds only for the model's line-by-line rewrite: in the source, a second run after an append matches the appended last line with `\s*$` up to the end of the file, drops the file's final newline and writes once more; only a third run changes nothing (the `\s*$` case listed above). For example ZEO_PORT 9100 and `<zeo>\n</zeo>\n` give `<zeo>\n</zeo>\n\n  address 127.0.0.1:9100\n` on the first run and the same without its last newline on the second.
- BindAddress.AppendedFixed: holds for the line-by-line rewrite only; in the source the appended text is not left alone, the next run drops its final newline.
- Startup.BindConfTwice: holds for the model's bind step only; in the source a `zeo.conf` that got the appended line is written once more, without its final newline.
- HttpAddress.HttpTextIdempotent: requires a port that is not empty, does not start or end with whitespace, has no colon or newline, and does not start with `=`. Whitespace inside the port is allowed. A port that starts or ends with whitespace cannot occur after `strip`. A port with a colon would make the host part ambiguous on the second run. The `=` condition is needed: with HTTP_PORT `=8081`, the line `http-address 8080` becomes `http-address =8081`, and a second run reads `=` as the separator and writes `http-address ==8081`.
- Startup.HttpFilesTwice carries the requirements of HttpTextIdempotent, and Startup.BindConfTwice those of BindTextIdempotent.
- Startup.SetupBadAddress: states only the failure reported, not the files left behind.
- PackScript.PackTextLines: covers scripts whose three assignments each fill a line of their own, unindented and with nothing after the closing quote, in the order `address`, `host`, `port`, with no other match of the three patterns elsewhere in the script, and values without quotes or newlines. Other layouts, and what the step does with them, are stated only by the general lemmas `SubAssignSkip` and `SubAssignReplaces`.
