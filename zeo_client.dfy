/**
 * The ZEO client section of zope.conf (`Environment.zeoclient`): when ZEO_ADDRESS is set
 * and zope.conf still has its `<blobstorage>` section, the text from the first
 * `<blobstorage>` to the last `</blobstorage>` becomes a `<zeoclient>` section.
 */
module ZeoClient {
  import opened Wrappers
  import opened Text
  import opened Environ

  const Opening := "<blobstorage>"
  const Closing := "</blobstorage>"

  /** The values the `<zeoclient>` template is filled with */
  datatype ClientSettings = ClientSettings(
    server: string, readOnly: string, readOnlyFallback: string,
    sharedBlobDir: string, storage: string, cacheSize: string)

  /** The settings, from ZEO_ADDRESS and the five optional variables */
  function Settings(env: Env, server: string): ClientSettings {
    ClientSettings(
      server,
      Get(env, "ZEO_READ_ONLY", "false"),
      Get(env, "ZEO_CLIENT_READ_ONLY_FALLBACK", "false"),
      Get(env, "ZEO_SHARED_BLOB_DIR", "off"),
      Get(env, "ZEO_STORAGE", "1"),
      Get(env, "ZEO_CLIENT_CACHE_SIZE", "128MB"))
  }

  /** Each variable that is not set takes its own default, whatever else is set; the server
      is ZEO_ADDRESS as given */
  lemma SettingsDefaults(env: Env, server: string)
    ensures Settings(env, server).server == server
    ensures "ZEO_READ_ONLY" !in env ==> Settings(env, server).readOnly == "false"
    ensures "ZEO_CLIENT_READ_ONLY_FALLBACK" !in env ==> Settings(env, server).readOnlyFallback == "false"
    ensures "ZEO_SHARED_BLOB_DIR" !in env ==> Settings(env, server).sharedBlobDir == "off"
    ensures "ZEO_STORAGE" !in env ==> Settings(env, server).storage == "1"
    ensures "ZEO_CLIENT_CACHE_SIZE" !in env ==> Settings(env, server).cacheSize == "128MB"
  {
  }

  /** The lines of the filled-in template, without the whitespace `strip` removes from it */
  function BlockLines(c: ClientSettings): seq<string> {
    [ "<zeoclient>",
      "      read-only " + c.readOnly,
      "      read-only-fallback " + c.readOnlyFallback,
      "      blob-dir /data/blobstorage",
      "      shared-blob-dir " + c.sharedBlobDir,
      "      server " + c.server,
      "      storage " + c.storage,
      "      name zeostorage",
      "      var /home/senaite/senaitelims/parts/instance/var",
      "      cache-size " + c.cacheSize,
      "    </zeoclient>" ]
  }

  /** The `<zeoclient>` section */
  function Block(c: ClientSettings): string {
    Unlines(BlockLines(c))
  }

  /** The section has `server ZEO_ADDRESS` as a line of its own, between the lines before
      it and the lines after it */
  lemma BlockServerLine(c: ClientSettings)
    ensures var ls := BlockLines(c);
      Block(c) == Unlines(ls[..5]) + "\n" + ("      server " + c.server) + "\n" + Unlines(ls[6..])
  {
    var ls := BlockLines(c);
    assert ls == ls[..5] + ls[5..];
    JoinAppend(ls[..5], ls[5..], "\n");
    assert ls[5..] == [ls[5]] + ls[6..];
    JoinCons(ls[5], ls[6..], "\n");
  }

  /** `re.sub(r"<blobstorage>.+</blobstorage>", block, config, flags=re.DOTALL)`: the
      greedy match runs from the first opening tag to the last closing tag, with at least
      one character between the two tags */
  function ReplaceBlob(config: string, block: string): string {
    match (FirstIndex(config, Opening), LastIndex(config, Closing))
    case (Some(s), Some(e)) =>
      if e >= s + |Opening| + 1 then config[..s] + block + config[e + |Closing|..] else config
    case _ => config
  }

  /** What the step writes to zope.conf, when it gets that far: nothing once the
      `<blobstorage>` section is gone, otherwise the text with the block replaced */
  function ZeoClientWrite(config: string, block: string): Option<string> {
    if !Contains(config, Opening) then None else Some(ReplaceBlob(config, block))
  }

  // ---------------------------------------------------------------------------------------

  /** The first occurrence of a pattern is the one `find` reports */
  lemma FirstIndexIs(t: string, p: string, s: nat)
    requires OccursAt(t, p, s) && NoneBefore(t, p, s)
    ensures FirstIndex(t, p) == Some(s)
  {
    FirstIndexSpec(t, p);
  }

  /** The last occurrence of a pattern is the one `rfind` reports */
  lemma LastIndexIs(t: string, p: string, e: nat)
    requires OccursAt(t, p, e) && NoneAfter(t, p, e)
    ensures LastIndex(t, p) == Some(e)
  {
    LastIndexSpec(t, p);
  }

  /** With the first opening tag at `s` and the last closing tag at `e` far enough after
      it, everything from the one to the other is replaced by the block */
  lemma ReplaceBlobMatch(config: string, block: string, s: nat, e: nat)
    requires OccursAt(config, Opening, s) && NoneBefore(config, Opening, s)
    requires OccursAt(config, Closing, e) && NoneAfter(config, Closing, e)
    requires e >= s + |Opening| + 1
    ensures ReplaceBlob(config, block) == config[..s] + block + config[e + |Closing|..]
  {
    FirstIndexIs(config, Opening, s);
    LastIndexIs(config, Closing, e);
  }

  /** When no closing tag follows the first opening tag at a distance, nothing is replaced */
  lemma ReplaceBlobNoMatch(config: string, block: string, s: nat)
    requires OccursAt(config, Opening, s) && NoneBefore(config, Opening, s)
    requires forall j: nat :: OccursAt(config, Closing, j) ==> j < s + |Opening| + 1
    ensures ReplaceBlob(config, block) == config
  {
    FirstIndexIs(config, Opening, s);
  }

  /** A configuration without the opening tag is not written */
  lemma ZeoClientDone(config: string, block: string)
    requires forall j: nat :: !OccursAt(config, Opening, j)
    ensures ZeoClientWrite(config, block) == None
  {
    FirstIndexSpec(config, Opening);
  }

  /** After the replacement no `<blobstorage>` is left before the block and no
      `</blobstorage>` after it */
  lemma ReplaceBlobLeaves(config: string, block: string)
    requires FirstIndex(config, Opening).Some? && LastIndex(config, Closing).Some?
    requires LastIndex(config, Closing).value >= FirstIndex(config, Opening).value + |Opening| + 1
    ensures var s := FirstIndex(config, Opening).value;
      var e := LastIndex(config, Closing).value;
      ReplaceBlob(config, block) == config[..s] + block + config[e + |Closing|..]
      && NoneBefore(config, Opening, s) && NoneAfter(config, Closing, e)
  {
    FirstIndexSpec(config, Opening);
    LastIndexSpec(config, Closing);
  }
}
