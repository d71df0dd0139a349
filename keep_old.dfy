/**
 * The ZEO server's `pack-keep-old` option (`Environment.zeoserver`): when ZEO_PACK_KEEP_OLD
 * reads as false, each zeo.conf without the option gets `  pack-keep-old false` on a line
 * of its own before every `</filestorage>`.
 */
module KeepOld {
  import opened Wrappers
  import opened Text

  const Closing := "</filestorage>"
  const OptionName := "pack-keep-old"
  const Inserted := "  pack-keep-old false\n"

  /** `value.lower() in ("false", "no", "0", "n", "f")` */
  predicate IsFalsy(value: string) {
    Lower(value) in {"false", "no", "0", "n", "f"}
  }

  /** The falsy test ignores case */
  lemma FalsyIgnoresCase(value: string)
    ensures IsFalsy(value) <==> IsFalsy(Lower(value))
  {
    LowerLower(value);
  }

  /** What the step writes to one zeo.conf: nothing when the option is already there,
      otherwise the text with the option inserted before every closing tag */
  function KeepOldWrite(text: string): Option<string> {
    if Contains(text, OptionName) then None
    else Some(ReplaceAll(text, Closing, Inserted + Closing))
  }

  /** The contents of the file after the step */
  function KeepOld(text: string): string {
    match KeepOldWrite(text)
    case None => text
    case Some(t) => t
  }

  /** The inserted text names the option */
  lemma InsertedNamesOption()
    ensures Contains(Inserted + Closing, OptionName)
  {
    var x := Inserted + Closing;
    var tail := " false\n</filestorage>";
    assert x == "  " + (OptionName + tail);
    ContainsPrefix(OptionName, tail);
    ContainsAfter("  ", OptionName + tail, OptionName);
  }

  /** Without the option, the text is the pieces between its closing tags, and the result
      is the same pieces with the option line before each closing tag */
  lemma KeepOldInserts(text: string)
    requires !Contains(text, OptionName)
    ensures var pieces := Split(text, Closing);
      Join(pieces, Closing) == text && KeepOldWrite(text) == Some(Join(pieces, Inserted + Closing))
  {
    JoinSplit(text, Closing);
    ReplaceAllIsJoin(text, Closing, Inserted + Closing);
  }

  /** A file without the option and without a closing tag is written back unchanged */
  lemma KeepOldNoClosing(text: string)
    requires !Contains(text, OptionName) && !Contains(text, Closing)
    ensures KeepOldWrite(text) == Some(text)
  {
    ReplaceAbsent(text, Closing, Inserted + Closing);
  }

  /** Once the option has been inserted, the step leaves the file alone */
  lemma KeepOldThenNothing(text: string)
    requires !Contains(text, OptionName) && Contains(text, Closing)
    ensures KeepOldWrite(KeepOld(text)) == None
  {
    var rep := Inserted + Closing;
    ReplacePresent(text, Closing, rep);
    InsertedNamesOption();
    ContainsWithin(ReplaceAll(text, Closing, rep), rep, OptionName);
  }

  /** Running the step twice leaves the same text as running it once */
  lemma KeepOldIdempotent(text: string)
    ensures KeepOld(KeepOld(text)) == KeepOld(text)
  {
    if !Contains(text, OptionName) {
      if Contains(text, Closing) {
        KeepOldThenNothing(text);
      } else {
        KeepOldNoClosing(text);
      }
    }
  }
}
