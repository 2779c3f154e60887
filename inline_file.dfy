/**
  The sentinel choice of `inline_file`: the here-document terminator that
  encloses the generated unit file. The `uuid.uuid4()` text is the
  parameter `uuid`; the rendering of the here-document is not modelled.
 */
module InlineFile {
  import opened Wrappers
  import opened PyStr

  datatype SentinelError = SentinelInContent   // the widened sentinel occurs too

  const DefaultSentinel: string := "EOF"

  /**
    Starts from "EOF", widens it once to "EOF-<uuid>" when the content
    contains "EOF", and fails when the widened sentinel still occurs.
   */
  function ChooseSentinel(content: string, uuid: string): (r: Result<string, SentinelError>)
    ensures r.Ok? ==> !Contains(content, r.value)
    ensures r.Ok? ==> (r.value == DefaultSentinel <==> !Contains(content, DefaultSentinel))
  {
    var eof := if Contains(content, DefaultSentinel) then DefaultSentinel + "-" + uuid else DefaultSentinel;
    if Contains(content, eof) then Err(SentinelInContent) else Ok(eof)
  }

  /**
    The widened sentinel starts with "EOF", so the one check of the widened
    sentinel is the whole story: the choice fails exactly when the content
    contains "EOF-<uuid>", and otherwise yields "EOF" or "EOF-<uuid>".
   */
  lemma SentinelOutcome(content: string, uuid: string)
    ensures ChooseSentinel(content, uuid).Err? <==> Contains(content, DefaultSentinel + "-" + uuid)
    ensures ChooseSentinel(content, uuid).Ok? ==>
      ChooseSentinel(content, uuid).value
        == if Contains(content, DefaultSentinel) then DefaultSentinel + "-" + uuid else DefaultSentinel
  {
    var wide := DefaultSentinel + "-" + uuid;
    if Contains(content, wide) {
      OccursPrefix(content, DefaultSentinel, "-" + uuid, Find(content, wide));
      OccursContains(content, DefaultSentinel, Find(content, wide));
    }
  }

  /**
    What a here-document needs: on success the sentinel is not one of the
    content's lines, so the shell cannot end the document early.
   */
  lemma SentinelNeverALine(content: string, uuid: string)
    requires ChooseSentinel(content, uuid).Ok?
    ensures ChooseSentinel(content, uuid).value !in SplitLines(content)
  {
    var lines := SplitLines(content);
    forall k | 0 <= k < |lines| ensures Contains(content, lines[k]) {
      var i := LineOccurs(content, k);
      OccursContains(content, lines[k], i);
    }
  }
}
