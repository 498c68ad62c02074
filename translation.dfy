/**
 * The translator boundary. The translation service itself (a remote chat
 * completion call) is a parameter: for each text it either answers with a
 * translation or fails with a cause. `TranslateToJapanese` never fails: a
 * failure becomes a sentinel string that carries the cause after a fixed tag.
 */
module Translation {
  import opened Feeds

  /** What one call to the translation service yields. */
  datatype Outcome = Translated(text: string) | Failed(cause: string)

  /** The tag that opens every failure sentinel. */
  const ErrorTag: string := "[翻訳エラー]: "

  /** `translate_to_japanese(text)`: the service's answer, or the sentinel on failure. */
  function TranslateToJapanese(service: string -> Outcome, text: string): string
  {
    match service(text)
    case Translated(t) => t
    case Failed(cause) => ErrorTag + cause
  }

  /** Reads a sentinel back: the cause it carries, or `None` if the text does not start with the tag. */
  function SentinelCause(s: string): (r: Option<string>)
    ensures r.Some? <==> |ErrorTag| <= |s| && s[..|ErrorTag|] == ErrorTag
    ensures r.Some? ==> s == ErrorTag + r.value
  {
    if |ErrorTag| <= |s| && s[..|ErrorTag|] == ErrorTag then Some(s[|ErrorTag|..]) else None
  }

  /**
   * A failed call is never lost: its field is a sentinel from which the
   * cause can be read back, and the field is not empty.
   */
  lemma FailureYieldsSentinel(service: string -> Outcome, text: string)
    requires service(text).Failed?
    ensures SentinelCause(TranslateToJapanese(service, text)) == Some(service(text).cause)
    ensures TranslateToJapanese(service, text) != ""
  {
    var r := TranslateToJapanese(service, text);
    assert r[..|ErrorTag|] == ErrorTag;
  }

  /**
   * A field that does not carry the tag is a translation the service gave
   * for that very text.
   */
  lemma UntaggedIsTranslation(service: string -> Outcome, text: string)
    requires SentinelCause(TranslateToJapanese(service, text)).None?
    ensures service(text) == Translated(TranslateToJapanese(service, text))
  {
    if service(text).Failed? {
      FailureYieldsSentinel(service, text);
    }
  }
}
