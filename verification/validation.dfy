/**
 * Request validation (backend/middleware/validation.js): the checks run in
 * front of each handler. A validator either passes the request on
 * (`next()`), possibly annotating it, or halts it with an HTTP status and
 * an error message.
 */
module Validation {
  import opened JsValues
  import opened SnippetKeys

  /** `Next(a)` calls the next handler with annotation `a`; `Halt` answers
      the request itself. */
  datatype Verdict<A> = Next(annotation: A) | Halt(status: nat, error: string)

  /** The body fields the snippet validator and the save handler read. */
  datatype SnippetBody = SnippetBody(content: JsValue, language: JsValue, title: JsValue)

  /** 2 MiB, the largest accepted content in UTF-8 bytes. */
  const MaxContentBytes: nat := 2 * 1024 * 1024

  /** The languages the editor offers, in the order the source lists them. */
  const AllowedLanguages: seq<string> :=
    ["javascript", "typescript", "python", "html", "css", "json", "yaml"]

  const ContentRequired := "Content is required and must be a string"
  const LanguageRequired := "Language is required and must be a string"
  const ContentTooLarge := "Content exceeds 2MB limit"
  const UnsupportedLanguage := "Unsupported language"
  const InvalidIdFormat := "Invalid snippet ID format"

  /** The guard `!v || typeof v !== 'string'` lets `v` through. */
  predicate IsPresentString(v: JsValue) {
    Truthy(v) && IsString(v)
  }

  /**
   * `validateSnippet`. The checks run in a fixed order (content present,
   * language present, size, language allowed) and the first failure
   * decides the answer; on success the content's UTF-8 size is handed on as
   * `contentSize`.
   */
  function ValidateSnippet(body: SnippetBody): (v: Verdict<nat>)
    ensures !(body.content.Str? && |body.content.s| > 0) ==> v == Halt(400, ContentRequired)
    ensures (body.content.Str? && |body.content.s| > 0 && !(body.language.Str? && |body.language.s| > 0))
              ==> v == Halt(400, LanguageRequired)
    ensures (body.content.Str? && body.language.Str? && |body.language.s| > 0
             && |Encode(body.content.s)| > MaxContentBytes)
              ==> v == Halt(413, ContentTooLarge)
    ensures (body.content.Str? && |body.content.s| > 0 && body.language.Str? && |body.language.s| > 0
             && |Encode(body.content.s)| <= MaxContentBytes && body.language.s !in AllowedLanguages)
              ==> v == Halt(400, UnsupportedLanguage)
    ensures v.Next? <==>
              && body.content.Str? && |body.content.s| > 0
              && body.language.Str? && body.language.s in AllowedLanguages
              && |Encode(body.content.s)| <= MaxContentBytes
    ensures v.Next? ==> v.annotation == |Encode(body.content.s)|
  {
    PresentStringIsNonEmpty(body.content);
    PresentStringIsNonEmpty(body.language);
    if !IsPresentString(body.content) then
      Halt(400, ContentRequired)
    else if !IsPresentString(body.language) then
      Halt(400, LanguageRequired)
    else
      var contentSize := Utf8Length(body.content.s);
      Utf8LengthIsEncodedLength(body.content.s);
      if contentSize > MaxContentBytes then
        Halt(413, ContentTooLarge)
      else if body.language.s !in AllowedLanguages then
        Halt(400, UnsupportedLanguage)
      else
        Next(contentSize)
  }

  /** The regular expression `/^[A-Za-z0-9_-]+$/`. */
  predicate MatchesUrlSafe(s: string) {
    |s| >= 1 && forall i :: 0 <= i < |s| ==> IsUrlSafe(s[i])
  }

  /**
   * `validateSnippetId`. The length test measures UTF-16 units, as
   * JavaScript's `length` does; the answer is nevertheless exactly "is a
   * twelve-character URL-safe identifier".
   */
  function ValidateSnippetId(id: string): (v: Verdict<()>)
    ensures v.Next? <==> IsSnippetId(id)
    ensures v.Halt? ==> v == Halt(400, InvalidIdFormat)
    ensures |id| != IdLength ==> v.Halt?
    ensures (exists i :: 0 <= i < |id| && !IsUrlSafe(id[i])) ==> v.Halt?
  {
    UrlSafeUnitsAreCharacters(id);
    if Utf16Length(id) != IdLength then
      Halt(400, InvalidIdFormat)
    else if !MatchesUrlSafe(id) then
      Halt(400, InvalidIdFormat)
    else
      Next(())
  }

  /** URL-safe characters are ASCII, one UTF-16 unit each. */
  lemma {:induction false} UrlSafeUnitsAreCharacters(id: string)
    ensures MatchesUrlSafe(id) ==> Utf16Length(id) == |id|
  {
    if MatchesUrlSafe(id) {
      Utf16LengthOfBmp(id);
    }
  }

  /** The two bounds of the size check: any content of exactly 2 MiB of
      UTF-8 in an allowed language passes, any content one byte longer is
      refused with 413; 2 MiB of ASCII and one more
      character are instances of each. */
  lemma SizeLimitBoundary(exact: string, over: string, language: string, title: JsValue)
    requires language in AllowedLanguages
    requires |Encode(exact)| == MaxContentBytes
    requires |Encode(over)| == MaxContentBytes + 1
    ensures ValidateSnippet(SnippetBody(Str(exact), Str(language), title)) == Next(MaxContentBytes)
    ensures ValidateSnippet(SnippetBody(Str(over), Str(language), title)) == Halt(413, ContentTooLarge)
    ensures var ascii: string := seq(MaxContentBytes, _ => 'a');
            |Encode(ascii)| == MaxContentBytes && |Encode(ascii + "a")| == MaxContentBytes + 1
  {
    var ascii: string := seq(MaxContentBytes, _ => 'a');
    Utf8LengthOfAscii(ascii);
    Utf8LengthOfAscii(ascii + "a");
    Utf8LengthIsEncodedLength(ascii);
    Utf8LengthIsEncodedLength(ascii + "a");
  }
}
