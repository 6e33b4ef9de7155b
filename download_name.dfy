/**
 * What both front ends share about export: how they export a chat, and the
 * name under which they save the PDF:
 * `name.replace(/[^\w\s\-]/g, "_").slice(0, 120) + ".pdf"`.
 */
module DownloadName {
  import opened Wrappers
  import opened Text
  import PdfController

  /** What a front end's `exportPdf` does: alert for a missing chat or diagram, or post the request and then name the download. */
  datatype ExportStep =
    | NoChat
    | NoDiagram
      /** `filename` is None where `replace` is called on a title that is not a string. */
    | Post(request: PdfController.PdfRequest, filename: Option<string>)

  /** The most characters of the title the download name keeps. */
  const MaxStemLength: nat := 120

  /** The class `[\w\s\-]`: ASCII letters, digits, `_`, whitespace and `-`. */
  predicate IsWordSpaceOrDash(c: char) {
    ('a' <= c <= 'z') || ('A' <= c <= 'Z') || ('0' <= c <= '9') || c == '_' || IsSpace(c) || c == '-'
  }

  /**
   * The download name: the first 120 characters of the title, each kept
   * when in the class and replaced by `_` otherwise, then ".pdf".
   */
  function DownloadFilename(title: string): (r: string)
    ensures |r| == (if |title| < MaxStemLength then |title| else MaxStemLength) + 4
    ensures r[|r| - 4..] == ".pdf"
    ensures forall k | 0 <= k < |r| - 4 :: r[k] == if IsWordSpaceOrDash(title[k]) then title[k] else '_'
    ensures forall k | 0 <= k < |r| - 4 :: IsWordSpaceOrDash(r[k])
  {
    var stem := Take(ReplaceUnless(title, IsWordSpaceOrDash), MaxStemLength);
    var r := stem + ".pdf";
    assert forall k | 0 <= k < |stem| :: r[k] == stem[k];
    r
  }

  /** A title of at most 120 characters of the class is kept whole. */
  lemma DownloadKeepsCleanTitle(title: string)
    requires |title| <= MaxStemLength
    requires forall k | 0 <= k < |title| :: IsWordSpaceOrDash(title[k])
    ensures DownloadFilename(title) == title + ".pdf"
  {
    var r := DownloadFilename(title);
    assert forall k | 0 <= k < |title| :: r[k] == title[k];
    assert r[..|title|] == title;
    assert r == r[..|title|] + r[|title|..];
  }
}
