/**
 * The PDF export endpoint of the backend: the required-field guard in front
 * of the PDF generator and the attachment filename it sends back.  The
 * generator itself is not part of this model; whether it succeeds is a
 * parameter.
 */
module PdfController {
  import opened Text
  import opened JsValue

  /** The most characters a sanitised filename keeps. */
  const MaxFilenameLength: nat := 150

  /** The JSON body of `POST /api/pdf/export`, as both front ends send it. */
  datatype PdfRequest = PdfRequest(title: Value, problem: Value, svg: Value, techStack: Value)

  datatype ExportResponse =
      /** Status 400, "Missing title, problem or svg in request body"; the generator is not called. */
    | BadRequest
      /** The generator was called with these fields and then the request failed (passed to the error handler). */
    | Failed(generatorInput: PdfRequest)
      /** The PDF is sent as an attachment with this filename. */
    | Attachment(generatorInput: PdfRequest, filename: string)

  /** The class `[a-z0-9_\- ]` under the `i` flag. */
  predicate IsFilenameChar(c: char) {
    ('a' <= c <= 'z') || ('A' <= c <= 'Z') || ('0' <= c <= '9') || c == '_' || c == '-' || c == ' '
  }

  /** The only whitespace in the class is the blank. */
  lemma FilenameCharNotSpace(c: char)
    requires IsFilenameChar(c) && c != ' '
    ensures !IsSpace(c)
  {
  }

  /** Trimming keeps a text inside the allowed class. */
  lemma TrimKeepsFilenameChars(s: string)
    requires forall k | 0 <= k < |s| :: IsFilenameChar(s[k])
    ensures forall k | 0 <= k < |Trim(s)| :: IsFilenameChar(Trim(s)[k])
  {
    TrimIsInfix(s);
    var i, j :| 0 <= i <= j <= |s| && Trim(s) == s[i..j] && AllSpace(s[..i]) && AllSpace(s[j..]);
    forall k | 0 <= k < j - i ensures IsFilenameChar(s[i..j][k]) {
      assert s[i..j][k] == s[i + k];
    }
  }

  /** `name.replace(/[^a-z0-9_\- ]/gi, "_").trim().slice(0, 150)`. */
  function SanitizeFilename(name: string): (r: string)
    ensures |r| <= MaxFilenameLength
    ensures forall k | 0 <= k < |r| :: IsFilenameChar(r[k])
    ensures r == [] || r[0] != ' '
  {
    var trimmed := Trim(ReplaceUnless(name, IsFilenameChar));
    TrimKeepsFilenameChars(ReplaceUnless(name, IsFilenameChar));
    assert IsSpace(' ');
    Take(trimmed, MaxFilenameLength)
  }

  /** A name of at most 150 allowed characters, without a space at either end, is kept as it is. */
  lemma SanitizeKeepsCleanName(name: string)
    requires |name| <= MaxFilenameLength
    requires forall k | 0 <= k < |name| :: IsFilenameChar(name[k])
    requires name == [] || (name[0] != ' ' && name[|name| - 1] != ' ')
    ensures SanitizeFilename(name) == name
  {
    var replaced := ReplaceUnless(name, IsFilenameChar);
    assert replaced == name by {
      assert forall k | 0 <= k < |name| :: replaced[k] == name[k];
    }
    assert Trimmed(name) by {
      if name != [] {
        FilenameCharNotSpace(name[0]);
        FilenameCharNotSpace(name[|name| - 1]);
      }
    }
    TrimOfTrimmed(name);
    assert Take(Trim(replaced), MaxFilenameLength) == name;
  }

  /**
   * Sanitising a sanitised name can only drop a trailing space: the cut at
   * 150 characters comes after the trim, so the first result may end in one.
   */
  lemma {:induction false} SanitizeTwice(name: string)
    ensures SanitizeFilename(SanitizeFilename(name)) == TrimEnd(SanitizeFilename(name))
  {
    var r := SanitizeFilename(name);
    assert ReplaceUnless(r, IsFilenameChar) == r;
    if r != [] {
      FilenameCharNotSpace(r[0]);
    }
    TrimStartOfTrimmed(r);
  }

  /** A long name whose 150th character is a space sanitises to a name ending in a space. */
  lemma CutMayLeaveTrailingSpace(head: string, tail: string)
    requires |head| == MaxFilenameLength - 1 && head != [] && head[0] != ' '
    requires forall k | 0 <= k < |head| :: IsFilenameChar(head[k])
    requires tail != [] && IsFilenameChar(tail[|tail| - 1]) && tail[|tail| - 1] != ' '
    requires forall k | 0 <= k < |tail| :: IsFilenameChar(tail[k])
    ensures SanitizeFilename(head + " " + tail) == head + " "
  {
    var name := head + " " + tail;
    assert forall k | 0 <= k < |name| :: IsFilenameChar(name[k]);
    var replaced := ReplaceUnless(name, IsFilenameChar);
    assert replaced == name;
    FilenameCharNotSpace(name[0]);
    FilenameCharNotSpace(name[|name| - 1]);
    TrimOfTrimmed(name);
    assert name[..MaxFilenameLength] == head + " ";
  }

  /**
   * `exportPdf`: a falsy title, problem or svg is a 400 before the generator
   * runs; otherwise the generator gets the four fields, and on its success
   * the attachment is named after the sanitised title.  A title that is
   * not a string makes `sanitizeFilename` throw after the generator ran.
   */
  function HandleExport(body: PdfRequest, generatorSucceeds: bool): (r: ExportResponse)
    ensures r.BadRequest? <==> !Truthy(body.title) || !Truthy(body.problem) || !Truthy(body.svg)
    ensures !r.BadRequest? ==> r.generatorInput == body
    ensures r.Attachment? <==> !r.BadRequest? && generatorSucceeds && body.title.Str?
    ensures r.Attachment? ==> r.filename == SanitizeFilename(body.title.s) + ".pdf"
  {
    if !Truthy(body.title) || !Truthy(body.problem) || !Truthy(body.svg) then BadRequest
    else if !generatorSucceeds then Failed(body)
    else match body.title
      case Str(name) => Attachment(body, SanitizeFilename(name) + ".pdf")
      case _ => Failed(body)
  }

  /** An attachment's name is at most 154 characters of the allowed class, ending in ".pdf". */
  lemma AttachmentNameShape(body: PdfRequest, generatorSucceeds: bool)
    requires HandleExport(body, generatorSucceeds).Attachment?
    ensures var f := HandleExport(body, generatorSucceeds).filename;
      |f| <= MaxFilenameLength + 4 && f[|f| - 4..] == ".pdf"
      && forall k | 0 <= k < |f| - 4 :: IsFilenameChar(f[k])
  {
    var stem := SanitizeFilename(body.title.s);
    var f := stem + ".pdf";
    assert f[|f| - 4..] == ".pdf";
    assert forall k | 0 <= k < |f| - 4 :: f[k] == stem[k];
  }
}
