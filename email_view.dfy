/**
 * The body assembly of the email view's `get_context_data`: choose the raw
 * body and charset, run the style-inlining and cleaning passes on an html
 * body with their fallbacks, decide on remote images and strip image sources,
 * and decode the result last.
 *
 * The HTML libraries are opaque: style inlining (Premailer), cleaning
 * (`Cleaner.clean_html`), parsing (`lxml.html.fromstring`), serialising
 * (`etree.tostring`) and the lossy decode (`unicode(..., errors="replace")`)
 * are functions supplied by the caller, the first three of which may fail
 * with an exception.
 */
module EmailView {
  import opened Wrappers
  import opened MimeParts
  import opened BodySelector
  import opened ImageFilter

  /** The messages the view queues for the user. */
  datatype Warning =
    | PartiallyParsed  // "Part of this message could not be parsed"
    | InvalidHtml      // "This email contained invalid HTML and could not be displayed"

  /** The exceptions the libraries may raise. */
  datatype LibError = LxmlError | ValueError | OtherError

  /** `except (etree.LxmlError, ValueError)`: what the cleaning and image handlers catch. */
  predicate Caught(e: LibError)
    ensures Caught(e) <==> e != OtherError
  {
    e.LxmlError? || e.ValueError?
  }

  /** The user's profile flags. */
  datatype Preferences = Preferences(preferHtml: bool, askImages: bool, displayImages: bool)

  datatype Libraries = Libraries(
    inlineStyles: Bytes -> Result<Bytes, LibError>,
    clean: Bytes -> Result<Bytes, LibError>,
    parse: Bytes -> Result<seq<HtmlNode>, LibError>,
    serialize: seq<HtmlNode> -> Bytes,
    decode: (Bytes, string) -> string)

  /**
   * What the view hands to its template: the decoded body, the bytes and
   * charset it was decoded from, `plain_message`, `ask_images` and the
   * queued messages.
   */
  datatype Rendered = Rendered(body: string, raw: Bytes, charset: string, plainMessage: bool, askImages: bool, warnings: seq<Warning>)

  function PartOf(c: Option<ClassifiedPart>): Option<MimePart> {
    match c
    case Some(p) => Some(p.part)
    case None => None
  }

  /** The body both failure handlers fall back to: a non-empty plain part, else nothing in `utf-8`. */
  function PlainFallback(plain: Option<ClassifiedPart>): (r: (Bytes, string))
    ensures |r.0| > 0 <==> plain.Some? && |plain.value.part.data| > 0
    ensures |r.0| > 0 ==> r == (plain.value.part.data, plain.value.charset)
    ensures |r.0| == 0 ==> r.1 == "utf-8"
  {
    if plain.Some? && |plain.value.part.data| > 0 then (plain.value.part.data, plain.value.charset)
    else ([], "utf-8")
  }

  /** The html body after the style-inlining pass, which leaves it unchanged when it fails. */
  function Styled(lib: Libraries, data: Bytes): (b: Bytes)
    ensures lib.inlineStyles(data).Success? ==> b == lib.inlineStyles(data).value
    ensures lib.inlineStyles(data).Failure? ==> b == data
  {
    match lib.inlineStyles(data)
    case Success(b) => b
    case Failure(_) => data
  }

  /** The warning of the style-inlining pass: at most one, queued exactly when the pass fails. */
  function StyleWarnings(lib: Libraries, data: Bytes): (w: seq<Warning>)
    ensures w == [] || w == [PartiallyParsed]
    ensures PartiallyParsed in w <==> lib.inlineStyles(data).Failure?
  {
    if lib.inlineStyles(data).Failure? then [PartiallyParsed] else []
  }

  /**
   * The handler of a caught image-parse failure as written: the plain fallback
   * replaces the cleaned body, and `plain_message` keeps the value it had.
   * Unlike the cleaning handler, it queues no message.
   */
  function ParseFailureFallback(plain: Option<ClassifiedPart>, plainMessage: bool): (s: (Bytes, string, bool))
    ensures (s.0, s.1) == PlainFallback(plain)
    ensures s.2 == plainMessage
  {
    var fallback := PlainFallback(plain);
    (fallback.0, fallback.1, plainMessage)
  }

  /**
   * The same handler marking its fallback as a plain message, as the cleaning
   * handler does.
   */
  function ParseFailureFallbackCorrected(plain: Option<ClassifiedPart>, plainMessage: bool): (s: (Bytes, string, bool))
    ensures s.2
    ensures (s.0, s.1) == PlainFallback(plain)
  {
    var fallback := PlainFallback(plain);
    (fallback.0, fallback.1, true)
  }

  /**
   * The image filter of lines 219 to 235, for a body shown without images:
   * parse it, delete `src` from the images `.//img` finds and serialise it
   * again. A caught parse failure is left to `onFailure`, which gets the plain
   * part and `plain_message`; any other exception ends the render. The result
   * is the body, its charset and `plain_message`.
   */
  function StripImages(lib: Libraries, body: Bytes, charset: string, plainMessage: bool, plain: Option<ClassifiedPart>,
                       onFailure: (Option<ClassifiedPart>, bool) -> (Bytes, string, bool)): (r: Result<(Bytes, string, bool), LibError>)
    // A parsed body is serialised again with `src` deleted from the images below the root;
    // only the failure handler changes the charset and `plain_message`.
    ensures lib.parse(body).Success? ==>
      r == Success((lib.serialize(Scrub(lib.parse(body).value, DescendantImages(lib.parse(body).value))), charset, plainMessage))
    ensures r.Success? && lib.parse(body).Success? ==> r.value.1 == charset && r.value.2 == plainMessage
    ensures r.Success? && lib.parse(body).Failure? ==> r.value == onFailure(plain, plainMessage)
    ensures r.Failure? <==> lib.parse(body).Failure? && !Caught(lib.parse(body).error)
    ensures r.Failure? ==> r.error == lib.parse(body).error
  {
    match lib.parse(body)
    case Success(nodes) => Success((lib.serialize(Scrub(nodes, DescendantImages(nodes))), charset, plainMessage))
    case Failure(e) => if Caught(e) then Success(onFailure(plain, plainMessage)) else Failure(e)
  }

  /**
   * What an html message may show: the cleaned body itself, or the cleaned
   * body parsed, stripped of image sources and serialised again.
   */
  predicate FromCleaned(lib: Libraries, cleaned: Bytes, raw: Bytes) {
    raw == cleaned ||
    (lib.parse(cleaned).Success? &&
     raw == lib.serialize(Scrub(lib.parse(cleaned).value, DescendantImages(lib.parse(cleaned).value))))
  }

  /** With the corrected handler, whatever the image filter leaves in html mode comes from the cleaned body. */
  lemma CorrectedStripKeepsHtmlCleaned(lib: Libraries, cleaned: Bytes, charset: string, plain: Option<ClassifiedPart>)
    ensures var r := StripImages(lib, cleaned, charset, false, plain, ParseFailureFallbackCorrected);
            r.Success? && !r.value.2 ==> FromCleaned(lib, cleaned, r.value.0)
  {
  }

  /**
   * As written, the image filter can leave text that never went through the
   * cleaner in html mode: here the parser rejects the cleaned body and the
   * plain part `<b>` is shown as html.
   */
  lemma AsWrittenStripShowsUncleaned()
    ensures var lib := Libraries(b => Success(b), b => Success(b), b => Failure(ValueError), ns => [], (b, c) => "");
            var cleaned: Bytes := [60, 112, 62];  // "<p>"
            var data: Bytes := [60, 98, 62];      // "<b>"
            var part := MimePart(None, 1, 2, map["Content-Type" := "text/plain"], data);
            var plain := Some(ClassifiedPart(part, PartHead(ContentType("text/plain", None), ""), "utf-8"));
            var r := StripImages(lib, cleaned, "utf-8", false, plain, ParseFailureFallback);
            r.Success? && !r.value.2 && r.value.0 == data && !FromCleaned(lib, cleaned, r.value.0)
  {
    var cleaned: Bytes := [60, 112, 62];
    var data: Bytes := [60, 98, 62];
    assert data != cleaned by { assert data[1] != cleaned[1]; }
  }

  /**
   * The image filter of lines 219 to 235 as the view runs it: the `src`
   * attributes are deleted in place from the parsed elements, and a caught
   * parse failure takes the handler as written.
   */
  method FilterImages(lib: Libraries, body: Bytes, charset: string, plainMessage: bool, plain: Option<ClassifiedPart>)
    returns (r: Result<(Bytes, string, bool), LibError>)
    ensures r == StripImages(lib, body, charset, plainMessage, plain, ParseFailureFallback)
  {
    var tree := lib.parse(body);
    match tree {
      case Success(nodes) =>
        var a := new HtmlNode[|nodes|](i requires 0 <= i < |nodes| => nodes[i]);
        assert a[..] == nodes;
        DeleteSources(a, DescendantImages(nodes));
        r := Success((lib.serialize(a[..]), charset, plainMessage));
      case Failure(e) =>
        if !Caught(e) {
          return Failure(e);
        }
        r := Success(ParseFailureFallback(plain, plainMessage));
    }
  }

  /**
   * Lines 156 to 238 of the view, step by step. A library exception that the
   * view does not catch ends the render with that exception.
   */
  method RenderBody(html: Option<ClassifiedPart>, plain: Option<ClassifiedPart>, attachments: seq<ClassifiedPart>,
                    prefs: Preferences, showImagesNow: bool, lib: Libraries)
    returns (r: Result<Rendered, LibError>)
    // Whatever happens, the body is decoded last from the bytes and charset reached.
    ensures r.Success? ==> r.value.body == lib.decode(r.value.raw, r.value.charset)
    ensures r.Success? && r.value.askImages ==> !r.value.plainMessage
    ensures r.Failure? ==> !Caught(r.error)
    // An html message is one whose html part passed the cleaning pass; its body is that
    // cleaned html, except after an image-parse failure, where it is the plain fallback.
    ensures r.Success? && !r.value.plainMessage ==>
      FindBody(PartOf(html), PartOf(plain), prefs.preferHtml) == Some(false) &&
      lib.clean(Styled(lib, html.value.part.data)).Success?
    // No viable body: the single attachment, or nothing; a plain message either way.
    ensures FindBody(PartOf(html), PartOf(plain), prefs.preferHtml).None? ==>
      && r.Success? && r.value.plainMessage && !r.value.askImages && r.value.warnings == []
      && (if |attachments| == 1 then r.value.raw == attachments[0].part.data && r.value.charset == attachments[0].charset
          else r.value.raw == [] && r.value.charset == "utf-8")
    // The plain part: shown as it is.
    ensures FindBody(PartOf(html), PartOf(plain), prefs.preferHtml) == Some(true) ==>
      && r.Success? && r.value.plainMessage && !r.value.askImages && r.value.warnings == []
      && r.value.raw == plain.value.part.data && r.value.charset == plain.value.charset
    // The html part, when cleaning fails: the plain fallback, as a plain message.
    ensures FindBody(PartOf(html), PartOf(plain), prefs.preferHtml) == Some(false) ==>
      var data := html.value.part.data;
      var cleaned := lib.clean(Styled(lib, data));
      cleaned.Failure? ==>
        if Caught(cleaned.error) then
          && r.Success? && r.value.plainMessage && !r.value.askImages
          && (r.value.raw, r.value.charset) == PlainFallback(plain)
          && r.value.warnings == StyleWarnings(lib, data) + [InvalidHtml]
        else r == Failure(cleaned.error)
    // The html part, once cleaned: shown with its images; or with `src` removed from every
    // image below the root, the root itself left as it was; or, when it cannot be parsed,
    // replaced by the uncleaned plain fallback while staying an html message.
    ensures FindBody(PartOf(html), PartOf(plain), prefs.preferHtml) == Some(false) ==>
      var data := html.value.part.data;
      var cleaned := lib.clean(Styled(lib, data));
      var images := DecideImages(false, showImagesNow, prefs.askImages, prefs.displayImages);
      cleaned.Success? ==>
        && (r.Success? ==>
              !r.value.plainMessage && r.value.askImages == images.ask && r.value.warnings == StyleWarnings(lib, data))
        && (images.display ==>
              r.Success? && r.value.raw == cleaned.value && r.value.charset == html.value.charset)
        && (!images.display ==>
              match lib.parse(cleaned.value)
              case Success(nodes) =>
                && r.Success? && r.value.raw == lib.serialize(Scrub(nodes, DescendantImages(nodes)))
                && r.value.charset == html.value.charset
                && (|nodes| > 0 ==> Scrub(nodes, DescendantImages(nodes))[0] == nodes[0])
              case Failure(e) =>
                if Caught(e) then
                  && r.Success? && !r.value.plainMessage
                  && (r.value.raw, r.value.charset, r.value.plainMessage) == ParseFailureFallback(plain, false)
                else r == Failure(e))
    // The image filter is `StripImages` with the handler as written.
    ensures FindBody(PartOf(html), PartOf(plain), prefs.preferHtml) == Some(false) ==>
      var data := html.value.part.data;
      var cleaned := lib.clean(Styled(lib, data));
      var images := DecideImages(false, showImagesNow, prefs.askImages, prefs.displayImages);
      cleaned.Success? && !images.display ==>
        match StripImages(lib, cleaned.value, html.value.charset, false, plain, ParseFailureFallback)
        case Success(shown) =>
          r == Success(Rendered(lib.decode(shown.0, shown.1), shown.0, shown.1, shown.2, images.ask, StyleWarnings(lib, data)))
        case Failure(e) => r == Failure(e)
  {
    var body: Bytes;
    var charset: string;
    var warnings: seq<Warning> := [];
    var plainMessage := FindBody(PartOf(html), PartOf(plain), prefs.preferHtml);
    var isPlain: bool;
    if plainMessage.None? {
      if |attachments| == 1 {
        body, charset := attachments[0].part.data, attachments[0].charset;
      } else {
        body, charset := [], "utf-8";
      }
      isPlain := true;
    } else if plainMessage.value {
      body, charset := plain.value.part.data, plain.value.charset;
      isPlain := true;
    } else {
      body, charset := html.value.part.data, html.value.charset;
      isPlain := false;
    }

    if !isPlain {
      var styled := lib.inlineStyles(body);
      match styled {
        case Success(b) => body := b;
        case Failure(_) => warnings := warnings + [PartiallyParsed];
      }
      var cleaned := lib.clean(body);
      match cleaned {
        case Success(b) => body := b;
        case Failure(e) =>
          if !Caught(e) {
            return Failure(e);
          }
          var fallback := PlainFallback(plain);
          body, charset := fallback.0, fallback.1;
          isPlain := true;
          warnings := warnings + [InvalidHtml];
      }
    }

    var images := DecideImages(isPlain, showImagesNow, prefs.askImages, prefs.displayImages);

    if !images.display {
      var filtered := FilterImages(lib, body, charset, isPlain, plain);
      match filtered {
        case Success(shown) => body, charset, isPlain := shown.0, shown.1, shown.2;
        case Failure(e) => return Failure(e);
      }
    }

    r := Success(Rendered(lib.decode(body, charset), body, charset, isPlain, images.ask, warnings));
  }

  /**
   * The whole of the body handling: the loop over the parts, then the body
   * assembly. Returns the attachment list and the rendered body.
   */
  method GetContextData(parts: seq<MimePart>, prefs: Preferences, showImagesNow: bool, lib: Libraries)
    returns (attachments: seq<ClassifiedPart>, r: Result<Rendered, LibError>)
    ensures attachments == Leaves(parts)
    // A message without text/html and text/plain parts shows its single other part verbatim, or nothing.
    ensures FirstOfType(attachments, "text/html").None? && FirstOfType(attachments, "text/plain").None? ==>
      && r.Success? && r.value.plainMessage && !r.value.askImages
      && r.value.raw == (if |attachments| == 1 then attachments[0].part.data else [])
    // A message whose only text part is text/plain shows that part as a plain message.
    ensures FirstOfType(attachments, "text/html").None? && FirstOfType(attachments, "text/plain").Some? ==>
      && r.Success? && r.value.plainMessage
      && r.value.raw == FirstOfType(attachments, "text/plain").value.part.data
    ensures r.Success? && !r.value.plainMessage ==> FirstOfType(attachments, "text/html").Some?
  {
    var html, plain;
    html, plain, attachments := IndexParts(parts);
    r := RenderBody(html, plain, attachments, prefs, showImagesNow, lib);
  }
}
