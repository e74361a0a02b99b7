# Inboxen email view: body selection and classification

A Dafny model of how Inboxen's email view (`views/inbox/email.py`) turns
the stored MIME parts of one message into the body it displays. It covers
these steps:

- **Header parameters** (`HeaderParams`). The `HEADER_PARAMS` expression
  `([a-zA-Z0-9]+)=["']?([^"';=]+)["']?[;]?` is applied with `findall`. Here
  it is a hand-written scanner: `MatchAt` finds the anchored match and
  `FindAll` scans left to right. `ToDict` models `dict`, where a later pair
  with the same name wins.
- **Part classification** (`MimeParts`). The loop over the parts:
  - splits the Content-Type at its first `;`;
  - skips `multipart*` and `message*` containers;
  - merges the Content-Type and Content-Disposition parameters, with the
    disposition winning;
  - resolves the filename and the charset;
  - keeps the first `text/html` and the first `text/plain` part;
  - builds the attachment list in scan order (`IndexParts`, a loop with
    invariants).
- **`find_body`** (`BodySelector`). Given the html part, the plain part and
  the `prefer_html_email` flag, it returns `Some(true)` for plain,
  `Some(false)` for html and `None` when neither part exists.
- **Image policy** (`ImageFilter`). The display/ask decision, and the
  deletion of `src` from image elements. A parsed body is an arena of
  elements in document order, with the root at index 0.
- **Body assembly** (`EmailView.RenderBody`). It picks the body and charset,
  then runs the style-inlining and cleaning passes with their fallbacks. It
  decides on images, strips image sources, and decodes last. Premailer,
  `Cleaner.clean_html`, `lxml.html.fromstring`, `etree.tostring` and the
  lossy `unicode` decode are opaque functions passed in a `Libraries` value.
  The first three return a `Result` whose error is `LxmlError`, `ValueError`
  or `OtherError`.

In these places the model follows the code, whose behaviour may be
unexpected:

- **Equal `lft`.** An html and a plain part that are not siblings but have
  equal `lft` give the plain part (`EqualPositionChoosesPlain`).
- **Image-filter failure.** It falls back to the plain part, or to nothing,
  but leaves `plain_message` false and queues no message. So the plain
  part's text, which never went through the cleaner, is handed to the
  template as an html message (see "Findings"). Only the cleaning failure
  sets `plain_message` and queues a message.
- **Root image.** `.//img` finds only the images below the parsed root, so a
  body whose root is itself an image keeps that image's `src` (see
  "Findings"). `RenderBody` strips the images as written.
- **Uncaught exceptions.** The cleaning and image handlers catch only
  `LxmlError` and `ValueError`. Any other exception from those libraries
  ends the render (`Failure`). Only the style-inlining pass catches
  everything.
- **Parameter names.** They are ASCII letters and digits only, not word
  characters. Values cannot contain `"`, `'`, `;` or `=`.

## Model

| member | source | states |
|---|---|---|
| `HeaderParams.Span` | views/inbox/email.py:36 | The greedy run of a character class: every character in it is in the class, and the one after it is not. |
| `HeaderParams.MatchAt` | views/inbox/email.py:36 | The match anchored at the start of a string is a match of the pattern: a non-empty alphanumeric name, `=`, an optional quote, a non-empty value without `"';=`, an optional quote and an optional `;`. |
| `HeaderParams.MatchAtSameStart` | views/inbox/email.py:36 | Every match of the pattern has the same name and the same opening-quote choice as the engine's, and a value no longer than its value. |
| `HeaderParams.MatchAtGreedy` | views/inbox/email.py:36 | The optional closing quote and `;` are consumed exactly when they are there. |
| `HeaderParams.MatchAtLongest` | views/inbox/email.py:36 | The engine's match is the unique longest match: any other way to match is strictly shorter. |
| `HeaderParams.MatchAtTerminated` | views/inbox/email.py:36 | A match that ends with `;` is exactly the one found. |
| `HeaderParams.FindAll` | views/inbox/email.py:36 | `findall` never fails, and every pair it returns has a non-empty alphanumeric name and a non-empty value without `"';=`. |
| `HeaderParams.FindAllSkips` | views/inbox/email.py:36 | A character that cannot start a name is skipped, so unmatched text never stops the scan. |
| `HeaderParams.FindAllNeedsEquals` | views/inbox/email.py:36 | A string without `=` yields no pairs. |
| `HeaderParams.GreedyIsLongest` | views/inbox/email.py:36 | A match that takes its closing quote and `;` whenever they are there is strictly longer than any other match with the same name, opening quote and a value no longer than its own. |
| `HeaderParams.FindAllSpaces` | views/inbox/email.py:36 | Spaces in front of a string add no pairs and remove none. |
| `HeaderParams.BareMatches` | views/inbox/email.py:36 | An unindented `name=value` or `name="value"`, with or without `;`, is matched in full by the expression. |
| `HeaderParams.FindAllFormatParam` | views/inbox/email.py:36 | One parameter, indented by any number of spaces, as `name=value` or `name="value"` with a `;` (or without one when it is last), is read back as its own pair, and the scan resumes right after it. |
| `HeaderParams.FindAllFormat` | views/inbox/email.py:36 | Round trip: scanning indented `name=value` or `name="value"` parameters separated by `;`, the last one with or without `;`, gives back exactly their names and values, in order. |
| `HeaderParams.ToDict` | views/inbox/email.py:133 | `dict(pairs)` has exactly the names of the pairs as keys, and each key maps to a value it was paired with. |
| `HeaderParams.ToDictLastWins` | views/inbox/email.py:133-136 | When a name repeats, the value of its last pair is the one kept. |
| `HeaderParams.Params` | views/inbox/email.py:133 | `dict(HEADER_PARAMS.findall(s))` is total, and its entries are well-formed pairs. |
| `MimeParts.IsContainer` | views/inbox/email.py:129 | A main type is skipped exactly when it starts with `multipart` or with `message`. |
| `MimeParts.Header` | views/inbox/email.py:125-127 | A stored header reads as its value, and a missing one as the empty string. |
| `MimeParts.SplitContentType` | views/inbox/email.py:126 | `split(";", 1)`: there is no parameter string exactly when there is no `;`. Otherwise the main type has no `;` and main + `;` + parameters is the header. |
| `MimeParts.MergeParams` | views/inbox/email.py:132-136 | The keys are those of both headers. Disposition parameters override Content-Type parameters, and every Content-Type key the disposition lacks keeps its Content-Type value. A Content-Type without `;` contributes none. |
| `MimeParts.Filename` | views/inbox/email.py:139-144 | The filename is the `filename` parameter when present, else the `name` parameter when present, else empty. |
| `MimeParts.Charset` | views/inbox/email.py:147 | The charset is the `charset` parameter when present, else `utf-8`. |
| `MimeParts.Classify` | views/inbox/email.py:125-147 | A part is classified exactly when its main type does not start with `multipart` or `message`. Its filename is empty exactly when neither `filename` nor `name` is a merged parameter. Its charset is never empty. |
| `MimeParts.ClassifyFromParams` | views/inbox/email.py:138-147 | Over the merged parameters, the filename is the `filename` value, else the `name` value. The charset is the `charset` value, else `utf-8`. |
| `MimeParts.DispositionFilenameWins` | views/inbox/email.py:136-140 | A `filename` in the Content-Disposition is the filename, whatever the Content-Type says. |
| `MimeParts.CharsetFromLastPair` | views/inbox/email.py:133-147 | The charset is the last `charset` pair of the Content-Disposition. If that header has none, it is the last `charset` pair of the Content-Type parameters. |
| `MimeParts.CharsetDefault` | views/inbox/email.py:147 | Without a `charset` pair in either scanned string, the charset is `utf-8`. |
| `MimeParts.Leaves` | views/inbox/email.py:123-154 | The attachment list is no longer than the parts. |
| `MimeParts.LeavesSound` | views/inbox/email.py:129-154 | Each attachment is the classification of one of the parts. |
| `MimeParts.LeavesComplete` | views/inbox/email.py:129-154 | Every part that is not a container has its classification in the attachment list. |
| `MimeParts.LeavesAreNotContainers` | views/inbox/email.py:129-130 | No attachment is a `multipart` or `message` container. |
| `MimeParts.LeavesAppend` | views/inbox/email.py:154 | The attachment list keeps scan order: the attachments of `a + b` are those of `a` followed by those of `b`. |
| `MimeParts.FirstOfType` | views/inbox/email.py:149-152 | A part it returns has the requested main type. |
| `MimeParts.FirstOfTypeIsFirst` | views/inbox/email.py:149-152 | Returns the first part of the given main type: it exists exactly when some part has that type, and no earlier part has it. |
| `MimeParts.FirstOfTypeAppend` | views/inbox/email.py:149-152 | A later part becomes the first of a type only when no earlier part had that type. |
| `MimeParts.IndexParts` | views/inbox/email.py:120-154 | The loop returns the attachment list, the first `text/html` part and the first `text/plain` part of the non-container parts. |
| `BodySelector.FindBody` | views/inbox/email.py:85-105 | None exactly when both parts are absent. A chosen part is always present. A lone part is chosen whatever the preference. |
| `BodySelector.PreferenceOnlyForSiblings` | views/inbox/email.py:98-105 | The preference changes the result exactly when both parts are present and have the same parent. |
| `BodySelector.SiblingsFollowPreference` | views/inbox/email.py:99-100 | Siblings give `not prefer_html_email`. |
| `BodySelector.SiblingPositionIrrelevant` | views/inbox/email.py:99-100 | For siblings, changing either part's `lft`/`rgt` does not change the result. |
| `BodySelector.NonSiblingsByPosition` | views/inbox/email.py:101-105 | For non-siblings, html wins exactly when its `lft` is smaller. Plain wins otherwise, equal `lft` included, whatever the preference. |
| `BodySelector.NonSiblingsEarlierWins` | views/inbox/email.py:101-105 | For non-siblings with distinct positions, the chosen part is the one earlier in document order. |
| `BodySelector.EqualPositionChoosesPlain` | views/inbox/email.py:104-105 | For non-siblings with equal `lft`, the plain part is chosen. |
| `ImageFilter.DecideImages` | views/inbox/email.py:204-217 | The user is asked only when images are not displayed, and exactly when the message is html, there is no override and `ask_images` is set. Images are displayed exactly in plain mode, under the override, or when not asking and `display_images` is set. |
| `ImageFilter.WithoutSource` | views/inbox/email.py:224-227 | Deleting `src` keeps the tag, the parent and every other attribute. A missing `src` changes nothing. |
| `ImageFilter.ImagesFrom` | views/inbox/email.py:223 | Lists exactly the `img` elements from a position on, in document order. |
| `ImageFilter.DescendantImages` | views/inbox/email.py:223 | `tree.findall(".//img")` as written: exactly the `img` elements after the root, never the root itself. |
| `ImageFilter.AllImages` | views/inbox/email.py:223 | The corrected list: exactly the `img` elements of the body, the root included. |
| `ImageFilter.ScrubEffect` | views/inbox/email.py:223-227 | Deleting `src` from the listed elements keeps the number of elements. Each listed element loses `src` and keeps its tag, parent and other attributes. Every other element is left as it was. |
| `ImageFilter.ScrubbedHasNoImageSources` | views/inbox/email.py:219-228 | After stripping every image, no image has a `src` and each keeps its other attributes. Every other element is unchanged. |
| `ImageFilter.ScrubbedBelowRoot` | views/inbox/email.py:219-228 | Stripping the images `.//img` finds leaves the root as it was. Every image below the root loses its `src` and keeps its other attributes, and every other element is unchanged. |
| `ImageFilter.RootImageKeepsSource` | views/inbox/email.py:223 | With `.//img` as written, a body whose root element is an image keeps that image's `src`. |
| `ImageFilter.DescendantImagesMissOnlyRoot` | views/inbox/email.py:223 | The as-written and corrected image lists strip the same elements everywhere except the root. |
| `ImageFilter.DeleteSources` | views/inbox/email.py:223-227 | The in-place loop deletes `src` from exactly the listed elements. |
| `EmailView.Caught` | views/inbox/email.py:229 | `except (etree.LxmlError, ValueError)`, here and at line 191, catches every library error except `OtherError`. |
| `EmailView.PlainFallback` | views/inbox/email.py:192-197 | The fallback body is non-empty exactly when there is a plain part with non-empty data. It is then that part's data and charset, and otherwise empty in `utf-8`. |
| `EmailView.Styled` | views/inbox/email.py:183-187 | The inlined body when Premailer succeeds, the body unchanged when it raises anything. |
| `EmailView.StyleWarnings` | views/inbox/email.py:183-187 | At most one message, "could not be parsed", queued exactly when Premailer raises. |
| `EmailView.ParseFailureFallback` | views/inbox/email.py:229-235 | The image handler as written: the body and charset become the plain fallback, and `plain_message` keeps the value it had. |
| `EmailView.ParseFailureFallbackCorrected` | views/inbox/email.py:191-199 | The corrected image handler: the same plain fallback, always marked as a plain message, as the cleaning handler does. |
| `EmailView.StripImages` | views/inbox/email.py:219-235 | The image filter with a given failure handler: a parsed body is serialised again with `src` deleted from the images below the root, and the charset and `plain_message` are kept. A caught parse failure gives the handler's result. It fails exactly when the parser raises something other than `LxmlError` or `ValueError`, and then with that exception. |
| `EmailView.FilterImages` | views/inbox/email.py:219-235 | Deleting `src` in place from the parsed elements and serialising them gives exactly `StripImages` with the handler as written. |
| `EmailView.CorrectedStripKeepsHtmlCleaned` | views/inbox/email.py:219-235 | With the corrected handler, a body the image filter leaves in html mode is the cleaned body, or the cleaned body parsed, stripped of `src` below the root and serialised again. |
| `EmailView.AsWrittenStripShowsUncleaned` | views/inbox/email.py:229-235 | As written, a cleaned body `<p>` that the parser rejects is replaced by the plain part `<b>`, which is not derived from the cleaned body, while `plain_message` stays false. |
| `EmailView.RenderBody` | views/inbox/email.py:156-238 | See the paragraph after this table. |
| `EmailView.GetContextData` | views/inbox/email.py:120-246 | The attachments are the classified non-container parts. With no html or plain part, the single other part, or nothing, is shown as plain. A lone plain part is shown as plain. An html-mode result always has an html part. |

`EmailView.RenderBody` states the following:

- **No viable body.** The body is the single attachment's data and charset,
  or empty with `utf-8`. The message is plain, with no ask and no warnings.
- **Plain part chosen.** The body is the plain part's data and charset.
- **Html part chosen.**
  - A failed style pass leaves the body unchanged and adds one warning.
  - A caught cleaning failure gives the plain part's data and charset when
    that data is non-empty, otherwise empty with `utf-8`. It sets plain
    mode and adds an invalid-HTML warning.
  - After cleaning, the body is the cleaned html when images are displayed.
    Otherwise it is the re-serialised tree with `src` removed from every
    image below the root, and the root left as it was. On a caught parse
    failure it is the uncleaned plain fallback, and plain mode is left unset.
    This whole step is `StripImages` with the handler as written: the result
    is built from what it returns, or fails with its exception.
- **In every outcome:**
  - the body is decoded last, from the bytes and charset reached;
  - an html-mode result means the html part passed the cleaning pass; its
    body is the cleaned html, or that html parsed, stripped of `src` below
    the root and serialised again, except after a caught image-parse
    failure, where it is the plain fallback, which was never cleaned;
  - asking implies html mode;
  - only uncaught exceptions fail the render.

## Findings

| source | as written | input that shows it | evidently intended | confidence | as-written member | corrected member |
|---|---|---|---|---|---|---|
| views/inbox/email.py:223 | `tree.findall(".//img")` lists only the images below the element that `lxml.html.fromstring` returned, never that element itself. | Style inlining fails, so the cleaned body stays the fragment `<img src="http://tracker.example/p.gif">`. That fragment parses to a single `img` root, which keeps its `src` although images are not to be displayed. | Delete `src` from every image of the body, the root included. | medium; not executed | `ImageFilter.DescendantImages`, shown by `ImageFilter.RootImageKeepsSource` | `ImageFilter.AllImages`, proved by `ImageFilter.ScrubbedHasNoImageSources` (`EmailView.RenderBody` keeps the code's `ImageFilter.DescendantImages`) |
| views/inbox/email.py:229-235 | The handler of a failed image parse replaces the cleaned html body with the plain part's text but leaves `plain_message` false. | Html and plain siblings with `prefer_html_email` set, images not displayed, and a cleaned body that `lxml.html.fromstring` rejects with a `ValueError`. The plain text, never cleaned, goes to the template as an html message. | Set `plain_message`, as the cleaning handler at lines 191-199 does. | low; not executed; the template is not part of this model | `EmailView.ParseFailureFallback`, shown by `EmailView.AsWrittenStripShowsUncleaned` | `EmailView.ParseFailureFallbackCorrected`, proved by `EmailView.CorrectedStripKeepsHtmlCleaned` (`EmailView.RenderBody` keeps the code's handler) |

## Left out

- Django view plumbing is not modelled: `get`, `post`, `get_object` (the hexadecimal id), `get_queryset` and `get_success_url`. The same goes for the read/seen/important flag saves, `watson` index skipping, and the template context beyond the body fields.
- The message headers at lines 108-118 are not modelled: the header lookup (`cache.get`, `Header.objects`), the Subject (defaulting to `(No subject)`), the From (a missing one raises an uncaught `KeyError` that ends the render), the received date, the inbox and `eid`.
- Premailer, `Cleaner` (with its configuration and `kill_tags`), `lxml.html.fromstring` and `etree.tostring` are opaque. For the first three, what happens on each of their outcomes is modelled. `etree.tostring` is modelled as a total function. A failure there, which the handler at line 229 would catch like a parse failure, is not modelled. Text nodes, tails and element content are not part of the element arena, since stripping never touches them.
- The charset decode `unicode(..., errors="replace")` is an opaque total function. Codec tables and replacement characters are not modelled.
- `EmailView.RenderBody`: a charset name Python does not know makes `unicode` raise an uncaught `LookupError` in every branch. With the total decode, the contract's `r.Success?` in the no-body, plain and html branches does not capture that failure.
- `messages.warning` and `messages.error` are modelled as the `Warning` tags of the result. Translation is not modelled.
- The `imgDisplay` query parameter arrives as a boolean. The `int(...)` parse, which raises on a non-numeric value, is not modelled.
- `MimeParts.IndexParts` does not assign `part.charset` on the stored part object in place. The charset is a field of the classified record instead. Each part is visited once, and container parts, whose charset the view never sets, are never read again, so nothing observable is lost.
- `EmailView.RenderBody`: the `str(...)` conversions of part data are identities on bytes.
