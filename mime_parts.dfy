/**
 * The MIME parts of one stored email and the loop of the email view that
 * classifies them: the Content-Type is split at its first `;`, containers
 * (`multipart*`, `message*`) are skipped, the parameters of Content-Type and
 * Content-Disposition are merged, filename and charset are resolved, the first
 * `text/html` and first `text/plain` parts are kept, and every other part is
 * collected, in scan order, into the attachment list.
 */
module MimeParts {
  import opened Wrappers
  import HeaderParams

  newtype byte = x: int | 0 <= x < 256

  type Bytes = seq<byte>

  /**
   * A stored part: its parent (`None` for the top-level part), its nested-set
   * position `lft`/`rgt`, the headers stored for it and its body data.
   */
  datatype MimePart = MimePart(parent: Option<nat>, lft: int, rgt: int, headers: map<string, string>, data: Bytes)

  /** `value.split(";", 1)`: the main type, and the parameter string when there was a `;`. */
  datatype ContentType = ContentType(main: string, params: Option<string>)

  /** What the view keeps of a part's headers: the split Content-Type and the resolved filename. */
  datatype PartHead = PartHead(contentType: ContentType, filename: string)

  /** A part with its head and the charset the loop assigns to it. */
  datatype ClassifiedPart = ClassifiedPart(part: MimePart, head: PartHead, charset: string)

  /** `get_many(...)` followed by `pop(name, "")`: an absent header reads as the empty string. */
  function Header(p: MimePart, name: string): (v: string)
    ensures name in p.headers ==> v == p.headers[name]
    ensures name !in p.headers ==> v == ""
  {
    if name in p.headers then p.headers[name] else ""
  }

  /** Splits a Content-Type value at its first `;`. */
  function SplitContentType(s: string): (ct: ContentType)
    ensures ct.params.None? <==> ';' !in s
    ensures ct.params.None? ==> ct.main == s
    ensures ct.params.Some? ==> s == ct.main + ";" + ct.params.value && ';' !in ct.main
  {
    if |s| == 0 then ContentType("", None)
    else if s[0] == ';' then ContentType("", Some(s[1..]))
    else
      var rest := SplitContentType(s[1..]);
      assert s == [s[0]] + s[1..];
      ContentType([s[0]] + rest.main, rest.params)
  }

  /** Container parts, whose main type starts with `multipart` or `message`. */
  predicate IsContainer(main: string)
    ensures IsContainer(main) <==> (|main| >= 9 && main[..9] == "multipart") || (|main| >= 7 && main[..7] == "message")
  {
    "multipart" <= main || "message" <= main
  }

  /**
   * The parameters of a part: those of the Content-Type (none when it has no
   * `;`), updated with those of the Content-Disposition.
   */
  function MergeParams(ct: ContentType, disposition: string): (params: map<string, string>)
    ensures ct.params.None? ==> params == HeaderParams.Params(disposition)
    ensures forall k :: k in HeaderParams.Params(disposition) ==> k in params && params[k] == HeaderParams.Params(disposition)[k]
    ensures forall k :: k in params && k !in HeaderParams.Params(disposition) ==>
      ct.params.Some? && k in HeaderParams.Params(ct.params.value) && params[k] == HeaderParams.Params(ct.params.value)[k]
    ensures ct.params.Some? ==> forall k :: k in HeaderParams.Params(ct.params.value) && k !in HeaderParams.Params(disposition) ==>
      k in params && params[k] == HeaderParams.Params(ct.params.value)[k]
    ensures forall k :: k in params ==> HeaderParams.IsParam((k, params[k]))
  {
    var fromType := match ct.params
      case None => map[]
      case Some(p) => HeaderParams.Params(p);
    fromType + HeaderParams.Params(disposition)
  }

  /** The filename: the `filename` parameter, else the `name` parameter, else empty. */
  function Filename(params: map<string, string>): (f: string)
    ensures "filename" in params ==> f == params["filename"]
    ensures "filename" !in params && "name" in params ==> f == params["name"]
    ensures "filename" !in params && "name" !in params ==> f == ""
  {
    if "filename" in params then params["filename"]
    else if "name" in params then params["name"]
    else ""
  }

  /** The charset: the `charset` parameter, else `utf-8`. */
  function Charset(params: map<string, string>): (c: string)
    ensures "charset" in params ==> c == params["charset"]
    ensures "charset" !in params ==> c == "utf-8"
  {
    if "charset" in params then params["charset"] else "utf-8"
  }

  /**
   * One iteration of the loop: `None` for a container part, otherwise the part
   * with its head and charset. A non-empty filename always comes from a
   * `filename` or `name` parameter, and the charset is never empty.
   */
  function Classify(p: MimePart): (r: Option<ClassifiedPart>)
    ensures r.Some? <==> !IsContainer(SplitContentType(Header(p, "Content-Type")).main)
    ensures r.Some? ==> r.value.part == p && r.value.head.contentType == SplitContentType(Header(p, "Content-Type"))
    ensures r.Some? ==> r.value.charset != ""
    ensures r.Some? ==>
      var params := MergeParams(r.value.head.contentType, Header(p, "Content-Disposition"));
      r.value.head.filename == "" <==> "filename" !in params && "name" !in params
  {
    var ct := SplitContentType(Header(p, "Content-Type"));
    if IsContainer(ct.main) then None
    else
      var params := MergeParams(ct, Header(p, "Content-Disposition"));
      assert "charset" in params ==> HeaderParams.IsParam(("charset", params["charset"]));
      assert "filename" in params ==> HeaderParams.IsParam(("filename", params["filename"]));
      assert "name" in params ==> HeaderParams.IsParam(("name", params["name"]));
      Some(ClassifiedPart(p, PartHead(ct, Filename(params)), Charset(params)))
  }

  /**
   * Over the merged parameters, the filename is the `filename` value, else the
   * `name` value, and the charset is the `charset` value, else `utf-8`.
   */
  lemma ClassifyFromParams(p: MimePart)
    requires Classify(p).Some?
    ensures var c := Classify(p).value;
            var params := MergeParams(c.head.contentType, Header(p, "Content-Disposition"));
            && ("filename" in params ==> c.head.filename == params["filename"])
            && ("filename" !in params && "name" in params ==> c.head.filename == params["name"])
            && ("charset" in params ==> c.charset == params["charset"])
            && ("charset" !in params ==> c.charset == "utf-8")
  {
  }

  /** A `filename` in the Content-Disposition wins over anything the Content-Type says. */
  lemma DispositionFilenameWins(p: MimePart)
    requires Classify(p).Some?
    requires "filename" in HeaderParams.Params(Header(p, "Content-Disposition"))
    ensures Classify(p).value.head.filename == HeaderParams.Params(Header(p, "Content-Disposition"))["filename"]
  {
  }

  /** The charset is the last `charset` pair of the Content-Disposition if it has one, else of the Content-Type. */
  lemma {:induction false} CharsetFromLastPair(p: MimePart, header: string, i: nat)
    requires Classify(p).Some?
    requires header == Header(p, "Content-Disposition") ||
             (Classify(p).value.head.contentType.params == Some(header) &&
              "charset" !in HeaderParams.Params(Header(p, "Content-Disposition")))
    requires i < |HeaderParams.FindAll(header)| && HeaderParams.FindAll(header)[i].0 == "charset"
    requires forall j :: i < j < |HeaderParams.FindAll(header)| ==> HeaderParams.FindAll(header)[j].0 != "charset"
    ensures Classify(p).value.charset == HeaderParams.FindAll(header)[i].1
  {
    HeaderParams.ToDictLastWins(HeaderParams.FindAll(header), i);
  }

  /** Without a `charset` pair in the scanned parameter strings, the charset is `utf-8`. */
  lemma CharsetDefault(p: MimePart)
    requires Classify(p).Some?
    requires forall j :: 0 <= j < |HeaderParams.FindAll(Header(p, "Content-Disposition"))| ==>
      HeaderParams.FindAll(Header(p, "Content-Disposition"))[j].0 != "charset"
    requires Classify(p).value.head.contentType.params.Some? ==>
      forall j :: 0 <= j < |HeaderParams.FindAll(Classify(p).value.head.contentType.params.value)| ==>
        HeaderParams.FindAll(Classify(p).value.head.contentType.params.value)[j].0 != "charset"
    ensures Classify(p).value.charset == "utf-8"
  {
  }

  /**
   * The values a classifier gives for the elements it keeps, in order. The
   * properties of the attachment list are proved here once, for any
   * classifier, so that the proofs never look inside `Classify`.
   */
  function Collect<A, B>(xs: seq<A>, f: A -> Option<B>): (ys: seq<B>)
    ensures |ys| <= |xs|
  {
    if |xs| == 0 then []
    else
      var init := Collect(xs[..|xs| - 1], f);
      match f(xs[|xs| - 1])
      case None => init
      case Some(y) => init + [y]
  }

  /** Collecting one more element appends its value, if it is kept. */
  lemma CollectPrefix<A, B>(xs: seq<A>, f: A -> Option<B>, i: nat)
    requires i < |xs|
    ensures Collect(xs[..i + 1], f) == Collect(xs[..i], f) + (if f(xs[i]).Some? then [f(xs[i]).value] else [])
  {
    assert xs[..i + 1][..i] == xs[..i];
  }

  lemma {:induction false} CollectSound<A, B>(xs: seq<A>, f: A -> Option<B>, i: nat)
    requires i < |Collect(xs, f)|
    ensures exists k :: 0 <= k < |xs| && f(xs[k]) == Some(Collect(xs, f)[i])
    decreases |xs|
  {
    var n := |xs| - 1;
    var init := xs[..n];
    CollectPrefix(xs, f, n);
    assert xs[..n + 1] == xs;
    if i < |Collect(init, f)| {
      CollectSound(init, f, i);
      var k :| 0 <= k < |init| && f(init[k]) == Some(Collect(init, f)[i]);
      assert f(xs[k]) == Some(Collect(xs, f)[i]);
    } else {
      assert f(xs[n]) == Some(Collect(xs, f)[i]);
    }
  }

  lemma {:induction false} CollectComplete<A, B>(xs: seq<A>, f: A -> Option<B>, j: nat)
    requires j < |xs| && f(xs[j]).Some?
    ensures f(xs[j]).value in Collect(xs, f)
    decreases |xs|
  {
    var n := |xs| - 1;
    var init := xs[..n];
    CollectPrefix(xs, f, n);
    assert xs[..n + 1] == xs;
    if j < n {
      assert init[j] == xs[j];
      CollectComplete(init, f, j);
    }
  }

  lemma {:induction false} CollectAppend<A, B>(a: seq<A>, b: seq<A>, f: A -> Option<B>)
    ensures Collect(a + b, f) == Collect(a, f) + Collect(b, f)
    decreases |b|
  {
    if |b| == 0 {
      assert a + b == a;
    } else {
      var n := |b| - 1;
      CollectPrefix(a + b, f, |a| + n);
      CollectPrefix(b, f, n);
      assert (a + b)[..|a| + n + 1] == a + b;
      assert (a + b)[..|a| + n] == a + b[..n];
      assert (a + b)[|a| + n] == b[n];
      assert b[..n + 1] == b;
      CollectAppend(a, b[..n], f);
    }
  }

  /** The attachment list: the classification of every non-container part, in scan order. */
  function Leaves(parts: seq<MimePart>): (cs: seq<ClassifiedPart>)
    ensures |cs| <= |parts|
  {
    Collect(parts, Classify)
  }

  /** Nothing is invented: each entry is the classification of one of the parts. */
  lemma LeavesSound(parts: seq<MimePart>, i: nat)
    requires i < |Leaves(parts)|
    ensures Classify(Leaves(parts)[i].part) == Some(Leaves(parts)[i])
    ensures Leaves(parts)[i].part in parts
  {
    CollectSound(parts, Classify, i);
    var k :| 0 <= k < |parts| && Classify(parts[k]) == Some(Leaves(parts)[i]);
    assert Leaves(parts)[i].part == parts[k];
  }

  /** Scanning one more part appends its classification, if any. */
  lemma LeavesPrefix(parts: seq<MimePart>, i: nat)
    requires i < |parts|
    ensures Leaves(parts[..i + 1]) ==
      Leaves(parts[..i]) + (if Classify(parts[i]).Some? then [Classify(parts[i]).value] else [])
  {
    CollectPrefix(parts, Classify, i);
  }

  /** Nothing is dropped: every part that is not a container has its classification in the list. */
  lemma LeavesComplete(parts: seq<MimePart>, j: nat)
    requires j < |parts| && Classify(parts[j]).Some?
    ensures Classify(parts[j]).value in Leaves(parts)
  {
    CollectComplete(parts, Classify, j);
  }

  /** No attachment is a container part. */
  lemma LeavesAreNotContainers(parts: seq<MimePart>, i: nat)
    requires i < |Leaves(parts)|
    ensures !IsContainer(Leaves(parts)[i].head.contentType.main)
  {
    LeavesSound(parts, i);
  }

  /** The list keeps the scan order: the attachments of two runs of parts are those of each, one after the other. */
  lemma LeavesAppend(a: seq<MimePart>, b: seq<MimePart>)
    ensures Leaves(a + b) == Leaves(a) + Leaves(b)
  {
    CollectAppend(a, b, Classify);
  }

  /** The first part of the list with main type `t`: where the first `text/html` and first `text/plain` come from. */
  function FirstOfType(cs: seq<ClassifiedPart>, t: string): (r: Option<ClassifiedPart>)
    ensures r.Some? ==> r.value.head.contentType.main == t
  {
    if |cs| == 0 then None
    else if cs[0].head.contentType.main == t then Some(cs[0])
    else FirstOfType(cs[1..], t)
  }

  /** The first part of the list with main type `t`, or `None` when no part has it. */
  lemma {:induction false} FirstOfTypeIsFirst(cs: seq<ClassifiedPart>, t: string)
    ensures FirstOfType(cs, t).None? <==> forall i :: 0 <= i < |cs| ==> cs[i].head.contentType.main != t
    ensures FirstOfType(cs, t).Some? ==>
      exists i :: 0 <= i < |cs| && cs[i] == FirstOfType(cs, t).value && cs[i].head.contentType.main == t &&
                  forall j :: 0 <= j < i ==> cs[j].head.contentType.main != t
  {
    if |cs| > 0 && cs[0].head.contentType.main != t {
      FirstOfTypeIsFirst(cs[1..], t);
      assert forall i :: 1 <= i < |cs| ==> cs[i] == cs[1..][i - 1];
      if FirstOfType(cs, t).Some? {
        var i :| 0 <= i < |cs[1..]| && cs[1..][i] == FirstOfType(cs, t).value && cs[1..][i].head.contentType.main == t &&
          forall j :: 0 <= j < i ==> cs[1..][j].head.contentType.main != t;
        assert cs[i + 1] == FirstOfType(cs, t).value;
      }
    }
  }

  /** Appending a part changes the first of a type only when there was none yet. */
  lemma {:induction false} FirstOfTypeAppend(cs: seq<ClassifiedPart>, c: ClassifiedPart, t: string)
    ensures FirstOfType(cs + [c], t) ==
      if FirstOfType(cs, t).Some? then FirstOfType(cs, t)
      else if c.head.contentType.main == t then Some(c)
      else None
  {
    if |cs| > 0 {
      assert (cs + [c])[1..] == cs[1..] + [c];
      FirstOfTypeAppend(cs[1..], c, t);
    }
  }

  /**
   * The loop over the parts: returns the first `text/html` part, the first
   * `text/plain` part and the attachment list.
   */
  method IndexParts(parts: seq<MimePart>) returns (html: Option<ClassifiedPart>, plain: Option<ClassifiedPart>, attachments: seq<ClassifiedPart>)
    ensures attachments == Leaves(parts)
    ensures html == FirstOfType(attachments, "text/html")
    ensures plain == FirstOfType(attachments, "text/plain")
  {
    html, plain, attachments := None, None, [];
    for i := 0 to |parts|
      invariant attachments == Leaves(parts[..i])
      invariant html == FirstOfType(attachments, "text/html")
      invariant plain == FirstOfType(attachments, "text/plain")
    {
      LeavesPrefix(parts, i);
      var classified := Classify(parts[i]);
      if classified.Some? {
        var c := classified.value;
        FirstOfTypeAppend(attachments, c, "text/html");
        FirstOfTypeAppend(attachments, c, "text/plain");
        if html.None? && c.head.contentType.main == "text/html" {
          html := Some(c);
        } else if plain.None? && c.head.contentType.main == "text/plain" {
          plain := Some(c);
        }
        attachments := attachments + [c];
      }
    }
    assert parts[..|parts|] == parts;
  }
}
