/**
 * Remote images in the email view: whether images are displayed or the user
 * is asked, and the removal of the `src` attribute from image elements.
 *
 * A parsed HTML body is an arena of elements in document order; element 0 is
 * the root that the parser returned and every other element lies below it.
 * Only what the removal touches is kept: tag, attributes and parent.
 */
module ImageFilter {
  import opened Wrappers

  /** `img_display` and `ask_images` of the view. */
  datatype ImagePolicy = ImagePolicy(display: bool, ask: bool)

  /**
   * In priority order: a plain message shows images; so does the one-shot
   * override (`imgDisplay=1`); a user who wants to be asked is asked and sees
   * none; otherwise the `display_images` preference decides.
   */
  function DecideImages(plainMessage: bool, showNow: bool, askImages: bool, displayImages: bool): (d: ImagePolicy)
    ensures d.ask ==> !d.display
    ensures d.ask <==> !plainMessage && !showNow && askImages
    ensures d.display <==> plainMessage || showNow || (!askImages && displayImages)
  {
    if plainMessage then ImagePolicy(true, false)
    else if showNow then ImagePolicy(true, false)
    else if askImages then ImagePolicy(false, true)
    else ImagePolicy(displayImages, false)
  }

  datatype HtmlNode = HtmlNode(tag: string, attrs: map<string, string>, parent: Option<nat>)

  /** `del img.attrib["src"]`, where a missing `src` (the `KeyError`) leaves the element as it was. */
  function WithoutSource(n: HtmlNode): (r: HtmlNode)
    ensures r.tag == n.tag && r.parent == n.parent
    ensures r.attrs.Keys == n.attrs.Keys - {"src"}
    ensures forall k :: k in r.attrs ==> r.attrs[k] == n.attrs[k]
  {
    n.(attrs := n.attrs - {"src"})
  }

  /** The indices of the `img` elements at or after `from`, in document order. */
  function ImagesFrom(nodes: seq<HtmlNode>, from: nat): (imgs: seq<nat>)
    ensures forall j :: j in imgs <==> from <= j < |nodes| && nodes[j].tag == "img"
    ensures forall k :: 0 <= k < |imgs| ==> from <= imgs[k] < |nodes|
    ensures forall a, b :: 0 <= a < b < |imgs| ==> imgs[a] < imgs[b]
    decreases |nodes| - from
  {
    if from >= |nodes| then []
    else if nodes[from].tag == "img" then [from] + ImagesFrom(nodes, from + 1)
    else ImagesFrom(nodes, from + 1)
  }

  /** `tree.findall(".//img")` as written: the images strictly below the root. */
  function DescendantImages(nodes: seq<HtmlNode>): (imgs: seq<nat>)
    ensures forall j :: j in imgs <==> 1 <= j < |nodes| && nodes[j].tag == "img"
  {
    ImagesFrom(nodes, 1)
  }

  /** Every image of the body, the root included. */
  function AllImages(nodes: seq<HtmlNode>): (imgs: seq<nat>)
    ensures forall j :: j in imgs <==> 0 <= j < |nodes| && nodes[j].tag == "img"
  {
    ImagesFrom(nodes, 0)
  }

  /** The elements after `src` has been deleted from the listed ones. */
  function Scrub(nodes: seq<HtmlNode>, targets: seq<nat>): seq<HtmlNode> {
    seq(|nodes|, j requires 0 <= j < |nodes| => if j in targets then WithoutSource(nodes[j]) else nodes[j])
  }

  /**
   * Deleting `src` from the listed elements keeps the number of elements; a
   * listed element loses `src` and keeps its tag, parent and other
   * attributes, and every other element is left as it was.
   */
  lemma ScrubEffect(nodes: seq<HtmlNode>, targets: seq<nat>)
    ensures |Scrub(nodes, targets)| == |nodes|
    ensures forall j :: 0 <= j < |nodes| && j in targets ==>
      var r := Scrub(nodes, targets)[j];
      && r.tag == nodes[j].tag && r.parent == nodes[j].parent
      && r.attrs.Keys == nodes[j].attrs.Keys - {"src"}
      && forall k :: k in r.attrs ==> r.attrs[k] == nodes[j].attrs[k]
    ensures forall j :: 0 <= j < |nodes| && j !in targets ==> Scrub(nodes, targets)[j] == nodes[j]
  {
  }

  /**
   * Deleting `src` from every image: no image keeps a `src`, an image keeps
   * every other attribute, and every element that is not an image is left as
   * it was.
   */
  lemma ScrubbedHasNoImageSources(nodes: seq<HtmlNode>)
    ensures |Scrub(nodes, AllImages(nodes))| == |nodes|
    ensures forall j :: 0 <= j < |nodes| ==>
      var r := Scrub(nodes, AllImages(nodes))[j];
      r.tag == nodes[j].tag && r.parent == nodes[j].parent &&
      (r.tag == "img" ==> "src" !in r.attrs && r.attrs == nodes[j].attrs - {"src"}) &&
      (r.tag != "img" ==> r == nodes[j])
  {
  }

  /**
   * Deleting `src` from the images that `.//img` finds: the root is left as it
   * was, every image below it loses its `src` and keeps its other attributes,
   * and every other element is unchanged.
   */
  lemma ScrubbedBelowRoot(nodes: seq<HtmlNode>)
    ensures |Scrub(nodes, DescendantImages(nodes))| == |nodes|
    ensures |nodes| > 0 ==> Scrub(nodes, DescendantImages(nodes))[0] == nodes[0]
    ensures forall j :: 1 <= j < |nodes| ==>
      var r := Scrub(nodes, DescendantImages(nodes))[j];
      r.tag == nodes[j].tag && r.parent == nodes[j].parent &&
      (r.tag == "img" ==> "src" !in r.attrs && r.attrs == nodes[j].attrs - {"src"}) &&
      (r.tag != "img" ==> r == nodes[j])
  {
  }

  /** As written, a body whose root is itself an image keeps that image's `src`. */
  lemma RootImageKeepsSource()
    ensures var nodes := [HtmlNode("img", map["src" := "http://tracker.example/p.gif"], None)];
            "src" in Scrub(nodes, DescendantImages(nodes))[0].attrs
  {
    var nodes := [HtmlNode("img", map["src" := "http://tracker.example/p.gif"], None)];
    assert DescendantImages(nodes) == [];
  }

  /** As written and corrected agree on every element but the root. */
  lemma DescendantImagesMissOnlyRoot(nodes: seq<HtmlNode>)
    ensures forall j :: 1 <= j < |nodes| ==>
      Scrub(nodes, DescendantImages(nodes))[j] == Scrub(nodes, AllImages(nodes))[j]
  {
  }

  /** The loop over the found images, deleting `src` from each in place. */
  method DeleteSources(a: array<HtmlNode>, imgs: seq<nat>)
    requires forall k :: 0 <= k < |imgs| ==> imgs[k] < a.Length
    modifies a
    ensures a[..] == Scrub(old(a[..]), imgs)
  {
    for k := 0 to |imgs|
      invariant forall j :: 0 <= j < a.Length ==>
        a[j] == if j in imgs[..k] then WithoutSource(old(a[j])) else old(a[j])
    {
      var i := imgs[k];
      assert i in imgs[..k] ==> WithoutSource(a[i]) == WithoutSource(old(a[i]));
      a[i] := WithoutSource(a[i]);
      assert imgs[..k + 1] == imgs[..k] + [i];
    }
    assert imgs[..|imgs|] == imgs;
  }
}
