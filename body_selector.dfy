/**
 * `find_body` of the email view: given the first `text/html` and first
 * `text/plain` parts (either may be missing), decide whether the body is the
 * plain part (`Some(true)`), the html part (`Some(false)`) or whether there is
 * no viable body (`None`). The user's `prefer_html_email` flag is a parameter.
 */
module BodySelector {
  import opened Wrappers
  import opened MimeParts

  /**
   * Siblings (same parent) follow the preference; otherwise the part with the
   * smaller `lft` wins, and an equal `lft` falls to the plain part.
   */
  function FindBody(html: Option<MimePart>, plain: Option<MimePart>, preferHtml: bool): (plainBody: Option<bool>)
    ensures plainBody.None? <==> html.None? && plain.None?
    ensures plainBody == Some(true) ==> plain.Some?
    ensures plainBody == Some(false) ==> html.Some?
    ensures html.None? && plain.Some? ==> plainBody == Some(true)
    ensures html.Some? && plain.None? ==> plainBody == Some(false)
  {
    if html.None? && plain.None? then None
    else if html.None? then Some(true)
    else if plain.None? then Some(false)
    else if html.value.parent == plain.value.parent then Some(!preferHtml)
    else if html.value.lft < plain.value.lft then Some(false)
    else Some(true)
  }

  /** The preference decides only between two parts that are both present and siblings. */
  lemma PreferenceOnlyForSiblings(html: Option<MimePart>, plain: Option<MimePart>)
    ensures FindBody(html, plain, true) != FindBody(html, plain, false) <==>
      html.Some? && plain.Some? && html.value.parent == plain.value.parent
  {
  }

  /** Siblings: the html part is chosen exactly when it is preferred. */
  lemma SiblingsFollowPreference(html: MimePart, plain: MimePart, preferHtml: bool)
    requires html.parent == plain.parent
    ensures FindBody(Some(html), Some(plain), preferHtml) == Some(!preferHtml)
  {
  }

  /** Siblings: moving either part in the tree (new `lft`/`rgt`) does not change the choice. */
  lemma SiblingPositionIrrelevant(html: MimePart, plain: MimePart, preferHtml: bool, hl: int, hr: int, pl: int, pr: int)
    requires html.parent == plain.parent
    ensures FindBody(Some(html), Some(plain), preferHtml) ==
            FindBody(Some(html.(lft := hl, rgt := hr)), Some(plain.(lft := pl, rgt := pr)), preferHtml)
  {
  }

  /** Not siblings: html wins exactly when its `lft` is smaller, whatever the preference. */
  lemma NonSiblingsByPosition(html: MimePart, plain: MimePart, preferHtml: bool)
    requires html.parent != plain.parent
    ensures FindBody(Some(html), Some(plain), preferHtml) == Some(false) <==> html.lft < plain.lft
    ensures FindBody(Some(html), Some(plain), preferHtml) == Some(true) <==> plain.lft <= html.lft
  {
  }

  /**
   * Not siblings, distinct positions: the part chosen is the one that comes
   * first in document order (its `lft` is the smaller).
   */
  lemma NonSiblingsEarlierWins(html: MimePart, plain: MimePart, preferHtml: bool)
    requires html.parent != plain.parent && html.lft != plain.lft
    ensures var chosen := if FindBody(Some(html), Some(plain), preferHtml) == Some(true) then plain else html;
            var other := if chosen == plain then html else plain;
            chosen.lft < other.lft
  {
  }

  /** Not siblings, equal `lft` (a corrupt tree): the plain part is chosen. */
  lemma EqualPositionChoosesPlain(html: MimePart, plain: MimePart, preferHtml: bool)
    requires html.parent != plain.parent && html.lft == plain.lft
    ensures FindBody(Some(html), Some(plain), preferHtml) == Some(true)
  {
  }
}
