/**
 * The XML record extractor of the page script: `getElementText`,
 * `parseReleaseElement` and the per-entry record built inside `fetchCsdbPage`.
 * A property the JavaScript object lacks (reads as `undefined`) is `None`.
 */
module Extractor {
  import opened Wrappers
  import opened Xml

  datatype Group = Group(id: string, name: string)
  datatype Event = Event(name: string)
  datatype Achievement = Achievement(place: string, compo: string)

  /** A release object as `parseReleaseElement` builds it. */
  datatype RawRelease = RawRelease(
    id: Option<string>,
    name: Option<string>,
    releaseDay: Option<string>,
    releaseMonth: Option<string>,
    releaseYear: Option<string>,
    screenShot: Option<string>,
    releasedBy: Option<Group>,     // release.ReleasedBy.Group
    releasedAt: Option<Event>,     // release.ReleasedAt.Event
    achievement: Option<Achievement>)

  /** One leaderboard row: the text of its Place, Rating and Votes children and its release. */
  datatype RawEntry = RawEntry(place: string, rating: string, votes: string, release: RawRelease)

  /** The object literal `{}` returned for an entry without a Release element. */
  const EmptyRelease := RawRelease(None, None, None, None, None, None, None, None, None)

  /**
   * `getElementText(parent, tag)`: the text of the first element tagged `tag` below `parent`
   * in document order, or "" when there is none.
   */
  function GetElementText(parent: Node, tagName: string): (r: string)
    ensures r == match FirstTagged(PreOrder(Children(parent)), tagName)
                 case None => ""
                 case Some(el) => Texts(PreOrder(Children(el)))
  {
    FindFirstIsFirstInPreOrder(Children(parent), tagName);
    match FindFirst(Children(parent), tagName)
    case None => ""
    case Some(el) => ForestTextIsPreOrderTexts(el.children); TextContent(el)
  }

  /** `parseReleaseElement(releaseEl)`: the scalar fields, then the three optional sub-records. */
  function ParseReleaseElement(releaseEl: Option<Node>): (r: RawRelease)
    ensures releaseEl.None? ==> r == EmptyRelease
    ensures releaseEl.Some? ==>
              var el := releaseEl.value;
              && r.id == Some(GetElementText(el, "ID"))
              && r.name == Some(GetElementText(el, "Name"))
              && r.releaseDay == Some(GetElementText(el, "ReleaseDay"))
              && r.releaseMonth == Some(GetElementText(el, "ReleaseMonth"))
              && r.releaseYear == Some(GetElementText(el, "ReleaseYear"))
              && r.screenShot == Some(GetElementText(el, "ScreenShot"))
  {
    match releaseEl
    case None => EmptyRelease
    case Some(el) =>
      var release := RawRelease(
        Some(GetElementText(el, "ID")),
        Some(GetElementText(el, "Name")),
        Some(GetElementText(el, "ReleaseDay")),
        Some(GetElementText(el, "ReleaseMonth")),
        Some(GetElementText(el, "ReleaseYear")),
        Some(GetElementText(el, "ScreenShot")),
        None, None, None);
      var release := match FindUnder(Children(el), "ReleasedBy", "Group", false)
        case None => release
        case Some(groupEl) =>
          release.(releasedBy := Some(Group(GetElementText(groupEl, "ID"), GetElementText(groupEl, "Name"))));
      var release := match FindUnder(Children(el), "ReleasedAt", "Event", false)
        case None => release
        case Some(eventEl) => release.(releasedAt := Some(Event(GetElementText(eventEl, "Name"))));
      var release := match FindFirst(Children(el), "Achievement")
        case None => release
        case Some(achievementEl) =>
          release.(achievement := Some(Achievement(GetElementText(achievementEl, "Place"),
                                                   GetElementText(achievementEl, "Compo"))));
      release
  }

  /** The record `fetchCsdbPage` builds for one Entry element. */
  function ParseEntry(entryEl: Node): (r: RawEntry)
    ensures r.place == GetElementText(entryEl, "Place")
    ensures r.rating == GetElementText(entryEl, "Rating")
    ensures r.votes == GetElementText(entryEl, "Votes")
    ensures r.release == ParseReleaseElement(FirstTagged(PreOrder(Children(entryEl)), "Release"))
    ensures r.release == EmptyRelease <==> FirstTagged(PreOrder(Children(entryEl)), "Release").None?
    ensures r.release.id.Some? ==>
              r.release.id == Some(GetElementText(FirstTagged(PreOrder(Children(entryEl)), "Release").value, "ID"))
  {
    FindFirstIsFirstInPreOrder(Children(entryEl), "Release");
    RawEntry(GetElementText(entryEl, "Place"),
             GetElementText(entryEl, "Rating"),
             GetElementText(entryEl, "Votes"),
             ParseReleaseElement(FindFirst(Children(entryEl), "Release")))
  }

  // ---------------------------------------------------------------------------
  // Lemmas: which optional parts a release has
  // ---------------------------------------------------------------------------

  /** The release group is recorded exactly when some ReleasedBy element below the release has a Group element below it. */
  lemma ReleasedByPresentIff(el: Node)
    ensures ParseReleaseElement(Some(el)).releasedBy.Some? <==> !NoneBelow(PreOrder(Children(el)), "ReleasedBy", "Group")
  {
    FindUnderNoneIff(Children(el), "ReleasedBy", "Group");
  }

  /** The event is recorded exactly when some ReleasedAt element below the release has an Event element below it. */
  lemma ReleasedAtPresentIff(el: Node)
    ensures ParseReleaseElement(Some(el)).releasedAt.Some? <==> !NoneBelow(PreOrder(Children(el)), "ReleasedAt", "Event")
  {
    FindUnderNoneIff(Children(el), "ReleasedAt", "Event");
  }

  /**
   * The group recorded is read from the first Group element, in document order, that lies
   * below a ReleasedBy element of the release.
   */
  lemma ReleasedByIsFirstEnclosedGroup(el: Node)
    ensures ParseReleaseElement(Some(el)).releasedBy ==
            match FirstTagged(PreOrderUnder(Children(el), "ReleasedBy", false), "Group")
            case None => None
            case Some(g) => Some(Group(GetElementText(g, "ID"), GetElementText(g, "Name")))
  {
    FindUnderIsFirstEnclosed(Children(el), "ReleasedBy", "Group", false);
  }

  /**
   * The event recorded is read from the first Event element, in document order, that lies
   * below a ReleasedAt element of the release.
   */
  lemma ReleasedAtIsFirstEnclosedEvent(el: Node)
    ensures ParseReleaseElement(Some(el)).releasedAt ==
            match FirstTagged(PreOrderUnder(Children(el), "ReleasedAt", false), "Event")
            case None => None
            case Some(e) => Some(Event(GetElementText(e, "Name")))
  {
    FindUnderIsFirstEnclosed(Children(el), "ReleasedAt", "Event", false);
  }

  /** The achievement recorded is read from the first Achievement element below the release, in document order. */
  lemma AchievementIsFirstAchievement(el: Node)
    ensures ParseReleaseElement(Some(el)).achievement ==
            match FirstTagged(PreOrder(Children(el)), "Achievement")
            case None => None
            case Some(a) => Some(Achievement(GetElementText(a, "Place"), GetElementText(a, "Compo")))
  {
    FindFirstIsFirstInPreOrder(Children(el), "Achievement");
  }

  /** The achievement is recorded exactly when an Achievement element lies below the release. */
  lemma AchievementPresentIff(el: Node)
    ensures ParseReleaseElement(Some(el)).achievement.Some? <==>
            exists x :: x in PreOrder(Children(el)) && HasTag(x, "Achievement")
  {
    FindFirstIsFirstInPreOrder(Children(el), "Achievement");
    var p := PreOrder(Children(el));
    if ParseReleaseElement(Some(el)).achievement.None? {
      forall x | x in p ensures !HasTag(x, "Achievement") {
        var i :| 0 <= i < |p| && p[i] == x;
      }
    }
  }
}
