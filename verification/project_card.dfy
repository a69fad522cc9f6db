/**
  The project card of the home page: which image it shows and which
  description text.
 */
module ProjectCard {
  import opened JsString
  import opened Schema
  import opened Utils

  /** The stock image shown when a project has none. */
  const PlaceholderImage :=
    "https://images.unsplash.com/photo-1460925895917-afdab827c52f?ixlib=rb-4.0.3&auto=format&fit=crop&w=800&h=450"

  /** The card's description limit. */
  const CardLimit := 150

  /** `project.images[0] || placeholder`: a missing or empty first image falls
      back to the placeholder; later images are never consulted. */
  function Thumbnail(p: Project): (r: string)
    ensures r != ""
    ensures |p.images| > 0 && p.images[0] != "" ==> r == p.images[0]
    ensures |p.images| == 0 || p.images[0] == "" ==> r == PlaceholderImage
  {
    if |p.images| > 0 && p.images[0] != "" then p.images[0] else PlaceholderImage
  }

  /** `getDisplayDescription` as the code stands. A non-blank description is
      shown, cut at 150 characters. Otherwise the first paragraph line of the
      markdown is shown trimmed and cut at 150, with `"..."` appended even when
      nothing was cut; and when there is no such line the optional chain
      yields `undefined`, which `+ "..."` turns into the text "undefined...". */
  function DisplayDescriptionAsWritten(p: Project): (r: string)
    ensures !IsBlank(p.description) ==> r == Truncate(p.description, CardLimit)
    ensures IsBlank(p.description) ==> |r| >= 3 && r[|r| - 3..] == Ellipsis
    ensures IsBlank(p.description) && FirstParagraph(p.markdown).None? ==> r == "undefined..."
    ensures |r| <= CardLimit + 3
  {
    if Trim(p.description) != [] then
      if |p.description| > CardLimit then Substring(p.description, 0, CardLimit) + Ellipsis
      else p.description
    else
      match FirstParagraph(p.markdown)
      case Some(line) => Substring(Trim(line), 0, CardLimit) + Ellipsis
      case None => "undefined" + Ellipsis
  }

  /** `getDisplayDescription` as evidently intended: the same, except that a
      project with neither a description nor a paragraph line shows
      "No description available", the fallback the code spells out but cannot
      reach. */
  function DisplayDescription(p: Project): (r: string)
    ensures !IsBlank(p.description) ==> r == Truncate(p.description, CardLimit)
    ensures IsBlank(p.description) && FirstParagraph(p.markdown).None? ==> r == NoDescription
    ensures IsBlank(p.description) && FirstParagraph(p.markdown).Some? ==>
      r == Substring(Trim(FirstParagraph(p.markdown).value), 0, CardLimit) + Ellipsis
    ensures |r| <= CardLimit + 3
  {
    if Trim(p.description) != [] then Truncate(p.description, CardLimit)
    else
      match FirstParagraph(p.markdown)
      case Some(line) => Substring(Trim(line), 0, CardLimit) + Ellipsis
      case None => NoDescription
  }

  /** The two versions differ exactly on projects with a blank description
      and no paragraph line. */
  lemma AsWrittenDiffersOnlyWithoutText(p: Project)
    ensures DisplayDescriptionAsWritten(p) != DisplayDescription(p) <==>
      IsBlank(p.description) && FirstParagraph(p.markdown).None?
  {
  }

  /** A project whose markdown is one heading and whose description is empty
      shows "undefined..." on its card. */
  lemma UndefinedWitness(id: string, title: string, createdAt: int)
    ensures var p := Project(id, title, "", "# Heading", [], createdAt);
      && DisplayDescriptionAsWritten(p) == "undefined..."
      && DisplayDescription(p) == NoDescription
  {
    assert Split("# Heading", '\n') == ["# Heading"] by {
      SplitJoin(["# Heading"], '\n');
    }
    assert StartsWith("# Heading", "#");
  }

  /** Against the shared `extractFirstParagraph`, whose logic the card
      repeats inline: a long paragraph line gives the same text, a short one
      gets a `"..."` the shared helper does not add. */
  lemma CardVersusSummary(p: Project)
    requires IsBlank(p.description) && FirstParagraph(p.markdown).Some?
    ensures |Trim(FirstParagraph(p.markdown).value)| > CardLimit ==>
      DisplayDescription(p) == ExtractFirstParagraph(p.markdown)
    ensures |Trim(FirstParagraph(p.markdown).value)| <= CardLimit ==>
      DisplayDescription(p) == ExtractFirstParagraph(p.markdown) + Ellipsis
  {
    var t := Trim(FirstParagraph(p.markdown).value);
    var card := Substring(t, 0, CardLimit) + Ellipsis;
    assert DisplayDescription(p) == card;
    assert ExtractFirstParagraph(p.markdown) == Truncate(t, CardLimit);
    if |t| > CardLimit {
      assert Substring(t, 0, CardLimit) == t[..CardLimit];
    } else {
      assert Substring(t, 0, CardLimit) == t;
    }
  }
}
