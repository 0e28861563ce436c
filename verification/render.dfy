/**
 * The card renderer (`createProjectCard`, `renderProjects`) and the start-up
 * path that feeds it (`initialize`), abstracted from the DOM: a card is the
 * four texts placed into its markup, a container is the list of cards it
 * holds, and a reveal is one scheduled `fade-in` with its delay.
 */
module Render {
  import opened Outcomes
  import opened Html
  import opened Text
  import opened Repos

  /**
   * The texts a project card shows. Only `descriptionHtml` is escaped; the
   * title, language and url are placed into the markup as they are.
   */
  datatype Card = Card(title: string, descriptionHtml: string, language: string, url: string)

  /** The `fade-in` of card `card`, scheduled `delayMs` milliseconds after rendering. */
  datatype Reveal = Reveal(card: nat, delayMs: nat)

  /** The delay between the schedule of two neighbouring cards. */
  const StaggerMs: nat := 100

  /**
   * `createProjectCard`: the description is cut first and escaped second,
   * so it is well escaped and decodes to exactly the cut description.
   */
  function CreateProjectCard(p: Project): (c: Card)
    ensures WellEscaped(c.descriptionHtml)
    ensures Unescape(c.descriptionHtml) == Truncate(p.description)
    ensures c.title == FormatTitle(p.name)
    ensures p.language != "" ==> c.language == p.language
    ensures p.language == "" ==> c.language == DefaultLanguage
    ensures c.url == p.url
  {
    var shown := Truncate(p.description);
    EscapeIsWellEscaped(shown);
    UnescapeEscape(shown);
    Card(FormatTitle(p.name), Escape(shown), OrElse(Some(p.language), DefaultLanguage), p.url)
  }

  /** Title, language and url are not escaped: each can carry raw markup into the card. */
  lemma RawFieldsNotEscaped()
    ensures exists p: Project ::
      && !WellEscaped(CreateProjectCard(p).title)
      && !WellEscaped(CreateProjectCard(p).language)
      && !WellEscaped(CreateProjectCard(p).url)
  {
    var p := Project("<b>", "", "<b>", "\"", None);
    var c := CreateProjectCard(p);
    assert c.title[0] == '<';
    assert c.language[0] == '<';
    assert c.url[0] == '"';
  }

  /**
   * Cutting after escaping could split an entity, so cutting before
   * escaping matters: a description of 149 letters and one `&` would then
   * show a bare `&` before the ellipsis.
   */
  lemma CutAfterEscapingSplitsEntity()
    ensures exists d: string :: !WellEscaped(Truncate(Escape(d)))
  {
    var letters := seq(149, _ => 'a');
    var d := letters + "&";
    EscapeIdentity(letters);
    EscapeAppend(letters, "&");
    assert Escape("&") == "&amp;";
    var e := Escape(d);
    assert e == letters + "&amp;";
    var t := Truncate(e);
    assert t[149] == '&';
    assert t[150] == '.';
    assert !EntityAt(t, 149);
  }

  /** The three built-in descriptions are short enough to be shown in full. */
  lemma HardcodedDescriptionsShownInFull()
    ensures forall i :: 0 <= i < |HardcodedProjects| ==> |HardcodedProjects[i].description| <= MaxDescriptionLength
    ensures forall i :: 0 <= i < |HardcodedProjects| ==>
      Unescape(CreateProjectCard(HardcodedProjects[i]).descriptionHtml) == HardcodedProjects[i].description
  {
  }

  /** One step of the `forEach`: appending the next project's card keeps card `i` the card of project `i`. */
  lemma ExtendCards(projects: seq<Project>, cards: seq<Card>, card: Card)
    requires |cards| < |projects|
    requires forall i :: 0 <= i < |cards| ==> cards[i] == CreateProjectCard(projects[i])
    requires card == CreateProjectCard(projects[|cards|])
    ensures forall i :: 0 <= i < |cards| + 1 ==> (cards + [card])[i] == CreateProjectCard(projects[i])
  {
    forall i | 0 <= i < |cards| + 1
      ensures (cards + [card])[i] == CreateProjectCard(projects[i])
    {
      if i < |cards| {
        assert (cards + [card])[i] == cards[i];
      } else {
        assert (cards + [card])[i] == card;
      }
    }
  }

  /**
   * The `forEach` of `renderProjects`: card `i` is the card of project `i`,
   * and its reveal is scheduled `i * 100` milliseconds later.
   */
  method RenderCards(projects: seq<Project>) returns (cards: seq<Card>, schedule: seq<Reveal>)
    ensures |cards| == |projects|
    ensures forall i :: 0 <= i < |projects| ==> cards[i] == CreateProjectCard(projects[i])
    ensures |schedule| == |projects|
    ensures forall i :: 0 <= i < |schedule| ==> schedule[i] == Reveal(i, i * StaggerMs)
  {
    cards := [];
    schedule := [];
    var index := 0;
    while index < |projects|
      invariant 0 <= index <= |projects|
      invariant |cards| == index && |schedule| == index
      invariant forall i :: 0 <= i < index ==> cards[i] == CreateProjectCard(projects[i])
      invariant forall i :: 0 <= i < index ==> schedule[i] == Reveal(i, i * StaggerMs)
    {
      var card := CreateProjectCard(projects[index]);
      var next := Reveal(index, index * StaggerMs);
      ExtendCards(projects, cards, card);
      assert forall i :: 0 <= i < index ==> (schedule + [next])[i] == schedule[i];
      cards := cards + [card];
      schedule := schedule + [next];
      index := index + 1;
    }
  }

  /**
   * `renderProjects`: with no container nothing happens; otherwise the
   * container's old content is replaced by one card per project in order,
   * and card `i` is revealed after `i * 100` milliseconds.
   */
  method RenderProjects(container: Option<seq<Card>>, projects: seq<Project>)
    returns (after: Option<seq<Card>>, schedule: seq<Reveal>)
    ensures container.None? ==> after == None && schedule == []
    ensures container.Some? ==>
      && after.Some?
      && |after.value| == |projects|
      && (forall i :: 0 <= i < |projects| ==> after.value[i] == CreateProjectCard(projects[i]))
    ensures container.Some? ==>
      && |schedule| == |projects|
      && (forall i :: 0 <= i < |schedule| ==> schedule[i] == Reveal(i, i * StaggerMs))
    ensures forall i, j :: 0 <= i < j < |schedule| ==> schedule[i].delayMs < schedule[j].delayMs
  {
    if container.None? {
      return None, [];
    }
    var cards;
    cards, schedule := RenderCards(projects);
    after := Some(cards);
  }

  /**
   * `initialize`, data part: fetch the projects, then render them. The page
   * shows at most six cards, or exactly the three built-in ones when the
   * fetch failed, and every shown description is well escaped.
   */
  method Initialize(response: Result<seq<Repo>, FetchError>, container: Option<seq<Card>>)
    returns (after: Option<seq<Card>>, schedule: seq<Reveal>)
    ensures container.None? ==> after == None && schedule == []
    ensures container.Some? ==> after.Some? && |after.value| <= MaxProjects
    ensures container.Some? ==>
      && |after.value| == |FetchGitHubProjects(response)|
      && (forall i :: 0 <= i < |after.value| ==>
            after.value[i] == CreateProjectCard(FetchGitHubProjects(response)[i]))
    ensures container.Some? ==>
      && |schedule| == |after.value|
      && (forall i :: 0 <= i < |schedule| ==> schedule[i] == Reveal(i, i * StaggerMs))
    ensures container.Some? && response.Failure? ==> |after.value| == |HardcodedProjects| == 3
    ensures container.Some? && response.Success? ==>
      (after.value == [] <==> forall x :: x in response.value ==> !IsEligible(x))
    ensures after.Some? ==> forall i :: 0 <= i < |after.value| ==>
      && WellEscaped(after.value[i].descriptionHtml)
      && |Unescape(after.value[i].descriptionHtml)| <= MaxDescriptionLength + |Ellipsis|
      && after.value[i].language != ""
  {
    var projects := FetchGitHubProjects(response);
    after, schedule := RenderProjects(container, projects);
  }
}
