# Portfolio project pipeline, modelled in Dafny

This project models the data path of a personal portfolio page's client
script (`script.js`). The script fetches the owner's public repositories from
the GitHub API and keeps those that are neither forks nor archived. It orders
them by `updated_at`, newest first, keeps six and turns each into a project
record, filling in defaults for a missing description or language. If the
fetch fails for any reason it uses a built-in list of three projects. Each
project then becomes a card. The card's title comes from the repository name:
dashes become spaces and each word is capitalised. The description is cut at
150 characters and HTML-escaped. Cards are revealed one after another, 100 ms
apart.

Modules, one per concern of the script:

- `Outcomes` (`outcomes.dfy`): `Option` for optional JSON fields, `Result` for a fetch that succeeds or fails.
- `Html` (`html.dfy`): `escapeHtml`, plus a reference decoder `Unescape` used only to state that escaping loses nothing.
- `Text` (`text.dfy`): title formatting (`replace`/`split`/`map`/`join`) and description truncation.
- `Repos` (`repos.dfy`): the filter, stable newest-first sort, six-element cut, field defaults, `HARDCODED_PROJECTS` and the fallback of `fetchGitHubProjects`.
- `Render` (`render.dfy`): `createProjectCard`, `renderProjects` and the data part of `initialize`, abstracted from the DOM. A card is the four texts placed into its markup. A container is the list of cards it holds, or `None` when the page has none. A reveal is one scheduled `fade-in` together with its delay.

Only the description is escaped. The title, language and url are put into
the card's markup as they are (script.js:124, 127-128). The comment at
script.js:111 says "Sanitize and format project name", yet the name is only
formatted at script.js:112-116 and is never escaped. The model follows the
code and does not claim that every field is escaped. `RawFieldsNotEscaped`
exhibits a project whose title, language and url all carry raw markup.

## Model

| member | source | states |
|---|---|---|
| Html.EscapeIsWellEscaped | script.js:146-154 | the escaped text contains none of `< > " '`, and every `&` in it starts one of `&amp; &lt; &gt; &quot; &#039;` |
| Html.EscapeIdentity | script.js:146-154 | a text is returned unchanged if and only if it contains none of the five special characters |
| Html.EscapeLength | script.js:147-154 | escaping never shortens a text and strictly lengthens any text holding a special character |
| Html.EscapeAppend | script.js:154 | escaping a concatenation is the concatenation of the escaped parts (the replacement is global and character-wise) |
| Html.UnescapeEscape | script.js:147-153 | decoding the five entities recovers the original text exactly, so escaping is injective and loses nothing |
| Text.SplitOnSpace | script.js:114 | splitting on `' '` yields at least one word, and no word contains a space |
| Text.JoinSplit | script.js:114-116 | joining the split words with `' '` gives the original text back |
| Text.SplitCapitalizeJoin | script.js:114-116 | split, capitalise each word and join equals upper-casing the first character and every character after a space |
| Text.UpperAfterSpacesAt | script.js:115 | that reference keeps the length and upper-cases exactly index 0 and the indices after a space, keeping all others |
| Text.FormatTitle | script.js:112-116 | the title has the name's length and contains no `-`; a character is upper-cased (after a dash turns into a space) exactly when it is first or follows a dash or space; every other character is kept |
| Text.Truncate | script.js:119-121 | a description of at most 150 characters is kept; a longer one becomes its first 150 characters followed by `...`; the result never exceeds 153 characters |
| Repos.Eligible | script.js:59-60 | the filter keeps each non-fork, non-archived repository with its full multiplicity and drops every fork or archived one |
| Repos.InsertByRecency | script.js:61 | inserting into a newest-first list keeps it newest first and adds exactly the one element |
| Repos.SortByRecency | script.js:61 | the sorted list is newest first and a permutation of its input |
| Repos.InsertByRecencyStable | script.js:61 | insertion puts the new element ahead of the elements that share its timestamp |
| Repos.SortByRecencyStable | script.js:61 | the sort is stable: repositories with the same `updated_at` keep their input order |
| Repos.EligibleAppend | script.js:60 | the filter keeps input order: filtering a concatenation gives the filtered parts concatenated, so together with the multiset law on one-entry lists the filtered list is exactly the eligible repositories in input order |
| Repos.EligibleKeepsOrder | script.js:60 | filtering commutes with picking the repositories of one `updated_at`: among those, the filtered list holds exactly the eligible ones, as the filter picks them from that sub-list |
| Repos.SortedEligibleStable | script.js:59-61 | after filtering and sorting, eligible repositories with the same `updated_at` appear in the order the API listed them |
| Repos.SelectRepos | script.js:59-62 | the selection is the first min(6, number eligible) entries of the stably sorted filtered list (the `slice(0, 6)`); so it is newest first, holds only eligible input repositories, and takes each at most as often as the filter keeps it (a sub-multiset) |
| Repos.SelectedTiesComeFirst | script.js:59-62 | when the cut at six falls among repositories with the same `updated_at`, the ones kept are the first of them in the API's order: the eligible ones updated at that time are the kept ones followed by the dropped ones |
| Repos.TopSix | script.js:61-62 | any eligible repository left out is no newer than every selected one, so the six most recently updated are kept |
| Repos.ToProject | script.js:64-70 | a missing or empty description becomes `No description provided.`, a missing or empty language becomes `Unknown`, otherwise both are kept; name, url and stars are copied |
| Repos.ProjectsFromRepos | script.js:59-70 | project `i` is the record of the `i`-th selected repository, so there are min(6, number eligible) projects ordered newest first and `TopSix` applies to them; the list is empty exactly when no repository is eligible; no description or language is empty |
| Repos.FetchGitHubProjects | script.js:43-76 | on any failure (transport error, non-ok status, malformed body) the result is exactly the three built-in projects; on success it is the selection pipeline's result, even when that is empty |
| Render.CreateProjectCard | script.js:107-135 | the shown description is well escaped and decodes to exactly the cut description; the title is the formatted name; an empty language shows as `Unknown`; the url is copied |
| Render.RawFieldsNotEscaped | script.js:123-128 | title, language and url are not escaped: a project exists whose card carries raw markup in all three |
| Render.CutAfterEscapingSplitsEntity | script.js:119-125 | cutting after escaping could leave a bare `&`, so cutting before escaping matters |
| Render.HardcodedDescriptionsShownInFull | script.js:8-27 | each built-in description fits within 150 characters and is shown in full |
| Render.RenderCards | script.js:91-99 | the `forEach`: card `i` is the card of project `i`, in order, and its reveal is scheduled after `i * 100` ms |
| Render.RenderProjects | script.js:86-100 | with no container nothing is produced; otherwise the content becomes one card per project in input order, card `i` is revealed after `i * 100` ms, and the delays strictly increase |
| Render.Initialize | script.js:384-391 | fetch then render: with a container, card `i` is the card of the `i`-th fetched project and is revealed after `i * 100` ms; so there are at most 6 cards, exactly the three built-in cards after a failed fetch, none when no repository is eligible, and every shown description is well escaped and at most 153 characters once decoded |

## Left out

- The HTTP request itself is not modelled: the `fetch` call, the `Accept` header, the `response.ok` check and `response.json()`. The fetch is an abstract `Result`. Its `Failure` covers a transport error, a non-ok status, a body that `response.json()` cannot parse (script.js:55), and a body on which the filter throws: one that is not a JSON array, or an array holding `null`.
- Repository field types are assumed to be what the API documents: `name` and `html_url` strings, `fork` and `archived` booleans. The script never checks them. A repository whose `name` is not a string passes `fetchGitHubProjects` without throwing. `createProjectCard` then throws inside the `forEach` of `renderProjects` (script.js:91-93, 112-113). The cards appended before it stay in the container, and `initialize` catches the error (script.js:392-393). That partial render, with no fallback to the built-in list, is not modelled.
- Date parsing is not modelled. `updated_at` is an integer timestamp. An unparsable date, which gives `NaN` in JavaScript and makes the comparator inconsistent, is not represented.
- The DOM is not modelled: `innerHTML` markup, `appendChild`, `classList` and the execution and timing of `setTimeout`. A card is its four texts and a reveal is its card index and delay.
- Logging is not modelled (`console.error` and `console.log` on the fallback path and in `initialize`). It has no effect on the data.
- Text.FormatTitle: upper-cases ASCII letters only. JavaScript's `toUpperCase` maps all of Unicode and can lengthen a string (for example `ß` becomes `SS`), so the length equality holds for the script only on ASCII names.
- Text.Truncate: counts characters, whereas JavaScript's `length` and `substring` count UTF-16 code units. The two agree for text in the Basic Multilingual Plane; elsewhere the script can cut a surrogate pair in half.
- Event and observer wiring is not modelled: smooth scrolling, scroll-spy, fade-in observers, keyboard shortcuts, skip-link and focus handling, the scroll-to-top button, page-view tracking and feature detection (script.js:160-432). None of it touches the project data.
