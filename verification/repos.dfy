/**
 * The repository selection pipeline (`fetchGitHubProjects`): keep the
 * repositories that are neither forks nor archived, order them newest first,
 * keep six, and turn each into a project record; on any failure of the fetch
 * use the built-in list `HardcodedProjects` instead.
 */
module Repos {
  import opened Outcomes

  /** The fields of one repository object of the hosting API that the script reads. */
  datatype Repo = Repo(
    name: string,
    description: Option<string>,
    language: Option<string>,
    htmlUrl: string,
    fork: bool,
    archived: bool,
    updatedAt: int,            // `updated_at` as a timestamp
    stargazersCount: Option<int>)

  /** A project record as the card renderer consumes it. */
  datatype Project = Project(
    name: string,
    description: string,
    language: string,
    url: string,
    stars: Option<int>)       // absent in the built-in list

  /** Why the fetch produced no repository list: a transport error, a status that is not ok, or a body on which `response.json()` or the filter throws. */
  datatype FetchError = TransportFailed | NotOk(status: int) | MalformedBody

  /** At most this many projects are shown. */
  const MaxProjects: nat := 6

  const DefaultDescription: string := "No description provided."
  const DefaultLanguage: string := "Unknown"

  /** The list shown when the repositories cannot be fetched. */
  const HardcodedProjects: seq<Project> := [
    Project(
      "riscv-emulator",
      "A RISC-V instruction set emulator built from scratch. Implements core RISC-V ISA with proper memory management and instruction decoding.",
      "C",
      "https://github.com/04pranab/riscv-emulator",
      None),
    Project(
      "os-bootloader",
      "Custom OS bootloader targeting x86-64 architecture. Implements real mode to protected mode transition with GDT setup.",
      "Assembly",
      "https://github.com/04pranab/os-bootloader",
      None),
    Project(
      "cache-simulator",
      "Multi-level cache hierarchy simulator. Analyzes cache hit/miss patterns and performance metrics for different memory access patterns.",
      "Python",
      "https://github.com/04pranab/cache-simulator",
      None)
  ]

  /** A repository that is shown at all: not a fork and not archived. */
  predicate IsEligible(r: Repo) {
    !r.fork && !r.archived
  }

  /** `repos.filter(repo => !repo.fork && !repo.archived)`. */
  function Eligible(repos: seq<Repo>): (r: seq<Repo>)
    ensures forall x :: multiset(r)[x] == (if IsEligible(x) then multiset(repos)[x] else 0)
    ensures |r| <= |repos|
    decreases |repos|
  {
    if |repos| == 0 then []
    else
      assert repos == [repos[0]] + repos[1..];
      if IsEligible(repos[0]) then [repos[0]] + Eligible(repos[1..])
      else Eligible(repos[1..])
  }

  /** Ordered by `updated_at`, newest first. */
  predicate NewestFirst(s: seq<Repo>) {
    forall i, j :: 0 <= i < j < |s| ==> s[i].updatedAt >= s[j].updatedAt
  }

  /**
   * Puts `x` into a newest-first list, in front of every entry that is not
   * newer than it (so among equal timestamps `x` comes first).
   */
  function InsertByRecency(x: Repo, s: seq<Repo>): (r: seq<Repo>)
    requires NewestFirst(s)
    ensures NewestFirst(r)
    ensures multiset(r) == multiset(s) + multiset{x}
    ensures forall k :: 0 <= k < |r| ==>
      r[k].updatedAt <= x.updatedAt || (|s| > 0 && r[k].updatedAt <= s[0].updatedAt)
    decreases |s|
  {
    if |s| == 0 || x.updatedAt >= s[0].updatedAt then [x] + s
    else
      var rest := InsertByRecency(x, s[1..]);
      InsertBehindHead(x, s, rest);
      [s[0]] + rest
  }

  /** The step of `InsertByRecency` that keeps the old head in front. */
  lemma InsertBehindHead(x: Repo, s: seq<Repo>, rest: seq<Repo>)
    requires |s| > 0 && NewestFirst(s) && x.updatedAt < s[0].updatedAt
    requires NewestFirst(rest)
    requires multiset(rest) == multiset(s[1..]) + multiset{x}
    requires forall k :: 0 <= k < |rest| ==>
      rest[k].updatedAt <= x.updatedAt || (|s[1..]| > 0 && rest[k].updatedAt <= s[1..][0].updatedAt)
    ensures NewestFirst([s[0]] + rest)
    ensures multiset([s[0]] + rest) == multiset(s) + multiset{x}
    ensures forall k :: 0 <= k < |[s[0]] + rest| ==> ([s[0]] + rest)[k].updatedAt <= s[0].updatedAt
  {
    assert s == [s[0]] + s[1..];
    var r := [s[0]] + rest;
    forall k | 0 <= k < |r| ensures r[k].updatedAt <= s[0].updatedAt {
      if k > 0 {
        assert r[k] == rest[k - 1];
      }
    }
    forall i, j | 0 <= i < j < |r| ensures r[i].updatedAt >= r[j].updatedAt {
      if i > 0 {
        assert r[i] == rest[i - 1] && r[j] == rest[j - 1];
      }
    }
  }

  /**
   * `.sort((a, b) => new Date(b.updated_at) - new Date(a.updated_at))`: a
   * stable sort, newest first.
   */
  function SortByRecency(s: seq<Repo>): (r: seq<Repo>)
    ensures NewestFirst(r)
    ensures multiset(r) == multiset(s)
    ensures |r| == |s|
    decreases |s|
  {
    if |s| == 0 then []
    else
      assert s == [s[0]] + s[1..];
      InsertByRecency(s[0], SortByRecency(s[1..]))
  }

  /** The entries updated at time `t`, in their order. */
  function UpdatedAt(s: seq<Repo>, t: int): seq<Repo>
    decreases |s|
  {
    if |s| == 0 then []
    else if s[0].updatedAt == t then [s[0]] + UpdatedAt(s[1..], t)
    else UpdatedAt(s[1..], t)
  }

  /** Insertion keeps `x` ahead of the entries that share its timestamp. */
  lemma {:induction false} InsertByRecencyStable(x: Repo, s: seq<Repo>, t: int)
    requires NewestFirst(s)
    ensures UpdatedAt(InsertByRecency(x, s), t) == UpdatedAt([x] + s, t)
    decreases |s|
  {
    if |s| > 0 && x.updatedAt < s[0].updatedAt {
      var rest := InsertByRecency(x, s[1..]);
      InsertByRecencyStable(x, s[1..], t);
      assert ([s[0]] + rest)[1..] == rest;
      assert ([x] + s)[1..] == s;
      assert ([x] + s[1..])[1..] == s[1..];
    }
  }

  /** The sort is stable: entries with equal timestamps keep their input order. */
  lemma {:induction false} SortByRecencyStable(s: seq<Repo>, t: int)
    ensures UpdatedAt(SortByRecency(s), t) == UpdatedAt(s, t)
    decreases |s|
  {
    if |s| > 0 {
      SortByRecencyStable(s[1..], t);
      InsertByRecencyStable(s[0], SortByRecency(s[1..]), t);
      assert ([s[0]] + SortByRecency(s[1..]))[1..] == SortByRecency(s[1..]);
    }
  }

  /**
   * The filter works entry by entry and keeps order: filtering a
   * concatenation is concatenating the filtered parts. With the multiset
   * law of `Eligible` on one-entry lists this fixes the filter exactly.
   */
  lemma {:induction false} EligibleAppend(a: seq<Repo>, b: seq<Repo>)
    ensures Eligible(a + b) == Eligible(a) + Eligible(b)
    decreases |a|
  {
    if |a| == 0 {
      assert a + b == b;
    } else {
      var tail := a[1..];
      var head := Eligible([a[0]]);
      EligibleAppend(tail, b);
      SplitHead(a, b);
      EligibleCons(a[0], tail + b);
      EligibleCons(a[0], tail);
      AppendAssociates(head, Eligible(tail), Eligible(b));
    }
  }

  /** A non-empty list is its head followed by its tail, also in front of another list. */
  lemma SplitHead(a: seq<Repo>, b: seq<Repo>)
    requires |a| > 0
    ensures a == [a[0]] + a[1..]
    ensures a + b == [a[0]] + (a[1..] + b)
  {
  }

  /** Associativity of `+`, which Dafny knows; stated as a lemma only to keep the append laws cheap for the solver. */
  lemma AppendAssociates(x: seq<Repo>, y: seq<Repo>, z: seq<Repo>)
    ensures x + (y + z) == (x + y) + z
  {
  }

  /** The filter's step: the first entry is kept or dropped on its own. */
  lemma EligibleCons(x: Repo, s: seq<Repo>)
    ensures Eligible([x] + s) == Eligible([x]) + Eligible(s)
  {
    var xs := [x] + s;
    assert xs[0] == x && xs[1..] == s;
    var none: seq<Repo> := [];
    assert [x][1..] == none && Eligible(none) == none;
    if IsEligible(x) {
      assert Eligible([x]) == [x] + none == [x];
      assert Eligible(xs) == [x] + Eligible(s);
    } else {
      assert Eligible([x]) == none;
      assert Eligible(xs) == Eligible(s);
    }
  }

  /** Picking the entries updated at `t` works entry by entry. */
  lemma {:induction false} UpdatedAtAppend(a: seq<Repo>, b: seq<Repo>, t: int)
    ensures UpdatedAt(a + b, t) == UpdatedAt(a, t) + UpdatedAt(b, t)
    decreases |a|
  {
    if |a| == 0 {
      assert a + b == b;
    } else {
      var tail := a[1..];
      UpdatedAtAppend(tail, b, t);
      SplitHead(a, b);
      UpdatedAtCons(a[0], tail + b, t);
      UpdatedAtCons(a[0], tail, t);
      AppendAssociates(UpdatedAt([a[0]], t), UpdatedAt(tail, t), UpdatedAt(b, t));
    }
  }

  /** The step of `UpdatedAt`: the first entry is picked or not on its own. */
  lemma UpdatedAtCons(x: Repo, s: seq<Repo>, t: int)
    ensures UpdatedAt([x] + s, t) == UpdatedAt([x], t) + UpdatedAt(s, t)
  {
    var xs := [x] + s;
    assert xs[0] == x && xs[1..] == s;
    var none: seq<Repo> := [];
    assert [x][1..] == none && UpdatedAt(none, t) == none;
    if x.updatedAt == t {
      assert UpdatedAt([x], t) == [x] + none == [x];
      assert UpdatedAt(xs, t) == [x] + UpdatedAt(s, t);
    } else {
      assert UpdatedAt([x], t) == none;
      assert UpdatedAt(xs, t) == UpdatedAt(s, t);
    }
  }

  /** Filtering commutes with picking the entries updated at `t`. */
  lemma {:induction false} EligibleKeepsOrder(s: seq<Repo>, t: int)
    ensures UpdatedAt(Eligible(s), t) == Eligible(UpdatedAt(s, t))
    decreases |s|
  {
    if |s| > 0 {
      EligibleKeepsOrder(s[1..], t);
      if IsEligible(s[0]) {
        assert ([s[0]] + Eligible(s[1..]))[1..] == Eligible(s[1..]);
      }
      if s[0].updatedAt == t {
        assert ([s[0]] + UpdatedAt(s[1..], t))[1..] == UpdatedAt(s[1..], t);
      }
    }
  }

  /**
   * Filter and sort together are stable against the API's order: the
   * eligible repositories updated at `t` appear in the sorted list in the
   * order the API listed them, which decides which of them make the six.
   */
  lemma SortedEligibleStable(repos: seq<Repo>, t: int)
    ensures UpdatedAt(SortByRecency(Eligible(repos)), t) == Eligible(UpdatedAt(repos, t))
  {
    SortByRecencyStable(Eligible(repos), t);
    EligibleKeepsOrder(repos, t);
  }

  /** The entries of a sorted eligible list are eligible repositories of the input. */
  lemma SortedEligibleMembers(repos: seq<Repo>)
    ensures forall x :: x in SortByRecency(Eligible(repos)) ==> x in repos && IsEligible(x)
  {
    var sorted := SortByRecency(Eligible(repos));
    forall x | x in sorted ensures x in repos && IsEligible(x) {
      assert multiset(sorted)[x] > 0;
    }
  }

  /** A prefix takes nothing its list does not hold. */
  lemma PrefixSubMultiset(s: seq<Repo>, n: nat)
    requires n <= |s|
    ensures multiset(s[..n]) <= multiset(s)
  {
    assert s == s[..n] + s[n..];
  }

  /** `.filter(...).sort(...).slice(0, 6)`. */
  function SelectRepos(repos: seq<Repo>): (r: seq<Repo>)
    ensures |r| == if |Eligible(repos)| <= MaxProjects then |Eligible(repos)| else MaxProjects
    ensures |r| <= |SortByRecency(Eligible(repos))| && r == SortByRecency(Eligible(repos))[..|r|]
    ensures NewestFirst(r)
    ensures forall x :: x in r ==> x in repos && IsEligible(x)
    ensures multiset(r) <= multiset(Eligible(repos))
  {
    var sorted := SortByRecency(Eligible(repos));
    var n := if |sorted| <= MaxProjects then |sorted| else MaxProjects;
    SortedEligibleMembers(repos);
    PrefixSubMultiset(sorted, n);
    var r := sorted[..n];
    assert |r| == n;
    r
  }

  /**
   * Ties are cut in the API's order: the eligible repositories updated at
   * `t` are those the selection keeps followed by those it drops, so the
   * kept ones are the first of them as the API listed them.
   */
  lemma SelectedTiesComeFirst(repos: seq<Repo>, t: int)
    ensures Eligible(UpdatedAt(repos, t))
      == UpdatedAt(SelectRepos(repos), t) + UpdatedAt(SortByRecency(Eligible(repos))[|SelectRepos(repos)|..], t)
  {
    var sorted := SortByRecency(Eligible(repos));
    var sel := SelectRepos(repos);
    assert sorted == sel + sorted[|sel|..];
    UpdatedAtAppend(sel, sorted[|sel|..], t);
    SortedEligibleStable(repos, t);
  }

  /** In a newest-first list, whatever lies beyond a prefix is no newer than anything in it. */
  lemma PrefixIsNewest(sorted: seq<Repo>, n: nat)
    requires NewestFirst(sorted) && n <= |sorted|
    ensures forall x, y ::
      (multiset(sorted)[x] > multiset(sorted[..n])[x] && y in sorted[..n]) ==> x.updatedAt <= y.updatedAt
  {
    var sel := sorted[..n];
    var rest := sorted[n..];
    assert sorted == sel + rest;
    forall x, y | multiset(sorted)[x] > multiset(sel)[x] && y in sel
      ensures x.updatedAt <= y.updatedAt
    {
      assert multiset(rest)[x] > 0;
      var j :| 0 <= j < |rest| && rest[j] == x;
      var i :| 0 <= i < |sel| && sel[i] == y;
      assert sorted[n + j] == x && sorted[i] == y;
    }
  }

  /**
   * The six newest are kept: every eligible repository that is not selected
   * (counting duplicates) is no newer than every selected one.
   */
  lemma TopSix(repos: seq<Repo>)
    ensures forall x, y ::
      (IsEligible(x) && multiset(repos)[x] > multiset(SelectRepos(repos))[x] && y in SelectRepos(repos))
      ==> x.updatedAt <= y.updatedAt
  {
    var sorted := SortByRecency(Eligible(repos));
    var sel := SelectRepos(repos);
    assert sel == sorted[..|sel|];
    PrefixIsNewest(sorted, |sel|);
    forall x | IsEligible(x)
      ensures multiset(repos)[x] == multiset(sorted)[x]
    {
    }
  }

  /** JavaScript's `value || fallback` for an optional string: missing and empty are both falsy. */
  function OrElse(v: Option<string>, fallback: string): string {
    if v.Some? && v.value != "" then v.value else fallback
  }

  /** The project record built from one repository (the `.map` callback). */
  function ToProject(repo: Repo): (p: Project)
    ensures p.name == repo.name && p.url == repo.htmlUrl && p.stars == repo.stargazersCount
    ensures p.description != "" && p.language != ""
    ensures repo.description.Some? && repo.description.value != "" ==> p.description == repo.description.value
    ensures repo.description.None? || repo.description.value == "" ==> p.description == DefaultDescription
    ensures repo.language.Some? && repo.language.value != "" ==> p.language == repo.language.value
    ensures repo.language.None? || repo.language.value == "" ==> p.language == DefaultLanguage
  {
    Project(
      repo.name,
      OrElse(repo.description, DefaultDescription),
      OrElse(repo.language, DefaultLanguage),
      repo.htmlUrl,
      repo.stargazersCount)
  }

  /** `filteredRepos.map(...)`. */
  function ToProjects(repos: seq<Repo>): (ps: seq<Project>)
    ensures |ps| == |repos|
    ensures forall i :: 0 <= i < |repos| ==> ps[i] == ToProject(repos[i])
  {
    seq(|repos|, i requires 0 <= i < |repos| => ToProject(repos[i]))
  }

  /** The filter leaves nothing exactly when no repository is eligible. */
  lemma NoneEligible(repos: seq<Repo>)
    ensures Eligible(repos) == [] <==> forall x :: x in repos ==> !IsEligible(x)
  {
    var eligible := Eligible(repos);
    if eligible != [] {
      assert multiset(eligible)[eligible[0]] > 0;
    }
  }

  /**
   * The successful path of `fetchGitHubProjects`: the projects of the (at
   * most six) newest eligible repositories, newest first.
   */
  function ProjectsFromRepos(repos: seq<Repo>): (ps: seq<Project>)
    ensures |ps| <= MaxProjects
    ensures |ps| == |SelectRepos(repos)|
    ensures forall i :: 0 <= i < |ps| ==> ps[i] == ToProject(SelectRepos(repos)[i])
    ensures forall i :: 0 <= i < |ps| ==> ps[i].description != "" && ps[i].language != ""
    ensures ps == [] <==> forall x :: x in repos ==> !IsEligible(x)
  {
    var sel := SelectRepos(repos);
    var ps := ToProjects(sel);
    NoneEligible(repos);
    ps
  }

  /** `fetchGitHubProjects` after the request: the built-in list on any failure. */
  function FetchGitHubProjects(response: Result<seq<Repo>, FetchError>): (ps: seq<Project>)
    ensures response.Failure? ==> ps == HardcodedProjects
    ensures response.Success? ==> ps == ProjectsFromRepos(response.value)
  {
    match response
    case Failure(_) => HardcodedProjects
    case Success(repos) => ProjectsFromRepos(repos)
  }
}
