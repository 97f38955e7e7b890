/** The project-list pipeline of the portfolio script: GitHub repository
    records are normalised into cards, merged with the curated local list
    (remote first), de-duplicated by title, and offered to the page as the
    sorted list of tags, the list filtered by the selected tag, and the
    featured selection for the home page. */
module Projects {
  import opened Wrappers
  import opened Seqs
  import opened Strings

  /** Only repositories carrying this topic are shown. */
  const INCLUDE_TOPIC := "portfolio"
  /** Repositories carrying this topic are featured on the home page. */
  const FEATURED_TOPIC := "featured"
  /** The sentinel tag meaning "no filter". */
  const ALL := "All"
  /** The home page shows at most this many featured cards. */
  const FEATURED_LIMIT := 6

  /** A repository as the GitHub listing returns it. `topics`, `description`
      and `homepage` may be null; `pushedAt` is the raw timestamp text. */
  datatype Repo = Repo(
    name: string,
    fork: bool,
    archived: bool,
    topics: Option<seq<string>>,
    description: Option<string>,
    htmlUrl: string,
    homepage: Option<string>,
    pushedAt: string)

  /** A card as the page renders it; local curated entries have the same shape
      (a missing `tags` is the empty list, a missing `featured` is false). */
  datatype Card = Card(
    title: string,
    year: Option<int>,
    tags: seq<string>,
    summary: string,
    repo: string,
    demo: string,
    image: string,
    featured: bool)

  // ---------- normalisation of GitHub repositories ----------

  /** `r.topics || []` */
  function Topics(r: Repo): seq<string> {
    r.topics.GetOr([])
  }

  /** The filter of `loadFromGitHub`: not a fork, not archived, tagged `portfolio`. */
  predicate IsPortfolioRepo(r: Repo) {
    !r.fork && !r.archived && r.topics.Some? && INCLUDE_TOPIC in r.topics.value
  }

  /** `name.replace(/-/g, " ")` */
  function CardTitle(name: string): (title: string)
    ensures |title| == |name|
    ensures '-' !in title
    ensures forall i :: 0 <= i < |name| && name[i] != '-' ==> title[i] == name[i]
    ensures forall i :: 0 <= i < |name| && name[i] == '-' ==> title[i] == ' '
  {
    if name == [] then []
    else
      var c := name[|name| - 1];
      CardTitle(name[..|name| - 1]) + [if c == '-' then ' ' else c]
  }

  /** The `map` of `loadFromGitHub`; `yearOf` stands for reading the year out
      of the `pushed_at` timestamp. */
  function ToCard(r: Repo, yearOf: string -> int): Card {
    Card(
      title := CardTitle(r.name),
      year := Some(yearOf(r.pushedAt)),
      tags := Topics(r),
      summary := r.description.GetOr(""),
      repo := r.htmlUrl,
      demo := r.homepage.GetOr(""),
      image := "",
      featured := FEATURED_TOPIC in Topics(r))
  }

  /** `repos.filter(...).map(...)` in `loadFromGitHub`. */
  function Normalise(repos: seq<Repo>, yearOf: string -> int): seq<Card> {
    var kept := Filter(repos, IsPortfolioRepo);
    seq(|kept|, k requires 0 <= k < |kept| => ToCard(kept[k], yearOf))
  }

  /** Normalisation turns exactly the portfolio repositories, in input order,
      into one card each. */
  lemma NormaliseSpec(repos: seq<Repo>, yearOf: string -> int)
    ensures exists idx ::
              && IndexList(idx, |repos|, Satisfies(repos, IsPortfolioRepo))
              && |idx| == |Normalise(repos, yearOf)|
              && forall k :: 0 <= k < |idx| ==> Normalise(repos, yearOf)[k] == ToCard(repos[idx[k]], yearOf)
  {
    var kept := Filter(repos, IsPortfolioRepo);
    var keep := Satisfies(repos, IsPortfolioRepo);
    FilterSelects(repos, IsPortfolioRepo);
    var idx :| Picks(idx, kept, repos, keep);
    assert Picks(idx, kept, repos, keep);
    assert forall k :: 0 <= k < |idx| ==> Normalise(repos, yearOf)[k] == ToCard(repos[idx[k]], yearOf);
  }

  /** What a card made from a portfolio repository looks like. */
  lemma ToCardShape(r: Repo, yearOf: string -> int)
    requires IsPortfolioRepo(r)
    ensures '-' !in ToCard(r, yearOf).title
    ensures |ToCard(r, yearOf).title| == |r.name|
    ensures ToCard(r, yearOf).tags == r.topics.value
    ensures INCLUDE_TOPIC in ToCard(r, yearOf).tags
    ensures ToCard(r, yearOf).featured <==> FEATURED_TOPIC in r.topics.value
  {
  }

  // ---------- merge and de-duplication by title ----------

  function Titles(s: seq<Card>): set<string> {
    set c | c in s :: c.title
  }

  predicate DistinctTitles(s: seq<Card>) {
    forall i, j :: 0 <= i < j < |s| ==> s[i].title != s[j].title
  }

  /** `s[i]` is the first record of `s` with its title. */
  predicate FirstOfTitle(s: seq<Card>, i: int)
    requires 0 <= i < |s|
  {
    forall j :: 0 <= j < i ==> s[j].title != s[i].title
  }

  /** The positions of `s` holding the first record of their title. */
  function FirstOccurrences(s: seq<Card>): int -> bool {
    i => 0 <= i < |s| && FirstOfTitle(s, i)
  }

  /** `dedupeByTitle`, one record at a time from the front: a record is kept
      unless an earlier kept record has its title. */
  function Dedupe(s: seq<Card>): seq<Card> {
    if s == [] then []
    else
      var d := Dedupe(s[..|s| - 1]);
      var last := s[|s| - 1];
      if last.title in Titles(d) then d else d + [last]
  }

  /** `dedupeByTitle([...remote, ...local])` in `loadProjects`. */
  function Merge(remote: seq<Card>, local: seq<Card>): seq<Card> {
    Dedupe(remote + local)
  }

  lemma TitlesSnoc(s: seq<Card>, c: Card)
    ensures Titles(s + [c]) == Titles(s) + {c.title}
  {
  }

  /** Every title of the input survives de-duplication, and no other. */
  lemma {:induction false} DedupeTitles(s: seq<Card>)
    ensures Titles(Dedupe(s)) == Titles(s)
    decreases |s|
  {
    if s != [] {
      var init, last := s[..|s| - 1], s[|s| - 1];
      assert s == init + [last];
      DedupeTitles(init);
      TitlesSnoc(init, last);
      TitlesSnoc(Dedupe(init), last);
    }
  }

  /** No two records of the de-duplicated list share a title. */
  lemma {:induction false} DedupeDistinct(s: seq<Card>)
    ensures DistinctTitles(Dedupe(s))
    decreases |s|
  {
    if s != [] {
      var init, last := s[..|s| - 1], s[|s| - 1];
      DedupeDistinct(init);
      var d := Dedupe(init);
      if last.title !in Titles(d) {
        forall i, j | 0 <= i < j < |d + [last]| ensures (d + [last])[i].title != (d + [last])[j].title {
          if j == |d| {
            assert d[i] in d;
          }
        }
      }
    }
  }

  /** De-duplication keeps exactly the first record of each title, in input order. */
  lemma {:induction false} DedupeKeepsFirst(s: seq<Card>)
    ensures SelectsWhere(Dedupe(s), s, FirstOccurrences(s))
    decreases |s|
  {
    var keep := FirstOccurrences(s);
    if s == [] {
      assert Picks([], [], s, keep);
    } else {
      var init, last := s[..|s| - 1], s[|s| - 1];
      assert s == init + [last];
      DedupeKeepsFirst(init);
      DedupeTitles(init);
      var keepInit := FirstOccurrences(init);
      assert keep(|init|) <==> last.title !in Titles(init) by {
        if last.title in Titles(init) {
          var c :| c in init && c.title == last.title;
          var j :| 0 <= j < |init| && init[j] == c;
          assert s[j].title == s[|init|].title;
        }
      }
      SelectsWhereSnoc(Dedupe(init), init, last, keepInit, keep);
    }
  }

  /** A list whose titles are already distinct is left as it is. */
  lemma {:induction false} DedupeOfDistinct(s: seq<Card>)
    requires DistinctTitles(s)
    ensures Dedupe(s) == s
    decreases |s|
  {
    if s != [] {
      var init, last := s[..|s| - 1], s[|s| - 1];
      assert s == init + [last];
      DedupeOfDistinct(init);
      DedupeTitles(init);
    }
  }

  /** De-duplicating twice is de-duplicating once. */
  lemma {:induction false} DedupeIdempotent(s: seq<Card>)
    ensures Dedupe(Dedupe(s)) == Dedupe(s)
  {
    DedupeDistinct(s);
    DedupeOfDistinct(Dedupe(s));
  }

  /** `dedupeByTitle`: a `seen` set of titles is carried through the list. */
  method DedupeByTitle(list: seq<Card>) returns (r: seq<Card>)
    ensures r == Dedupe(list)
    ensures DistinctTitles(r)
    ensures Titles(r) == Titles(list)
  {
    var seen: set<string> := {};
    r := [];
    var i := 0;
    while i < |list|
      invariant 0 <= i <= |list|
      invariant r == Dedupe(list[..i])
      invariant seen == Titles(r)
    {
      var p := list[i];
      assert list[..i + 1][..i] == list[..i];
      if p.title !in seen {
        TitlesSnoc(r, p);
        seen := seen + {p.title};
        r := r + [p];
      }
      i := i + 1;
    }
    assert list[..|list|] == list;
    DedupeDistinct(list);
    DedupeTitles(list);
  }

  /** Keeps the records whose title is not in `titles`. */
  function TitleNotIn(titles: set<string>): Card -> bool {
    (c: Card) => c.title !in titles
  }

  /** Remote records come first, so the merge is the de-duplicated remote list
      followed by the de-duplicated local records whose title remote lacks. */
  lemma {:induction false} MergeShadows(remote: seq<Card>, local: seq<Card>)
    ensures Merge(remote, local) == Dedupe(remote) + Filter(Dedupe(local), TitleNotIn(Titles(remote)))
    decreases |local|
  {
    var q := TitleNotIn(Titles(remote));
    if local == [] {
      assert remote + local == remote;
    } else {
      var init, x := local[..|local| - 1], local[|local| - 1];
      assert (remote + local)[..|remote + local| - 1] == remote + init;
      assert (remote + local)[|remote + local| - 1] == x;
      MergeShadows(remote, init);
      DedupeTitles(remote + init);
      DedupeTitles(init);
      assert Titles(remote + init) == Titles(remote) + Titles(init) by {
        assert forall c :: c in remote + init <==> c in remote || c in init;
      }
      var e := Dedupe(init);
      if x.title !in Titles(e) {
        DropLast(e, x);
      }
    }
  }

  /** Wherever remote supplies a title, the merged record with that title is
      remote's first record with it; every other merged record is local. */
  lemma RemoteWins(remote: seq<Card>, local: seq<Card>)
    ensures forall k, i :: 0 <= k < |Merge(remote, local)| && 0 <= i < |remote|
              && Merge(remote, local)[k].title == remote[i].title && FirstOfTitle(remote, i)
              ==> Merge(remote, local)[k] == remote[i]
    ensures forall c :: c in Merge(remote, local) && c.title !in Titles(remote) ==> c in local
  {
    var m := Merge(remote, local);
    var d := Dedupe(remote);
    var rest := Filter(Dedupe(local), TitleNotIn(Titles(remote)));
    MergeShadows(remote, local);
    DedupeKeepsFirst(remote);
    DedupeTitles(local);
    var keep := FirstOccurrences(remote);
    var idx :| Picks(idx, d, remote, keep);
    assert Picks(idx, d, remote, keep);
    forall k, i | 0 <= k < |m| && 0 <= i < |remote| && m[k].title == remote[i].title && FirstOfTitle(remote, i)
      ensures m[k] == remote[i]
    {
      assert remote[i] in remote;
      var j := idx[k];
      assert keep(j);
    }
    forall c | c in m && c.title !in Titles(remote) ensures c in local {
      if c !in d {
        assert c in rest;
        assert c in Dedupe(local);
        var n :| 0 <= n < |Dedupe(local)| && Dedupe(local)[n] == c;
        DedupeKeepsFirst(local);
        var lkeep := FirstOccurrences(local);
        var lidx :| Picks(lidx, Dedupe(local), local, lkeep);
        assert Picks(lidx, Dedupe(local), local, lkeep);
        assert local[lidx[n]] in local;
      }
    }
  }

  /** A remote card and a local card share the title "Foo Bar": the remote one
      is kept, and the local "Baz" follows it. */
  lemma MergeExample()
    ensures var remote := [Card("Foo Bar", None, ["portfolio", "cli"], "", "", "", "", true)];
            var local := [Card("Foo Bar", None, ["other"], "", "", "", "", false),
                          Card("Baz", None, ["web"], "", "", "", "", false)];
            Merge(remote, local) == [remote[0], local[1]]
  {
    var remote := [Card("Foo Bar", None, ["portfolio", "cli"], "", "", "", "", true)];
    var local := [Card("Foo Bar", None, ["other"], "", "", "", "", false),
                  Card("Baz", None, ["web"], "", "", "", "", false)];
    MergeShadows(remote, local);
    DedupeOfDistinct(remote);
    DedupeOfDistinct(local);
    assert Titles(remote) == {"Foo Bar"};
    assert Filter(local, TitleNotIn(Titles(remote))) == [local[1]] by {
      assert local[..1] == [local[0]];
      assert [local[0]][..0] == [];
    }
  }

  // ---------- tags, tag filter and featured selection ----------

  /** `records.flatMap(p => p.tags || [])` */
  function AllTags(records: seq<Card>): seq<string> {
    if records == [] then []
    else AllTags(records[..|records| - 1]) + records[|records| - 1].tags
  }

  /** `Array.from(new Set(records.flatMap(...))).sort()` */
  function UniqueTags(records: seq<Card>): seq<string> {
    SortDistinct(AllTags(records))
  }

  /** Some record carries `t`. */
  predicate TagUsed(records: seq<Card>, t: string) {
    exists i :: 0 <= i < |records| && t in records[i].tags
  }

  lemma {:induction false} AllTagsMembers(records: seq<Card>)
    ensures forall t :: t in AllTags(records) <==> TagUsed(records, t)
    decreases |records|
  {
    if records != [] {
      var init := records[..|records| - 1];
      AllTagsMembers(init);
      forall t ensures t in AllTags(records) <==> TagUsed(records, t) {
        if TagUsed(records, t) {
          var i :| 0 <= i < |records| && t in records[i].tags;
          if i < |init| {
            assert t in init[i].tags;
          }
        }
        if t in AllTags(init) {
          var i :| 0 <= i < |init| && t in init[i].tags;
          assert t in records[i].tags;
        }
      }
    }
  }

  /** The tag list is strictly ascending (hence free of duplicates) and holds
      exactly the tags some record carries. */
  lemma UniqueTagsSpec(records: seq<Card>)
    ensures StrictlyAscending(UniqueTags(records))
    ensures forall t :: t in UniqueTags(records) <==> TagUsed(records, t)
  {
    SortDistinctSpec(AllTags(records));
    AllTagsMembers(records);
  }

  /** Any strictly ascending list of exactly the used tags is the tag list. */
  lemma UniqueTagsCanonical(records: seq<Card>, tags: seq<string>)
    requires StrictlyAscending(tags)
    requires forall t :: t in tags <==> TagUsed(records, t)
    ensures tags == UniqueTags(records)
  {
    UniqueTagsSpec(records);
    AscendingUnique(tags, UniqueTags(records));
  }

  /** Tags `["a", "b"]`, `["b"]` and none give the tag list `["a", "b"]`. */
  lemma UniqueTagsExample()
    ensures var records := [Card("x", None, ["a", "b"], "", "", "", "", false),
                            Card("y", None, ["b"], "", "", "", "", false),
                            Card("z", None, [], "", "", "", "", false)];
            UniqueTags(records) == ["a", "b"]
  {
    var records := [Card("x", None, ["a", "b"], "", "", "", "", false),
                    Card("y", None, ["b"], "", "", "", "", false),
                    Card("z", None, [], "", "", "", "", false)];
    assert Less("a", "b");
    forall t ensures t in ["a", "b"] <==> TagUsed(records, t) {
      if TagUsed(records, t) {
        var i :| 0 <= i < |records| && t in records[i].tags;
      }
      if t == "a" || t == "b" {
        assert t in records[0].tags;
      }
    }
    UniqueTagsCanonical(records, ["a", "b"]);
  }

  /** Keeps the records carrying `tag`: `(p.tags || []).includes(tag)`. */
  function HasTag(tag: string): Card -> bool {
    (c: Card) => tag in c.tags
  }

  /** The filter of `render()`: everything for `'All'`, else the records with the tag. */
  function FilterByTag(records: seq<Card>, tag: string): seq<Card> {
    if tag == ALL then records else Filter(records, HasTag(tag))
  }

  lemma FilterByTagSpec(records: seq<Card>, tag: string)
    ensures tag == ALL ==> FilterByTag(records, tag) == records
    ensures tag != ALL ==>
      SelectsWhere(FilterByTag(records, tag), records, Satisfies(records, HasTag(tag)))
  {
    if tag != ALL {
      FilterSelects(records, HasTag(tag));
      var r := FilterByTag(records, tag);
    }
  }

  /** A tag that no record carries selects nothing. */
  lemma FilterByUnusedTag(records: seq<Card>, tag: string)
    requires tag != ALL && !TagUsed(records, tag)
    ensures FilterByTag(records, tag) == []
  {
    FilterNone(records, HasTag(tag));
  }

  predicate IsFeatured(c: Card) {
    c.featured
  }

  /** `records.filter(p => p.featured).slice(0, 6)` */
  function Featured(records: seq<Card>): seq<Card> {
    Take(Filter(records, IsFeatured), FEATURED_LIMIT)
  }

  /** At most six cards, all featured: a record is shown exactly when it is
      featured and fewer than six featured records precede it. */
  lemma FeaturedSpec(records: seq<Card>)
    ensures |Featured(records)| <= FEATURED_LIMIT
    ensures forall k :: 0 <= k < |Featured(records)| ==> Featured(records)[k].featured
    ensures SelectsWhere(Featured(records), records, AmongFirst(records, IsFeatured, FEATURED_LIMIT))
  {
    var f := Featured(records);
    TakeFilterSelects(records, IsFeatured, FEATURED_LIMIT);
    forall k | 0 <= k < |f| ensures f[k].featured {
      assert Filter(records, IsFeatured)[k] == f[k];
    }
  }

  /** When at most six records are featured, all of them are shown, in input order. */
  lemma FeaturedWhenFew(records: seq<Card>)
    requires |Filter(records, IsFeatured)| <= FEATURED_LIMIT
    ensures Featured(records) == Filter(records, IsFeatured)
  {
  }
}
