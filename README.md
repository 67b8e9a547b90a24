# ghcontributors: contributor ranking for the documentation build

This project models the `ghcontributors` documentation directive in Dafny. The
directive gets a repository's contributors from the code-hosting API. It drops
the excluded logins and sorts the rest by contribution count, using a stable
sort in either direction. It keeps the first `limit` entries. Then it renders
them as a bullet list. Each item is a link labelled with the login and pointing
at the profile URL, followed by `" - N contribution(s)"`.

The model has five modules:

- `Wrappers` (wrappers.dfy): `Option` and `Result`, which stand for Python's
  `None` and for raised exceptions.
- `Strings` (strings.dfy): Python's `str(n)` for integers and `s.split(",")`.
  Each comes with an inverse (`ParseInt`, `Join`) and round-trip lemmas.
- `Ranking` (ranking.dfy): the `Contributor` value and the ranking done by
  `ContributorsRepository.__init__`. This is a filter, then a stable sort by
  count (`StableSort`, an insertion sort), then a prefix. The lemmas show that
  the result is sorted, is a permutation of its input and is stable.
  `StableSortUnique` shows these properties fix the result. So Python's
  `sorted`, which is also stable, returns the same list.
- `Render` (render.dfy): the docutils tree as a datatype. `node += child`
  appends a child. `Contributor.build` and `ContributorsRepository.build` are
  methods that build the tree step by step, as the source does. They are proved
  equal to the functions `ContributorParagraph` and `RenderList`. `ReadBack`
  reads a rendered list back into contributors. Its round trip shows that the
  rendering loses nothing and keeps the order.
- `Directive` (directive.dfy): `ContributorsDirective.run` on a payload that is
  already decoded. It reads the options, rejects an object payload with an
  error that names the repository, turns the records into contributors, then
  ranks and renders them.

Three behaviours of the code are easy to miss. The model follows the code:

- A missing `contributions` field does not count as 0. `Contributor.__init__`
  has a default of 0 (line 34), but line 93 always passes
  `c.get('contributions')`, which is `None` when the key is absent.
- An empty array is not an error. Nothing at lines 89-94 rejects it, so it
  renders as an empty bullet list.
- The exclusion pieces are not trimmed. Line 86 splits the option at every
  comma without stripping, so the default option `""` gives the exclusion
  list `[""]`.

## Model

| member | source | states |
|---|---|---|
| `Strings.IntToString` | roles/k8s/docs/src/_exts/ghcontributors.py:45 | `str(n)` is non-empty and has no space; for `n >= 0` it is all digits with no leading zero; for `n < 0` it is `-`, then a non-zero digit, then digits |
| `Strings.IntToStringRoundTrip` | roles/k8s/docs/src/_exts/ghcontributors.py:45 | parsing `str(n)` gives back `n` |
| `Strings.IntToStringInjective` | roles/k8s/docs/src/_exts/ghcontributors.py:45 | two counts have the same decimal text if and only if they are equal |
| `Strings.Split` | roles/k8s/docs/src/_exts/ghcontributors.py:86 | `split(",")` gives at least one piece, and no piece contains a comma |
| `Strings.JoinSplit` | roles/k8s/docs/src/_exts/ghcontributors.py:86 | joining the pieces of `split(",")` with commas gives back the option string |
| `Strings.SplitJoin` | roles/k8s/docs/src/_exts/ghcontributors.py:86 | comma-free pieces come back exactly when their join is split |
| `Strings.SplitCount` | roles/k8s/docs/src/_exts/ghcontributors.py:86 | there is one more piece than there are commas, so empty pieces are kept |
| `Ranking.Filter` | roles/k8s/docs/src/_exts/ghcontributors.py:55 | a contributor is kept if and only if it is in the input and its login is not in the exclude list; each kept contributor occurs exactly as often as in the input, an excluded one not at all |
| `Ranking.FilterCons` | roles/k8s/docs/src/_exts/ghcontributors.py:55 | the first contributor is kept, ahead of the filtered rest, exactly when its login is not excluded; this fixes the order of the kept contributors |
| `Ranking.FilterAppend` | roles/k8s/docs/src/_exts/ghcontributors.py:55 | the filter of a concatenation is the concatenation of the filters |
| `Ranking.FilterKeepsAll` | roles/k8s/docs/src/_exts/ghcontributors.py:55 | when no login of the input is excluded, the filter returns the input unchanged |
| `Ranking.Insert` | roles/k8s/docs/src/_exts/ghcontributors.py:55-56 | inserting adds exactly the one element: the multiset grows by `x` |
| `Ranking.StableSort` | roles/k8s/docs/src/_exts/ghcontributors.py:55-56 | the sorted list is a permutation of its input |
| `Ranking.Take` | roles/k8s/docs/src/_exts/ghcontributors.py:57 | `[:limit]` is a prefix of length min(limit, n) |
| `Ranking.InsertSorted` | roles/k8s/docs/src/_exts/ghcontributors.py:55-56 | inserting into a sorted list keeps it sorted in the chosen direction |
| `Ranking.InsertWithCount` | roles/k8s/docs/src/_exts/ghcontributors.py:55-56 | an inserted contributor goes ahead of every entry with an equal count |
| `Ranking.StableSortSorted` | roles/k8s/docs/src/_exts/ghcontributors.py:55-56 | the sort orders every pair by count: non-increasing when `reverse=True`, non-decreasing otherwise |
| `Ranking.StableSortWithCount` | roles/k8s/docs/src/_exts/ghcontributors.py:55-56 | stability: for every count, the entries with that count keep their input order, in both directions |
| `Ranking.StableSortUnique` | roles/k8s/docs/src/_exts/ghcontributors.py:55-56 | any sorted list that keeps each count's entries in input order equals `StableSort`, so it equals Python's stable `sorted` |
| `Ranking.StableSortMembers` | roles/k8s/docs/src/_exts/ghcontributors.py:55-56 | a contributor is in the sorted list if and only if it is in the input |
| `Ranking.Rank` | roles/k8s/docs/src/_exts/ghcontributors.py:53-57 | the ranking has at most `limit` entries, and each of them is a contributor of the input whose login is not excluded (exact match) |
| `Ranking.RankFromInput` | roles/k8s/docs/src/_exts/ghcontributors.py:55-57 | ranked entries are a sub-multiset of the input; when `limit` covers every kept entry, they are a permutation of the kept entries |
| `Ranking.RankSorted` | roles/k8s/docs/src/_exts/ghcontributors.py:55-57 | ranked entries are ordered by count, both for every pair and for adjacent pairs, in the chosen direction |
| `Ranking.RankStable` | roles/k8s/docs/src/_exts/ghcontributors.py:55-57 | for each count, the ranked entries are the first non-excluded contributors with that count, in input order (all of them when `limit` covers every kept entry) |
| `Ranking.RankLength` | roles/k8s/docs/src/_exts/ghcontributors.py:57 | the ranking has min(limit, kept) entries and is a prefix of the sorted kept entries |
| `Ranking.SortDescendingExample` | roles/k8s/docs/src/_exts/ghcontributors.py:55-56 | when `a` and `c` tie below `b`, sorting high to low gives `b`, `a`, `c`: the leader first, the tie in input order |
| `Ranking.SortAscendingExample` | roles/k8s/docs/src/_exts/ghcontributors.py:55-56 | sorting the same list low to high gives `a`, `c`, `b`: the tie still in input order |
| `Ranking.RankTieExample` | roles/k8s/docs/src/_exts/ghcontributors.py:55-57 | for any `a`, `b`, `c` where `a` and `c` tie below `b` (alice 5, bob 12, carol 5), ranking high to low gives `b`, `a`, `c` |
| `Ranking.SortTiedPairExample` | roles/k8s/docs/src/_exts/ghcontributors.py:55-56 | two tied contributors keep their input order when sorted high to low |
| `Ranking.RankLimitExample` | roles/k8s/docs/src/_exts/ghcontributors.py:57 | with limit 1 the same input gives only `b` |
| `Ranking.RankAscendingExample` | roles/k8s/docs/src/_exts/ghcontributors.py:55-57 | ranking low to high with the exclude list `[""]` gives `a`, `c`, `b` when no login is empty |
| `Ranking.RankExcludeExample` | roles/k8s/docs/src/_exts/ghcontributors.py:55-57 | excluding `b`'s login gives `a`, `c`, the tied pair in input order |
| `Ranking.FilterOneOutExample` | roles/k8s/docs/src/_exts/ghcontributors.py:55 | excluding `b`'s login from `a`, `b`, `c` keeps `a`, `c` when neither has that login |
| `Render.Append` | roles/k8s/docs/src/_exts/ghcontributors.py:44-45 | `node += child` keeps the tag and every earlier child, and adds `child` as the last child |
| `Render.Unit` | roles/k8s/docs/src/_exts/ghcontributors.py:46 | the unit is "contribution" if and only if the count is 1, and "contributions" if and only if it is not (0 included) |
| `Render.BuildContributor` | roles/k8s/docs/src/_exts/ghcontributors.py:41-47 | the paragraph holds exactly two children: a reference with label = login and target = url, then the text `" - " + str(n) + " " + unit` |
| `Render.BuildRepository` | roles/k8s/docs/src/_exts/ghcontributors.py:59-66 | the loop builds a bullet list with one list item per ranked contributor, in order, each wrapping that contributor's paragraph; `[]` gives an empty list |
| `Render.CountTextRoundTrip` | roles/k8s/docs/src/_exts/ghcontributors.py:45-46 | the count can be read back from the text after the link, and its unit matches that count |
| `Render.CountTextInjective` | roles/k8s/docs/src/_exts/ghcontributors.py:45-46 | different counts never give the same text |
| `Render.RenderReadBack` | roles/k8s/docs/src/_exts/ghcontributors.py:59-66 | reading the rendered list back gives exactly the ranked contributors (login, URL, count), in order; an empty ranking gives an empty bullet list |
| `Directive.ReadOptions` | roles/k8s/docs/src/_exts/ghcontributors.py:84-86 | `limit` is the option or 10 and always positive; order is descending if and only if `order` is absent or exactly "DESC" (no other spelling); the exclude list joins back to the option string, holds no comma, has one entry more than the option has commas (no trimming, no dropped empty pieces), and is `[""]` when the option is absent |
| `Directive.Decode` | roles/k8s/docs/src/_exts/ghcontributors.py:91-93 | fails if and only if some record without a count has a login that is not excluded; the error names an unexcluded login; on success, gives the counted records as contributors, in payload order |
| `Directive.ObjectPayloadFails` | roles/k8s/docs/src/_exts/ghcontributors.py:89-90 | an object payload always gives `RepositoryNotFound`, never an empty list, and the message contains the repository id |
| `Directive.EmptyArrayRendersEmptyList` | roles/k8s/docs/src/_exts/ghcontributors.py:89-94 | an empty array is not an error: `run` returns one empty bullet list |
| `Directive.MissingCountFails` | roles/k8s/docs/src/_exts/ghcontributors.py:91-94 | an array payload fails if and only if a record that survives the exclusion lacks a count |
| `Directive.RunRendersRanking` | roles/k8s/docs/src/_exts/ghcontributors.py:82-94 | when every record that lacks a count has an excluded login, `run` returns one bullet list, and reading it back gives exactly `Rank` of the counted records under the option-derived limit, order and exclude list; when every record has a count, the counted records are one contributor per record, in payload order |
| `Directive.Run` | roles/k8s/docs/src/_exts/ghcontributors.py:82-94 | an object payload fails with `RepositoryNotFound` and the message built from the repository id; an array payload fails only with `MissingCount`; a success is one bullet list with at most `limit` items |

## Left out

- The HTTP request and JSON decoding (`requests.get`, `r.json()`, ghcontributors.py:88-89) are network I/O and a library parser. `Directive.Run` receives the decoded payload. The model's payload is either an array of records or an object. A body that decodes to a string, a number or `null` is not modelled.
- Directive.Decode: when exactly one contributor survives the exclusion and it has no count, Python sorts one element without comparing anything and renders "None contributions". The model reports `MissingCount` instead. With two or more survivors, Python's sort raises `TypeError` comparing `None`, which the model reports as `MissingCount`.
- Directive.MissingCountFails: states the error for every kept record without a count. Python only fails when the sort has to compare that record: a lone survivor without a count renders as "None contributions" instead. The model does not promise that rendering.
- Directive.Run: reports `MissingCount` in the same lone-survivor case, where Python renders " - None contributions".
- Records without `login` or `html_url` are not modelled. `c.get` would pass `None` on into the docutils nodes. In the model, `Record` always carries both as strings.
- `directives.positive_int` (line 77) is a docutils validator. The model takes its outcome as the precondition `ValidOptions` (a given `limit` is positive). A negative `limit`, whose Python slice would drop entries from the end, therefore never reaches the ranking.
- `exclude=None`, the default of `ContributorsRepository.__init__` (line 53), raises `TypeError` at `in None` as soon as there is a contributor to test (an empty list succeeds). The model's exclude argument is always a sequence, because `run` always passes one.
- The docutils node classes are modelled by the `Node` datatype, not their internals. `+=` appends one child (`Render.Append`). The list that `run` returns is a one-element `seq<Node>`.
- `Ranking.StableSort` gives the result of Python's `sorted` (Timsort), not its steps. `StableSortUnique` shows that any stable sort has that result.
- `setup(app)` (lines 97-101) registers the directive with the host, and the `ContributorsDirective` class attributes (lines 72-80) configure how the host parses it. Both are host glue.
- roles/k8s/ui/app/namespaces/__init__.py, roles/k8s/ui/app/available/__init__.py and roles/k8s/ui/app/faq/__init__.py register Flask blueprints and return constants. They have no behaviour to model.
