# Authors, magazines and articles — a verified model

This project models the in-memory domain model of `lib/classes/many_to_many.py`.
An `Article` is written by an `Author` for a `Magazine`. It is the join entity of a many-to-many
relation and carries an immutable title. `Article.all` lists every article constructed so far,
and `Magazine.all` lists every magazine. All queries filter these registries on each call:

- which articles an author or a magazine has;
- which magazines an author wrote for;
- which authors contributed to a magazine;
- which categories an author covers;
- which authors wrote more than two articles for a magazine;
- which magazine has the most articles.

Files:

- `wrappers.dfy` (module `Wrappers`): `Option`, `Result` and `Outcome`. Python's `None`, meaning
  "no data", becomes `None`, which stays distinct from an empty sequence. A raised `ValueError`
  becomes a `Failure` or a `Fail` carrying an `Error` value.
- `sequences.dfy` (module `Sequences`): generic definitions and lemmas about sequences.
  - `Select` is an order-preserving filter, as in `[x for x in xs if key(x) == k]`.
  - `Dedup` gives the distinct elements of a sequence, in first-occurrence order.
  - `IsTally` describes a dictionary of counts together with its insertion-ordered keys.
  - `FirstArgMax` is the first maximum, as Python's `max` picks it.
- `many_to_many.dfy` (module `ManyToMany`): the registry and the three classes.

Modelling decisions:

- **Registry.** The class-level lists `Article.all` and `Magazine.all` become the two `seq`
  fields of one `Registry` object, which every operation that uses them receives.
- **Identity.** Entities are compared by identity (the source defines no `__eq__`), so they are
  Dafny object references.
- **Fallible constructors.** A Python constructor can raise. Each class therefore has a plain
  `Init` constructor that only assigns fields, and a static `New` method that validates, creates
  and returns a `Result`. `Article.New` and `Magazine.New` also register the new object;
  `Author.New` registers nothing, as there is no registry of authors.
- **Setters.** Mutable attributes are class fields. Each setter is a method that modifies only
  its own field.
- **Queries.** Every query except `contributing_authors` is a function that reads only the
  fields it depends on, such as `reg.articles`author`. `contributing_authors` is a method,
  because its dictionary is filled by a loop; its contract is stated through those functions.
  `MagazineReassigned` proves that a magazine reassignment leaves every author's article list
  unchanged, and `AuthorReassigned` proves the same of every magazine's list.
- **Membership is computed, not stored.** The code keeps no per-entity lists. An article belongs
  to whichever author and magazine its fields currently name, recomputed on each query in
  registry order, so a reassigned article keeps its registry position in its new owner's list.
- **Ties in `top_publisher`.** `max` returns the first magazine with the largest count, so on a
  tie `TopPublisher` returns that magazine.
- **Unordered results.** `list({...})` in `magazines`, `contributors` and `topic_areas` has no
  specified order. The model returns a duplicate-free sequence. Its contract states only that the
  sequence has no duplicates and has the same elements as the comprehension; it makes no claim on
  order.

## Model

| member | source | states |
|---|---|---|
| ManyToMany.Registry.constructor | lib/classes/many_to_many.py:3 | both registries start empty, and the registry invariant holds |
| ManyToMany.ValidTitle | lib/classes/many_to_many.py:10 | a title is accepted exactly when it has 5 to 50 characters |
| ManyToMany.ValidAuthorName | lib/classes/many_to_many.py:49 | an author name is accepted exactly when it is non-empty |
| ManyToMany.ValidMagazineName | lib/classes/many_to_many.py:95 | a magazine name is accepted exactly when it has 2 to 16 characters |
| ManyToMany.ValidCategory | lib/classes/many_to_many.py:105 | a category is accepted exactly when it is non-empty |
| ManyToMany.Registry.Valid | lib/classes/many_to_many.py:17 | the registry invariant: no entity is registered twice, and every registered article has a valid title and a registered magazine |
| ManyToMany.Article.Init | lib/classes/many_to_many.py:13-15 | the fields hold the given title, author and magazine |
| ManyToMany.Author.Init | lib/classes/many_to_many.py:51 | the name is the given one |
| ManyToMany.Magazine.Init | lib/classes/many_to_many.py:85-86 | the name and category are the given ones |
| ManyToMany.Magazine.Valid | lib/classes/many_to_many.py:84-107 | a magazine's name and category are values its setters accept |
| ManyToMany.AuthorsOf | lib/classes/many_to_many.py:115 | the current author of each article, position by position: the projection collected at line 115 and used as the dictionary key at line 129 |
| ManyToMany.MagazinesOf | lib/classes/many_to_many.py:64 | the current magazine of each article, position by position: the projection collected at lines 64 and 77 |
| Sequences.IsTally | lib/classes/many_to_many.py:127-129 | the state of the `counts` dictionary: it maps exactly the keys seen so far, each to its number of occurrences, and its insertion order is the order of first occurrence |
| ManyToMany.TitlesOf | lib/classes/many_to_many.py:120 | the title of each article, position by position |
| ManyToMany.CategoriesOf | lib/classes/many_to_many.py:77 | the current category of each magazine, position by position |
| ManyToMany.ArticleCounts | lib/classes/many_to_many.py:138 | the `max` key of each magazine: its current number of articles, position by position |
| Sequences.Select | lib/classes/many_to_many.py:60 | the order-preserving filter of a comprehension with an `if key == k` clause; its properties are the `Select...` lemmas |
| Sequences.Dedup | lib/classes/many_to_many.py:64 | `list({...})`: the distinct elements of a sequence; its properties are `DedupSpec` and `DedupMember` |
| Sequences.Exceeds | lib/classes/many_to_many.py:130 | for each dictionary key in insertion order, whether its count is above the threshold |
| ManyToMany.Article.New | lib/classes/many_to_many.py:5-17 | fails with `InvalidTitle` exactly when the title length is outside 5..50, and then the registry is unchanged; otherwise a fresh article with the given fields is appended to the end of `Article.all`; its author's articles and its magazine's articles each gain exactly this article at the end; every other author's and magazine's articles are unchanged; the registry invariant is preserved |
| ManyToMany.Article.SetAuthor | lib/classes/many_to_many.py:28-32 | only the `author` field changes, and it becomes the new value |
| ManyToMany.Article.SetMagazine | lib/classes/many_to_many.py:38-42 | only the `magazine` field changes, and it becomes the new value |
| ManyToMany.AuthorReassigned | lib/classes/many_to_many.py:28-32 | after an author reassignment, an article is in an author's `articles()` exactly when it was there before and is not the reassigned one, or it is the reassigned, registered article and this is its new author; every other author's list is unchanged, order included; every magazine's list is unchanged |
| ManyToMany.MagazineReassigned | lib/classes/many_to_many.py:38-42 | the same for a magazine reassignment; every author's list is unchanged; the registry invariant survives when the new magazine is registered |
| ManyToMany.Author.New | lib/classes/many_to_many.py:48-51 | fails with `InvalidAuthorName` exactly when the name is empty; otherwise returns a fresh author with that name |
| ManyToMany.Author.Articles | lib/classes/many_to_many.py:58-60 | every element is a registered article whose current author is this one; every such registered article is included; the result keeps registry order; it has no duplicates when the registry has none |
| ManyToMany.SelectByAuthor | lib/classes/many_to_many.py:60 | the filter by author returns exactly the matching articles, in order, without duplicates when its input has none |
| ManyToMany.RegisterByAuthor | lib/classes/many_to_many.py:17 | appending an article to the registry appends it to its own author's filtered list and leaves every other author's list unchanged |
| ManyToMany.Author.Magazines | lib/classes/many_to_many.py:62-64 | no duplicates, and the same elements as the magazines of this author's articles |
| ManyToMany.Author.AddArticle | lib/classes/many_to_many.py:66-70 | the same outcome as `Article.New` with this author: the error case, registration at the end, and growth of exactly this author's and the given magazine's articles |
| ManyToMany.Author.TopicAreas | lib/classes/many_to_many.py:72-77 | "no data" exactly when the author has no articles; otherwise no duplicates, and the same elements as the current categories of those articles' magazines |
| ManyToMany.Magazine.New | lib/classes/many_to_many.py:84-87 | the name is checked before the category: fails with `InvalidMagazineName` when the name length is outside 2..16, otherwise with `InvalidCategory` when the category is empty, and then nothing is registered; otherwise a fresh valid magazine is appended to the end of `Magazine.all` |
| ManyToMany.Magazine.SetName | lib/classes/many_to_many.py:93-97 | accepts exactly names of 2..16 characters; a rejected name leaves the stored one unchanged; validity of the magazine is preserved |
| ManyToMany.Magazine.SetCategory | lib/classes/many_to_many.py:103-107 | accepts exactly non-empty categories; a rejected category leaves the stored one unchanged; validity is preserved |
| ManyToMany.Magazine.Articles | lib/classes/many_to_many.py:109-111 | every element is a registered article whose current magazine is this one; every such article is included; the result keeps registry order; it has no duplicates when the registry has none |
| ManyToMany.SelectByMagazine | lib/classes/many_to_many.py:111 | the filter by magazine returns exactly the matching articles, in order, without duplicates when its input has none |
| ManyToMany.RegisterByMagazine | lib/classes/many_to_many.py:17 | appending an article to the registry appends it to its own magazine's filtered list and leaves every other magazine's list unchanged |
| ManyToMany.Magazine.Contributors | lib/classes/many_to_many.py:113-115 | no duplicates, and the same elements as the authors of this magazine's articles |
| ManyToMany.Magazine.ArticleTitles | lib/classes/many_to_many.py:117-120 | "no data" exactly when the magazine has no articles; otherwise the titles of its articles, position by position, in registry order |
| ManyToMany.Magazine.ArticlesBy | lib/classes/many_to_many.py:127-129 | the number of this magazine's articles by an author is the number of times that author occurs among the authors of the articles, the count the loop accumulates |
| ManyToMany.Magazine.TallyAuthors | lib/classes/many_to_many.py:127-129 | the loop leaves each author of the articles mapped to the number of times they occur, and no one else mapped; the dictionary's insertion order is the order of first occurrence |
| ManyToMany.Magazine.FrequentAuthors | lib/classes/many_to_many.py:127-130 | exactly the authors occurring more than twice, each once, in order of first occurrence |
| ManyToMany.Magazine.ContributingAuthors | lib/classes/many_to_many.py:122-131 | "no data" when the magazine has no articles, and in general exactly when no author has more than two of its articles; otherwise exactly the authors with more than two articles, without duplicates, in first-occurrence order among the magazine's articles (the dictionary's insertion order) |
| ManyToMany.Magazine.TopPublisher | lib/classes/many_to_many.py:133-138 | "no data" exactly when no article is registered; otherwise a registered magazine whose article count is at least every registered magazine's, and each other magazine with an equal count comes after it in `Magazine.all` |
| Sequences.DedupSpec | lib/classes/many_to_many.py:64 | the distinct elements of a sequence have no duplicates and the same elements as the sequence |
| Sequences.DedupMember | lib/classes/many_to_many.py:115 | an element is among the distinct elements exactly when it occurs in the sequence |
| Sequences.SelectMembership | lib/classes/many_to_many.py:60 | an order-preserving filter keeps exactly the elements whose key matches |
| Sequences.SelectIsSubsequence | lib/classes/many_to_many.py:111 | the filter keeps the order of its input |
| Sequences.SelectNoDups | lib/classes/many_to_many.py:111 | filtering a duplicate-free sequence gives a duplicate-free sequence |
| Sequences.SelectAppend | lib/classes/many_to_many.py:17 | filtering a sequence extended by one element extends the result by that element exactly when its key matches |
| Sequences.SelectLength | lib/classes/many_to_many.py:129 | the filter's length is the number of occurrences of the key |
| Sequences.SelectSameMatches | lib/classes/many_to_many.py:32 | two key sequences that agree on where the key occurs give the same filter, so a reassignment of another article leaves the list unchanged |
| Sequences.TallyStep | lib/classes/many_to_many.py:129 | one `counts[k] = counts.get(k, 0) + 1` step keeps the dictionary a correct tally of the keys seen so far, with first-occurrence key order |
| Sequences.SelectAboveThreshold | lib/classes/many_to_many.py:130 | keeping the tallied keys whose count exceeds the threshold, in insertion order, keeps exactly the keys occurring more often than the threshold, each once, in first-occurrence order |
| Sequences.FirstArgMax | lib/classes/many_to_many.py:138 | the chosen index holds a maximal key, and every earlier key is strictly smaller: the element Python's `max` returns |

## Left out

- Runtime type checks (`isinstance` in lines 6-10, 30, 40, 49, 95 and 105) are not modelled. Dafny's static types make a wrong-type argument impossible, so the `TypeError` paths cannot arise. For the same reason `Author.add_article` has no failure of its own.
- Exception classes and messages are not modelled. A failure is an `Error` value: `InvalidTitle`, `InvalidAuthorName`, `InvalidMagazineName` or `InvalidCategory`.
- Article.New, Author.AddArticle: require the magazine to be in `Magazine.all`. In the source every `Magazine` object is registered by its constructor. In Dafny a caller could construct one with `Init` and skip `New`, so this guarantee becomes a precondition. It keeps the registry invariant `Registry.Valid` that `TopPublisher` relies on.
- Magazine.TopPublisher: requires `Registry.Valid()`. Under that invariant a registered article implies a registered magazine, so `max` over an empty `Magazine.all` cannot occur; the source would raise there.
- Author.Magazines, Magazine.Contributors, Author.TopicAreas: the order of `list({...})` depends on Python's hashing. The model fixes first-occurrence order, and the contracts state only no-duplicates and same-elements.
- The read-only properties `title`, `name`, `author`, `magazine` and `category` (lines 19-26, 34-36, 53-56, 89-91, 99-101) are plain field reads. `title` and an author's `name` are `const`, which reflects their immutability.
- Article construction assigns its fields through the setters. With the type checks gone, those calls cannot fail, so `Init` assigns the fields directly.
- Article.SetAuthor, Article.SetMagazine: cannot be rejected, because the only rejection in the source is the type check. Their effect on the queries is stated separately by `AuthorReassigned` and `MagazineReassigned`.
- Magazine.Valid: only a stated invariant. `New` establishes it and the setters preserve it, but no other contract relies on it, and `Registry.Valid` does not require it of registered magazines. A `Magazine` can be invalid only through `Init` used outside `New`.
