/** Authors, magazines and the articles that join them, with the registries of all
    articles and all magazines and the queries computed over them. */
module ManyToMany {
  import opened Wrappers
  import opened Sequences

  /** Why a construction or an assignment was rejected. Argument type errors cannot
      arise: every argument is statically an `Author`, a `Magazine` or a `string`. */
  datatype Error = InvalidTitle | InvalidAuthorName | InvalidMagazineName | InvalidCategory

  /** An article title has between 5 and 50 characters. */
  predicate ValidTitle(s: string) { 5 <= |s| <= 50 }

  /** An author name is non-empty. */
  predicate ValidAuthorName(s: string) { |s| > 0 }

  /** A magazine name has between 2 and 16 characters. */
  predicate ValidMagazineName(s: string) { 2 <= |s| <= 16 }

  /** A magazine category is non-empty. */
  predicate ValidCategory(s: string) { |s| > 0 }

  /** The author of each article, position by position. */
  function AuthorsOf(arts: seq<Article>): (r: seq<Author>)
    reads arts`author
    ensures |r| == |arts| && forall i :: 0 <= i < |arts| ==> r[i] == arts[i].author
  {
    if arts == [] then [] else AuthorsOf(arts[..|arts| - 1]) + [arts[|arts| - 1].author]
  }

  /** The magazine of each article, position by position. */
  function MagazinesOf(arts: seq<Article>): (r: seq<Magazine>)
    reads arts`magazine
    ensures |r| == |arts| && forall i :: 0 <= i < |arts| ==> r[i] == arts[i].magazine
  {
    if arts == [] then [] else MagazinesOf(arts[..|arts| - 1]) + [arts[|arts| - 1].magazine]
  }

  /** The current category of each magazine, position by position. */
  function CategoriesOf(mags: seq<Magazine>): (r: seq<string>)
    reads mags`category
    ensures |r| == |mags| && forall i :: 0 <= i < |mags| ==> r[i] == mags[i].category
  {
    if mags == [] then [] else CategoriesOf(mags[..|mags| - 1]) + [mags[|mags| - 1].category]
  }

  /** The title of each article, position by position. */
  function TitlesOf(arts: seq<Article>): (r: seq<string>)
    ensures |r| == |arts| && forall i :: 0 <= i < |arts| ==> r[i] == arts[i].title
  {
    if arts == [] then [] else TitlesOf(arts[..|arts| - 1]) + [arts[|arts| - 1].title]
  }

  /** The current number of articles of each magazine, position by position. */
  function ArticleCounts(reg: Registry, mags: seq<Magazine>): (r: seq<nat>)
    reads reg, reg.articles`magazine
    ensures |r| == |mags| && forall i :: 0 <= i < |mags| ==> r[i] == |mags[i].Articles(reg)|
  {
    if mags == [] then [] else ArticleCounts(reg, mags[..|mags| - 1]) + [|mags[|mags| - 1].Articles(reg)|]
  }

  /** Selecting the articles whose author is `au` gives exactly those articles, in order. */
  lemma SelectByAuthor(arts: seq<Article>, au: Author)
    ensures var r := Select(arts, AuthorsOf(arts), au);
      && (forall i :: 0 <= i < |r| ==> r[i] in arts && r[i].author == au)
      && (forall i :: 0 <= i < |arts| && arts[i].author == au ==> arts[i] in r)
      && IsSubsequence(r, arts)
      && (NoDups(arts) ==> NoDups(r))
  {
    var keys := AuthorsOf(arts);
    SelectMembership(arts, keys, au);
    SelectIsSubsequence(arts, keys, au);
    if NoDups(arts) {
      SelectNoDups(arts, keys, au);
    }
  }

  /** Selecting the articles whose magazine is `m` gives exactly those articles, in order. */
  lemma SelectByMagazine(arts: seq<Article>, m: Magazine)
    ensures var r := Select(arts, MagazinesOf(arts), m);
      && (forall i :: 0 <= i < |r| ==> r[i] in arts && r[i].magazine == m)
      && (forall i :: 0 <= i < |arts| && arts[i].magazine == m ==> arts[i] in r)
      && IsSubsequence(r, arts)
      && (NoDups(arts) ==> NoDups(r))
  {
    var keys := MagazinesOf(arts);
    SelectMembership(arts, keys, m);
    SelectIsSubsequence(arts, keys, m);
    if NoDups(arts) {
      SelectNoDups(arts, keys, m);
    }
  }

  /** Registering one more article appends it to the articles of its own author and
      leaves every other author's articles as they were. */
  lemma RegisterByAuthor(arts: seq<Article>, a: Article, au: Author)
    ensures Select(arts + [a], AuthorsOf(arts + [a]), au)
         == Select(arts, AuthorsOf(arts), au) + (if a.author == au then [a] else [])
  {
    assert (arts + [a])[..|arts|] == arts;
    SelectAppend(arts, AuthorsOf(arts), a, a.author, au);
  }

  /** Registering one more article appends it to the articles of its own magazine and
      leaves every other magazine's articles as they were. */
  lemma RegisterByMagazine(arts: seq<Article>, a: Article, m: Magazine)
    ensures Select(arts + [a], MagazinesOf(arts + [a]), m)
         == Select(arts, MagazinesOf(arts), m) + (if a.magazine == m then [a] else [])
  {
    assert (arts + [a])[..|arts|] == arts;
    SelectAppend(arts, MagazinesOf(arts), a, a.magazine, m);
  }

  /** Reassigning the author of `a` (from `prev`) moves `a` out of the articles of
      `prev` and into those of its new author, when `a` is registered; every other
      author keeps exactly the articles they had, in the same order, and, as no magazine
      field changes, so does every magazine. */
  twostate lemma AuthorReassigned(reg: Registry, a: Article, prev: Author)
    requires unchanged(reg) && prev == old(a.author)
    requires forall x :: x in old(reg.articles) && x != a ==> x.author == old(x.author)
    requires forall x :: x in old(reg.articles) ==> x.magazine == old(x.magazine)
    ensures forall au: Author, x: Article :: old(allocated(au)) ==>
              (x in au.Articles(reg) <==>
                 (x in old(au.Articles(reg)) && x != a) || (x == a && a in reg.articles && a.author == au))
    ensures forall au: Author :: old(allocated(au)) && au != prev && au != a.author ==>
              au.Articles(reg) == old(au.Articles(reg))
    ensures forall m: Magazine :: old(allocated(m)) ==> m.Articles(reg) == old(m.Articles(reg))
  {
    forall au: Author | old(allocated(au)) && au != prev && au != a.author
      ensures au.Articles(reg) == old(au.Articles(reg))
    {
      SelectSameMatches(reg.articles, old(AuthorsOf(reg.articles)), AuthorsOf(reg.articles), au);
    }
    forall m: Magazine | old(allocated(m))
      ensures m.Articles(reg) == old(m.Articles(reg))
    {
      SelectSameMatches(reg.articles, old(MagazinesOf(reg.articles)), MagazinesOf(reg.articles), m);
    }
  }

  /** Reassigning the magazine of `a` (from `prev`) moves `a` out of the articles of
      `prev` and into those of its new magazine, when `a` is registered; every other
      magazine keeps exactly the articles it had, in the same order, and, as no author
      field changes, so does every author. The registries stay valid when the new
      magazine is registered. */
  twostate lemma MagazineReassigned(reg: Registry, a: Article, prev: Magazine)
    requires unchanged(reg) && prev == old(a.magazine)
    requires forall x :: x in old(reg.articles) && x != a ==> x.magazine == old(x.magazine)
    requires forall x :: x in old(reg.articles) ==> x.author == old(x.author)
    ensures forall m: Magazine, x: Article :: old(allocated(m)) ==>
              (x in m.Articles(reg) <==>
                 (x in old(m.Articles(reg)) && x != a) || (x == a && a in reg.articles && a.magazine == m))
    ensures forall m: Magazine :: old(allocated(m)) && m != prev && m != a.magazine ==>
              m.Articles(reg) == old(m.Articles(reg))
    ensures forall au: Author :: old(allocated(au)) ==> au.Articles(reg) == old(au.Articles(reg))
    ensures old(reg.Valid()) && a.magazine in reg.magazines ==> reg.Valid()
  {
    forall m: Magazine | old(allocated(m)) && m != prev && m != a.magazine
      ensures m.Articles(reg) == old(m.Articles(reg))
    {
      SelectSameMatches(reg.articles, old(MagazinesOf(reg.articles)), MagazinesOf(reg.articles), m);
    }
    forall au: Author | old(allocated(au))
      ensures au.Articles(reg) == old(au.Articles(reg))
    {
      SelectSameMatches(reg.articles, old(AuthorsOf(reg.articles)), AuthorsOf(reg.articles), au);
    }
  }

  /** The registries `Article.all` and `Magazine.all`: every article and every magazine
      constructed so far, in construction order. */
  class Registry {
    var articles: seq<Article>
    var magazines: seq<Magazine>

    /** What construction guarantees of the registries: each entity is registered once,
        every registered article has a valid title and a registered magazine. */
    ghost predicate Valid()
      reads this, articles`magazine
    {
      && NoDups(articles)
      && NoDups(magazines)
      && forall i :: 0 <= i < |articles| ==>
           ValidTitle(articles[i].title) && articles[i].magazine in magazines
    }

    /** Empty registries, as at program start. */
    constructor ()
      ensures articles == [] && magazines == [] && Valid()
    {
      articles := [];
      magazines := [];
    }
  }

  /** An article written by an author for a magazine; the join entity. */
  class Article {
    const title: string
    var author: Author
    var magazine: Magazine

    /** Field initialisation once the arguments have been validated. */
    constructor Init(author: Author, magazine: Magazine, title: string)
      ensures this.title == title && this.author == author && this.magazine == magazine
    {
      this.title := title;
      this.author := author;
      this.magazine := magazine;
    }

    /** `Article(author, magazine, title)`: rejects a title outside 5..50 characters and
        registers nothing; otherwise creates the article and appends it to the registry. */
    static method New(reg: Registry, author: Author, magazine: Magazine, title: string)
      returns (r: Result<Article, Error>)
      requires reg.Valid() && magazine in reg.magazines
      modifies reg`articles
      ensures reg.Valid()
      ensures r.Success? <==> ValidTitle(title)
      ensures r.Failure? ==> r.error == InvalidTitle && reg.articles == old(reg.articles)
      ensures r.Success? ==>
        && fresh(r.value)
        && r.value.title == title && r.value.author == author && r.value.magazine == magazine
        && reg.articles == old(reg.articles) + [r.value]
      ensures r.Success? ==> forall au: Author :: old(allocated(au)) ==>
                au.Articles(reg) == old(au.Articles(reg)) + (if au == author then [r.value] else [])
      ensures r.Success? ==> forall m: Magazine :: old(allocated(m)) ==>
                m.Articles(reg) == old(m.Articles(reg)) + (if m == magazine then [r.value] else [])
    {
      if !ValidTitle(title) {
        return Failure(InvalidTitle);
      }
      var a := new Article.Init(author, magazine, title);
      ghost var before := reg.articles;
      reg.articles := reg.articles + [a];
      forall au: Author
        ensures au.Articles(reg) == Select(before, AuthorsOf(before), au) + (if author == au then [a] else [])
      {
        RegisterByAuthor(before, a, au);
      }
      forall m: Magazine
        ensures m.Articles(reg) == Select(before, MagazinesOf(before), m) + (if magazine == m then [a] else [])
      {
        RegisterByMagazine(before, a, m);
      }
      r := Success(a);
    }

    /** The `author` setter: the article now belongs to `value`. */
    method SetAuthor(value: Author)
      modifies this`author
      ensures author == value
    {
      author := value;
    }

    /** The `magazine` setter: the article now belongs to `value`. */
    method SetMagazine(value: Magazine)
      modifies this`magazine
      ensures magazine == value
    {
      magazine := value;
    }
  }

  /** A named author; the name never changes. */
  class Author {
    const name: string

    /** Field initialisation once the name has been validated. */
    constructor Init(name: string)
      ensures this.name == name
    {
      this.name := name;
    }

    /** `Author(name)`: rejects an empty name, otherwise creates the author. */
    static method New(name: string) returns (r: Result<Author, Error>)
      ensures r.Success? <==> ValidAuthorName(name)
      ensures r.Failure? ==> r.error == InvalidAuthorName
      ensures r.Success? ==> fresh(r.value) && r.value.name == name
    {
      if !ValidAuthorName(name) {
        return Failure(InvalidAuthorName);
      }
      var au := new Author.Init(name);
      r := Success(au);
    }

    /** `articles()`: the registered articles whose author is currently this one, in
        registry order. */
    function Articles(reg: Registry): (r: seq<Article>)
      reads reg, reg.articles`author
      ensures forall i :: 0 <= i < |r| ==> r[i] in reg.articles && r[i].author == this
      ensures forall i :: 0 <= i < |reg.articles| && reg.articles[i].author == this ==>
                reg.articles[i] in r
      ensures IsSubsequence(r, reg.articles)
      ensures NoDups(reg.articles) ==> NoDups(r)
    {
      SelectByAuthor(reg.articles, this);
      Select(reg.articles, AuthorsOf(reg.articles), this)
    }

    /** `magazines()`: the distinct magazines of this author's articles. */
    function Magazines(reg: Registry): (r: seq<Magazine>)
      reads reg, reg.articles`author, reg.articles`magazine
      ensures NoDups(r)
      ensures SameElements(r, MagazinesOf(Articles(reg)))
    {
      DedupSpec(MagazinesOf(Articles(reg)));
      Dedup(MagazinesOf(Articles(reg)))
    }

    /** `add_article(magazine, title)`: the same as constructing the article with this
        author. */
    method AddArticle(reg: Registry, magazine: Magazine, title: string)
      returns (r: Result<Article, Error>)
      requires reg.Valid() && magazine in reg.magazines
      modifies reg`articles
      ensures reg.Valid()
      ensures r.Success? <==> ValidTitle(title)
      ensures r.Failure? ==> r.error == InvalidTitle && reg.articles == old(reg.articles)
      ensures r.Success? ==>
        && fresh(r.value)
        && r.value.title == title && r.value.author == this && r.value.magazine == magazine
        && reg.articles == old(reg.articles) + [r.value]
      ensures r.Success? ==> forall au: Author :: old(allocated(au)) ==>
                au.Articles(reg) == old(au.Articles(reg)) + (if au == this then [r.value] else [])
      ensures r.Success? ==> forall m: Magazine :: old(allocated(m)) ==>
                m.Articles(reg) == old(m.Articles(reg)) + (if m == magazine then [r.value] else [])
    {
      r := Article.New(reg, this, magazine, title);
    }

    /** `topic_areas()`: "no data" exactly when this author has no articles, otherwise the
        distinct current categories of their articles' magazines. */
    function TopicAreas(reg: Registry): (r: Option<seq<string>>)
      reads reg, reg.articles`author, reg.articles`magazine
      reads (set a | a in reg.articles :: a.magazine)`category
      ensures r.None? <==> |Articles(reg)| == 0
      ensures r.Some? ==> NoDups(r.value)
      ensures r.Some? ==> SameElements(r.value, CategoriesOf(MagazinesOf(Articles(reg))))
    {
      var arts := Articles(reg);
      if |arts| == 0 then None
      else
        var mags := MagazinesOf(arts);
        assert forall i :: 0 <= i < |mags| ==> mags[i] == arts[i].magazine && arts[i] in reg.articles;
        DedupSpec(CategoriesOf(mags));
        Some(Dedup(CategoriesOf(mags)))
    }
  }

  /** A magazine: its name and category may be reassigned, each time validated. */
  class Magazine {
    var name: string
    var category: string

    /** Both attributes hold values their setters accept. */
    ghost predicate Valid()
      reads this
    {
      ValidMagazineName(name) && ValidCategory(category)
    }

    /** Field initialisation once the arguments have been validated. */
    constructor Init(name: string, category: string)
      ensures this.name == name && this.category == category
    {
      this.name := name;
      this.category := category;
    }

    /** `Magazine(name, category)`: the name is checked first, then the category; a
        rejected magazine is not registered, an accepted one is appended to the registry. */
    static method New(reg: Registry, name: string, category: string)
      returns (r: Result<Magazine, Error>)
      requires reg.Valid()
      modifies reg`magazines
      ensures reg.Valid()
      ensures r.Success? <==> ValidMagazineName(name) && ValidCategory(category)
      ensures r.Failure? ==>
        && r.error == (if !ValidMagazineName(name) then InvalidMagazineName else InvalidCategory)
        && reg.magazines == old(reg.magazines)
      ensures r.Success? ==>
        && fresh(r.value) && r.value.Valid()
        && r.value.name == name && r.value.category == category
        && reg.magazines == old(reg.magazines) + [r.value]
    {
      if !ValidMagazineName(name) {
        return Failure(InvalidMagazineName);
      }
      if !ValidCategory(category) {
        return Failure(InvalidCategory);
      }
      var m := new Magazine.Init(name, category);
      reg.magazines := reg.magazines + [m];
      r := Success(m);
    }

    /** The `name` setter: accepts exactly names of 2..16 characters; a rejected name
        leaves the stored one in place. */
    method SetName(value: string) returns (res: Outcome<Error>)
      modifies this`name
      ensures res.Pass? <==> ValidMagazineName(value)
      ensures res.Fail? ==> res.error == InvalidMagazineName
      ensures name == if res.Pass? then value else old(name)
      ensures old(Valid()) ==> Valid()
    {
      if !ValidMagazineName(value) {
        return Fail(InvalidMagazineName);
      }
      name := value;
      res := Pass;
    }

    /** The `category` setter: accepts exactly non-empty categories; a rejected category
        leaves the stored one in place. */
    method SetCategory(value: string) returns (res: Outcome<Error>)
      modifies this`category
      ensures res.Pass? <==> ValidCategory(value)
      ensures res.Fail? ==> res.error == InvalidCategory
      ensures category == if res.Pass? then value else old(category)
      ensures old(Valid()) ==> Valid()
    {
      if !ValidCategory(value) {
        return Fail(InvalidCategory);
      }
      category := value;
      res := Pass;
    }

    /** `articles()`: the registered articles whose magazine is currently this one, in
        registry order. */
    function Articles(reg: Registry): (r: seq<Article>)
      reads reg, reg.articles`magazine
      ensures forall i :: 0 <= i < |r| ==> r[i] in reg.articles && r[i].magazine == this
      ensures forall i :: 0 <= i < |reg.articles| && reg.articles[i].magazine == this ==>
                reg.articles[i] in r
      ensures IsSubsequence(r, reg.articles)
      ensures NoDups(reg.articles) ==> NoDups(r)
    {
      SelectByMagazine(reg.articles, this);
      Select(reg.articles, MagazinesOf(reg.articles), this)
    }

    /** `contributors()`: the distinct authors of this magazine's articles. */
    function Contributors(reg: Registry): (r: seq<Author>)
      reads reg, reg.articles`author, reg.articles`magazine
      ensures NoDups(r)
      ensures SameElements(r, AuthorsOf(Articles(reg)))
    {
      DedupSpec(AuthorsOf(Articles(reg)));
      Dedup(AuthorsOf(Articles(reg)))
    }

    /** `article_titles()`: "no data" exactly when this magazine has no articles,
        otherwise the titles of its articles in registry order. */
    function ArticleTitles(reg: Registry): (r: Option<seq<string>>)
      reads reg, reg.articles`magazine
      ensures r.None? <==> |Articles(reg)| == 0
      ensures r.Some? ==> |r.value| == |Articles(reg)|
      ensures r.Some? ==> forall i :: 0 <= i < |r.value| ==> r.value[i] == Articles(reg)[i].title
    {
      var arts := Articles(reg);
      if |arts| == 0 then None else Some(TitlesOf(arts))
    }

    /** The articles of this magazine written by `au`: the ones `contributing_authors`
        counts for `au`. */
    ghost function ArticlesBy(reg: Registry, au: Author): (r: seq<Article>)
      reads reg, reg.articles`author, reg.articles`magazine
      ensures |r| == multiset(AuthorsOf(Articles(reg)))[au]
    {
      var arts := Articles(reg);
      SelectLength(arts, AuthorsOf(arts), au);
      Select(arts, AuthorsOf(arts), au)
    }

    /** The tally of `contributing_authors`: a dictionary from each author of `arts` to
        their number of articles there, and its keys in insertion order. */
    static method TallyAuthors(arts: seq<Article>) returns (counts: map<Author, nat>, order: seq<Author>)
      ensures IsTally(AuthorsOf(arts), counts, order)
    {
      ghost var authors := AuthorsOf(arts);
      counts := map[];
      order := [];
      var i := 0;
      while i < |arts|
        invariant 0 <= i <= |arts|
        invariant IsTally(authors[..i], counts, order)
      {
        var au := arts[i].author;
        assert authors[..i + 1] == authors[..i] + [au];
        TallyStep(authors[..i], counts, order, au);
        counts := counts[au := (if au in counts then counts[au] else 0) + 1];
        if au !in order {
          order := order + [au];
        }
        i := i + 1;
      }
      assert authors[..i] == authors;
    }

    /** The authors of `arts` with more than two articles there, each once, in the
        insertion order of the tally, which is the order of their first article. */
    static method FrequentAuthors(arts: seq<Article>) returns (result: seq<Author>)
      ensures NoDups(result)
      ensures IsSubsequence(result, Dedup(AuthorsOf(arts)))
      ensures forall au: Author :: au in result <==> multiset(AuthorsOf(arts))[au] > 2
    {
      var counts, order := TallyAuthors(arts);
      result := Select(order, Exceeds(counts, order, 2), true);
      SelectAboveThreshold(AuthorsOf(arts), counts, order, 2);
    }

    /** `contributing_authors()`: the authors with more than two articles in this
        magazine, in the order in which they first appear among its articles; "no data"
        when there is no such author, in particular when the magazine has no articles. */
    method ContributingAuthors(reg: Registry) returns (r: Option<seq<Author>>)
      ensures |Articles(reg)| == 0 ==> r.None?
      ensures r.None? <==> forall au: Author :: |ArticlesBy(reg, au)| <= 2
      ensures r.Some? ==> NoDups(r.value)
      ensures r.Some? ==> forall au: Author :: au in r.value <==> |ArticlesBy(reg, au)| > 2
      ensures r.Some? ==> IsSubsequence(r.value, Dedup(AuthorsOf(Articles(reg))))
    {
      var arts := Articles(reg);
      if |arts| == 0 {
        assert AuthorsOf(arts) == [];
        return None;
      }
      var result := FrequentAuthors(arts);
      forall au: Author
        ensures au in result <==> |ArticlesBy(reg, au)| > 2
      {
      }
      if result == [] {
        r := None;
      } else {
        assert |ArticlesBy(reg, result[0])| > 2;
        r := Some(result);
      }
    }

    /** `top_publisher()`: "no data" exactly when no article is registered; otherwise
        the first registered magazine with the most articles. */
    static function TopPublisher(reg: Registry): (r: Option<Magazine>)
      requires reg.Valid()
      reads reg, reg.articles`magazine
      ensures r.None? <==> |reg.articles| == 0
      ensures r.Some? ==> r.value in reg.magazines
      ensures r.Some? ==> forall j :: 0 <= j < |reg.magazines| ==>
                |reg.magazines[j].Articles(reg)| <= |r.value.Articles(reg)|
      ensures r.Some? ==> forall j :: 0 <= j < |reg.magazines| && reg.magazines[j] != r.value ==>
                |reg.magazines[j].Articles(reg)| < |r.value.Articles(reg)| || r.value in reg.magazines[..j]
    {
      if |reg.articles| == 0 then None
      else
        assert reg.articles[0].magazine in reg.magazines;
        var i := FirstArgMax(ArticleCounts(reg, reg.magazines));
        Some(reg.magazines[i])
    }
  }
}
