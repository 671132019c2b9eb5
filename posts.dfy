/** The post routes: the paginated, searchable listing, lookup by id, and the three
    authenticated writes that keep the upload directory in step with `post.image`. */
module Posts {
  import opened Js
  import opened Models
  import opened Validators
  import opened Db
  import opened Sorting

  // ===========================================================================
  // Listing: GET /posts?page&limit&search&category
  // ===========================================================================

  /** The query-string parameters of the listing; `None` is an absent parameter. */
  datatype ListQuery = ListQuery(page: Option<string>, limit: Option<string>,
                                 search: Option<string>, category: Option<string>)

  const DefaultPage: int := 1
  const DefaultLimit: int := 10

  /** The number an optional parameter parses to (`parseInt(undefined)` is `NaN`). */
  function Parsed(v: Option<string>): Option<int>
  {
    if v.None? then None else ParseInt(v.value)
  }

  /** `parseInt(v) || fallback`: an absent value, `NaN` and `0` all give the fallback. */
  function IntOr(v: Option<string>, fallback: int): (r: int)
    ensures Parsed(v).None? || Parsed(v) == Some(0) ==> r == fallback
    ensures Parsed(v).Some? && Parsed(v) != Some(0) ==> r == Parsed(v).value
    ensures fallback != 0 ==> r != 0
  {
    var n := Parsed(v);
    if n.None? || n.value == 0 then fallback else n.value
  }

  /** The route lets a negative `page` or `limit` through to the store, whose handling
      of a negative skip or limit is not part of this model. */
  predicate NonNegativePaging(q: ListQuery)
  {
    IntOr(q.page, DefaultPage) >= 0 && IntOr(q.limit, DefaultLimit) >= 0
  }

  datatype Paging = Paging(page: nat, limit: nat, skip: nat)

  /** The first position of page `page` when pages hold `limit` posts. */
  function PageStart(page: nat, limit: nat): nat
    requires page >= 1
  {
    MulNat(page - 1, limit)
  }

  function MulNat(a: nat, b: nat): (r: nat)
  {
    a * b
  }

  /** Multiplication by a natural number is monotone. */
  lemma {:induction false} MulMonotone(a: nat, b: nat, l: nat)
    requires a <= b
    ensures MulNat(a, l) <= MulNat(b, l)
  {
    if l > 0 {
      MulMonotone(a, b, l - 1);
      assert MulNat(a, l) == MulNat(a, l - 1) + a;
      assert MulNat(b, l) == MulNat(b, l - 1) + b;
    }
  }

  /** Page `k + 1` starts right after the `limit` posts of page `k`. */
  lemma NextPageStart(k: nat, l: nat)
    requires k >= 1
    ensures PageStart(k + 1, l) == PageStart(k, l) + l
  {
    assert MulNat(k, l) == MulNat(k - 1, l) + l;
  }

  /** Page, limit and skip as the route computes them. */
  function PagingOf(q: ListQuery): (r: Paging)
    requires NonNegativePaging(q)
    ensures r.page >= 1 && r.limit >= 1
    ensures r.page == IntOr(q.page, DefaultPage) && r.limit == IntOr(q.limit, DefaultLimit)
    ensures r.skip == PageStart(r.page, r.limit)
  {
    var page: nat := IntOr(q.page, DefaultPage);
    var limit: nat := IntOr(q.limit, DefaultLimit);
    Paging(page, limit, PageStart(page, limit))
  }

  /** A client that sends `String(p)` and `String(l)` for positive `p` and `l` gets
      exactly that page and limit; absent parameters give page 1 of 10. */
  lemma PagingOfDecimal(q: ListQuery, p: nat, l: nat)
    requires p >= 1 && l >= 1
    requires q.page == Some(NatToDecimal(p)) && q.limit == Some(NatToDecimal(l))
    ensures NonNegativePaging(q)
    ensures PagingOf(q) == Paging(p, l, PageStart(p, l))
  {
    ParseIntOfDecimal(p);
    ParseIntOfDecimal(l);
  }

  /** Without `page` and `limit` the listing is the first ten posts. */
  lemma PagingDefaults(q: ListQuery)
    requires q.page.None? && q.limit.None?
    ensures NonNegativePaging(q) && PagingOf(q) == Paging(1, 10, 0)
  {
  }

  /** One clause of the `$or` array. */
  datatype Clause = TitleMatches(term: string) | ContentMatches(term: string)

  /** The query document the route builds: `or` is the `$or` array (empty when the key
      is absent) and `category` the exact-match key. */
  datatype PostQuery = PostQuery(or: seq<Clause>, category: Option<string>)

  /** Lines 18-31: a search adds a title-or-content case-insensitive clause pair, a
      category adds an exact match; both are ANDed by sitting in one document. */
  function BuildQuery(q: ListQuery): (r: PostQuery)
    ensures !Truthy(q.search) ==> r.or == []
    ensures Truthy(q.search) ==> forall p :: (p in r.or) == (p == TitleMatches(q.search.value) || p == ContentMatches(q.search.value))
    ensures r.category.Some? <==> Truthy(q.category)
  {
    PostQuery(
      if Truthy(q.search) then [TitleMatches(q.search.value), ContentMatches(q.search.value)] else [],
      if Truthy(q.category) then Some(q.category.value) else None)
  }

  predicate ClauseHolds(c: Clause, p: Post)
  {
    match c
    case TitleMatches(t) => ContainsIgnoringCase(p.title, t)
    case ContentMatches(t) => ContainsIgnoringCase(p.content, t)
  }

  /** The store's evaluation of a query document against one post. */
  predicate Satisfies(p: Post, query: PostQuery)
  {
    && (query.or != [] ==> exists c :: c in query.or && ClauseHolds(c, p))
    && (query.category.Some? ==> p.category == query.category.value)
  }

  /** The listing filter, stated condition by condition. */
  predicate MatchesListing(p: Post, q: ListQuery)
  {
    && (Truthy(q.search) ==>
          ContainsIgnoringCase(p.title, q.search.value) || ContainsIgnoringCase(p.content, q.search.value))
    && (Truthy(q.category) ==> p.category == q.category.value)
  }

  /** A post satisfies the built query exactly when every present condition holds;
      with no search and no category every post does. */
  lemma BuildQueryMeaning(p: Post, q: ListQuery)
    ensures Satisfies(p, BuildQuery(q)) <==> MatchesListing(p, q)
    ensures !Truthy(q.search) && !Truthy(q.category) ==> Satisfies(p, BuildQuery(q))
  {
    if Truthy(q.search) {
      var t := q.search.value;
      assert ClauseHolds(TitleMatches(t), p) <==> ContainsIgnoringCase(p.title, t);
      assert ClauseHolds(ContentMatches(t), p) <==> ContainsIgnoringCase(p.content, t);
      assert BuildQuery(q).or == [TitleMatches(t), ContentMatches(t)];
    }
  }

  /** `find(query)` and `countDocuments(query)`: the posts satisfying the query, in
      natural order. */
  function Select(posts: seq<Post>, query: PostQuery): (r: seq<Post>)
    ensures forall p :: p in r <==> p in posts && Satisfies(p, query)
    ensures multiset(r) <= multiset(posts)
  {
    if posts == [] then []
    else
      assert posts == [posts[0]] + posts[1..];
      var rest := Select(posts[1..], query);
      if Satisfies(posts[0], query) then [posts[0]] + rest else rest
  }

  lemma {:induction false} SelectKeepsDistinct(posts: seq<Post>, query: PostQuery)
    requires NoDuplicates(posts)
    ensures NoDuplicates(Select(posts, query))
  {
    if posts != [] {
      assert NoDuplicates(posts[1..]) by {
        forall i, j | 0 <= i < j < |posts[1..]| ensures posts[1..][i] != posts[1..][j] {
          assert posts[1..][i] == posts[i + 1] && posts[1..][j] == posts[j + 1];
        }
      }
      SelectKeepsDistinct(posts[1..], query);
      var rest := Select(posts[1..], query);
      if Satisfies(posts[0], query) {
        forall k | 0 <= k < |rest| ensures rest[k] != posts[0] {
          assert rest[k] in posts[1..];
          var m :| 0 <= m < |posts[1..]| && posts[1..][m] == rest[k];
          assert posts[m + 1] == rest[k];
        }
      }
    }
  }

  /** `{ createdAt: -1 }`: newest first. */
  predicate NewerOrSame(a: Post, b: Post)
  {
    a.createdAt >= b.createdAt
  }

  lemma NewerOrSameOrders()
    ensures TotalPreorder(NewerOrSame)
  {
  }

  /** The posts a listing query selects, newest first, before skip and limit: a
      permutation of the selection, ordered by `createdAt` descending. */
  function Ordered(posts: seq<Post>, q: ListQuery): (r: seq<Post>)
    ensures multiset(r) == multiset(Select(posts, BuildQuery(q)))
    ensures SortedBy(r, NewerOrSame)
  {
    NewerOrSameOrders();
    SortBySorted(Select(posts, BuildQuery(q)), NewerOrSame);
    SortBy(Select(posts, BuildQuery(q)), NewerOrSame)
  }

  function Min(a: int, b: int): int { if a <= b then a else b }

  /** `.skip(skip).limit(limit)` on an ordered result. */
  function Window(s: seq<Post>, skip: nat, limit: nat): (r: seq<Post>)
    ensures |r| <= limit
    ensures forall k :: 0 <= k < |r| ==> skip + k < |s| && r[k] == s[skip + k]
    ensures skip + limit <= |s| ==> |r| == limit
    ensures |r| == if skip >= |s| then 0 else Min(limit, |s| - skip)
  {
    s[Min(skip, |s|)..Min(skip + limit, |s|)]
  }

  /** `Math.ceil(n / d)` for a natural count and a positive divisor. */
  function CeilDiv(n: nat, d: nat): (r: nat)
    requires d >= 1
    ensures n == 0 ==> r == 0
    ensures n > 0 ==> (r - 1) * d < n <= r * d
  {
    (n + d - 1) / d
  }

  /** The listing's JSON body. */
  datatype PostPage = PostPage(posts: seq<Post>, currentPage: int, totalPages: int, totalPosts: nat)

  /** The ordered listing holds exactly the matching posts, and as many as the count. */
  lemma OrderedMeaning(posts: seq<Post>, q: ListQuery)
    ensures forall p :: p in Ordered(posts, q) <==> p in posts && MatchesListing(p, q)
    ensures |Ordered(posts, q)| == |Select(posts, BuildQuery(q))|
  {
    var found := Select(posts, BuildQuery(q));
    forall p ensures p in Ordered(posts, q) <==> p in posts && MatchesListing(p, q) {
      assert p in Ordered(posts, q) <==> p in multiset(Ordered(posts, q));
      assert p in found <==> p in multiset(found);
      BuildQueryMeaning(p, q);
    }
    assert |multiset(Ordered(posts, q))| == |multiset(found)|;
  }

  /** GET /posts: count the matching posts, then return one newest-first page of them. */
  function ListPosts(posts: seq<Post>, q: ListQuery): (r: PostPage)
    requires NonNegativePaging(q)
    ensures r.currentPage == PagingOf(q).page
    ensures r.totalPosts == |Ordered(posts, q)|
    ensures r.totalPages == CeilDiv(r.totalPosts, PagingOf(q).limit)
    ensures r.posts == Window(Ordered(posts, q), PagingOf(q).skip, PagingOf(q).limit)
    ensures |r.posts| <= PagingOf(q).limit
    ensures forall p :: p in r.posts ==> p in posts && MatchesListing(p, q)
    ensures SortedBy(r.posts, NewerOrSame)
  {
    var paging := PagingOf(q);
    var query := BuildQuery(q);
    var total := |Select(posts, query)|;
    var found := SortBy(Select(posts, query), NewerOrSame);
    var page := Window(found, paging.skip, paging.limit);
    OrderedMeaning(posts, q);
    PostPage(page, paging.page, CeilDiv(total, paging.limit), total)
  }

  /** The listing of page `k` in the client's rendering of `k`. */
  function PageK(posts: seq<Post>, q: ListQuery, k: nat): PostPage
    requires k >= 1 && NonNegativePaging(q)
  {
    ParseIntOfDecimal(k);
    ListPosts(posts, q.(page := Some(NatToDecimal(k))))
  }

  lemma PageKWindow(posts: seq<Post>, q: ListQuery, k: nat)
    requires k >= 1 && NonNegativePaging(q)
    ensures NonNegativePaging(q.(page := Some(NatToDecimal(k))))
    ensures PagingOf(q.(page := Some(NatToDecimal(k)))).limit == PagingOf(q).limit
    ensures PageK(posts, q, k).posts == Window(Ordered(posts, q), PageStart(k, PagingOf(q).limit), PagingOf(q).limit)
    ensures PageK(posts, q, k).totalPages == CeilDiv(|Ordered(posts, q)|, PagingOf(q).limit)
  {
    ParseIntOfDecimal(k);
    var q' := q.(page := Some(NatToDecimal(k)));
    assert BuildQuery(q') == BuildQuery(q);
    assert Ordered(posts, q') == Ordered(posts, q);
  }

  /** The ordered listing of a store whose posts are distinct holds no post twice. */
  lemma OrderedDistinct(posts: seq<Post>, q: ListQuery)
    requires DistinctIds(posts, PostId)
    ensures NoDuplicates(Ordered(posts, q))
  {
    assert NoDuplicates(posts) by {
      forall i, j | 0 <= i < j < |posts| ensures posts[i] != posts[j] {
        assert PostId(posts[i]) != PostId(posts[j]);
      }
    }
    SelectKeepsDistinct(posts, BuildQuery(q));
    PermutationNoDuplicates(Select(posts, BuildQuery(q)), Ordered(posts, q));
  }

  /** Positions on two different pages differ. */
  lemma {:induction false} PositionsDiffer(k1: nat, k2: nat, l: nat, a: nat, b: nat)
    requires 1 <= k1 < k2 && a < l && b < l
    ensures PageStart(k1, l) + a < PageStart(k2, l) + b
  {
    NextPageStart(k1, l);
    MulMonotone(k1, k2 - 1, l);
  }

  /** The page holding position `i` when pages hold `l` posts. */
  lemma PageOfPosition(i: nat, l: nat) returns (k: nat)
    requires l >= 1
    ensures k >= 1 && PageStart(k, l) <= i < PageStart(k, l) + l
  {
    k := i / l + 1;
    assert MulNat(k - 1, l) == (i / l) * l;
  }

  /** A position before `n` lies on a page no later than `CeilDiv(n, l)`. */
  lemma PageWithinTotal(i: nat, n: nat, l: nat, k: nat)
    requires l >= 1 && k >= 1 && i < n && PageStart(k, l) <= i
    ensures k <= CeilDiv(n, l)
  {
    var r := CeilDiv(n, l);
    assert n <= r * l;
    assert MulNat(r, l) == r * l;
    if r < k {
      MulMonotone(r, k - 1, l);
      assert false;
    }
  }

  /** Page `k` of `s` when pages hold `l` elements. */
  function PageOf(s: seq<Post>, k: nat, l: nat): seq<Post>
    requires k >= 1
  {
    Window(s, PageStart(k, l), l)
  }

  /** Two different pages of a sequence without duplicates share no element. */
  lemma WindowsDisjoint(s: seq<Post>, l: nat, k1: nat, k2: nat)
    requires NoDuplicates(s) && 1 <= k1 && 1 <= k2 && k1 != k2
    ensures forall p :: p in PageOf(s, k1, l) ==> p !in PageOf(s, k2, l)
  {
    var w1, w2 := PageOf(s, k1, l), PageOf(s, k2, l);
    forall p | p in w1 ensures p !in w2 {
      var a :| 0 <= a < |w1| && w1[a] == p;
      forall b | 0 <= b < |w2| ensures w2[b] != p {
        EntriesDiffer(s, l, k1, k2, a, b);
      }
    }
  }

  /** Entry `a` of page `k1` and entry `b` of page `k2` sit at different positions. */
  lemma EntriesDiffer(s: seq<Post>, l: nat, k1: nat, k2: nat, a: nat, b: nat)
    requires NoDuplicates(s) && 1 <= k1 && 1 <= k2 && k1 != k2
    requires a < |PageOf(s, k1, l)| && b < |PageOf(s, k2, l)|
    ensures PageOf(s, k1, l)[a] != PageOf(s, k2, l)[b]
  {
    var x, y := PageStart(k1, l) + a, PageStart(k2, l) + b;
    assert PageOf(s, k1, l)[a] == s[x] && PageOf(s, k2, l)[b] == s[y];
    if k1 < k2 { PositionsDiffer(k1, k2, l, a, b); } else { PositionsDiffer(k2, k1, l, b, a); }
    assert x != y;
  }

  /** Every element of `s` is on a page between 1 and `CeilDiv(|s|, l)`. */
  lemma WindowsCover(s: seq<Post>, l: nat, i: nat) returns (k: nat)
    requires l >= 1 && i < |s|
    ensures 1 <= k <= CeilDiv(|s|, l) && s[i] in PageOf(s, k, l)
  {
    k := PageOfPosition(i, l);
    PageWithinTotal(i, |s|, l, k);
    var start := PageStart(k, l);
    var w := PageOf(s, k, l);
    assert w == s[start..Min(start + l, |s|)];
    assert w[i - start] == s[i];
  }

  /** For a fixed store, two different pages of one query share no post. */
  lemma PagesDisjoint(posts: seq<Post>, q: ListQuery, k1: nat, k2: nat)
    requires DistinctIds(posts, PostId)
    requires NonNegativePaging(q) && 1 <= k1 && 1 <= k2 && k1 != k2
    ensures forall p :: p in PageK(posts, q, k1).posts ==> p !in PageK(posts, q, k2).posts
  {
    var s, l := Ordered(posts, q), PagingOf(q).limit;
    PageKWindow(posts, q, k1);
    PageKWindow(posts, q, k2);
    assert PageK(posts, q, k1).posts == PageOf(s, k1, l);
    assert PageK(posts, q, k2).posts == PageOf(s, k2, l);
    OrderedDistinct(posts, q);
    WindowsDisjoint(s, l, k1, k2);
  }

  /** Every matching post is on some page between 1 and `totalPages`: together with
      `PagesDisjoint`, the pages partition the matching posts. */
  lemma PagesCover(posts: seq<Post>, q: ListQuery, p: Post) returns (k: nat)
    requires NonNegativePaging(q) && p in posts && MatchesListing(p, q)
    ensures 1 <= k <= PageK(posts, q, k).totalPages
    ensures p in PageK(posts, q, k).posts
  {
    BuildQueryMeaning(p, q);
    var s := Ordered(posts, q);
    assert p in multiset(Select(posts, BuildQuery(q)));
    assert p in multiset(s);
    var i :| 0 <= i < |s| && s[i] == p;
    k := WindowsCover(s, PagingOf(q).limit, i);
    PageKWindow(posts, q, k);
  }

  /** The database sorts on `createdAt` alone, so two requests may each see the matching
      posts in any newest-first order. When timestamps are distinct, page `k` of either
      order is the listing's page `k`, and two different pages share no post. */
  lemma PagesDisjointAcrossRequests(posts: seq<Post>, q: ListQuery, db1: seq<Post>, db2: seq<Post>,
                                    k1: nat, k2: nat)
    requires DistinctIds(posts, PostId) && NonNegativePaging(q)
    requires 1 <= k1 && 1 <= k2 && k1 != k2
    requires multiset(db1) == multiset(Select(posts, BuildQuery(q))) && StrictlyNewestFirst(db1)
    requires multiset(db2) == multiset(Select(posts, BuildQuery(q))) && SortedBy(db2, NewerOrSame)
    ensures PageOf(db1, k1, PagingOf(q).limit) == PageK(posts, q, k1).posts
    ensures PageOf(db2, k2, PagingOf(q).limit) == PageK(posts, q, k2).posts
    ensures forall p :: p in PageOf(db1, k1, PagingOf(q).limit) ==> p !in PageOf(db2, k2, PagingOf(q).limit)
  {
    ListingOrderIsCanonical(posts, q, db1);
    NewestFirstIsUnique(db1, db2);
    PageKWindow(posts, q, k1);
    PageKWindow(posts, q, k2);
    PagesDisjoint(posts, q, k1, k2);
  }

  /** Newest-first with no two equal timestamps. */
  ghost predicate StrictlyNewestFirst(s: seq<Post>)
  {
    forall i, j :: 0 <= i < j < |s| ==> s[i].createdAt > s[j].createdAt
  }

  /** When timestamps are distinct, newest-first fixes the order: any newest-first
      arrangement of the matching posts is the listing's, so the pages do not depend on
      how the store breaks ties. */
  lemma NewestFirstIsUnique(a: seq<Post>, b: seq<Post>)
    requires multiset(a) == multiset(b)
    requires StrictlyNewestFirst(a) && SortedBy(b, NewerOrSame)
    ensures a == b
  {
    assert StrictlySortedBy(a, NewerOrSame);
    SortedIsUnique(a, b, NewerOrSame);
  }

  /** Under distinct timestamps the listing order is the only newest-first order. */
  lemma ListingOrderIsCanonical(posts: seq<Post>, q: ListQuery, other: seq<Post>)
    requires StrictlyNewestFirst(other)
    requires multiset(other) == multiset(Select(posts, BuildQuery(q)))
    ensures Ordered(posts, q) == other
  {
    NewestFirstIsUnique(other, Ordered(posts, q));
  }

  /** `?search=…&page=2&limit=1` over three matching posts returns the second newest
      of them and three pages. */
  lemma SecondOfThree(posts: seq<Post>, q: ListQuery)
    requires q.page == Some("2") && q.limit == Some("1")
    requires |Ordered(posts, q)| == 3
    ensures NonNegativePaging(q)
    ensures ListPosts(posts, q).posts == [Ordered(posts, q)[1]]
    ensures ListPosts(posts, q).totalPages == 3 && ListPosts(posts, q).totalPosts == 3
  {
    assert NatToDecimal(2) == "2" && NatToDecimal(1) == "1";
    PagingOfDecimal(q, 2, 1);
  }

  // ===========================================================================
  // GET /posts/:id
  // ===========================================================================

  /** The post with the given id, or 404. */
  function GetPost(posts: seq<Post>, id: Id): (r: Response<Post>)
    ensures r.Ok? <==> exists k :: 0 <= k < |posts| && posts[k].id == id
    ensures r.Ok? ==> r.status == 200 && r.body in posts && r.body.id == id
    ensures !r.Ok? ==> r == Refused(404, "Post not found")
  {
    match IndexOf(posts, PostId, id)
    case None => Refused(404, "Post not found")
    case Some(i) => Ok(200, posts[i])
  }

  // ===========================================================================
  // Images: `post.image` and the upload directory
  // ===========================================================================

  const UploadsPrefix: string := "/uploads/"

  /** `req.file ? '/uploads/' + req.file.filename : null`: the public path of an upload
      resolves back to that upload, and `null` to nothing. */
  function ImageOf(upload: Option<FileName>): (r: Option<string>)
    ensures StoredFile(r) == upload
  {
    match upload
    case None => None
    case Some(f) =>
      var img := UploadsPrefix + f;
      assert img[..|UploadsPrefix|] == UploadsPrefix && img[|UploadsPrefix|..] == f;
      Some(img)
  }

  /** The file on disk a truthy `post.image` resolves to (`path.join(__dirname, '..',
      image)`); an image outside `/uploads/` names no file of the upload directory. */
  function StoredFile(image: Option<string>): (r: Option<FileName>)
    ensures r.Some? ==> image == Some(UploadsPrefix + r.value)
  {
    if Truthy(image) && |image.value| >= |UploadsPrefix| && image.value[..|UploadsPrefix|] == UploadsPrefix
    then
      assert image.value == image.value[..|UploadsPrefix|] + image.value[|UploadsPrefix|..];
      Some(image.value[|UploadsPrefix|..])
    else None
  }

  /** The file names of an optional file. */
  function FilesOf(f: Option<FileName>): set<FileName>
  {
    if f.Some? then {f.value} else {}
  }

  /** Every image a post references is on disk. */
  ghost predicate ImagesOnDisk(posts: seq<Post>, files: set<FileName>)
  {
    forall p :: p in posts && StoredFile(p.image).Some? ==> StoredFile(p.image).value in files
  }

  /** No two posts reference the same file. */
  ghost predicate ImagesDistinct(posts: seq<Post>)
  {
    forall i, j :: 0 <= i < j < |posts| && StoredFile(posts[i].image).Some? ==>
      StoredFile(posts[i].image) != StoredFile(posts[j].image)
  }

  /** What the upload middleware guarantees of `req.file`: a newly written file that
      no post references yet. */
  ghost predicate FreshUpload(posts: seq<Post>, files: set<FileName>, upload: Option<FileName>)
  {
    upload.Some? ==> upload.value in files && forall p :: p in posts ==> StoredFile(p.image) != upload
  }

  /** `if (req.file) fs.unlinkSync(req.file.path)` */
  method DiscardUpload(disk: UploadDir, upload: Option<FileName>)
    requires upload.Some? ==> upload.value in disk.files
    modifies disk
    ensures disk.files == old(disk.files) - FilesOf(upload)
  {
    if upload.Some? {
      disk.files := disk.files - {upload.value};
    }
  }

  /** `if (post.image && fs.existsSync(path)) fs.unlinkSync(path)`: a missing file is
      not an error. */
  method RemoveImage(disk: UploadDir, image: Option<string>)
    modifies disk
    ensures disk.files == old(disk.files) - FilesOf(StoredFile(image))
  {
    var file := StoredFile(image);
    if file.Some? && file.value in disk.files {
      disk.files := disk.files - {file.value};
    }
  }

  // ===========================================================================
  // POST /posts
  // ===========================================================================

  /** The document `Post.create` stores: fields from the payload, the author from the
      requester and the image from the upload. */
  function NewPost(id: Id, body: PostPayload, requester: Id, upload: Option<FileName>, now: int): (r: Post)
    requires PostValidator(body).None?
    ensures r.author == requester && StoredFile(r.image) == upload
    ensures r.title != "" && |r.title| <= TitleMax && r.content != "" && r.category != ""
  {
    Post(id, body.title.value, body.content.value, body.category.value, requester, ImageOf(upload), now)
  }

  /** A field named `author` in the payload is refused, so the author can only come
      from the requester. */
  lemma AuthorNeverFromBody(body: PostPayload)
    requires "author" in body.others
    ensures PostValidator(body).Some?
  {
  }

  method CreatePost(store: Store, disk: UploadDir, requester: Id, body: PostPayload,
                    upload: Option<FileName>, newId: Id, now: int, fault: Fault)
    returns (r: Response<Post>)
    requires store.Valid()
    requires FreshUpload(store.posts, disk.files, upload)
    requires IndexOf(store.posts, PostId, newId).None?
    modifies store, disk
    ensures store.Valid()
    ensures store.users == old(store.users) && store.comments == old(store.comments)
    ensures store.categories == old(store.categories)
    // invalid payload: 400 with the first error, the upload deleted, nothing stored
    ensures PostValidator(body).Some? ==>
      && r == Refused(400, Message(PostValidator(body).value))
      && store.posts == old(store.posts)
      && disk.files == old(disk.files) - FilesOf(upload)
    // Post.create throws: the upload is deleted
    ensures PostValidator(body).None? && fault == FailWrite ==>
      && r == ServerError
      && store.posts == old(store.posts)
      && disk.files == old(disk.files) - FilesOf(upload)
    // stored; a failing re-query still deletes the file the new post references
    ensures PostValidator(body).None? && fault != FailWrite ==>
      && store.posts == old(store.posts) + [NewPost(newId, body, requester, upload, now)]
      && (fault == FailRequery ==> r == ServerError && disk.files == old(disk.files) - FilesOf(upload))
      && (fault != FailRequery ==> r == Ok(201, NewPost(newId, body, requester, upload, now))
                                   && disk.files == old(disk.files))
    ensures r.Ok? ==> r.body.author == requester && r.body.image == ImageOf(upload)
    ensures fault != FailRequery && ImagesOnDisk(old(store.posts), old(disk.files))
            && ImagesDistinct(old(store.posts))
      ==> ImagesOnDisk(store.posts, disk.files) && ImagesDistinct(store.posts)
    ensures fault == FailRequery && PostValidator(body).None? && upload.Some?
      ==> !ImagesOnDisk(store.posts, disk.files)
  {
    var error := PostValidator(body);
    if error.Some? {
      DiscardUpload(disk, upload);
      return Refused(400, Message(error.value));
    }
    if fault == FailWrite {
      DiscardUpload(disk, upload);
      return ServerError;
    }
    var post := NewPost(newId, body, requester, upload, now);
    AppendKeepsDistinct(store.posts, PostId, post);
    store.posts := store.posts + [post];
    if fault == FailRequery {
      DiscardUpload(disk, upload);
      assert post in store.posts;
      return ServerError;
    }
    r := Ok(201, post);
  }

  // ===========================================================================
  // PUT /posts/:id
  // ===========================================================================

  /** Lines 148-153: each text field takes the new value only when it is truthy, and
      the image changes only when a file was uploaded. The update keeps the id, the
      author and the creation time, and a post validated for the update takes every
      text field from the payload (the validator requires all three non-empty, so the
      `||` fallbacks never apply after it). */
  function Updated(post: Post, body: PostPayload, upload: Option<FileName>): (r: Post)
    ensures r.id == post.id && r.author == post.author && r.createdAt == post.createdAt
    ensures upload.None? ==> r.image == post.image
    ensures upload.Some? ==> StoredFile(r.image) == upload
    ensures PostValidator(body).None? ==>
      r.title == body.title.value && r.content == body.content.value && r.category == body.category.value
  {
    post.(title := Or(body.title, post.title),
          content := Or(body.content, post.content),
          category := Or(body.category, post.category),
          image := if upload.Some? then ImageOf(upload) else post.image)
  }

  /** The post names a file of the upload directory that is on disk. */
  predicate ImageStored(post: Post, files: set<FileName>)
  {
    StoredFile(post.image).Some? && StoredFile(post.image).value in files
  }

  /** Whether an update of post `id` by `requester` gets past every refusal. */
  predicate UpdateAllowed(posts: seq<Post>, requester: Id, id: Id, body: PostPayload)
  {
    && IndexOf(posts, PostId, id).Some?
    && posts[IndexOf(posts, PostId, id).value].author == requester
    && PostValidator(body).None?
  }

  method UpdatePost(store: Store, disk: UploadDir, requester: Id, id: Id, body: PostPayload,
                    upload: Option<FileName>, fault: Fault)
    returns (r: Response<Post>)
    requires store.Valid()
    requires FreshUpload(store.posts, disk.files, upload)
    modifies store, disk
    ensures store.Valid()
    ensures store.users == old(store.users) && store.comments == old(store.comments)
    ensures store.categories == old(store.categories)
    // refusals: the upload is deleted, the post and its image are untouched
    ensures fault == FailLoad ==>
      r == ServerError && store.posts == old(store.posts) && disk.files == old(disk.files) - FilesOf(upload)
    ensures fault != FailLoad && IndexOf(old(store.posts), PostId, id).None? ==>
      && r == Refused(404, "Post not found")
      && store.posts == old(store.posts) && disk.files == old(disk.files) - FilesOf(upload)
    ensures fault != FailLoad && IndexOf(old(store.posts), PostId, id).Some?
            && old(store.posts)[IndexOf(old(store.posts), PostId, id).value].author != requester ==>
      && r == Refused(403, "Not authorized to update this post")
      && store.posts == old(store.posts) && disk.files == old(disk.files) - FilesOf(upload)
    ensures fault != FailLoad && IndexOf(old(store.posts), PostId, id).Some?
            && old(store.posts)[IndexOf(old(store.posts), PostId, id).value].author == requester
            && PostValidator(body).Some? ==>
      && r == Refused(400, Message(PostValidator(body).value))
      && store.posts == old(store.posts) && disk.files == old(disk.files) - FilesOf(upload)
    // past the refusals: with an upload the old image goes first, then the save
    ensures fault != FailLoad && UpdateAllowed(old(store.posts), requester, id, body) ==>
      var i := IndexOf(old(store.posts), PostId, id).value;
      var post := old(store.posts)[i];
      var oldImage := if upload.Some? then FilesOf(StoredFile(post.image)) else {};
      && (fault == FailWrite ==>
            && r == ServerError && store.posts == old(store.posts)
            && disk.files == old(disk.files) - oldImage - FilesOf(upload))
      && (fault != FailWrite ==> store.posts == old(store.posts)[i := Updated(post, body, upload)])
      && (fault == FailRequery ==> r == ServerError && disk.files == old(disk.files) - oldImage - FilesOf(upload))
      && (fault != FailWrite && fault != FailRequery ==>
            r == Ok(200, Updated(post, body, upload)) && disk.files == old(disk.files) - oldImage)
    ensures r.Ok? ==> r.body.author == requester && r.body.id == id
    ensures fault != FailWrite && fault != FailRequery
            && ImagesOnDisk(old(store.posts), old(disk.files)) && ImagesDistinct(old(store.posts))
      ==> ImagesOnDisk(store.posts, disk.files) && ImagesDistinct(store.posts)
    // as written: a failing save has already deleted the old image the post still names
    ensures fault == FailWrite && UpdateAllowed(old(store.posts), requester, id, body) && upload.Some?
            && ImageStored(old(store.posts)[IndexOf(old(store.posts), PostId, id).value], old(disk.files))
      ==> !ImagesOnDisk(store.posts, disk.files)
  {
    if fault == FailLoad {
      DiscardUpload(disk, upload);
      return ServerError;
    }
    var found := IndexOf(store.posts, PostId, id);
    if found.None? {
      DiscardUpload(disk, upload);
      return Refused(404, "Post not found");
    }
    var i := found.value;
    var post := store.posts[i];
    if post.author != requester {
      DiscardUpload(disk, upload);
      return Refused(403, "Not authorized to update this post");
    }
    var error := PostValidator(body);
    if error.Some? {
      DiscardUpload(disk, upload);
      return Refused(400, Message(error.value));
    }
    r := ReplacePostAt(store, disk, i, body, upload, fault);
  }

  /** Lines 139-161, once the checks have passed: with an upload the old image file goes
      first, then the save and the re-read; a failure after the unlink still deletes the
      upload. */
  method ReplacePostAt(store: Store, disk: UploadDir, i: nat, body: PostPayload,
                       upload: Option<FileName>, fault: Fault)
    returns (r: Response<Post>)
    requires store.Valid() && i < |store.posts|
    requires FreshUpload(store.posts, disk.files, upload)
    modifies store, disk
    ensures store.Valid()
    ensures store.users == old(store.users) && store.comments == old(store.comments)
    ensures store.categories == old(store.categories)
    ensures
      var post := old(store.posts)[i];
      var oldImage := if upload.Some? then FilesOf(StoredFile(post.image)) else {};
      && (fault == FailWrite ==>
            && r == ServerError && store.posts == old(store.posts)
            && disk.files == old(disk.files) - oldImage - FilesOf(upload))
      && (fault != FailWrite ==> store.posts == old(store.posts)[i := Updated(post, body, upload)])
      && (fault == FailRequery ==> r == ServerError && disk.files == old(disk.files) - oldImage - FilesOf(upload))
      && (fault != FailWrite && fault != FailRequery ==>
            r == Ok(200, Updated(post, body, upload)) && disk.files == old(disk.files) - oldImage)
    ensures fault != FailWrite && fault != FailRequery
            && ImagesOnDisk(old(store.posts), old(disk.files)) && ImagesDistinct(old(store.posts))
      ==> ImagesOnDisk(store.posts, disk.files) && ImagesDistinct(store.posts)
  {
    ghost var posts0, files0 := store.posts, disk.files;
    var post := store.posts[i];
    if upload.Some? {
      RemoveImage(disk, post.image);
    }
    var updated := Updated(post, body, upload);
    if fault == FailWrite {
      DiscardUpload(disk, upload);
      return ServerError;
    }
    ReplaceKeepsDistinct(store.posts, PostId, i, updated);
    store.posts := store.posts[i := updated];
    if fault == FailRequery {
      DiscardUpload(disk, upload);
      return ServerError;
    }
    UpdateKeepsImages(posts0, files0, i, body, upload, disk.files);
    r := Ok(200, updated);
  }

  /** A successful update keeps every image on disk and distinct: the replaced image
      belonged to this post alone, and the upload was on disk and unreferenced. */
  lemma UpdateKeepsImages(posts: seq<Post>, files: set<FileName>, i: nat, body: PostPayload,
                          upload: Option<FileName>, files': set<FileName>)
    requires i < |posts| && FreshUpload(posts, files, upload)
    requires files' == files - (if upload.Some? then FilesOf(StoredFile(posts[i].image)) else {})
    ensures ImagesOnDisk(posts, files) && ImagesDistinct(posts) ==>
      var posts' := posts[i := Updated(posts[i], body, upload)];
      ImagesOnDisk(posts', files') && ImagesDistinct(posts')
  {
    var posts' := posts[i := Updated(posts[i], body, upload)];
    if ImagesOnDisk(posts, files) && ImagesDistinct(posts) {
      forall p | p in posts' && StoredFile(p.image).Some? ensures StoredFile(p.image).value in files' {
        var k :| 0 <= k < |posts'| && posts'[k] == p;
        if k != i {
          assert posts[k] == p;
          if upload.Some? && StoredFile(posts[i].image).Some? {
            assert StoredFile(posts[i].image) != StoredFile(posts[k].image) by {
              if i < k {} else {}
            }
          }
        }
      }
      forall a, b | 0 <= a < b < |posts'| && StoredFile(posts'[a].image).Some?
        ensures StoredFile(posts'[a].image) != StoredFile(posts'[b].image)
      {
        if a != i && b != i {
          assert posts'[a] == posts[a] && posts'[b] == posts[b];
        } else if a == i {
          assert posts'[b] == posts[b] && posts[b] in posts;
        } else {
          assert posts'[a] == posts[a] && posts[a] in posts;
        }
      }
    }
  }

  // ===========================================================================
  // DELETE /posts/:id
  // ===========================================================================

  method DeletePost(store: Store, disk: UploadDir, requester: Id, id: Id, fault: Fault)
    returns (r: Response<string>)
    requires store.Valid()
    modifies store, disk
    ensures store.Valid()
    ensures store.users == old(store.users) && store.categories == old(store.categories)
    // the post's comments are left in place
    ensures store.comments == old(store.comments)
    ensures fault == FailLoad ==>
      r == ServerError && store.posts == old(store.posts) && disk.files == old(disk.files)
    ensures fault != FailLoad && IndexOf(old(store.posts), PostId, id).None? ==>
      r == Refused(404, "Post not found") && store.posts == old(store.posts) && disk.files == old(disk.files)
    ensures fault != FailLoad && IndexOf(old(store.posts), PostId, id).Some?
            && old(store.posts)[IndexOf(old(store.posts), PostId, id).value].author != requester ==>
      && r == Refused(403, "Not authorized to delete this post")
      && store.posts == old(store.posts) && disk.files == old(disk.files)
    ensures fault != FailLoad && IndexOf(old(store.posts), PostId, id).Some?
            && old(store.posts)[IndexOf(old(store.posts), PostId, id).value].author == requester ==>
      var i := IndexOf(old(store.posts), PostId, id).value;
      && disk.files == old(disk.files) - FilesOf(StoredFile(old(store.posts)[i].image))
      && (fault == FailWrite ==> r == ServerError && store.posts == old(store.posts))
      && (fault != FailWrite ==>
            && r == Ok(200, "Post deleted successfully")
            && store.posts == old(store.posts)[..i] + old(store.posts)[i + 1..]
            && (forall p :: p in store.posts <==> p in old(store.posts) && p.id != id))
    ensures fault != FailWrite && ImagesOnDisk(old(store.posts), old(disk.files))
            && ImagesDistinct(old(store.posts))
      ==> ImagesOnDisk(store.posts, disk.files) && ImagesDistinct(store.posts)
  {
    if fault == FailLoad {
      return ServerError;
    }
    var found := IndexOf(store.posts, PostId, id);
    if found.None? {
      return Refused(404, "Post not found");
    }
    var i := found.value;
    var post := store.posts[i];
    if post.author != requester {
      return Refused(403, "Not authorized to delete this post");
    }
    r := RemovePostAt(store, disk, i, fault);
  }

  /** Lines 184-194, once the checks have passed: the image file goes first, then the
      record. */
  method RemovePostAt(store: Store, disk: UploadDir, i: nat, fault: Fault) returns (r: Response<string>)
    requires store.Valid() && i < |store.posts|
    modifies store, disk
    ensures store.Valid()
    ensures store.users == old(store.users) && store.categories == old(store.categories)
    ensures store.comments == old(store.comments)
    ensures disk.files == old(disk.files) - FilesOf(StoredFile(old(store.posts)[i].image))
    ensures fault == FailWrite ==> r == ServerError && store.posts == old(store.posts)
    ensures fault != FailWrite ==>
      && r == Ok(200, "Post deleted successfully")
      && store.posts == old(store.posts)[..i] + old(store.posts)[i + 1..]
      && (forall p :: p in store.posts <==> p in old(store.posts) && p.id != old(store.posts)[i].id)
    ensures fault != FailWrite && ImagesOnDisk(old(store.posts), old(disk.files))
            && ImagesDistinct(old(store.posts))
      ==> ImagesOnDisk(store.posts, disk.files) && ImagesDistinct(store.posts)
  {
    ghost var posts0, files0 := store.posts, disk.files;
    RemoveImage(disk, store.posts[i].image);
    if fault == FailWrite {
      return ServerError;
    }
    RemoveKeepsDistinct(store.posts, PostId, i);
    store.posts := store.posts[..i] + store.posts[i + 1..];
    DeleteKeepsImages(posts0, files0, i);
    forall p ensures p in store.posts <==> p in posts0 && p.id != posts0[i].id {
      if p in posts0 && p.id == posts0[i].id {
        var k :| 0 <= k < |posts0| && posts0[k] == p;
        assert PostId(posts0[k]) == PostId(posts0[i]);
        assert k == i;
      }
    }
    r := Ok(200, "Post deleted successfully");
  }

  /** Removing a post and its image keeps every other image on disk and distinct. */
  lemma DeleteKeepsImages(posts: seq<Post>, files: set<FileName>, i: nat)
    requires i < |posts|
    ensures ImagesOnDisk(posts, files) && ImagesDistinct(posts) ==>
      var posts' := posts[..i] + posts[i + 1..];
      ImagesOnDisk(posts', files - FilesOf(StoredFile(posts[i].image))) && ImagesDistinct(posts')
  {
    if ImagesOnDisk(posts, files) && ImagesDistinct(posts) {
      DeleteKeepsOnDisk(posts, files, i);
      DeleteKeepsDistinct(posts, i);
    }
  }

  lemma DeleteKeepsOnDisk(posts: seq<Post>, files: set<FileName>, i: nat)
    requires i < |posts| && ImagesOnDisk(posts, files) && ImagesDistinct(posts)
    ensures ImagesOnDisk(posts[..i] + posts[i + 1..], files - FilesOf(StoredFile(posts[i].image)))
  {
    var posts' := posts[..i] + posts[i + 1..];
    forall p | p in posts' && StoredFile(p.image).Some?
      ensures StoredFile(p.image).value !in FilesOf(StoredFile(posts[i].image))
    {
      var k :| 0 <= k < |posts'| && posts'[k] == p;
      var m := if k < i then k else k + 1;
      assert posts[m] == p && m != i;
    }
  }

  lemma DeleteKeepsDistinct(posts: seq<Post>, i: nat)
    requires i < |posts| && ImagesDistinct(posts)
    ensures ImagesDistinct(posts[..i] + posts[i + 1..])
  {
    var posts' := posts[..i] + posts[i + 1..];
    forall a, b | 0 <= a < b < |posts'| && StoredFile(posts'[a].image).Some?
      ensures StoredFile(posts'[a].image) != StoredFile(posts'[b].image)
    {
      var a', b' := if a < i then a else a + 1, if b < i then b else b + 1;
      assert posts'[a] == posts[a'] && posts'[b] == posts[b'] && a' < b';
    }
  }

  // ===========================================================================
  // Request sequences
  // ===========================================================================

  /** Creating a post with an image and then deleting it as its author leaves the store
      and the upload directory as they were before the upload. */
  method CreateThenDelete(store: Store, disk: UploadDir, requester: Id, body: PostPayload,
                          upload: FileName, newId: Id, now: int)
    returns (created: Response<Post>, deleted: Response<string>)
    requires store.Valid()
    requires FreshUpload(store.posts, disk.files, Some(upload))
    requires IndexOf(store.posts, PostId, newId).None?
    requires PostValidator(body).None?
    modifies store, disk
    ensures created.Ok? && deleted == Ok(200, "Post deleted successfully")
    ensures store.posts == old(store.posts)
    ensures disk.files == old(disk.files) - {upload}
  {
    ghost var post := NewPost(newId, body, requester, Some(upload), now);
    created := CreatePost(store, disk, requester, body, Some(upload), newId, now, NoFault);
    assert created == Ok(201, post);
    assert store.posts == old(store.posts) + [post] && disk.files == old(disk.files);
    ghost var before := store.posts;
    IndexOfAppended(old(store.posts), PostId, post);
    deleted := DeletePost(store, disk, requester, newId, NoFault);
    assert store.posts == before[..|before| - 1];
  }

  /** Only the author deletes: another user's attempt is refused with 403 and changes
      nothing; the author's attempt succeeds and the post is gone. */
  method OnlyTheAuthorDeletes(store: Store, disk: UploadDir, author: Id, other: Id, id: Id)
    returns (first: Response<string>, second: Response<string>, after: Response<Post>)
    requires store.Valid() && author != other
    requires IndexOf(store.posts, PostId, id).Some?
    requires store.posts[IndexOf(store.posts, PostId, id).value].author == author
    modifies store, disk
    ensures first == Refused(403, "Not authorized to delete this post")
    ensures second == Ok(200, "Post deleted successfully")
    ensures after == Refused(404, "Post not found")
  {
    first := DeletePost(store, disk, other, id, NoFault);
    second := DeletePost(store, disk, author, id, NoFault);
    after := GetPost(store.posts, id);
  }
}
