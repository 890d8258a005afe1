/** The scraping loop of job_search.py. For every configured keyword and
    location, in that nested order, the script requests one search page,
    turns every posting on it into a five-column row, drops the postings
    whose title contains an excluded word, and appends the others to one
    result list. The pages themselves are an input here: `fetch` maps a
    request URL to the postings the page parser finds on the answer. */
module JobSearch {
  import opened Text

  const Keywords: seq<string> := ["Data Analyst", "Business Analyst", "Product Analyst", "Operations Analyst"]
  const Locations: seq<string> := ["Pune", "Mumbai", "Hyderabad", "Gurugram", "Bangalore", "Remote"]
  const Exclude: seq<string> := ["Senior", "Lead", "ML Engineer", "Software", "Manager", "Intern"]

  /** The job board: the host of every search URL and the prefix of every link. */
  const Site: string := "https://www.indeed.com"
  const SearchPath: string := Site + "/jobs?q="
  /** Restricts every search to postings from the last day. */
  const Recency: string := "&fromage=1"

  /** One posting as the page parser hands it over: the raw text of its
      heading, company and date elements, and the href of its anchor. */
  datatype Job = Job(title: string, company: string, href: string, date: string)

  /** One row of `results`. */
  datatype Row = Row(title: string, company: string, location: string, date: string, link: string) {
    /** The row as the list the script appends, in column order. */
    function Cells(): seq<string> {
      [title, company, location, date, link]
    }
  }

  datatype Query = Query(keyword: string, location: string)

  /** The search URL of one query. Keyword and location are inserted
      verbatim, without URL-encoding. */
  function Url(q: Query): string {
    SearchPath + q.keyword + "&l=" + q.location + Recency
  }

  /** Every search URL is the search path, the keyword, the `&l=`
      separator, the location and the one-day recency filter, in that order. */
  lemma UrlShape(q: Query)
    ensures |Url(q)| == |SearchPath| + |q.keyword| + 3 + |q.location| + |Recency|
    ensures Url(q)[..|SearchPath|] == SearchPath
    ensures Url(q)[|SearchPath|..|SearchPath| + |q.keyword|] == q.keyword
    ensures Url(q)[|SearchPath| + |q.keyword|..|SearchPath| + |q.keyword| + 3] == "&l="
    ensures Url(q)[|SearchPath| + |q.keyword| + 3..|Url(q)| - |Recency|] == q.location
    ensures Url(q)[|Url(q)| - |Recency|..] == Recency
  {
    Pieces(SearchPath, q.keyword, "&l=", q.location, Recency);
  }

  /** The five pieces of a concatenation sit one after another. `UrlShape`
      goes through this lemma on plain strings because unfolding the
      constant prefix inside `Url` made that proof costly on some solver
      seeds. */
  lemma Pieces(a: string, b: string, c: string, d: string, e: string)
    ensures var u := a + b + c + d + e;
      && |u| == |a| + |b| + |c| + |d| + |e|
      && u[..|a|] == a
      && u[|a|..|a| + |b|] == b
      && u[|a| + |b|..|a| + |b| + |c|] == c
      && u[|a| + |b| + |c|..|u| - |e|] == d
      && u[|u| - |e|..] == e
  {
    var u := a + b + c + d + e;
    var i, j, k := |a|, |a| + |b|, |a| + |b| + |c|;
    assert forall x :: 0 <= x < |b| ==> u[i + x] == b[x];
    assert forall x :: 0 <= x < |c| ==> u[j + x] == c[x];
    assert forall x :: 0 <= x < |d| ==> u[k + x] == d[x];
    assert u[i..j] == b;
    assert u[j..k] == c;
    assert u[k..|u| - |e|] == d;
  }

  /** Different queries request different URLs, as long as no keyword holds
      an `&` (none of the configured ones does). */
  lemma UrlInjective(q1: Query, q2: Query)
    requires '&' !in q1.keyword && '&' !in q2.keyword
    requires Url(q1) == Url(q2)
    ensures q1 == q2
  {
    var rest1 := q1.keyword + ("&l=" + q1.location + Recency);
    var rest2 := q2.keyword + ("&l=" + q2.location + Recency);
    assert Url(q1) == SearchPath + rest1 && Url(q2) == SearchPath + rest2;
    CancelPrefix(SearchPath, rest1, rest2);
    SplitParameters(q1.keyword, q1.location, q2.keyword, q2.location, Recency);
  }

  lemma CancelPrefix(p: string, x: string, y: string)
    requires p + x == p + y
    ensures x == y
  {
    assert x == (p + x)[|p|..];
  }

  /** The keyword ends at the first `&`, and the location is what lies
      between `&l=` and the fixed tail. */
  lemma SplitParameters(k1: string, l1: string, k2: string, l2: string, tail: string)
    requires '&' !in k1 && '&' !in k2
    requires k1 + ("&l=" + l1 + tail) == k2 + ("&l=" + l2 + tail)
    ensures k1 == k2 && l1 == l2
  {
    var rest1, rest2 := k1 + ("&l=" + l1 + tail), k2 + ("&l=" + l2 + tail);
    FirstAmpersandAfter(k1, "l=" + l1 + tail);
    FirstAmpersandAfter(k2, "l=" + l2 + tail);
    assert rest1 == k1 + ("&" + ("l=" + l1 + tail)) && rest2 == k2 + ("&" + ("l=" + l2 + tail));
    assert k1 == rest1[..|k1|] == rest2[..|k2|] == k2;
    assert "&l=" + l1 + tail == rest1[|k1|..] == rest2[|k2|..] == "&l=" + l2 + tail;
    assert l1 == ("&l=" + l1 + tail)[3..3 + |l1|];
    assert l2 == ("&l=" + l2 + tail)[3..3 + |l2|];
  }

  /** The position of the first `&` in `s`, or |s| when there is none. */
  function FirstAmpersand(s: string): nat {
    if s == [] || s[0] == '&' then 0 else 1 + FirstAmpersand(s[1..])
  }

  lemma {:induction false} FirstAmpersandAfter(k: string, tail: string)
    requires '&' !in k
    ensures FirstAmpersand(k + ("&" + tail)) == |k|
  {
    if k != [] {
      assert (k + ("&" + tail))[1..] == k[1..] + ("&" + tail);
      FirstAmpersandAfter(k[1..], tail);
    }
  }

  /** The link of a posting: the site followed by the anchor's href, which
      can be read back from the link. */
  function Link(href: string): (link: string)
    ensures |link| == |Site| + |href|
    ensures link[..|Site|] == Site
    ensures link[|Site|..] == href
  {
    Site + href
  }

  /** The row of a scraped posting found by a query for `location`: stripped
      title, company and date, the link, and the query's location. */
  function MakeRow(job: Job, location: string): Row {
    Row(Strip(job.title), Strip(job.company), location, Strip(job.date), Link(job.href))
  }

  /** The list appended for a posting: stripped title, stripped company, the
      query's location, stripped date and the site followed by the href. The
      row can be read back from its cells. */
  lemma MakeRowCells(job: Job, location: string)
    ensures MakeRow(job, location).Cells() ==
      [Strip(job.title), Strip(job.company), location, Strip(job.date), Site + job.href]
    ensures forall r: Row :: r.Cells() == MakeRow(job, location).Cells() ==> r == MakeRow(job, location)
  {
    var c := MakeRow(job, location).Cells();
    forall r: Row | r.Cells() == c
      ensures r == MakeRow(job, location)
    {
      assert r.title == c[0] && r.company == c[1] && r.location == c[2];
      assert r.date == c[3] && r.link == c[4];
    }
  }

  /** The exclusion test: some excluded word, lower-cased, occurs anywhere in
      the lower-cased title (a substring, not a whole word). */
  predicate Excluded(title: string, exclude: seq<string>) {
    exists x :: x in exclude && Contains(Lower(title), Lower(x))
  }

  /** The exclusion test ignores letter case in the title. */
  lemma ExcludedIgnoresCase(t1: string, t2: string, exclude: seq<string>)
    requires EqualIgnoringCase(t1, t2)
    ensures Excluded(t1, exclude) <==> Excluded(t2, exclude)
  {
    LowerAgrees(t1, t2);
  }

  /** The exclusion test ignores letter case in the excluded words. */
  lemma ExcludedIgnoresCaseOfWords(title: string, ex1: seq<string>, ex2: seq<string>)
    requires |ex1| == |ex2|
    requires forall i :: 0 <= i < |ex1| ==> EqualIgnoringCase(ex1[i], ex2[i])
    ensures Excluded(title, ex1) <==> Excluded(title, ex2)
  {
    forall i | 0 <= i < |ex1|
      ensures Lower(ex1[i]) == Lower(ex2[i])
    {
      LowerAgrees(ex1[i], ex2[i]);
    }
    if Excluded(title, ex1) {
      var x :| x in ex1 && Contains(Lower(title), Lower(x));
      var i :| 0 <= i < |ex1| && ex1[i] == x;
      assert ex2[i] in ex2;
    }
    if Excluded(title, ex2) {
      var x :| x in ex2 && Contains(Lower(title), Lower(x));
      var i :| 0 <= i < |ex2| && ex2[i] == x;
      assert ex1[i] in ex1;
    }
  }

  /** Substring matching: a title that contains an excluded title, up to
      letter case, is excluded as well. */
  lemma ExcludedExtends(title: string, part: string, exclude: seq<string>)
    requires Contains(Lower(title), Lower(part))
    requires Excluded(part, exclude)
    ensures Excluded(title, exclude)
  {
    var x :| x in exclude && Contains(Lower(part), Lower(x));
    ContainsTransitive(Lower(title), Lower(part), Lower(x));
  }

  /** A posting survives the exclusion test on its stripped title. */
  predicate Kept(job: Job, exclude: seq<string>) {
    !Excluded(Strip(job.title), exclude)
  }

  /** The rows one page contributes, in page order. */
  function KeptRows(page: seq<Job>, location: string, exclude: seq<string>): seq<Row> {
    if page == [] then []
    else
      var job := page[|page| - 1];
      KeptRows(page[..|page| - 1], location, exclude)
        + (if Kept(job, exclude) then [MakeRow(job, location)] else [])
  }

  /** The positions on a page of the postings that survive, in increasing
      order: every listed position survives, and every surviving position
      is listed. */
  function KeptIndices(page: seq<Job>, exclude: seq<string>): (idx: seq<nat>)
    ensures |idx| <= |page|
    ensures forall m :: 0 <= m < |idx| ==> idx[m] < |page| && Kept(page[idx[m]], exclude)
    ensures forall m, m' :: 0 <= m < m' < |idx| ==> idx[m] < idx[m']
    ensures forall i :: 0 <= i < |page| && Kept(page[i], exclude) ==> i in idx
  {
    if page == [] then []
    else
      var init := page[..|page| - 1];
      assert forall i :: 0 <= i < |init| ==> page[i] == init[i];
      KeptIndices(init, exclude) + (if Kept(page[|page| - 1], exclude) then [|page| - 1] else [])
  }

  /** A page's rows are exactly the rows of its surviving postings, one per
      posting, in page order. */
  lemma {:induction false} KeptRowsByIndex(page: seq<Job>, location: string, exclude: seq<string>)
    ensures |KeptRows(page, location, exclude)| == |KeptIndices(page, exclude)|
    ensures forall m :: 0 <= m < |KeptIndices(page, exclude)| ==>
      KeptRows(page, location, exclude)[m] == MakeRow(page[KeptIndices(page, exclude)[m]], location)
  {
    if page != [] {
      KeptRowsByIndex(page[..|page| - 1], location, exclude);
    }
  }

  /** A row comes from a page exactly when it is the row of a surviving
      posting of that page. */
  lemma KeptRowsMembership(page: seq<Job>, location: string, exclude: seq<string>, r: Row)
    ensures r in KeptRows(page, location, exclude) <==>
      exists job :: job in page && Kept(job, exclude) && r == MakeRow(job, location)
  {
    var rows, idx := KeptRows(page, location, exclude), KeptIndices(page, exclude);
    KeptRowsByIndex(page, location, exclude);
    if r in rows {
      var m :| 0 <= m < |rows| && rows[m] == r;
      assert page[idx[m]] in page;
    }
    if job :| job in page && Kept(job, exclude) && r == MakeRow(job, location) {
      var i :| 0 <= i < |page| && page[i] == job;
      var m :| 0 <= m < |idx| && idx[m] == i;
      assert rows[m] == r;
    }
  }

  /** When no posting of a page is excluded, the page contributes one row per
      posting, duplicates included. */
  lemma {:induction false} KeptRowsAllKept(page: seq<Job>, location: string, exclude: seq<string>)
    requires forall t :: 0 <= t < |page| ==> Kept(page[t], exclude)
    ensures |KeptRows(page, location, exclude)| == |page|
    ensures forall t :: 0 <= t < |page| ==> KeptRows(page, location, exclude)[t] == MakeRow(page[t], location)
  {
    if page != [] {
      var n := |page| - 1;
      var init := page[..n];
      assert forall t :: 0 <= t < n ==> init[t] == page[t];
      KeptRowsAllKept(init, location, exclude);
      assert Kept(page[n], exclude);
      assert KeptRows(page, location, exclude) == KeptRows(init, location, exclude) + [MakeRow(page[n], location)];
      assert page == init + [page[n]];
      RowsOfJobsStep(KeptRows(init, location, exclude), init, page[n], location);
    }
  }

  /** Extending rows that are the postings' rows, one by one, by the row of
      one more posting gives the rows of the extended postings. */
  lemma RowsOfJobsStep(rows: seq<Row>, jobs: seq<Job>, job: Job, location: string)
    requires |rows| == |jobs| && forall t :: 0 <= t < |jobs| ==> rows[t] == MakeRow(jobs[t], location)
    ensures forall t :: 0 <= t < |jobs| + 1 ==> (rows + [MakeRow(job, location)])[t] == MakeRow((jobs + [job])[t], location)
  {
  }

  /** The queries of one keyword, one per location, in location order. */
  function QueriesFor(keyword: string, locations: seq<string>): seq<Query> {
    seq(|locations|, j requires 0 <= j < |locations| => Query(keyword, locations[j]))
  }

  /** All queries in the order the two nested loops issue them: keyword by
      keyword, and for each keyword location by location. */
  function Queries(keywords: seq<string>, locations: seq<string>): seq<Query> {
    if keywords == [] then []
    else
      Queries(keywords[..|keywords| - 1], locations) + QueriesFor(keywords[|keywords| - 1], locations)
  }

  /** There are exactly |keywords| * |locations| queries. */
  lemma {:induction false} QueriesLength(keywords: seq<string>, locations: seq<string>)
    ensures |Queries(keywords, locations)| == |keywords| * |locations|
  {
    if keywords != [] {
      var n, l := |keywords|, |locations|;
      QueriesLength(keywords[..n - 1], locations);
      assert (n - 1) * l + l == n * l;
    }
  }

  /** The query of keyword `a` and location `b` is number a * |locations| + b. */
  lemma {:induction false} QueriesAt(keywords: seq<string>, locations: seq<string>, a: nat, b: nat)
    requires a < |keywords| && b < |locations|
    ensures a * |locations| + b < |Queries(keywords, locations)|
    ensures Queries(keywords, locations)[a * |locations| + b] == Query(keywords[a], locations[b])
  {
    var n, l := |keywords|, |locations|;
    var init := keywords[..n - 1];
    var qs, earlier := Queries(keywords, locations), Queries(init, locations);
    assert qs == earlier + QueriesFor(keywords[n - 1], locations);
    QueriesLength(init, locations);
    QueriesLength(keywords, locations);
    if a < n - 1 {
      QueriesAt(init, locations, a, b);
      MulMonotone(a + 1, n - 1, l);
      assert (a + 1) * l == a * l + l;
      assert qs[a * l + b] == earlier[a * l + b];
    } else {
      assert qs[a * l + b] == QueriesFor(keywords[n - 1], locations)[b];
    }
  }

  lemma MulMonotone(x: nat, y: nat, l: nat)
    requires x <= y
    ensures x * l <= y * l
  {
  }

  /** A query is issued exactly when its keyword and its location are both
      configured. */
  lemma {:induction false} QueriesCover(keywords: seq<string>, locations: seq<string>, q: Query)
    ensures q in Queries(keywords, locations) <==> q.keyword in keywords && q.location in locations
  {
    if keywords != [] {
      var init, last := keywords[..|keywords| - 1], keywords[|keywords| - 1];
      QueriesCover(init, locations, q);
      assert keywords == init + [last];
      if q.keyword == last && q.location in locations {
        var j :| 0 <= j < |locations| && locations[j] == q.location;
        assert QueriesFor(last, locations)[j] == q;
      }
    }
  }

  /** With distinct keywords and distinct locations no query is issued
      twice. */
  lemma {:induction false} QueriesDistinct(keywords: seq<string>, locations: seq<string>)
    requires forall a, a' :: 0 <= a < a' < |keywords| ==> keywords[a] != keywords[a']
    requires forall b, b' :: 0 <= b < b' < |locations| ==> locations[b] != locations[b']
    ensures forall x, y :: 0 <= x < y < |Queries(keywords, locations)| ==>
      Queries(keywords, locations)[x] != Queries(keywords, locations)[y]
  {
    if keywords != [] {
      var init, last := keywords[..|keywords| - 1], keywords[|keywords| - 1];
      var earlier, block := Queries(init, locations), QueriesFor(last, locations);
      QueriesDistinct(init, locations);
      forall q | q in earlier
        ensures q.keyword != last
      {
        QueriesCover(init, locations, q);
      }
      var qs := Queries(keywords, locations);
      forall x, y | 0 <= x < y < |qs|
        ensures qs[x] != qs[y]
      {
        if x < |earlier| && |earlier| <= y {
          assert qs[x] in earlier && qs[y] == block[y - |earlier|];
        }
      }
    }
  }

  /** The rows of a run of queries, query by query, each page in order. */
  function RowsOf(queries: seq<Query>, exclude: seq<string>, fetch: string -> seq<Job>): seq<Row> {
    if queries == [] then []
    else
      var q := queries[|queries| - 1];
      RowsOf(queries[..|queries| - 1], exclude, fetch) + KeptRows(fetch(Url(q)), q.location, exclude)
  }

  /** What `results` holds at the end of the script. */
  function Collected(keywords: seq<string>, locations: seq<string>, exclude: seq<string>,
                     fetch: string -> seq<Job>): seq<Row>
  {
    RowsOf(Queries(keywords, locations), exclude, fetch)
  }

  /** The rows of consecutive runs of queries follow one another: the rows
      of earlier queries all come before those of later ones. */
  lemma {:induction false} RowsOfAppend(a: seq<Query>, b: seq<Query>, exclude: seq<string>, fetch: string -> seq<Job>)
    ensures RowsOf(a + b, exclude, fetch) == RowsOf(a, exclude, fetch) + RowsOf(b, exclude, fetch)
  {
    if b != [] {
      var init := b[..|b| - 1];
      assert (a + b)[..|a + b| - 1] == a + init;
      RowsOfAppend(a, init, exclude, fetch);
    } else {
      assert a + b == a;
    }
  }

  /** A row is produced by a run of queries exactly when it is the row of a
      surviving posting on the page of one of them, with that query's
      location. */
  lemma {:induction false} RowsOfMembership(queries: seq<Query>, exclude: seq<string>, fetch: string -> seq<Job>, r: Row)
    ensures r in RowsOf(queries, exclude, fetch) <==>
      exists q, job :: q in queries && job in fetch(Url(q)) && Kept(job, exclude) && r == MakeRow(job, q.location)
  {
    if queries != [] {
      var init, last := queries[..|queries| - 1], queries[|queries| - 1];
      assert queries == init + [last];
      RowsOfMembership(init, exclude, fetch, r);
      KeptRowsMembership(fetch(Url(last)), last.location, exclude, r);
    }
  }

  /** Order of the results: the rows of the query for keyword `a` and
      location `b` form one block, in page order, preceded by the rows of
      every query issued before it and followed by those of every query
      issued after it. */
  lemma CollectedBlocks(keywords: seq<string>, locations: seq<string>, exclude: seq<string>,
                        fetch: string -> seq<Job>, a: nat, b: nat)
    requires a < |keywords| && b < |locations|
    ensures var qs, n := Queries(keywords, locations), a * |locations| + b;
      n < |qs| &&
      Collected(keywords, locations, exclude, fetch) ==
        RowsOf(qs[..n], exclude, fetch)
        + KeptRows(fetch(Url(Query(keywords[a], locations[b]))), locations[b], exclude)
        + RowsOf(qs[n + 1..], exclude, fetch)
  {
    var qs, n := Queries(keywords, locations), a * |locations| + b;
    QueriesAt(keywords, locations, a, b);
    assert qs == qs[..n] + [qs[n]] + qs[n + 1..];
    RowsOfAppend(qs[..n] + [qs[n]], qs[n + 1..], exclude, fetch);
    RowsOfStep(qs[..n], qs[n], exclude, fetch);
  }

  /** Soundness and completeness of the whole scan: a row is in `results`
      exactly when some configured keyword and location returned a posting
      whose title no excluded word occurs in, and the row is that posting's
      row for that location. */
  lemma CollectedMembership(keywords: seq<string>, locations: seq<string>, exclude: seq<string>,
                            fetch: string -> seq<Job>, r: Row)
    ensures r in Collected(keywords, locations, exclude, fetch) <==>
      exists k, l, job :: k in keywords && l in locations && job in fetch(Url(Query(k, l)))
        && Kept(job, exclude) && r == MakeRow(job, l)
  {
    var qs := Queries(keywords, locations);
    RowsOfMembership(qs, exclude, fetch, r);
    if r in Collected(keywords, locations, exclude, fetch) {
      var q, job :| q in qs && job in fetch(Url(q)) && Kept(job, exclude) && r == MakeRow(job, q.location);
      QueriesCover(keywords, locations, q);
      assert q == Query(q.keyword, q.location);
    }
    if k, l, job :|
        k in keywords && l in locations && job in fetch(Url(Query(k, l))) && Kept(job, exclude) && r == MakeRow(job, l)
    {
      QueriesCover(keywords, locations, Query(k, l));
    }
  }

  /** Every row's link is the site followed by the posting's href. */
  lemma CollectedLinks(keywords: seq<string>, locations: seq<string>, exclude: seq<string>,
                       fetch: string -> seq<Job>, r: Row)
    requires r in Collected(keywords, locations, exclude, fetch)
    ensures |r.link| >= |Site| && r.link[..|Site|] == Site
    ensures r.location in locations
    ensures exists job :: !Excluded(r.title, exclude) && r == MakeRow(job, r.location)
  {
    CollectedMembership(keywords, locations, exclude, fetch, r);
  }

  /** The number of postings the pages of a run of queries hold. */
  function ScrapedCount(queries: seq<Query>, fetch: string -> seq<Job>): nat {
    if queries == [] then 0
    else ScrapedCount(queries[..|queries| - 1], fetch) + |fetch(Url(queries[|queries| - 1]))|
  }

  /** The number of postings on those pages that survive the exclusion test. */
  function KeptCount(queries: seq<Query>, exclude: seq<string>, fetch: string -> seq<Job>): nat {
    if queries == [] then 0
    else
      var q := queries[|queries| - 1];
      KeptCount(queries[..|queries| - 1], exclude, fetch) + |KeptIndices(fetch(Url(q)), exclude)|
  }

  /** No deduplication: a run of queries yields one row per surviving posting
      on every page, so never more rows than postings were scraped, and
      exactly as many when no title is excluded. */
  lemma {:induction false} RowsOfCount(queries: seq<Query>, exclude: seq<string>, fetch: string -> seq<Job>)
    ensures |RowsOf(queries, exclude, fetch)| == KeptCount(queries, exclude, fetch)
    ensures KeptCount(queries, exclude, fetch) <= ScrapedCount(queries, fetch)
    ensures (forall q, job :: q in queries && job in fetch(Url(q)) ==> Kept(job, exclude)) ==>
      |RowsOf(queries, exclude, fetch)| == ScrapedCount(queries, fetch)
  {
    if queries != [] {
      var init, last := queries[..|queries| - 1], queries[|queries| - 1];
      var page := fetch(Url(last));
      RowsOfCount(init, exclude, fetch);
      KeptRowsByIndex(page, last.location, exclude);
      if forall q, job :: q in queries && job in fetch(Url(q)) ==> Kept(job, exclude) {
        assert forall q :: q in init ==> q in queries;
        assert forall t :: 0 <= t < |page| ==> page[t] in fetch(Url(last));
        KeptRowsAllKept(page, last.location, exclude);
      }
    }
  }

  /** `requests` lists the URLs of `queries`, one each, in order. */
  predicate IsRequestLog(requests: seq<string>, queries: seq<Query>) {
    |requests| == |queries| && forall k :: 0 <= k < |requests| ==> requests[k] == Url(queries[k])
  }

  lemma RequestLogStep(requests: seq<string>, queries: seq<Query>, q: Query)
    requires IsRequestLog(requests, queries)
    ensures IsRequestLog(requests + [Url(q)], queries + [q])
  {
  }

  lemma RowsOfStep(queries: seq<Query>, q: Query, exclude: seq<string>, fetch: string -> seq<Job>)
    ensures RowsOf(queries + [q], exclude, fetch) == RowsOf(queries, exclude, fetch) + KeptRows(fetch(Url(q)), q.location, exclude)
  {
    assert (queries + [q])[..|queries|] == queries;
  }

  lemma KeptRowsStep(page: seq<Job>, t: nat, location: string, exclude: seq<string>)
    requires t < |page|
    ensures KeptRows(page[..t + 1], location, exclude) ==
      KeptRows(page[..t], location, exclude) + (if Kept(page[t], exclude) then [MakeRow(page[t], location)] else [])
  {
    assert page[..t + 1][..t] == page[..t];
  }

  lemma QueriesStep(keywords: seq<string>, locations: seq<string>, i: nat)
    requires i < |keywords|
    ensures Queries(keywords[..i + 1], locations) == Queries(keywords[..i], locations) + QueriesFor(keywords[i], locations)
  {
    assert keywords[..i + 1][..i] == keywords[..i];
  }

  lemma QueriesForStep(keyword: string, locations: seq<string>, j: nat)
    requires j < |locations|
    ensures QueriesFor(keyword, locations[..j + 1]) == QueriesFor(keyword, locations[..j]) + [Query(keyword, locations[j])]
  {
  }

  /** The innermost loop of the script: scans one page found by a query for
      `location` and appends the row of every posting whose title is not
      excluded. */
  method AppendPage(results: seq<Row>, page: seq<Job>, location: string, exclude: seq<string>)
    returns (extended: seq<Row>)
    ensures extended == results + KeptRows(page, location, exclude)
  {
    extended := results;
    for t := 0 to |page|
      invariant extended == results + KeptRows(page[..t], location, exclude)
    {
      var job := page[t];
      var title := Strip(job.title);
      var company := Strip(job.company);
      var link := Link(job.href);
      var date := Strip(job.date);
      KeptRowsStep(page, t, location, exclude);
      if Excluded(title, exclude) {
        continue;
      }
      extended := extended + [Row(title, company, location, date, link)];
    }
    assert page[..|page|] == page;
  }

  /** The two outer loops of the script. Returns the final `results` and the
      URLs requested, in request order. */
  method Collect(keywords: seq<string>, locations: seq<string>, exclude: seq<string>, fetch: string -> seq<Job>)
    returns (results: seq<Row>, requests: seq<string>)
    ensures results == Collected(keywords, locations, exclude, fetch)
    ensures IsRequestLog(requests, Queries(keywords, locations))
  {
    results, requests := [], [];
    for i := 0 to |keywords|
      invariant results == RowsOf(Queries(keywords[..i], locations), exclude, fetch)
      invariant IsRequestLog(requests, Queries(keywords[..i], locations))
    {
      var keyword := keywords[i];
      ghost var earlier := Queries(keywords[..i], locations);
      ghost var done := earlier;
      assert QueriesFor(keyword, locations[..0]) == [];
      for j := 0 to |locations|
        invariant done == earlier + QueriesFor(keyword, locations[..j])
        invariant results == RowsOf(done, exclude, fetch)
        invariant IsRequestLog(requests, done)
      {
        var location := locations[j];
        var url := Url(Query(keyword, location));
        RequestLogStep(requests, done, Query(keyword, location));
        requests := requests + [url];
        var page := fetch(url);
        results := AppendPage(results, page, location, exclude);
        RowsOfStep(done, Query(keyword, location), exclude, fetch);
        QueriesForStep(keyword, locations, j);
        done := done + [Query(keyword, location)];
      }
      assert locations[..|locations|] == locations;
      QueriesStep(keywords, locations, i);
    }
    assert keywords[..|keywords|] == keywords;
  }

  /** The configured keywords and locations are pairwise different, and no
      keyword holds an `&`. */
  lemma ConfigurationDistinct()
    ensures forall a, a' :: 0 <= a < a' < |Keywords| ==> Keywords[a] != Keywords[a']
    ensures forall b, b' :: 0 <= b < b' < |Locations| ==> Locations[b] != Locations[b']
    ensures forall k :: k in Keywords ==> '&' !in k
  {
  }

  /** The configured run requests 24 pairwise different URLs. */
  lemma ConfiguredRequests()
    ensures |Queries(Keywords, Locations)| == 24
    ensures forall x, y :: 0 <= x < y < 24 ==>
      Url(Queries(Keywords, Locations)[x]) != Url(Queries(Keywords, Locations)[y])
  {
    var qs := Queries(Keywords, Locations);
    QueriesLength(Keywords, Locations);
    ConfigurationDistinct();
    QueriesDistinct(Keywords, Locations);
    forall x, y | 0 <= x < y < 24
      ensures Url(qs[x]) != Url(qs[y])
    {
      QueriesCover(Keywords, Locations, qs[x]);
      QueriesCover(Keywords, Locations, qs[y]);
      if Url(qs[x]) == Url(qs[y]) {
        UrlInjective(qs[x], qs[y]);
      }
    }
  }

  /** The script as configured: 4 keywords times 6 locations, so 24
      requests, no two for the same URL. */
  method Search(fetch: string -> seq<Job>) returns (results: seq<Row>, requests: seq<string>)
    ensures results == Collected(Keywords, Locations, Exclude, fetch)
    ensures |requests| == 24
    ensures forall x, y :: 0 <= x < y < |requests| ==> requests[x] != requests[y]
    ensures IsRequestLog(requests, Queries(Keywords, Locations))
  {
    results, requests := Collect(Keywords, Locations, Exclude, fetch);
    ConfiguredRequests();
  }
}
