/** Concrete consequences of the configured exclusion list and of the
    accumulation, on hand-made postings. */
module Scenarios {
  import opened Text
  import opened JobSearch

  /** Every configured excluded word starts with one of the letters s, l, m
      or i, so a title without any of them is never excluded. */
  lemma KeptWithoutExcludedInitials(title: string)
    requires forall k :: 0 <= k < |Lower(title)| ==> Lower(title)[k] !in "slmi"
    ensures !Excluded(title, Exclude)
  {
    forall x | x in Exclude
      ensures !Contains(Lower(title), Lower(x))
    {
      assert Lower(x)[0] in "slmi";
      NotContainedFirstChar(Lower(title), Lower(x));
    }
  }

  /** Upper-case titles are matched too: "Senior" rejects an all-capitals
      senior title. */
  lemma SeniorRejectsUpperCase()
    ensures Excluded("SENIOR DATA ANALYST", Exclude)
  {
    assert Lower("SENIOR DATA ANALYST")[0..6] == Lower("Senior");
    assert OccursAt(Lower("SENIOR DATA ANALYST"), Lower("Senior"), 0);
  }

  /** Substring, not word, matching: "Intern" rejects an internal-audit
      title. */
  lemma InternRejectsInternal()
    ensures Excluded("Internal Audit Analyst", Exclude)
  {
    assert Lower("Internal Audit Analyst")[0..6] == Lower("Intern");
    assert OccursAt(Lower("Internal Audit Analyst"), Lower("Intern"), 0);
  }

  /** "Lead" rejects a leadership title. */
  lemma LeadRejectsLeadership()
    ensures Excluded("Leadership Analyst", Exclude)
  {
    assert Lower("Leadership Analyst")[0..4] == Lower("Lead");
    assert OccursAt(Lower("Leadership Analyst"), Lower("Lead"), 0);
  }

  /** The ASCII unit separator counts as whitespace, as it does for
      `str.strip()`. */
  lemma StripRemovesUnitSeparator()
    ensures Strip("\U{001F}Data Analyst") == "Data Analyst"
  {
    assert StripStart("\U{001F}Data Analyst") == StripStart("Data Analyst") == "Data Analyst";
    assert StripEnd("Data Analyst") == "Data Analyst";
  }

  /** The posting used below survives the configured exclusion list. */
  lemma ReporterKept()
    ensures Kept(Job("Data Reporter", "Acme", "/viewjob?jk=1", "Today"), Exclude)
  {
    assert Strip("Data Reporter") == "Data Reporter";
    assert Lower("Data Reporter") == "data reporter";
    KeptWithoutExcludedInitials("Data Reporter");
  }

  /** Two keywords and one location give exactly two queries. */
  lemma TwoQueries(k1: string, k2: string, l: string)
    ensures Queries([k1, k2], [l]) == [Query(k1, l), Query(k2, l)]
  {
    assert [k1, k2][..1] == [k1];
    assert [k1][..0] == [];
    assert QueriesFor(k1, [l]) == [Query(k1, l)];
    assert QueriesFor(k2, [l]) == [Query(k2, l)];
    assert Queries([k1], [l]) == Queries([], [l]) + QueriesFor(k1, [l]);
    assert Queries([k1, k2], [l]) == Queries([k1], [l]) + QueriesFor(k2, [l]);
  }

  /** No deduplication: a surviving posting returned by the searches for two
      keywords in the same location is appended twice. */
  lemma RepeatedPostingKeptTwice(k1: string, k2: string, l: string, job: Job, exclude: seq<string>)
    requires Kept(job, exclude)
    ensures Collected([k1, k2], [l], exclude, _ => [job]) == [MakeRow(job, l), MakeRow(job, l)]
  {
    var fetch: string -> seq<Job> := _ => [job];
    var q1, q2 := Query(k1, l), Query(k2, l);
    assert [job][..0] == [];
    assert KeptRows([job], l, exclude) == [MakeRow(job, l)];
    TwoQueries(k1, k2, l);
    RowsOfStep([], q1, exclude, fetch);
    assert [q1, q2] == [q1] + [q2];
    RowsOfStep([q1], q2, exclude, fetch);
  }
}
