/**
  Job-board aggregation (app/job_board_apis.py): the standardized job record,
  the request rules of the three adapters, the aggregator that runs them in
  order, its first-occurrence deduplication and its reconfiguration.

  HTTP traffic is not modelled: an adapter's HTTP outcome is a parameter
  (`None` when the request or the JSON decoding raised, which the adapter
  catches), and each adapter's `standardize_job` is an abstract function.
 */
module JobBoards {
  import opened Wrappers
  import Text

  /** A standardized job record; only the string fields are kept. */
  datatype Job = Job(
    title: string,
    company: string,
    location: string,
    description: string,
    url: string,
    jobType: string,
    remoteOption: string,
    source: string)

  // ---------------------------------------------------------------------
  // Deduplication (`_deduplicate_jobs`)

  /** The identity key: lower-cased title and company joined by an underscore. */
  function Key(j: Job): string {
    Text.Lower(j.title) + "_" + Text.Lower(j.company)
  }

  /** A record takes part in deduplication only when title and company are non-empty. */
  predicate Valid(j: Job) {
    j.title != "" && j.company != ""
  }

  /** The keys contributed by the valid records of `jobs`. */
  function ValidKeys(jobs: seq<Job>): set<string> {
    set j | j in jobs && Valid(j) :: Key(j)
  }

  /** The keys of `jobs`, valid or not. */
  function KeysOf(jobs: seq<Job>): set<string> {
    set j | j in jobs :: Key(j)
  }

  predicate AllValid(jobs: seq<Job>) {
    forall i :: 0 <= i < |jobs| ==> Valid(jobs[i])
  }

  predicate DistinctKeys(jobs: seq<Job>) {
    forall i, k :: 0 <= i < k < |jobs| ==> Key(jobs[i]) != Key(jobs[k])
  }

  /** `jobs[i]` is valid and no earlier valid record has its key. */
  predicate FirstValid(jobs: seq<Job>, i: int)
    requires 0 <= i < |jobs|
  {
    Valid(jobs[i]) && forall k :: 0 <= k < i && Valid(jobs[k]) ==> Key(jobs[k]) != Key(jobs[i])
  }

  /** `a` is a subsequence of `b`. */
  predicate IsSubsequence<T(==)>(a: seq<T>, b: seq<T>)
    decreases |b|
  {
    if a == [] then true
    else if b == [] then false
    else if a[0] == b[0] then IsSubsequence(a[1..], b[1..])
    else IsSubsequence(a, b[1..])
  }

  /** The loop of `_deduplicate_jobs` continued with `seen` already filled:
      a record is kept when it is valid and its key has not been seen. */
  function DedupFrom(jobs: seq<Job>, seen: set<string>): (r: seq<Job>)
    ensures AllValid(r)
    ensures forall i :: 0 <= i < |r| ==> Key(r[i]) !in seen
    ensures |r| <= |jobs|
    decreases |jobs|
  {
    if jobs == [] then []
    else
      var j := jobs[0];
      if Key(j) !in seen && Valid(j) then [j] + DedupFrom(jobs[1..], seen + {Key(j)})
      else DedupFrom(jobs[1..], seen)
  }

  /** `_deduplicate_jobs(jobs)` */
  function Deduplicate(jobs: seq<Job>): seq<Job> {
    DedupFrom(jobs, {})
  }

  /** The kept records have pairwise distinct keys. */
  lemma {:induction false} DedupFromDistinct(jobs: seq<Job>, seen: set<string>)
    ensures DistinctKeys(DedupFrom(jobs, seen))
    decreases |jobs|
  {
    if jobs != [] {
      var j := jobs[0];
      if Key(j) !in seen && Valid(j) {
        DedupFromDistinct(jobs[1..], seen + {Key(j)});
      } else {
        DedupFromDistinct(jobs[1..], seen);
      }
    }
  }

  /** The kept records are a subsequence of the input. */
  lemma {:induction false} DedupFromSubsequence(jobs: seq<Job>, seen: set<string>)
    ensures IsSubsequence(DedupFrom(jobs, seen), jobs)
    decreases |jobs|
  {
    if jobs != [] {
      var j := jobs[0];
      if Key(j) !in seen && Valid(j) {
        DedupFromSubsequence(jobs[1..], seen + {Key(j)});
      } else {
        DedupFromSubsequence(jobs[1..], seen);
        SubsequenceDropFirst(DedupFrom(jobs[1..], seen), jobs);
      }
    }
  }

  lemma {:induction false} SubsequenceDropFirst<T>(a: seq<T>, b: seq<T>)
    requires b != [] && IsSubsequence(a, b[1..])
    ensures IsSubsequence(a, b)
    decreases |b|, 1
  {
    if a != [] && a[0] == b[0] {
      SubsequenceTail(a, b[1..]);
    }
  }

  lemma {:induction false} SubsequenceTail<T>(a: seq<T>, c: seq<T>)
    requires a != [] && IsSubsequence(a, c)
    ensures IsSubsequence(a[1..], c)
    decreases |c|, 2
  {
    if a[0] == c[0] {
      SubsequenceDropFirst(a[1..], c);
    } else {
      SubsequenceTail(a, c[1..]);
      SubsequenceDropFirst(a[1..], c);
    }
  }

  /** A subsequence holds only elements of the sequence. */
  lemma {:induction false} SubsequenceElements<T>(a: seq<T>, b: seq<T>)
    requires IsSubsequence(a, b)
    ensures forall x :: x in a ==> x in b
    decreases |b|
  {
    if a != [] {
      assert a == [a[0]] + a[1..];
      if a[0] == b[0] {
        SubsequenceElements(a[1..], b[1..]);
      } else {
        SubsequenceElements(a, b[1..]);
      }
    }
  }

  /** Exactly the keys of valid input records not already seen reach the output. */
  lemma {:induction false} DedupFromKeys(jobs: seq<Job>, seen: set<string>)
    ensures KeysOf(DedupFrom(jobs, seen)) == ValidKeys(jobs) - seen
    decreases |jobs|
  {
    if jobs != [] {
      var j := jobs[0];
      var rest := jobs[1..];
      assert jobs == [j] + rest;
      assert ValidKeys(jobs) == (if Valid(j) then {Key(j)} else {}) + ValidKeys(rest);
      if Key(j) !in seen && Valid(j) {
        DedupFromKeys(rest, seen + {Key(j)});
        assert KeysOf([j] + DedupFrom(rest, seen + {Key(j)})) == {Key(j)} + KeysOf(DedupFrom(rest, seen + {Key(j)}));
      } else {
        DedupFromKeys(rest, seen);
      }
    }
  }

  /** Processing `a + b` is processing `a`, then `b` with the keys `a` added. */
  lemma {:induction false} DedupFromAppend(a: seq<Job>, b: seq<Job>, seen: set<string>)
    ensures DedupFrom(a + b, seen) == DedupFrom(a, seen) + DedupFrom(b, seen + ValidKeys(a))
    decreases |a|
  {
    if a == [] {
      assert a + b == b;
      assert ValidKeys(a) == {};
      assert seen + {} == seen;
    } else {
      var j := a[0];
      var rest := a[1..];
      assert (a + b)[0] == j && (a + b)[1..] == rest + b;
      ValidKeysCons(a);
      if Key(j) !in seen && Valid(j) {
        DedupFromAppend(rest, b, seen + {Key(j)});
        assert seen + {Key(j)} + ValidKeys(rest) == seen + ValidKeys(a);
      } else {
        DedupFromAppend(rest, b, seen);
        assert seen + ValidKeys(rest) == seen + ValidKeys(a);
      }
    }
  }

  /** The valid keys of a non-empty list: its head's key, if valid, and the rest's. */
  lemma ValidKeysCons(a: seq<Job>)
    requires a != []
    ensures ValidKeys(a) == (if Valid(a[0]) then {Key(a[0])} else {}) + ValidKeys(a[1..])
  {
    assert a == [a[0]] + a[1..];
  }

  /** The valid keys of a prefix are those of the valid records before index `i`. */
  lemma ValidKeysPrefix(jobs: seq<Job>, i: int)
    requires 0 <= i < |jobs|
    ensures Key(jobs[i]) in ValidKeys(jobs[..i]) <==> exists k :: 0 <= k < i && Valid(jobs[k]) && Key(jobs[k]) == Key(jobs[i])
  {
    if Key(jobs[i]) in ValidKeys(jobs[..i]) {
      var j :| j in jobs[..i] && Valid(j) && Key(j) == Key(jobs[i]);
      var k :| 0 <= k < i && jobs[..i][k] == j;
    }
    if exists k :: 0 <= k < i && Valid(jobs[k]) && Key(jobs[k]) == Key(jobs[i]) {
      var k :| 0 <= k < i && Valid(jobs[k]) && Key(jobs[k]) == Key(jobs[i]);
      assert jobs[..i][k] == jobs[k];
    }
  }

  /** Reference characterisation: one more input record adds itself to the
      output exactly when it is the first valid record with its key. */
  lemma DedupSnoc(jobs: seq<Job>, i: int)
    requires 0 <= i < |jobs|
    ensures Deduplicate(jobs[..i + 1]) == Deduplicate(jobs[..i]) + (if FirstValid(jobs, i) then [jobs[i]] else [])
  {
    assert jobs[..i + 1] == jobs[..i] + [jobs[i]];
    DedupFromAppend(jobs[..i], [jobs[i]], {});
    ValidKeysPrefix(jobs, i);
    assert {} + ValidKeys(jobs[..i]) == ValidKeys(jobs[..i]);
    assert DedupFrom([jobs[i]], ValidKeys(jobs[..i])) == (if FirstValid(jobs, i) then [jobs[i]] else []) by {
      assert [jobs[i]][1..] == [];
    }
  }

  /** Records with an empty title or company are never emitted, and every
      emitted record comes from the input. */
  lemma DedupOutputValid(jobs: seq<Job>)
    ensures forall j :: j in Deduplicate(jobs) ==> j in jobs && j.title != "" && j.company != ""
  {
    DedupFromSubsequence(jobs, {});
    SubsequenceElements(Deduplicate(jobs), jobs);
  }

  /** The output keys are pairwise distinct and are exactly the keys of the
      valid input records; the output is a subsequence of the input. */
  lemma DedupSummary(jobs: seq<Job>)
    ensures DistinctKeys(Deduplicate(jobs))
    ensures KeysOf(Deduplicate(jobs)) == ValidKeys(jobs)
    ensures IsSubsequence(Deduplicate(jobs), jobs)
  {
    DedupFromDistinct(jobs, {});
    DedupFromKeys(jobs, {});
    DedupFromSubsequence(jobs, {});
  }

  /** Deduplication leaves alone a list that is already valid and key-distinct,
      as long as none of its keys was seen before. */
  lemma {:induction false} DedupFromIdentity(jobs: seq<Job>, seen: set<string>)
    requires AllValid(jobs) && DistinctKeys(jobs)
    requires forall i :: 0 <= i < |jobs| ==> Key(jobs[i]) !in seen
    ensures DedupFrom(jobs, seen) == jobs
    decreases |jobs|
  {
    if jobs != [] {
      var rest := jobs[1..];
      forall i | 0 <= i < |rest|
        ensures Key(rest[i]) !in seen + {Key(jobs[0])}
      {
        assert rest[i] == jobs[i + 1];
      }
      DedupFromIdentity(rest, seen + {Key(jobs[0])});
      assert [jobs[0]] + rest == jobs;
    }
  }

  /** Deduplicating twice is deduplicating once. */
  lemma DedupIdempotent(jobs: seq<Job>)
    ensures Deduplicate(Deduplicate(jobs)) == Deduplicate(jobs)
  {
    DedupFromDistinct(jobs, {});
    DedupFromIdentity(Deduplicate(jobs), {});
  }

  /** An invalid record leaves the output as if it were absent: it never adds a key. */
  lemma DedupSkipsInvalid(a: seq<Job>, x: Job, b: seq<Job>)
    requires !Valid(x)
    ensures Deduplicate(a + [x] + b) == Deduplicate(a + b)
  {
    DedupFromAppend(a + [x], b, {});
    DedupFromAppend(a, [x], {});
    DedupFromAppend(a, b, {});
    DedupInvalidAlone(x, {} + ValidKeys(a));
    ValidKeysSnocInvalid(a, x);
  }

  lemma DedupInvalidAlone(x: Job, seen: set<string>)
    requires !Valid(x)
    ensures DedupFrom([x], seen) == []
  {
    assert [x][1..] == [];
  }

  lemma ValidKeysSnocInvalid(a: seq<Job>, x: Job)
    requires !Valid(x)
    ensures ValidKeys(a + [x]) == ValidKeys(a)
  {
    assert forall j :: j in a + [x] <==> j in a || j == x;
  }

  /** Keys compare titles and companies case-insensitively. */
  lemma CaseInsensitiveMerge()
    ensures var e := Job("Engineer", "Acme", "", "", "", "", "", "A");
            var f := Job("ENGINEER", "ACME", "", "", "", "", "", "B");
            Deduplicate([e, f]) == [e]
  {
    var e := Job("Engineer", "Acme", "", "", "", "", "", "A");
    var f := Job("ENGINEER", "ACME", "", "", "", "", "", "B");
    assert Text.Lower("Engineer") == "engineer";
    assert Text.Lower("ENGINEER") == "engineer";
    assert Text.Lower("Acme") == "acme";
    assert Text.Lower("ACME") == "acme";
    assert Key(e) == Key(f);
    assert [e, f][1..] == [f];
  }

  /** Two different (title, company) pairs whose joined keys coincide are merged. */
  lemma KeyCollisionMerges()
    ensures var e := Job("a_b", "c", "", "", "", "", "", "");
            var f := Job("a", "b_c", "", "", "", "", "", "");
            e.title != f.title && Deduplicate([e, f]) == [e]
  {
    var e := Job("a_b", "c", "", "", "", "", "", "");
    var f := Job("a", "b_c", "", "", "", "", "", "");
    assert Text.Lower("a_b") == "a_b";
    assert Text.Lower("c") == "c";
    assert Text.Lower("a") == "a";
    assert Text.Lower("b_c") == "b_c";
    assert Key(e) == "a_b_c" == Key(f);
    assert [e, f][1..] == [f];
  }

  /** The first valid record with a given key is kept. */
  lemma DedupKeepsFirst(jobs: seq<Job>, i: int)
    requires 0 <= i < |jobs| && FirstValid(jobs, i)
    ensures jobs[i] in Deduplicate(jobs)
  {
    DedupSnoc(jobs, i);
    DedupFromAppend(jobs[..i + 1], jobs[i + 1..], {});
    assert jobs[..i + 1] + jobs[i + 1..] == jobs;
  }

  /** Adding one record adds its key to the valid keys when it is valid. */
  lemma ValidKeysSnoc(jobs: seq<Job>, i: int)
    requires 0 <= i < |jobs|
    ensures ValidKeys(jobs[..i + 1]) == ValidKeys(jobs[..i]) + (if Valid(jobs[i]) then {Key(jobs[i])} else {})
  {
    assert jobs[..i + 1] == jobs[..i] + [jobs[i]];
  }

  /** `_deduplicate_jobs` as written: one pass with a `seen` set. */
  method DeduplicateJobs(jobs: seq<Job>) returns (unique: seq<Job>)
    ensures unique == Deduplicate(jobs)
    ensures AllValid(unique) && DistinctKeys(unique)
  {
    var seen: set<string> := {};
    unique := [];
    var i := 0;
    while i < |jobs|
      invariant 0 <= i <= |jobs|
      invariant unique == Deduplicate(jobs[..i])
      invariant seen == ValidKeys(jobs[..i])
    {
      var job := jobs[i];
      var key := Key(job);
      DedupSnoc(jobs, i);
      ValidKeysPrefix(jobs, i);
      ValidKeysSnoc(jobs, i);
      if key !in seen && Valid(job) {
        seen := seen + {key};
        unique := unique + [job];
      }
      i := i + 1;
    }
    assert jobs[..i] == jobs;
    DedupFromDistinct(jobs, {});
  }

  // ---------------------------------------------------------------------
  // Adapters (`AdzunaAPI`, `JSearchAPI`, `USAJobsAPI`)

  const AdzunaIdPlaceholder := "YOUR_ADZUNA_APP_ID"
  const AdzunaKeyPlaceholder := "YOUR_ADZUNA_APP_KEY"
  const RapidApiKeyPlaceholder := "YOUR_RAPIDAPI_KEY"
  const UsaJobsEmailPlaceholder := "your-email@example.com"

  /** One configured job board with its credentials. */
  datatype Adapter =
    | Adzuna(appId: string, appKey: string)
    | JSearch(apiKey: string)
    | UsaJobs(email: string)

  /** The class of an adapter, as `isinstance` sees it. */
  datatype Kind = AdzunaKind | JSearchKind | UsaJobsKind

  function KindOf(a: Adapter): Kind {
    match a
    case Adzuna(_, _) => AdzunaKind
    case JSearch(_) => JSearchKind
    case UsaJobs(_) => UsaJobsKind
  }

  /** `AdzunaAPI(app_id, app_key)`: a missing (`None`) or empty credential,
      both modelled as "", becomes its placeholder. */
  function NewAdzuna(appId: string, appKey: string): Adapter {
    Adzuna(if appId == "" then AdzunaIdPlaceholder else appId,
           if appKey == "" then AdzunaKeyPlaceholder else appKey)
  }

  /** `JSearchAPI(api_key)` */
  function NewJSearch(apiKey: string): Adapter {
    JSearch(if apiKey == "" then RapidApiKeyPlaceholder else apiKey)
  }

  /** `USAJobsAPI(email)` */
  function NewUsaJobs(email: string): Adapter {
    UsaJobs(if email == "" then UsaJobsEmailPlaceholder else email)
  }

  /** `setup_apis`: the adapters in their fixed order, unconfigured. */
  const DefaultAdapters: seq<Adapter> := [NewAdzuna("", ""), NewJSearch(""), NewUsaJobs("")]

  /** Whether the adapter returns `[]` before building a request. USAJobs needs no key. */
  predicate MissingCredentials(a: Adapter) {
    match a
    case Adzuna(id, key) => id == AdzunaIdPlaceholder || key == AdzunaKeyPlaceholder
    case JSearch(key) => key == RapidApiKeyPlaceholder
    case UsaJobs(_) => false
  }

  datatype ParamValue = Text(s: string) | Number(n: int)

  /** One query parameter, in the order the source's dict literal lists it. */
  datatype Param = Param(name: string, value: ParamValue)

  /** The value of the first parameter called `name`. */
  function Lookup(params: seq<Param>, name: string): Option<ParamValue>
    decreases |params|
  {
    if params == [] then None
    else if params[0].name == name then Some(params[0].value)
    else Lookup(params[1..], name)
  }

  /** Parameters before the first one called `name` do not affect its lookup. */
  lemma {:induction false} LookupAfter(a: seq<Param>, b: seq<Param>, name: string)
    requires forall i :: 0 <= i < |a| ==> a[i].name != name
    ensures Lookup(a + b, name) == Lookup(b, name)
    decreases |a|
  {
    if a != [] {
      assert (a + b)[1..] == a[1..] + b;
      LookupAfter(a[1..], b, name);
    } else {
      assert a + b == b;
    }
  }

  /** The lookup finds the first parameter with the name. */
  lemma {:induction false} LookupAt(ps: seq<Param>, i: int, name: string)
    requires 0 <= i < |ps| && ps[i].name == name
    requires forall j :: 0 <= j < i ==> ps[j].name != name
    ensures Lookup(ps, name) == Some(ps[i].value)
    decreases i
  {
    if i > 0 {
      LookupAt(ps[1..], i - 1, name);
    }
  }

  /** Parameters after a found one do not affect its lookup. */
  lemma {:induction false} LookupBefore(a: seq<Param>, b: seq<Param>, name: string)
    requires Lookup(a, name).Some?
    ensures Lookup(a + b, name) == Lookup(a, name)
    decreases |a|
  {
    if a[0].name != name {
      assert (a + b)[1..] == a[1..] + b;
      LookupBefore(a[1..], b, name);
    }
  }

  function Min(a: int, b: int): int {
    if a <= b then a else b
  }

  /** The parameters `search_jobs` sends, or `None` when it returns `[]` first
      because its credentials are placeholders. */
  function BuildRequest(a: Adapter, query: string, location: string, limit: int): Option<seq<Param>> {
    var loc := if location != "" then [Param(if a.Adzuna? then "where" else "LocationName", Text(location))] else [];
    if MissingCredentials(a) then None
    else match a
      case Adzuna(id, key) =>
        Some([Param("app_id", Text(id)), Param("app_key", Text(key)), Param("what", Text(query)),
              Param("results_per_page", Number(Min(limit, 50))), Param("content-type", Text("application/json"))] + loc)
      case JSearch(_) =>
        Some([Param("query", Text(Text.Strip(query + " " + location))), Param("page", Text("1")),
              Param("num_pages", Text("1")), Param("date_posted", Text("all"))])
      case UsaJobs(_) =>
        Some([Param("Keyword", Text(query)), Param("ResultsPerPage", Number(Min(limit, 500))), Param("Page", Number(1))] + loc)
  }

  /** The page size an adapter asks for, if it has one. */
  function PageSizeName(a: Adapter): string {
    if a.Adzuna? then "results_per_page" else "ResultsPerPage"
  }

  function MaxPageSize(a: Adapter): int {
    if a.Adzuna? then 50 else 500
  }

  /** A request is built exactly when the credentials are not placeholders. */
  lemma RequestSkippedIff(a: Adapter, query: string, location: string, limit: int)
    ensures BuildRequest(a, query, location, limit).None? <==> MissingCredentials(a)
  {
  }

  /** The optional location parameter list: it has the name exactly when the location is non-empty. */
  lemma LocationListLookup(name: string, location: string)
    ensures var loc := if location != "" then [Param(name, Text(location))] else [];
      (Lookup(loc, name).Some? <==> location != "") && (location != "" ==> Lookup(loc, name) == Some(Text(location)))
  {
  }

  /** Adzuna and USAJobs clamp the page size to the board's maximum and name the
      location exactly when it is non-empty. */
  lemma PagedRequestShape(a: Adapter, query: string, location: string, limit: int)
    requires !a.JSearch? && !MissingCredentials(a)
    ensures var ps := BuildRequest(a, query, location, limit).value;
      var n := Lookup(ps, PageSizeName(a));
      var locName := if a.Adzuna? then "where" else "LocationName";
      && n.Some? && n.value.Number?
      && n.value.n <= limit && n.value.n <= MaxPageSize(a)
      && (n.value.n == limit || n.value.n == MaxPageSize(a))
      && (Lookup(ps, locName).Some? <==> location != "")
      && (location != "" ==> Lookup(ps, locName) == Some(Text(location)))
      && Lookup(ps, if a.Adzuna? then "what" else "Keyword") == Some(Text(query))
  {
    var locName := if a.Adzuna? then "where" else "LocationName";
    var loc := if location != "" then [Param(locName, Text(location))] else [];
    LocationListLookup(locName, location);
    var base: seq<Param>;
    if a.Adzuna? {
      base := [Param("app_id", Text(a.appId)), Param("app_key", Text(a.appKey)), Param("what", Text(query)),
               Param("results_per_page", Number(Min(limit, 50))), Param("content-type", Text("application/json"))];
    } else {
      base := [Param("Keyword", Text(query)), Param("ResultsPerPage", Number(Min(limit, 500))), Param("Page", Number(1))];
    }
    assert BuildRequest(a, query, location, limit).value == base + loc;
    LookupAfter(base, loc, locName);
    var k := if a.Adzuna? then 3 else 1;
    LookupAt(base, k, PageSizeName(a));
    LookupBefore(base, loc, PageSizeName(a));
    var qName := if a.Adzuna? then "what" else "Keyword";
    LookupAt(base, if a.Adzuna? then 2 else 0, qName);
    LookupBefore(base, loc, qName);
  }

  /** JSearch sends no location or page-size parameter of its own: the location
      is folded into the query text. With no location the query is sent stripped;
      a query and a location with no blank at the outer ends are sent joined by one space. */
  lemma JSearchRequestShape(key: string, query: string, location: string, limit: int)
    requires key != RapidApiKeyPlaceholder
    ensures var ps := BuildRequest(JSearch(key), query, location, limit).value;
      && Lookup(ps, "where").None? && Lookup(ps, "LocationName").None?
      && Lookup(ps, "results_per_page").None? && Lookup(ps, "ResultsPerPage").None?
      && (location == "" ==> Lookup(ps, "query") == Some(Text(Text.Strip(query))))
      && (query != "" && query[0] !in Text.Whitespace && location != "" && location[|location| - 1] !in Text.Whitespace
          ==> Lookup(ps, "query") == Some(Text(query + " " + location)))
  {
    var ps := BuildRequest(JSearch(key), query, location, limit).value;
    var q := Text.Strip(query + " " + location);
    assert ps == [Param("query", Text(q)), Param("page", Text("1")),
                  Param("num_pages", Text("1")), Param("date_posted", Text("all"))];
    LookupAt(ps, 0, "query");
    JSearchParamsLack(ps, "where");
    JSearchParamsLack(ps, "LocationName");
    JSearchParamsLack(ps, "results_per_page");
    JSearchParamsLack(ps, "ResultsPerPage");
    if location == "" {
      StripTrailingSpace(query);
    } else if query != "" && query[0] !in Text.Whitespace && location[|location| - 1] !in Text.Whitespace {
      StripJoinedNoop(query, location);
    }
  }

  lemma JSearchParamsLack(ps: seq<Param>, name: string)
    requires |ps| == 4 && ps[0].name == "query" && ps[1].name == "page"
    requires ps[2].name == "num_pages" && ps[3].name == "date_posted"
    requires name != "query" && name != "page" && name != "num_pages" && name != "date_posted"
    ensures Lookup(ps, name).None?
  {
    LookupAfter(ps, [], name);
    assert ps + [] == ps;
  }

  lemma StripTrailingSpace(query: string)
    ensures Text.Strip(query + " " + "") == Text.Strip(query)
  {
    assert query + " " + "" == query + " ";
    Text.StripCharsAppend(query, " ", Text.Whitespace);
  }

  lemma StripJoinedNoop(query: string, location: string)
    requires query != "" && query[0] !in Text.Whitespace
    requires location != "" && location[|location| - 1] !in Text.Whitespace
    ensures Text.Strip(query + " " + location) == query + " " + location
  {
    var joined := query + " " + location;
    assert joined[0] == query[0];
    assert joined[|joined| - 1] == location[|location| - 1];
    Text.StripCharsNoop(joined, Text.Whitespace);
  }

  /** The adapters built with the default (missing) credentials: Adzuna and
      JSearch skip their request, USAJobs still searches. */
  lemma DefaultCredentials()
    ensures MissingCredentials(DefaultAdapters[0]) && MissingCredentials(DefaultAdapters[1])
    ensures !MissingCredentials(DefaultAdapters[2])
  {
  }

  /** `[standardize(x) for x in raws if standardize(x)]`: the standardized records in order. */
  function Collect<R>(raws: seq<R>, standardize: R -> Option<Job>): (r: seq<Job>)
    ensures |r| <= |raws|
    decreases |raws|
  {
    if raws == [] then []
    else
      var rest := Collect(raws[1..], standardize);
      match standardize(raws[0])
      case Some(j) => [j] + rest
      case None => rest
  }

  /** A record is kept exactly when some raw item standardizes to it. */
  lemma {:induction false} CollectMembers<R>(raws: seq<R>, standardize: R -> Option<Job>, j: Job)
    ensures j in Collect(raws, standardize) <==> exists x :: x in raws && standardize(x) == Some(j)
    decreases |raws|
  {
    if raws != [] {
      CollectMembers(raws[1..], standardize, j);
      assert raws == [raws[0]] + raws[1..];
    }
  }

  /** The filter works item by item and keeps the order of the raw items. */
  lemma {:induction false} CollectAppend<R>(a: seq<R>, b: seq<R>, standardize: R -> Option<Job>)
    ensures Collect(a + b, standardize) == Collect(a, standardize) + Collect(b, standardize)
    decreases |a|
  {
    if a == [] {
      assert a + b == b;
    } else {
      assert (a + b)[0] == a[0] && (a + b)[1..] == a[1..] + b;
      CollectAppend(a[1..], b, standardize);
    }
  }

  /** One raw item gives its standardized record, or nothing. */
  lemma CollectOne<R>(x: R, standardize: R -> Option<Job>)
    ensures Collect([x], standardize) == if standardize(x).Some? then [standardize(x).value] else []
  {
    assert [x][1..] == [];
  }

  /** Python's `xs[:n]`, a negative `n` counting from the end. */
  function PrefixSlice<T>(xs: seq<T>, n: int): (r: seq<T>)
    ensures n >= 0 ==> |r| == Min(n, |xs|)
    ensures n < 0 ==> |r| == if |xs| + n < 0 then 0 else |xs| + n
    ensures r == xs[..|r|]
  {
    if n >= 0 then xs[..Min(n, |xs|)]
    else if |xs| + n < 0 then []
    else xs[..|xs| + n]
  }

  /** `search_jobs`: `[]` when credentials are placeholders or the request or
      decoding raised (`response` is `None`); otherwise the standardized raw
      items, of which JSearch keeps only the first `limit`. */
  function AdapterSearch<R>(a: Adapter, query: string, location: string, limit: int,
                            response: Option<seq<R>>, standardize: R -> Option<Job>): seq<Job>
  {
    if BuildRequest(a, query, location, limit).None? then []
    else match response
      case None => []
      case Some(raws) => Collect(if a.JSearch? then PrefixSlice(raws, limit) else raws, standardize)
  }

  /** Placeholder credentials and failed requests both yield `[]`, never an error. */
  lemma AdapterDegradesToEmpty<R>(a: Adapter, query: string, location: string, limit: int,
                                  response: Option<seq<R>>, standardize: R -> Option<Job>)
    requires MissingCredentials(a) || response.None?
    ensures AdapterSearch(a, query, location, limit, response, standardize) == []
  {
    RequestSkippedIff(a, query, location, limit);
  }

  /** JSearch returns at most `limit` records for a non-negative `limit`. */
  lemma JSearchRespectsLimit<R>(key: string, query: string, location: string, limit: int,
                                response: Option<seq<R>>, standardize: R -> Option<Job>)
    requires limit >= 0
    ensures |AdapterSearch(JSearch(key), query, location, limit, response, standardize)| <= limit
  {
  }

  /** A negative `limit` is a Python slice bound: JSearch then drops that many
      raw items from the end instead of returning nothing. */
  lemma JSearchNegativeLimit(key: string, standardize: int -> Option<Job>)
    requires key != RapidApiKeyPlaceholder
    requires forall x :: standardize(x) == Some(Job("t", "c", "", "", "", "", "", "JSearch"))
    ensures |AdapterSearch(JSearch(key), "q", "", -1, Some([1, 2, 3]), standardize)| == 2
  {
    assert PrefixSlice([1, 2, 3], -1) == [1, 2];
    assert [1, 2][1..] == [2];
  }

  /** The location characters `standardize_job` strips: comma and space. */
  const LocationTrim: set<char> := {',', ' '}

  /** `f"{city}, {state}".strip(', ')` */
  function FormatCityState(city: string, state: string): (r: string)
    ensures r != [] ==> r[0] !in LocationTrim && r[|r| - 1] !in LocationTrim
  {
    Text.StripChars(city + ", " + state, LocationTrim)
  }

  predicate CleanPart(s: string) {
    s != [] && s[0] !in LocationTrim && s[|s| - 1] !in LocationTrim
  }

  /** Two clean parts are kept whole; an empty part takes its separator with it. */
  lemma FormatCityStateCases(city: string, state: string)
    ensures CleanPart(city) && CleanPart(state) ==> FormatCityState(city, state) == city + ", " + state
    ensures state == "" ==> FormatCityState(city, state) == Text.StripChars(city, LocationTrim)
    ensures city == "" ==> FormatCityState(city, state) == Text.StripChars(state, LocationTrim)
  {
    if CleanPart(city) && CleanPart(state) {
      Text.StripCharsNoop(city + ", " + state, LocationTrim);
    }
    if state == "" {
      assert city + ", " + state == city + ", ";
      Text.StripCharsAppend(city, ", ", LocationTrim);
    }
    if city == "" {
      assert city + ", " + state == ", " + state;
      Text.StripCharsPrepend(", ", state, LocationTrim);
    }
  }

  /** A `PositionLocation` entry; absent names are "", and a JSON `null` name is not modelled. */
  datatype Place = Place(city: string, state: string)

  /** The USAJobs location: the first listed place, or "" when none is listed. */
  function UsaJobsLocation(places: seq<Place>): (r: string)
    ensures places == [] ==> r == ""
    ensures places != [] ==> r == FormatCityState(places[0].city, places[0].state)
    ensures r != [] ==> r[0] !in LocationTrim && r[|r| - 1] !in LocationTrim
  {
    if places == [] then "" else FormatCityState(places[0].city, places[0].state)
  }

  // ---------------------------------------------------------------------
  // Aggregation (`search_all_boards`)

  /** The records of the adapters that did not raise, in adapter order. */
  function Gather(outcomes: seq<Option<seq<Job>>>): seq<Job>
    decreases |outcomes|
  {
    if outcomes == [] then []
    else Gather(outcomes[..|outcomes| - 1]) + outcomes[|outcomes| - 1].GetOr([])
  }

  /** `search_all_boards`: the deduplicated concatenation of the adapters' results. */
  function SearchAllBoards(outcomes: seq<Option<seq<Job>>>): seq<Job> {
    Deduplicate(Gather(outcomes))
  }

  /** The loop of `search_all_boards`: an adapter that raises is skipped. */
  method SearchAllBoardsLoop(outcomes: seq<Option<seq<Job>>>) returns (unique: seq<Job>)
    ensures unique == Deduplicate(Gather(outcomes))
  {
    var allJobs: seq<Job> := [];
    var i := 0;
    while i < |outcomes|
      invariant 0 <= i <= |outcomes|
      invariant allJobs == Gather(outcomes[..i])
    {
      assert outcomes[..i + 1][..i] == outcomes[..i];
      if outcomes[i].Some? {
        allJobs := allJobs + outcomes[i].value;
      }
      i := i + 1;
    }
    assert outcomes[..i] == outcomes;
    unique := DeduplicateJobs(allJobs);
  }

  lemma {:induction false} GatherAppend(a: seq<Option<seq<Job>>>, b: seq<Option<seq<Job>>>)
    ensures Gather(a + b) == Gather(a) + Gather(b)
    decreases |b|
  {
    if b == [] {
      assert a + b == a;
    } else {
      var b' := b[..|b| - 1];
      assert (a + b)[..|a + b| - 1] == a + b';
      GatherAppend(a, b');
    }
  }

  lemma GatherSplitAt(o: seq<Option<seq<Job>>>, i: int)
    requires 0 <= i < |o|
    ensures Gather(o) == Gather(o[..i]) + o[i].GetOr([]) + Gather(o[i + 1..])
  {
    SplitAround(o, i);
    GatherThree(o[..i], o[i], o[i + 1..]);
  }

  lemma SplitAround<T>(o: seq<T>, i: int)
    requires 0 <= i < |o|
    ensures o == o[..i] + [o[i]] + o[i + 1..]
  {
  }

  lemma GatherThree(a: seq<Option<seq<Job>>>, x: Option<seq<Job>>, c: seq<Option<seq<Job>>>)
    ensures Gather(a + [x] + c) == Gather(a) + x.GetOr([]) + Gather(c)
  {
    GatherAppend(a + [x], c);
    GatherSnoc(a, x);
  }

  lemma GatherSnoc(a: seq<Option<seq<Job>>>, x: Option<seq<Job>>)
    ensures Gather(a + [x]) == Gather(a) + x.GetOr([])
  {
    assert (a + [x])[..|a|] == a;
  }

  /** An adapter that raises counts as one that found nothing; the others still run. */
  lemma FailureIsolation(o: seq<Option<seq<Job>>>, i: int)
    requires 0 <= i < |o|
    ensures SearchAllBoards(o[i := None]) == SearchAllBoards(o[i := Some([])])
  {
    GatherSplitAt(o[i := None], i);
    GatherSplitAt(o[i := Some([])], i);
    assert o[i := None][..i] == o[..i] == o[i := Some([])][..i];
    assert o[i := None][i + 1..] == o[i + 1..] == o[i := Some([])][i + 1..];
  }

  /** Results of a later adapter only add records whose keys no earlier adapter produced. */
  lemma LaterAdapterAddsNewKeys(o: seq<Option<seq<Job>>>, x: Option<seq<Job>>)
    ensures SearchAllBoards(o + [x]) == SearchAllBoards(o) + DedupFrom(x.GetOr([]), ValidKeys(Gather(o)))
  {
    assert (o + [x])[..|o + [x]| - 1] == o;
    DedupFromAppend(Gather(o), x.GetOr([]), {});
    assert {} + ValidKeys(Gather(o)) == ValidKeys(Gather(o));
  }

  /** Every aggregated record was returned by some adapter that did not raise. */
  lemma {:induction false} SearchAllProvenance(o: seq<Option<seq<Job>>>)
    ensures forall j :: j in SearchAllBoards(o) ==>
      exists i :: 0 <= i < |o| && o[i].Some? && j in o[i].value
  {
    DedupOutputValid(Gather(o));
    forall j | j in Gather(o)
      ensures exists i :: 0 <= i < |o| && o[i].Some? && j in o[i].value
    {
      GatherProvenance(o, j);
    }
  }

  lemma {:induction false} GatherProvenance(o: seq<Option<seq<Job>>>, j: Job)
    requires j in Gather(o)
    ensures exists i :: 0 <= i < |o| && o[i].Some? && j in o[i].value
    decreases |o|
  {
    var n := |o| - 1;
    if j in Gather(o[..n]) {
      GatherProvenance(o[..n], j);
      var i :| 0 <= i < |o[..n]| && o[..n][i].Some? && j in o[..n][i].value;
      assert o[i] == o[..n][i];
    } else {
      assert o[n].Some? && j in o[n].value;
    }
  }

  lemma {:induction false} GatherNothing(o: seq<Option<seq<Job>>>)
    requires forall i :: 0 <= i < |o| ==> o[i].GetOr([]) == []
    ensures Gather(o) == []
    decreases |o|
  {
    if o != [] {
      var p := o[..|o| - 1];
      forall i | 0 <= i < |p|
        ensures p[i].GetOr([]) == []
      {
        assert p[i] == o[i];
      }
      GatherNothing(p);
    }
  }

  /** When no adapter produced a record, the aggregate is empty. */
  lemma SearchAllNothingFound(o: seq<Option<seq<Job>>>)
    requires forall i :: 0 <= i < |o| ==> o[i].GetOr([]) == []
    ensures SearchAllBoards(o) == []
  {
    GatherNothing(o);
  }

  /** Every adapter's `search_jobs` result; adapters catch their own errors, so none raises. */
  function RunAdapters<R>(apis: seq<Adapter>, query: string, location: string, limit: int,
                          responses: seq<Option<seq<R>>>, standardize: R -> Option<Job>): (r: seq<Option<seq<Job>>>)
    requires |responses| == |apis|
    ensures |r| == |apis|
    ensures forall i :: 0 <= i < |apis| ==> r[i] == Some(AdapterSearch(apis[i], query, location, limit, responses[i], standardize))
  {
    seq(|apis|, i requires 0 <= i < |apis| => Some(AdapterSearch(apis[i], query, location, limit, responses[i], standardize)))
  }

  /** With the default set-up only USAJobs is queried, so the aggregate is
      empty exactly when USAJobs finds nothing. */
  lemma DefaultAggregation<R>(query: string, location: string, limit: int,
                              responses: seq<Option<seq<R>>>, standardize: R -> Option<Job>)
    requires |responses| == 3
    ensures SearchAllBoards(RunAdapters(DefaultAdapters, query, location, limit, responses, standardize))
         == Deduplicate(AdapterSearch(DefaultAdapters[2], query, location, limit, responses[2], standardize))
  {
    var o := RunAdapters(DefaultAdapters, query, location, limit, responses, standardize);
    AdapterDegradesToEmpty(DefaultAdapters[0], query, location, limit, responses[0], standardize);
    AdapterDegradesToEmpty(DefaultAdapters[1], query, location, limit, responses[1], standardize);
    var p := o[..2];
    assert p[0] == o[0] && p[1] == o[1];
    GatherNothing(p);
    assert o[..|o| - 1] == p;
    assert Gather(o) == Gather(p) + o[2].GetOr([]);
    assert o[2].GetOr([]) == AdapterSearch(DefaultAdapters[2], query, location, limit, responses[2], standardize);
    assert Gather(o) == [] + o[2].GetOr([]);
    assert SearchAllBoards(o) == Deduplicate(Gather(o));
    assert Gather(o) == AdapterSearch(DefaultAdapters[2], query, location, limit, responses[2], standardize);
    assert SearchAllBoards(o) == Deduplicate(AdapterSearch(DefaultAdapters[2], query, location, limit, responses[2], standardize));
  }

  // ---------------------------------------------------------------------
  // Reconfiguration (`configure_adzuna`, `configure_jsearch`, `configure_usajobs`)

  /** The index of the first adapter of kind `k`, or -1. */
  function FirstOfKind(apis: seq<Adapter>, k: Kind): (i: int)
    ensures -1 <= i < |apis|
    ensures i == -1 <==> forall j :: 0 <= j < |apis| ==> KindOf(apis[j]) != k
    ensures i >= 0 ==> KindOf(apis[i]) == k && forall j :: 0 <= j < i ==> KindOf(apis[j]) != k
    decreases |apis|
  {
    if apis == [] then -1
    else if KindOf(apis[0]) == k then 0
    else
      var j := FirstOfKind(apis[1..], k);
      if j == -1 then -1 else j + 1
  }

  /** The configure loop: the first adapter of the replacement's kind is
      replaced, nothing else changes, and nothing at all when none matches. */
  function Reconfigure(apis: seq<Adapter>, replacement: Adapter): (r: seq<Adapter>)
    ensures |r| == |apis|
    ensures FirstOfKind(apis, KindOf(replacement)) == -1 ==> r == apis
    ensures FirstOfKind(apis, KindOf(replacement)) >= 0 ==> r == apis[FirstOfKind(apis, KindOf(replacement)) := replacement]
    decreases |apis|
  {
    if apis == [] then []
    else if KindOf(apis[0]) == KindOf(replacement) then [replacement] + apis[1..]
    else
      var rest := Reconfigure(apis[1..], replacement);
      assert FirstOfKind(apis, KindOf(replacement)) == -1 <==> FirstOfKind(apis[1..], KindOf(replacement)) == -1;
      [apis[0]] + rest
  }

  function ConfigureAdzuna(apis: seq<Adapter>, appId: string, appKey: string): seq<Adapter> {
    Reconfigure(apis, NewAdzuna(appId, appKey))
  }

  function ConfigureJSearch(apis: seq<Adapter>, apiKey: string): seq<Adapter> {
    Reconfigure(apis, NewJSearch(apiKey))
  }

  function ConfigureUsaJobs(apis: seq<Adapter>, email: string): seq<Adapter> {
    Reconfigure(apis, NewUsaJobs(email))
  }

  /** Configuring Adzuna on the default set-up with real credentials switches
      only Adzuna from skipping to searching; an empty credential keeps the placeholder. */
  lemma ConfigureAdzunaDefault(appId: string, appKey: string)
    ensures var apis := ConfigureAdzuna(DefaultAdapters, appId, appKey);
      && |apis| == 3 && apis[1..] == DefaultAdapters[1..]
      && (MissingCredentials(apis[0]) <==>
            (appId == "" || appKey == "" || appId == AdzunaIdPlaceholder || appKey == AdzunaKeyPlaceholder))
  {
    var d := DefaultAdapters;
    assert KindOf(d[0]) == AdzunaKind;
    assert FirstOfKind(d, AdzunaKind) == 0;
    var apis := Reconfigure(d, NewAdzuna(appId, appKey));
    assert apis == d[0 := NewAdzuna(appId, appKey)];
    assert apis[1..] == d[1..];
  }
}
