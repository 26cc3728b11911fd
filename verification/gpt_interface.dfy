/**
  The pure parts of the job-suggestion client (app/gpt_interface.py): the
  one-line summaries of experience and education put into the prompt, and
  the extraction of the JSON array from the model's reply. The request to
  the model is not modelled; `json.loads` is a parameter.
 */
module GptInterface {
  import opened Wrappers
  import Text

  // ---------------------------------------------------------------------
  // Summaries

  /** An experience entry; `None` is a key missing from the dict. */
  datatype Experience = Experience(title: Option<string>, company: Option<string>, startDate: Option<string>, endDate: Option<string>)

  /** An education entry; `None` is a key missing from the dict. */
  datatype Education = Education(degree: Option<string>, school: Option<string>, year: Option<string>)

  /** "{title} at {company} ({start} - {end})", with "Unknown"/"Present" for missing keys. */
  function ExperienceEntry(e: Experience): string {
    e.title.GetOr("Unknown") + " at " + e.company.GetOr("Unknown")
    + " (" + e.startDate.GetOr("Unknown") + " - " + e.endDate.GetOr("Present") + ")"
  }

  /** "{degree} from {school} ({year})", with "Unknown" for missing keys. */
  function EducationEntry(e: Education): string {
    e.degree.GetOr("Unknown") + " from " + e.school.GetOr("Unknown") + " (" + e.year.GetOr("Unknown") + ")"
  }

  /** The entries joined with "; ", or the fallback text when there are none. */
  function Summary(entries: seq<string>, none: string): string {
    if entries == [] then none else Text.Join("; ", entries)
  }

  function ExperienceEntries(list: seq<Experience>): (entries: seq<string>)
    ensures |entries| == |list| && forall i :: 0 <= i < |list| ==> entries[i] == ExperienceEntry(list[i])
  {
    seq(|list|, i requires 0 <= i < |list| => ExperienceEntry(list[i]))
  }

  function EducationEntries(list: seq<Education>): (entries: seq<string>)
    ensures |entries| == |list| && forall i :: 0 <= i < |list| ==> entries[i] == EducationEntry(list[i])
  {
    seq(|list|, i requires 0 <= i < |list| => EducationEntry(list[i]))
  }

  /** `_summarize_experience(experience_list)` */
  function SummarizeExperience(list: seq<Experience>): string {
    Summary(ExperienceEntries(list), "No experience listed")
  }

  /** `_summarize_education(education_list)` */
  function SummarizeEducation(list: seq<Education>): string {
    Summary(EducationEntries(list), "No education listed")
  }

  predicate EndsWithParen(s: string) {
    s != [] && s[|s| - 1] == ')'
  }

  /** The fallback text comes back exactly when there are no entries, as long
      as entries end in ')' and the fallback does not. */
  lemma {:induction false} SummaryFallbackIff(entries: seq<string>, none: string)
    requires forall i :: 0 <= i < |entries| ==> EndsWithParen(entries[i])
    requires !EndsWithParen(none)
    ensures Summary(entries, none) == none <==> entries == []
  {
    if entries != [] {
      var last := entries[|entries| - 1];
      var j := Text.Join("; ", entries);
      Text.JoinEndsWithLast("; ", entries);
      assert j[|j| - 1] == j[|j| - |last|..][|last| - 1] == ')';
    }
  }

  lemma SummarizeExperienceFallbackIff(list: seq<Experience>)
    ensures SummarizeExperience(list) == "No experience listed" <==> list == []
  {
    SummaryFallbackIff(ExperienceEntries(list), "No experience listed");
  }

  lemma SummarizeEducationFallbackIff(list: seq<Education>)
    ensures SummarizeEducation(list) == "No education listed" <==> list == []
  {
    SummaryFallbackIff(EducationEntries(list), "No education listed");
  }

  /** Splitting a summary at ';' gives back one piece per entry (all but the
      first behind a space) when no entry holds a ';'. */
  lemma SummarySplit(entries: seq<string>, none: string)
    requires entries != []
    requires forall i :: 0 <= i < |entries| ==> ';' !in entries[i]
    ensures Text.Split(Summary(entries, none), ';') == Text.PrefixRest(" ", entries)
  {
    Text.JoinLongSeparator(';', " ", entries);
    assert "; " == [';'] + " ";
    var p := Text.PrefixRest(" ", entries);
    forall i | 0 <= i < |p|
      ensures ';' !in p[i]
    {
      if i > 0 {
        assert p[i] == " " + entries[i];
      }
    }
    Text.SplitJoin(p, ';');
  }

  function FieldOr(v: Option<string>): string {
    v.GetOr("")
  }

  /** With no ';' in any field, the experience summary has one piece per entry. */
  lemma SummarizeExperienceSplit(list: seq<Experience>)
    requires list != []
    requires forall i :: 0 <= i < |list| ==>
      ';' !in FieldOr(list[i].title) && ';' !in FieldOr(list[i].company)
      && ';' !in FieldOr(list[i].startDate) && ';' !in FieldOr(list[i].endDate)
    ensures Text.Split(SummarizeExperience(list), ';') == Text.PrefixRest(" ", ExperienceEntries(list))
  {
    var entries := ExperienceEntries(list);
    forall i | 0 <= i < |entries|
      ensures ';' !in entries[i]
    {
      assert ';' !in list[i].title.GetOr("Unknown");
      assert ';' !in list[i].company.GetOr("Unknown");
      assert ';' !in list[i].startDate.GetOr("Unknown");
      assert ';' !in list[i].endDate.GetOr("Present");
    }
    SummarySplit(entries, "No experience listed");
  }

  /** With no ';' in any field, the education summary has one piece per entry. */
  lemma SummarizeEducationSplit(list: seq<Education>)
    requires list != []
    requires forall i :: 0 <= i < |list| ==>
      ';' !in FieldOr(list[i].degree) && ';' !in FieldOr(list[i].school) && ';' !in FieldOr(list[i].year)
    ensures Text.Split(SummarizeEducation(list), ';') == Text.PrefixRest(" ", EducationEntries(list))
  {
    var entries := EducationEntries(list);
    forall i | 0 <= i < |entries|
      ensures ';' !in entries[i]
    {
      assert ';' !in list[i].degree.GetOr("Unknown");
      assert ';' !in list[i].school.GetOr("Unknown");
      assert ';' !in list[i].year.GetOr("Unknown");
    }
    SummarySplit(entries, "No education listed");
  }

  // ---------------------------------------------------------------------
  // The JSON array in the reply

  /** `content[start:end]` with Python's clamping: empty when `end <= start`. */
  function Slice(s: string, start: nat, end: nat): (r: string)
    requires start <= |s| && end <= |s|
    ensures start < end ==> r == s[start..end]
    ensures end <= start ==> r == ""
  {
    if start < end then s[start..end] else ""
  }

  /** `content[content.find('['):content.rfind(']') + 1]`, the text handed to
      `json.loads` once a '[' has been found. */
  function Candidate(content: string): string
    requires '[' in content
  {
    Slice(content, Text.Find(content, '['), Text.RFind(content, ']') + 1)
  }

  /** `_parse_job_response(content)`; `None` stands for the `[]` returned when
      no '[' is found or `json.loads` raises (`decode` gives `None`). */
  function ParseJobResponse<J>(content: string, decode: string -> Option<J>): Option<J> {
    var start := Text.Find(content, '[');
    var end := Text.RFind(content, ']') + 1;
    // `end` is never -1, so only the '[' test decides
    if start != -1 && end != -1 then decode(Candidate(content)) else None
  }

  /** Without a '[' the parser gives up before decoding. */
  lemma NoBracketNoJobs<J>(content: string, decode: string -> Option<J>)
    requires '[' !in content
    ensures ParseJobResponse(content, decode) == None
  {
  }

  /** Some ']' after some '['. */
  predicate BracketPair(content: string) {
    exists i, j :: 0 <= i < j < |content| && content[i] == '[' && content[j] == ']'
  }

  /** A '[' followed by a ']' gives a candidate from the first '[' to the last ']' inclusive. */
  lemma CandidateOfPair(content: string)
    requires '[' in content && BracketPair(content)
    ensures var c := Candidate(content);
      && var start := Text.Find(content, '['); var last := Text.RFind(content, ']');
      && 0 <= start < last && c == content[start..last + 1]
  {
    var i, j :| 0 <= i < j < |content| && content[i] == '[' && content[j] == ']';
    Text.FindAtMost(content, '[', i);
    Text.RFindAtLeast(content, ']', j);
  }

  /** When the last ']' comes before the first '[', no ']' follows any '['. */
  lemma NoPairWhenCrossed(content: string)
    requires '[' in content
    requires Text.RFind(content, ']') < Text.Find(content, '[')
    ensures !BracketPair(content)
  {
    forall i, j | 0 <= i < |content| && 0 <= j < |content| && content[i] == '[' && content[j] == ']'
      ensures j < i
    {
      Text.FindAtMost(content, '[', i);
      Text.RFindAtLeast(content, ']', j);
    }
  }

  /** The candidate is non-empty exactly when some ']' follows some '['; it
      then starts with '[' and ends with ']'. */
  lemma CandidateShape(content: string)
    requires '[' in content
    ensures Candidate(content) != "" <==> BracketPair(content)
    ensures Candidate(content) != "" ==>
      var c := Candidate(content); c[0] == '[' && c[|c| - 1] == ']'
  {
    var start := Text.Find(content, '[');
    var last := Text.RFind(content, ']');
    var c := Candidate(content);
    if start < last + 1 {
      assert c == content[start..last + 1];
      assert content[start] == '[' && content[last] == ']';
      assert 0 <= start < last < |content|;
    } else {
      assert c == "";
      NoPairWhenCrossed(content);
    }
  }

  /** The guard the code evidently meant, `end > start` with a ']' present. */
  function ParseJobResponseIntended<J>(content: string, decode: string -> Option<J>): Option<J> {
    var start := Text.Find(content, '[');
    var last := Text.RFind(content, ']');
    if start != -1 && last != -1 && last > start then decode(content[start..last + 1]) else None
  }

  /** The vacuous `end_idx != -1` test costs nothing: when '[' has no ']' after
      it the candidate is empty, which `json.loads` rejects, so the reply
      parses as under the intended guard. */
  lemma VacuousGuardHarmless<J>(content: string, decode: string -> Option<J>)
    requires decode("") == None
    ensures ParseJobResponse(content, decode) == ParseJobResponseIntended(content, decode)
  {
  }

  /** An array wrapped in prose without brackets is exactly what gets decoded. */
  lemma {:induction false} EmbeddedArray<J>(before: string, arr: string, after: string, decode: string -> Option<J>)
    requires '[' !in before && ']' !in after
    requires |arr| >= 2 && arr[0] == '[' && arr[|arr| - 1] == ']'
    ensures ParseJobResponse(before + arr + after, decode) == decode(arr)
  {
    var content := before + arr + after;
    assert arr[0] == '[' && arr[|arr| - 1] == ']';
    Text.FindAfterPrefix(before, arr + after, '[');
    assert (arr + after)[0] == '[';
    assert before + arr + after == before + (arr + after);
    assert (before + arr)[|before + arr| - 1] == ']';
    Text.RFindBeforeSuffix(before + arr, after, ']');
    assert (before + arr)[..|before|] == before;
    var start := Text.Find(content, '[');
    var last := Text.RFind(content, ']');
    assert start == |before|;
    assert last == |before| + |arr| - 1;
    assert content[start..last + 1] == arr;
  }
}
