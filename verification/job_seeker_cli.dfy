/**
  The pure steps of the command-line driver (main.py): reading one answer
  to the job-selection prompt, naming the output files, and keeping the
  paths of the résumés that were written. Console input, rendering and the
  PDF converter are not modelled; the rendering outcomes are a parameter.
 */
module JobSeekerCli {
  import opened Wrappers
  import Text

  // ---------------------------------------------------------------------
  // One answer to the selection prompt

  /** The outcome of one pass of the `select_jobs` loop: a result, or another prompt. */
  datatype Selection<T> = Selected(jobs: seq<T>) | Retry

  /** The tokens of a lower-cased, stripped answer: comma-separated pieces,
      each stripped, if there is a comma; whitespace-separated words otherwise. */
  function Tokens(answer: string): (tokens: seq<string>)
    ensures ',' !in answer ==> tokens == Text.SplitWhitespace(answer)
  {
    if ',' in answer then
      var parts := Text.Split(answer, ',');
      seq(|parts|, i requires 0 <= i < |parts| => Text.Strip(parts[i]))
    else Text.SplitWhitespace(answer)
  }

  /** Items without commas or surrounding blanks, joined by commas, come back as
      the tokens (the comma branch; `TypedAnswerTokens` covers the other). */
  lemma TokensCommaRoundTrip(items: seq<string>)
    requires |items| >= 2
    requires forall i :: 0 <= i < |items| ==> ',' !in items[i] && Text.Strip(items[i]) == items[i]
    ensures Tokens(Text.Join(",", items)) == items
  {
    var answer := Text.Join(",", items);
    CommaJoin(items);
    MapFixed(items, Text.Strip);
  }

  lemma MapFixed<A>(xs: seq<A>, f: A -> A)
    requires forall i :: 0 <= i < |xs| ==> f(xs[i]) == xs[i]
    ensures seq(|xs|, i requires 0 <= i < |xs| => f(xs[i])) == xs
  {
  }

  lemma CommaJoin(items: seq<string>)
    requires |items| >= 2
    requires forall i :: 0 <= i < |items| ==> ',' !in items[i]
    ensures ',' in Text.Join(",", items)
    ensures Text.Split(Text.Join(",", items), ',') == items
  {
    var answer := Text.Join(",", items);
    assert answer == items[0] + "," + Text.Join(",", items[1..]);
    assert answer[|items[0]|] == ',';
    assert "," == [','];
    Text.SplitJoin(items, ',');
  }

  /** `[int(x) for x in tokens]`; `None` where one `int()` raises `ValueError`. */
  function ParseAll(tokens: seq<string>): (r: Option<seq<int>>)
    ensures r.Some? <==> forall i :: 0 <= i < |tokens| ==> Text.ParseInt(tokens[i]).Some?
    ensures r.Some? ==> (|r.value| == |tokens|
      && forall i :: 0 <= i < |tokens| ==> Text.ParseInt(tokens[i]) == Some(r.value[i]))
    decreases |tokens|
  {
    if tokens == [] then Some([])
    else
      var head := Text.ParseInt(tokens[0]);
      var rest := ParseAll(tokens[1..]);
      TokensTail(tokens);
      if head.None? || rest.None? then None
      else
        ParsedCons(tokens, head.value, rest.value);
        Some([head.value] + rest.value)
  }

  lemma TokensTail(tokens: seq<string>)
    requires tokens != []
    ensures forall i :: 1 <= i < |tokens| ==> tokens[i] == tokens[1..][i - 1]
  {
  }

  /** The numbers of the first token and of the others make the numbers of all. */
  lemma ParsedCons(tokens: seq<string>, h: int, rest: seq<int>)
    requires tokens != [] && Text.ParseInt(tokens[0]) == Some(h) && |rest| == |tokens| - 1
    requires forall i :: 0 <= i < |rest| ==> Text.ParseInt(tokens[1..][i]) == Some(rest[i])
    ensures forall i :: 0 <= i < |tokens| ==> Text.ParseInt(tokens[i]) == Some(([h] + rest)[i])
  {
    PointwiseCons(tokens, h, rest, Text.ParseInt);
  }

  lemma PointwiseCons<A, B>(xs: seq<A>, h: B, rest: seq<B>, f: A -> Option<B>)
    requires xs != [] && f(xs[0]) == Some(h) && |rest| == |xs| - 1
    requires forall i :: 0 <= i < |rest| ==> f(xs[1..][i]) == Some(rest[i])
    ensures forall i :: 0 <= i < |xs| ==> f(xs[i]) == Some(([h] + rest)[i])
  {
    forall i | 0 <= i < |xs| ensures f(xs[i]) == Some(([h] + rest)[i]) {
      if i > 0 {
        assert xs[i] == xs[1..][i - 1];
      }
    }
  }

  /** The jobs at the in-range 1-based numbers, in the order given, repeats kept. */
  function Pick<T>(numbers: seq<int>, jobs: seq<T>): (picked: seq<T>)
    ensures |picked| <= |numbers|
    ensures forall k :: 0 <= k < |picked| ==> picked[k] in jobs
    decreases |numbers|
  {
    if numbers == [] then []
    else
      var rest := Pick(numbers[1..], jobs);
      var n := numbers[0];
      if 1 <= n <= |jobs| then [jobs[n - 1]] + rest else rest
  }

  /** The numbers are handled one by one, in order: the selection for `a + b` is
      that for `a` followed by that for `b`. */
  lemma {:induction false} PickAppend<T>(a: seq<int>, b: seq<int>, jobs: seq<T>)
    ensures Pick(a + b, jobs) == Pick(a, jobs) + Pick(b, jobs)
    decreases |a|
  {
    if a == [] {
      assert a + b == b;
    } else {
      assert (a + b)[0] == a[0] && (a + b)[1..] == a[1..] + b;
      PickAppend(a[1..], b, jobs);
    }
  }

  /** One number picks the job it names when in range, and is skipped otherwise. */
  lemma PickOne<T>(n: int, jobs: seq<T>)
    ensures Pick([n], jobs) == if 1 <= n <= |jobs| then [jobs[n - 1]] else []
  {
    assert [n][1..] == [];
  }

  /** Every job picked sits at one of the in-range numbers given. */
  lemma {:induction false} PickProvenance<T>(numbers: seq<int>, jobs: seq<T>, k: int)
    requires 0 <= k < |Pick(numbers, jobs)|
    ensures exists j :: 0 <= j < |numbers| && 1 <= numbers[j] <= |jobs| && Pick(numbers, jobs)[k] == jobs[numbers[j] - 1]
    decreases |numbers|
  {
    var rest := Pick(numbers[1..], jobs);
    var n := numbers[0];
    if 1 <= n <= |jobs| && k == 0 {
      assert Pick(numbers, jobs)[0] == jobs[numbers[0] - 1];
    } else {
      var k' := if 1 <= n <= |jobs| then k - 1 else k;
      assert Pick(numbers, jobs)[k] == rest[k'];
      PickProvenance(numbers[1..], jobs, k');
      var j :| 0 <= j < |numbers[1..]| && 1 <= numbers[1..][j] <= |jobs| && rest[k'] == jobs[numbers[1..][j] - 1];
      assert numbers[1..][j] == numbers[j + 1];
    }
  }

  /** `input(...).strip().lower()` */
  function Normalize(answer: string): string {
    Text.Lower(Text.Strip(answer))
  }

  /** One pass of the `select_jobs` loop on the answer typed. */
  function SelectStep<T>(answer: string, jobs: seq<T>): Selection<T> {
    if jobs == [] then Selected([]) else Choose(Normalize(answer), jobs)
  }

  /** The choice made from a normalised answer. */
  function Choose<T>(a: string, jobs: seq<T>): Selection<T> {
      if a == "none" then Selected([])
      else if a == "all" then Selected(jobs)
      else
        var numbers := ParseAll(Tokens(a));
        if numbers.None? then Retry
        else
          var picked := Pick(numbers.value, jobs);
          if picked == [] then Retry else Selected(picked)
  }

  /** The jobs at the given numbers, when all are in range. */
  function AtNumbers<T>(numbers: seq<int>, jobs: seq<T>): (r: seq<T>)
    requires forall i :: 0 <= i < |numbers| ==> 1 <= numbers[i] <= |jobs|
    ensures |r| == |numbers|
  {
    seq(|numbers|, i requires 0 <= i < |numbers| => jobs[numbers[i] - 1])
  }

  /** With every number in range nothing is skipped. */
  lemma {:induction false} PickInRange<T>(numbers: seq<int>, jobs: seq<T>)
    requires forall i :: 0 <= i < |numbers| ==> 1 <= numbers[i] <= |jobs|
    ensures Pick(numbers, jobs) == AtNumbers(numbers, jobs)
    decreases |numbers|
  {
    if numbers != [] {
      PickInRange(numbers[1..], jobs);
    }
  }

  /** With no number in range nothing is picked. */
  lemma {:induction false} PickOutOfRange<T>(numbers: seq<int>, jobs: seq<T>)
    requires forall i :: 0 <= i < |numbers| ==> numbers[i] < 1 || numbers[i] > |jobs|
    ensures Pick(numbers, jobs) == []
    decreases |numbers|
  {
    if numbers != [] {
      PickOutOfRange(numbers[1..], jobs);
    }
  }

  /** The numbers as a user would type them: decimal, separated by single spaces. */
  function Typed(numbers: seq<nat>): (words: seq<string>)
    ensures |words| == |numbers|
    ensures forall i :: 0 <= i < |numbers| ==> words[i] == Text.DecimalString(numbers[i])
  {
    seq(|numbers|, i requires 0 <= i < |numbers| => Text.DecimalString(numbers[i]))
  }

  lemma DigitsNotSpace(s: string)
    requires forall k :: 0 <= k < |s| ==> Text.IsDigit(s[k])
    ensures forall k :: 0 <= k < |s| ==> !Text.IsSpace(s[k]) && !Text.IsUpperLetter(s[k]) && s[k] != ','
  {
  }

  /** The typed words are non-empty runs of digits. */
  lemma TypedWords(numbers: seq<nat>)
    ensures var words := Typed(numbers);
      && (forall i :: 0 <= i < |words| ==> words[i] != [])
      && (forall i, k :: 0 <= i < |words| && 0 <= k < |words[i]| ==> Text.IsDigit(words[i][k]))
      && (forall i, k :: 0 <= i < |words| && 0 <= k < |words[i]| ==> !Text.IsSpace(words[i][k]))
  {
  }

  /** A typed answer survives `.strip().lower()` and is neither keyword. */
  lemma {:induction false} TypedAnswerNormal(numbers: seq<nat>)
    requires numbers != []
    ensures var answer := Text.Join(" ", Typed(numbers));
      && Text.Lower(Text.Strip(answer)) == answer
      && answer != "none" && answer != "all"
      && ',' !in answer
  {
    var words := Typed(numbers);
    var answer := Text.Join(" ", words);
    TypedWords(numbers);
    assert DigitsAndSpaces(answer) by {
      AnswerChars(words);
    }
    assert answer != [] && Text.IsDigit(answer[0]) && Text.IsDigit(answer[|answer| - 1]) by {
      Text.JoinStartsWithFirst(" ", words);
      Text.JoinEndsWithLast(" ", words);
      var first := words[0];
      var last := words[|words| - 1];
      assert answer[0] == answer[..|first|][0] == first[0];
      assert answer[|answer| - 1] == answer[|answer| - |last|..][|last| - 1] == last[|last| - 1];
    }
    assert answer != "none" && answer != "all" by {
      assert "none"[0] == 'n' && "all"[0] == 'a';
    }
    assert ',' !in answer by {
      assert forall k :: 0 <= k < |answer| ==> answer[k] != ',';
    }
    NormalizeFixed(answer);
  }

  /** A space-separated answer of decimal numbers has those numbers as its tokens. */
  lemma TypedAnswerTokens(numbers: seq<nat>)
    ensures ParseAll(Tokens(Text.Join(" ", Typed(numbers)))) == Some(numbers)
  {
    var words := Typed(numbers);
    TypedWords(numbers);
    AnswerChars(words);
    Text.SplitWhitespaceJoin(words);
    var answer := Text.Join(" ", words);
    assert forall k :: 0 <= k < |answer| ==> answer[k] != ',';
    assert Tokens(answer) == words;
    forall i | 0 <= i < |numbers|
      ensures Text.ParseInt(words[i]) == Some(numbers[i] as int)
    {
      Text.ParseIntDecimal(numbers[i]);
    }
    ParseAllOfTyped(numbers);
  }

  predicate DigitsAndSpaces(s: string) {
    forall k :: 0 <= k < |s| ==> Text.IsDigit(s[k]) || s[k] == ' '
  }

  /** Every character of the joined answer is a digit or a space. */
  lemma {:induction false} AnswerChars(words: seq<string>)
    requires forall i, k :: 0 <= i < |words| && 0 <= k < |words[i]| ==> Text.IsDigit(words[i][k])
    ensures DigitsAndSpaces(Text.Join(" ", words))
    decreases |words|
  {
    if |words| > 1 {
      AnswerChars(words[1..]);
      var s := Text.Join(" ", words);
      var t := Text.Join(" ", words[1..]);
      assert DigitsAndSpaces(t);
      assert s == words[0] + " " + t;
      forall k | 0 <= k < |s|
        ensures Text.IsDigit(s[k]) || s[k] == ' '
      {
        if k < |words[0]| {
          assert s[k] == words[0][k];
          assert Text.IsDigit(words[0][k]);
        } else if k == |words[0]| {
          assert s[k] == " "[0];
        } else {
          assert s[k] == t[k - |words[0]| - 1];
        }
      }
    }
  }

  lemma ParseAllOfTyped(numbers: seq<nat>)
    requires forall i :: 0 <= i < |numbers| ==> Text.ParseInt(Typed(numbers)[i]) == Some(numbers[i] as int)
    ensures ParseAll(Typed(numbers)) == Some(numbers)
  {
    var r := ParseAll(Typed(numbers));
    assert r.Some?;
    assert r.value == numbers;
  }

  /** Typing valid job numbers separated by spaces selects exactly those jobs,
      in that order, repeats included. */
  lemma TypedNumbersSelect<T>(numbers: seq<nat>, jobs: seq<T>)
    requires numbers != []
    requires forall i :: 0 <= i < |numbers| ==> 1 <= numbers[i] <= |jobs|
    ensures SelectStep(Text.Join(" ", Typed(numbers)), jobs) == Selected(AtNumbers(numbers, jobs))
  {
    TypedAnswerNormal(numbers);
    TypedAnswerTokens(numbers);
    PickInRange(numbers, jobs);
  }

  /** The answer is read case-insensitively: lower-casing it first changes nothing. */
  lemma SelectCaseInsensitive<T>(answer: string, jobs: seq<T>)
    ensures SelectStep(Text.Lower(answer), jobs) == SelectStep(answer, jobs)
  {
    NormalizeLower(answer);
  }

  lemma NormalizeLower(answer: string)
    ensures Normalize(Text.Lower(answer)) == Normalize(answer)
  {
    Text.LowerStrip(answer);
    Text.LowerIdempotent(Text.Strip(answer));
  }

  /** Numbers that parse but are all out of range ask again. */
  lemma OutOfRangeRetries<T>(answer: string, jobs: seq<T>)
    requires jobs != []
    requires var a := Text.Lower(Text.Strip(answer));
      && a != "none" && a != "all"
      && var numbers := ParseAll(Tokens(a));
      && numbers.Some? && forall i :: 0 <= i < |numbers.value| ==> numbers.value[i] < 1 || numbers.value[i] > |jobs|
    ensures SelectStep(answer, jobs) == Retry
  {
    PickOutOfRange(ParseAll(Tokens(Text.Lower(Text.Strip(answer)))).value, jobs);
  }

  /** A blank answer yields no token and so no job: the prompt repeats. */
  lemma BlankAnswerRetries<T>(answer: string, jobs: seq<T>)
    requires jobs != [] && Text.Strip(answer) == ""
    ensures SelectStep(answer, jobs) == Retry
  {
    assert Normalize(answer) == "";
    assert Tokens("") == [];
    PickOutOfRange([], jobs);
  }

  /** A token that `int()` rejects makes the whole answer be asked again,
      whatever the other tokens are. */
  lemma NonIntegerRetries<T>(answer: string, jobs: seq<T>, i: int)
    requires jobs != []
    requires var a := Normalize(answer);
      && a != "none" && a != "all"
      && 0 <= i < |Tokens(a)| && Text.ParseInt(Tokens(a)[i]).None?
    ensures SelectStep(answer, jobs) == Retry
  {
  }

  predicate DigitRun(s: string) {
    s != [] && forall k :: 0 <= k < |s| ==> Text.IsDigit(s[k])
  }

  /** An answer with no blank at either end and no upper-case letter is already normal. */
  lemma NormalizeFixed(s: string)
    requires s != [] && !Text.IsSpace(s[0]) && !Text.IsSpace(s[|s| - 1])
    requires forall k :: 0 <= k < |s| ==> !Text.IsUpperLetter(s[k])
    ensures Normalize(s) == s
  {
    Text.WhitespaceIsSpace(s[0]);
    Text.WhitespaceIsSpace(s[|s| - 1]);
    Text.StripCharsNoop(s, Text.Whitespace);
    Text.LowerFixed(s);
  }

  /** An answer that is already normal is chosen from as typed. */
  lemma SelectNormal<T>(s: string, jobs: seq<T>)
    requires jobs != []
    requires s != [] && !Text.IsSpace(s[0]) && !Text.IsSpace(s[|s| - 1])
    requires forall k :: 0 <= k < |s| ==> !Text.IsUpperLetter(s[k])
    ensures SelectStep(s, jobs) == Choose(s, jobs)
  {
    NormalizeFixed(s);
  }

  /** The characters of `a + ",," + b` for two digit runs. */
  lemma DoubleCommaChars(a: string, b: string)
    requires DigitRun(a) && DigitRun(b)
    ensures var s := a + ",," + b;
      && Text.IsDigit(s[0]) && Text.IsDigit(s[|s| - 1])
      && (forall k :: 0 <= k < |s| ==> !Text.IsUpperLetter(s[k]))
      && ',' !in a && ',' !in b
  {
    var s := a + ",," + b;
    assert s[0] == a[0] && s[|s| - 1] == b[|b| - 1];
    forall k | 0 <= k < |s| ensures !Text.IsUpperLetter(s[k]) {
      if k < |a| { assert s[k] == a[k]; }
      else if k >= |a| + 2 { assert s[k] == b[k - |a| - 2]; }
    }
  }

  /** `a + ",," + b` is the three pieces `a`, "" and `b` joined by commas. */
  lemma DoubleCommaJoin(a: string, b: string)
    ensures Text.Join([','], [a, "", b]) == a + ",," + b
  {
    assert Text.Join([','], [b]) == b;
    assert ["", b][1..] == [b];
    assert Text.Join([','], ["", b]) == "" + [','] + b;
    assert [a, "", b][1..] == ["", b];
    assert Text.Join([','], [a, "", b]) == a + [','] + ("" + [','] + b);
  }

  /** Two numbers with an empty piece between commas ("1,,2"): `int('')`
      raises, so the prompt repeats. */
  lemma EmptyTokenRetries<T>(a: string, b: string, jobs: seq<T>)
    requires jobs != [] && DigitRun(a) && DigitRun(b)
    ensures SelectStep(a + ",," + b, jobs) == Retry
  {
    var answer := a + ",," + b;
    DoubleCommaChars(a, b);
    SelectNormal(answer, jobs);
    assert answer != "none" && answer != "all" by {
      assert "none"[0] == 'n' && "all"[0] == 'a';
    }
    DoubleCommaTokens(a, b);
    assert Text.ParseInt("").None?;
    ChooseBadToken(answer, jobs, 1);
  }

  /** The middle token of `a + ",," + b` is empty. */
  lemma DoubleCommaTokens(a: string, b: string)
    requires ',' !in a && ',' !in b
    ensures |Tokens(a + ",," + b)| == 3 && Tokens(a + ",," + b)[1] == ""
  {
    var answer := a + ",," + b;
    var parts := Text.Split(answer, ',');
    assert parts == [a, "", b] by {
      DoubleCommaJoin(a, b);
      Text.SplitJoin([a, "", b], ',');
    }
    assert ',' in answer by {
      assert answer[|a|] == ',';
    }
    var tokens := seq(|parts|, i requires 0 <= i < |parts| => Text.Strip(parts[i]));
    assert Tokens(answer) == tokens;
    assert tokens[1] == Text.Strip("");
    Text.StripCharsNoop("", Text.Whitespace);
  }

  /** A token that `int()` rejects makes the choice a retry. */
  lemma ChooseBadToken<T>(a: string, jobs: seq<T>, i: int)
    requires a != "none" && a != "all"
    requires 0 <= i < |Tokens(a)| && Text.ParseInt(Tokens(a)[i]).None?
    ensures Choose(a, jobs) == Retry
  {
  }

  // ---------------------------------------------------------------------
  // Output file names

  /** `.replace(' ', '_').replace(',', '')` */
  function Sanitize(s: string): (r: string)
    ensures ' ' !in r && ',' !in r
    ensures |r| <= |s|
  {
    var r := Text.RemoveChar(Text.ReplaceChar(s, ' ', '_'), ',');
    Text.RemoveCharLength(Text.ReplaceChar(s, ' ', '_'), ',');
    r
  }

  /** Names are rewritten character by character. */
  lemma SanitizeAppend(a: string, b: string)
    ensures Sanitize(a + b) == Sanitize(a) + Sanitize(b)
  {
    Text.ReplaceCharAppend(a, b, ' ', '_');
    Text.RemoveCharAppend(Text.ReplaceChar(a, ' ', '_'), Text.ReplaceChar(b, ' ', '_'), ',');
  }

  /** A blank becomes '_', a comma is dropped, any other character is kept. */
  lemma SanitizeChar(c: char)
    ensures Sanitize([c]) == if c == ' ' then "_" else if c == ',' then "" else [c]
  {
    var x := if c == ' ' then '_' else c;
    var t := Text.ReplaceChar([c], ' ', '_');
    assert t == [x];
    assert Text.RemoveChar(t, ',') == if x == ',' then [] else [x] by {
      assert t[0] == x && t[1..] == [];
    }
  }

  /** Names without blanks or commas pass through unchanged. */
  lemma SanitizeClean(s: string)
    requires ' ' !in s && ',' !in s
    ensures Sanitize(s) == s
  {
    Text.ReplaceCharAbsent(s, ' ', '_');
    Text.RemoveCharAbsent(s, ',');
  }

  /** The job fields the driver reads; `None` is a missing key. */
  datatype JobRef = JobRef(company: Option<string>, title: Option<string>)

  const OutputDir: string := "data/output/"

  /** The part of the file name before the extension. */
  function Stem(job: JobRef): string {
    "resume_" + Sanitize(job.company.GetOr("Company")) + "_" + Sanitize(job.title.GetOr("Position"))
  }

  /** `f"data/output/resume_{company}_{title}.html"` */
  function HtmlPath(job: JobRef): string {
    OutputDir + Stem(job) + ".html"
  }

  /** `output_path.replace('.html', '.pdf')` */
  function PdfPath(htmlPath: string): string {
    Text.ReplaceAll(htmlPath, ".html", ".pdf")
  }

  /** A path holds no blank and no comma past the directory, and ends in ".html". */
  lemma HtmlPathShape(job: JobRef)
    ensures var p := HtmlPath(job);
      && p[..|OutputDir|] == OutputDir && p[|p| - 5..] == ".html"
      && ' ' !in p[|OutputDir|..] && ',' !in p[|OutputDir|..]
  {
    var p := HtmlPath(job);
    var c := Sanitize(job.company.GetOr("Company"));
    var t := Sanitize(job.title.GetOr("Position"));
    assert p[|OutputDir|..] == "resume_" + c + "_" + t + ".html";
  }

  /** Distinct jobs can share a file name, so a later résumé overwrites an earlier one. */
  lemma FileNameCollision()
    ensures HtmlPath(JobRef(Some("A B"), None)) == HtmlPath(JobRef(Some("A_B"), None))
    ensures HtmlPath(JobRef(Some("A,B"), None)) == HtmlPath(JobRef(Some("AB"), None))
  {
    assert Text.ReplaceChar("A B", ' ', '_') == "A_B";
    SanitizeClean("A_B");
    Text.RemoveCharAbsent("A_B", ',');
    Text.ReplaceCharAbsent("A,B", ' ', '_');
    SanitizeClean("AB");
    assert Text.RemoveChar("A,B", ',') == "AB";
  }

  /** When neither name holds ".html", the PDF path is the HTML path with its
      extension changed. */
  lemma PdfPathSwapsExtension(job: JobRef)
    requires !Text.Contains(Sanitize(job.company.GetOr("Company")), ".html")
    requires !Text.Contains(Sanitize(job.title.GetOr("Position")), ".html")
    ensures PdfPath(HtmlPath(job)) == OutputDir + Stem(job) + ".pdf"
  {
    var c := Sanitize(job.company.GetOr("Company"));
    var t := Sanitize(job.title.GetOr("Position"));
    var x := OutputDir + Stem(job);
    StemLacksExtension(c, t);
    assert x == OutputDir + "resume_" + c + "_" + t;
    assert HtmlPath(job) == x + ".html";
    Text.ReplaceAllSuffix(x, ".html", ".pdf");
  }

  /** The path up to the extension lacks ".html" when both names do. */
  lemma StemLacksExtension(c: string, t: string)
    requires !Text.Contains(c, ".html") && !Text.Contains(t, ".html")
    ensures !Text.Contains(OutputDir + "resume_" + c + "_" + t, ".html")
  {
    Text.NotContainsAround(c, '_', t, ".html");
    assert '.' !in "resume_" && '.' !in OutputDir;
    Text.NotContainsPrepend("resume_", c + "_" + t, ".html");
    Text.NotContainsPrepend(OutputDir, "resume_" + (c + "_" + t), ".html");
    assert OutputDir + "resume_" + c + "_" + t == OutputDir + ("resume_" + (c + "_" + t));
  }

  /** Both copies of the pattern are replaced when it is doubled at the end. */
  lemma ReplaceDoubledExtension(x: string)
    requires !Text.Contains(x, ".html")
    ensures Text.ReplaceAll(x + ".html" + ".html", ".html", ".pdf") == x + ".pdf" + ".pdf"
  {
    Text.ReplaceAllFirstMatch(x, ".html", ".html", ".pdf");
    Text.ReplaceAllSuffix([], ".html", ".pdf");
    assert [] + ".html" == ".html";
    assert [] + ".pdf" == ".pdf";
  }

  /** The HTML path of a job whose title ends in ".html". */
  lemma HtmlPathOfHtmlTitle(job: JobRef, w: string)
    requires job.title == Some(w + ".html")
    requires ' ' !in w && ',' !in w
    ensures HtmlPath(job) == OutputDir + "resume_" + Sanitize(job.company.GetOr("Company")) + "_" + w + ".html" + ".html"
  {
    var c := Sanitize(job.company.GetOr("Company"));
    var ext := ".html";
    var t := w + ext;
    assert Sanitize(t) == t by {
      assert ' ' !in ext && ',' !in ext;
      SanitizeClean(t);
    }
    var x := "resume_" + c + "_";
    assert Stem(job) == x + t;
    Text.ConcatAssoc(OutputDir + x, w, ext);
    Text.ConcatAssoc(OutputDir, x, t);
  }

  /** A title that itself ends in ".html" gets ".pdf" twice: every occurrence is
      rewritten, not only the extension. */
  lemma PdfPathRewritesTitle(job: JobRef, w: string)
    requires job.title == Some(w + ".html")
    requires ' ' !in w && ',' !in w && !Text.Contains(w, ".html")
    requires !Text.Contains(Sanitize(job.company.GetOr("Company")), ".html")
    ensures PdfPath(HtmlPath(job))
         == OutputDir + "resume_" + Sanitize(job.company.GetOr("Company")) + "_" + w + ".pdf" + ".pdf"
  {
    var c := Sanitize(job.company.GetOr("Company"));
    var x := OutputDir + "resume_" + c + "_" + w;
    StemLacksExtension(c, w);
    HtmlPathOfHtmlTitle(job, w);
    var h := HtmlPath(job);
    assert h == x + ".html" + ".html";
    ReplaceDoubledExtension(x);
    assert PdfPath(h) == x + ".pdf" + ".pdf";
  }

  // ---------------------------------------------------------------------
  // The paths reported

  /** `resume_files`: the HTML paths of the jobs whose rendering succeeded, in order. */
  function CreatedPaths(jobs: seq<JobRef>, rendered: seq<bool>): (paths: seq<string>)
    requires |rendered| == |jobs|
    ensures |paths| <= |jobs|
    ensures forall k :: 0 <= k < |paths| ==> exists i :: 0 <= i < |jobs| && rendered[i] && paths[k] == HtmlPath(jobs[i])
    decreases |jobs|
  {
    if jobs == [] then []
    else
      var rest := CreatedPaths(jobs[1..], rendered[1..]);
      if rendered[0] then
        var paths := [HtmlPath(jobs[0])] + rest;
        assert forall k :: 1 <= k < |paths| ==> paths[k] == rest[k - 1];
        paths
      else rest
  }

  /** Paths are reported in selection order: a further job adds its path at the
      end exactly when its rendering succeeded. */
  lemma {:induction false} CreatedPathsSnoc(jobs: seq<JobRef>, rendered: seq<bool>, j: JobRef, b: bool)
    requires |rendered| == |jobs|
    ensures CreatedPaths(jobs + [j], rendered + [b]) == CreatedPaths(jobs, rendered) + (if b then [HtmlPath(j)] else [])
    decreases |jobs|
  {
    if jobs == [] {
      assert jobs + [j] == [j] && rendered + [b] == [b];
      assert [j][1..] == [] && [b][1..] == [];
    } else {
      assert (jobs + [j])[0] == jobs[0] && (jobs + [j])[1..] == jobs[1..] + [j];
      assert (rendered + [b])[0] == rendered[0] && (rendered + [b])[1..] == rendered[1..] + [b];
      CreatedPathsSnoc(jobs[1..], rendered[1..], j, b);
    }
  }

  function CountTrue(bs: seq<bool>): nat
    decreases |bs|
  {
    if bs == [] then 0 else (if bs[0] then 1 else 0) + CountTrue(bs[1..])
  }

  /** One path per successful rendering, and every successful job's path is reported. */
  lemma {:induction false} CreatedPathsComplete(jobs: seq<JobRef>, rendered: seq<bool>)
    requires |rendered| == |jobs|
    ensures |CreatedPaths(jobs, rendered)| == CountTrue(rendered)
    ensures forall i :: 0 <= i < |jobs| && rendered[i] ==> HtmlPath(jobs[i]) in CreatedPaths(jobs, rendered)
    decreases |jobs|
  {
    if jobs != [] {
      CreatedPathsComplete(jobs[1..], rendered[1..]);
      forall i | 1 <= i < |jobs| && rendered[i]
        ensures HtmlPath(jobs[i]) in CreatedPaths(jobs, rendered)
      {
        assert jobs[1..][i - 1] == jobs[i] && rendered[1..][i - 1] == rendered[i];
      }
    }
  }

  /** When every rendering succeeds, every job's path is reported in order. */
  lemma {:induction false} CreatedPathsAll(jobs: seq<JobRef>, rendered: seq<bool>)
    requires |rendered| == |jobs|
    requires forall i :: 0 <= i < |rendered| ==> rendered[i]
    ensures CreatedPaths(jobs, rendered) == seq(|jobs|, i requires 0 <= i < |jobs| => HtmlPath(jobs[i]))
    decreases |jobs|
  {
    if jobs != [] {
      CreatedPathsAll(jobs[1..], rendered[1..]);
    }
  }
}
