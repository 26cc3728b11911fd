/**
  `validate_resume_structure` (validate_resume.py): the list of problems
  found in a loaded résumé, in the order the source reports them.
 */
module ValidateResume {
  import Text
  import opened JsonValue

  const RequiredFields: seq<string> := ["name", "title", "contact", "summary", "skills", "experience", "education"]
  const ContactFields: seq<string> := ["email", "phone"]
  const ExperienceFields: seq<string> := ["title", "company", "start_date", "description"]
  const EducationFields: seq<string> := ["school", "degree"]

  /** One message per required field that is absent or falsy. */
  function RequiredFieldErrors(resume: map<string, Value>, fields: seq<string>): (errors: seq<string>)
    ensures |errors| <= |fields|
    decreases |fields|
  {
    if fields == [] then []
    else
      var f := fields[0];
      var here := if f !in resume then ["Missing required field: " + f]
        else if !Truthy(resume[f]) then ["Empty required field: " + f]
        else [];
      here + RequiredFieldErrors(resume, fields[1..])
  }

  /** `prefix + field` for every field of `d` that is absent or falsy, in order. */
  function MissingFields(d: map<string, Value>, fields: seq<string>, prefix: string): (errors: seq<string>)
    ensures |errors| <= |fields|
    ensures forall i :: 0 <= i < |errors| ==> exists f :: f in fields && !FieldOk(d, f) && errors[i] == prefix + f
    decreases |fields|
  {
    if fields == [] then []
    else
      var rest := MissingFields(d, fields[1..], prefix);
      if FieldOk(d, fields[0]) then rest else [prefix + fields[0]] + rest
  }

  /** The contact block: only a dict `contact` is inspected. */
  function ContactErrors(resume: map<string, Value>): seq<string> {
    if "contact" in resume && resume["contact"].Obj?
    then MissingFields(resume["contact"].fields, ContactFields, "Missing or empty contact field: ")
    else []
  }

  function SkillsErrors(resume: map<string, Value>): seq<string> {
    if "skills" !in resume then []
    else match resume["skills"]
      case Arr(items) => if items == [] then ["Skills list is empty"] else []
      case _ => ["Skills should be a list of strings"]
  }

  /** `f"{label} item {i+1}"` */
  function ItemName(kind: string, i: nat): string {
    kind + " item " + Text.DecimalString(i + 1)
  }

  /** The messages for the items from index `i` on. */
  function ItemErrors(items: seq<Value>, i: nat, kind: string, fields: seq<string>): seq<string>
    requires i <= |items|
    decreases |items| - i
  {
    if i == |items| then []
    else
      var here := match items[i]
        case Obj(d) => MissingFields(d, fields, ItemName(kind, i) + " missing: ")
        case _ => [ItemName(kind, i) + " should be an object"];
      here + ItemErrors(items, i + 1, kind, fields)
  }

  /** The block for a list of objects (`experience` or `education`). */
  function ListErrors(resume: map<string, Value>, key: string, kind: string, notList: string, fields: seq<string>): seq<string> {
    if key !in resume then []
    else match resume[key]
      case Arr(items) => if items == [] then [kind + " list is empty"] else ItemErrors(items, 0, kind, fields)
      case _ => [notList]
  }

  /** `validate_resume_structure(resume)` */
  function Validate(resume: map<string, Value>): seq<string> {
    RequiredFieldErrors(resume, RequiredFields)
    + ContactErrors(resume)
    + SkillsErrors(resume)
    + ListErrors(resume, "experience", "Experience", "Experience should be a list of job objects", ExperienceFields)
    + ListErrors(resume, "education", "Education", "Education should be a list of education objects", EducationFields)
  }

  // ---------------------------------------------------------------------
  // What a valid résumé is, stated directly

  predicate AllFieldsOk(d: map<string, Value>, fields: seq<string>) {
    forall i :: 0 <= i < |fields| ==> FieldOk(d, fields[i])
  }

  /** A non-empty list of dicts, each with every field present and truthy. */
  predicate GoodList(v: Value, fields: seq<string>) {
    v.Arr? && v.items != []
    && forall i :: 0 <= i < |v.items| ==> v.items[i].Obj? && AllFieldsOk(v.items[i].fields, fields)
  }

  predicate ResumeValid(resume: map<string, Value>) {
    && AllFieldsOk(resume, RequiredFields)
    && "contact" in resume && "skills" in resume && "experience" in resume && "education" in resume
    && (resume["contact"].Obj? ==> AllFieldsOk(resume["contact"].fields, ContactFields))
    && resume["skills"].Arr?
    && GoodList(resume["experience"], ExperienceFields)
    && GoodList(resume["education"], EducationFields)
  }

  lemma {:induction false} RequiredFieldErrorsEmpty(resume: map<string, Value>, fields: seq<string>)
    ensures RequiredFieldErrors(resume, fields) == [] <==> AllFieldsOk(resume, fields)
    decreases |fields|
  {
    if fields != [] {
      RequiredFieldErrorsEmpty(resume, fields[1..]);
      assert AllFieldsOk(resume, fields) <==> FieldOk(resume, fields[0]) && AllFieldsOk(resume, fields[1..]) by {
        if FieldOk(resume, fields[0]) && AllFieldsOk(resume, fields[1..]) {
          forall i | 0 <= i < |fields| ensures FieldOk(resume, fields[i]) {
            if i > 0 { assert fields[i] == fields[1..][i - 1]; }
          }
        }
      }
    }
  }

  /** Every field that is absent or falsy is reported, and only those. */
  lemma {:induction false} MissingFieldsComplete(d: map<string, Value>, fields: seq<string>, prefix: string, f: string)
    ensures prefix + f in MissingFields(d, fields, prefix) <==> f in fields && !FieldOk(d, f)
    decreases |fields|
  {
    if fields != [] {
      MissingFieldsComplete(d, fields[1..], prefix, f);
      if prefix + f == prefix + fields[0] {
        assert f == (prefix + f)[|prefix|..] == (prefix + fields[0])[|prefix|..] == fields[0];
      }
      assert fields == [fields[0]] + fields[1..];
    }
  }

  lemma {:induction false} MissingFieldsEmpty(d: map<string, Value>, fields: seq<string>, prefix: string)
    ensures MissingFields(d, fields, prefix) == [] <==> AllFieldsOk(d, fields)
  {
    if MissingFields(d, fields, prefix) == [] {
      forall i | 0 <= i < |fields| ensures FieldOk(d, fields[i]) {
        MissingFieldsComplete(d, fields, prefix, fields[i]);
      }
    } else {
      var m := MissingFields(d, fields, prefix)[0];
      var f :| f in fields && !FieldOk(d, f) && m == prefix + f;
    }
  }

  lemma {:induction false} ItemErrorsEmpty(items: seq<Value>, i: nat, kind: string, fields: seq<string>)
    requires i <= |items|
    ensures ItemErrors(items, i, kind, fields) == [] <==>
      forall j :: i <= j < |items| ==> items[j].Obj? && AllFieldsOk(items[j].fields, fields)
    decreases |items| - i
  {
    if i < |items| {
      ItemErrorsEmpty(items, i + 1, kind, fields);
      if items[i].Obj? {
        MissingFieldsEmpty(items[i].fields, fields, ItemName(kind, i) + " missing: ");
      }
    }
  }

  lemma ListErrorsEmpty(resume: map<string, Value>, key: string, kind: string, notList: string, fields: seq<string>)
    requires key in resume
    ensures ListErrors(resume, key, kind, notList, fields) == [] <==> GoodList(resume[key], fields)
  {
    if resume[key].Arr? && resume[key].items != [] {
      ItemErrorsEmpty(resume[key].items, 0, kind, fields);
    }
  }

  /** No message exactly when the résumé is valid. */
  lemma ValidateEmptyIff(resume: map<string, Value>)
    ensures Validate(resume) == [] <==> ResumeValid(resume)
  {
    RequiredFieldErrorsEmpty(resume, RequiredFields);
    if AllFieldsOk(resume, RequiredFields) {
      assert FieldOk(resume, RequiredFields[2]);
      assert FieldOk(resume, RequiredFields[4]);
      assert FieldOk(resume, RequiredFields[5]);
      assert FieldOk(resume, RequiredFields[6]);
      if resume["contact"].Obj? {
        MissingFieldsEmpty(resume["contact"].fields, ContactFields, "Missing or empty contact field: ");
      }
      ListErrorsEmpty(resume, "experience", "Experience", "Experience should be a list of job objects", ExperienceFields);
      ListErrorsEmpty(resume, "education", "Education", "Education should be a list of education objects", EducationFields);
    }
  }

  lemma {:induction false} RequiredFieldErrorsAllMissing(resume: map<string, Value>, fields: seq<string>)
    requires forall i :: 0 <= i < |fields| ==> fields[i] !in resume
    ensures RequiredFieldErrors(resume, fields) == seq(|fields|, i requires 0 <= i < |fields| => "Missing required field: " + fields[i])
    decreases |fields|
  {
    if fields != [] {
      RequiredFieldErrorsAllMissing(resume, fields[1..]);
    }
  }

  /** An empty dict gets one "missing" message per required field, in order, and nothing else. */
  lemma ValidateEmptyResume()
    ensures Validate(map[]) == seq(|RequiredFields|, i requires 0 <= i < |RequiredFields| => "Missing required field: " + RequiredFields[i])
  {
    RequiredFieldErrorsAllMissing(map[], RequiredFields);
    assert Validate(map[]) == RequiredFieldErrors(map[], RequiredFields) + [] + [] + [] + [];
  }

  /** A present but falsy required field is reported as empty. */
  lemma {:induction false} EmptyFieldReported(resume: map<string, Value>, fields: seq<string>, f: string)
    requires f in fields && f in resume && !Truthy(resume[f])
    ensures "Empty required field: " + f in RequiredFieldErrors(resume, fields)
    decreases |fields|
  {
    if fields[0] != f {
      EmptyFieldReported(resume, fields[1..], f);
    }
  }

  lemma PrefixCancel(p: string, f: string, g: string)
    requires p + f == p + g
    ensures f == g
  {
    assert f == (p + f)[|p|..] == (p + g)[|p|..] == g;
  }

  /** The two kinds of message never coincide. */
  lemma MissingIsNotEmpty(f: string, g: string)
    ensures "Missing required field: " + f != "Empty required field: " + g
  {
    assert ("Missing required field: " + f)[0] == 'M';
    assert ("Empty required field: " + g)[0] == 'E';
  }

  /** "Missing required field: f" is reported exactly for a listed field absent from the résumé. */
  lemma {:induction false} MissingFieldReportedIff(resume: map<string, Value>, fields: seq<string>, f: string)
    ensures "Missing required field: " + f in RequiredFieldErrors(resume, fields) <==> f in fields && f !in resume
    decreases |fields|
  {
    if fields != [] {
      MissingFieldReportedIff(resume, fields[1..], f);
      var g := fields[0];
      if "Missing required field: " + f == "Missing required field: " + g {
        PrefixCancel("Missing required field: ", f, g);
      }
      MissingIsNotEmpty(f, g);
      assert fields == [g] + fields[1..];
    }
  }

  /** "Empty required field: f" is reported exactly for a listed field that is present but falsy. */
  lemma {:induction false} EmptyFieldReportedIff(resume: map<string, Value>, fields: seq<string>, f: string)
    ensures "Empty required field: " + f in RequiredFieldErrors(resume, fields)
        <==> f in fields && f in resume && !Truthy(resume[f])
    decreases |fields|
  {
    if fields != [] {
      EmptyFieldReportedIff(resume, fields[1..], f);
      var g := fields[0];
      if "Empty required field: " + f == "Empty required field: " + g {
        PrefixCancel("Empty required field: ", f, g);
      }
      MissingIsNotEmpty(g, f);
      assert fields == [g] + fields[1..];
    }
  }

  /** A present but falsy required field shows up in the report as empty. */
  lemma EmptyRequiredReported(resume: map<string, Value>, f: string)
    requires f in RequiredFields && f in resume && !Truthy(resume[f])
    ensures "Empty required field: " + f in Validate(resume)
  {
    EmptyFieldReported(resume, RequiredFields, f);
  }

  /** An empty skills list is reported twice: as an empty required field and as an empty list. */
  lemma EmptySkillsReportedTwice(resume: map<string, Value>)
    requires "skills" in resume && resume["skills"] == Arr([])
    ensures "Empty required field: " + "skills" in Validate(resume)
    ensures "Skills list is empty" in Validate(resume)
  {
    assert RequiredFields[4] == "skills";
    EmptyRequiredReported(resume, "skills");
    assert SkillsErrors(resume) == ["Skills list is empty"];
  }

  /** Any item that is not a dict is reported as such, under its 1-based position. */
  lemma {:induction false} NonObjectItemReported(items: seq<Value>, j: nat, kind: string, fields: seq<string>, i: int)
    requires j <= i < |items| && !items[i].Obj?
    ensures ItemName(kind, i) + " should be an object" in ItemErrors(items, j, kind, fields)
    decreases i - j
  {
    if j < i {
      NonObjectItemReported(items, j + 1, kind, fields, i);
    }
  }

  /** A list item that is not a dict gets one message and its fields are not inspected. */
  lemma NonObjectItem(items: seq<Value>, kind: string, fields: seq<string>)
    requires |items| == 1 && !items[0].Obj?
    ensures ItemErrors(items, 0, kind, fields) == [kind + " item 1 should be an object"]
  {
    assert Text.DigitChar(1) == '1';
    assert Text.DecimalString(1) == "1";
    assert ItemName(kind, 0) == kind + " item 1";
    assert ItemName(kind, 0) + " should be an object" == kind + " item 1 should be an object";
    assert ItemErrors(items, 1, kind, fields) == [];
  }
}
