/** The rule-file validator run before merging (scripts/validate-rule.js): the checks
    on one file's frontmatter and body, and the error total that decides the exit status. */
module ValidateRule {
  import opened Text
  import opened Seqs
  import opened Yaml

  /** The frontmatter fields a rule must set, in the order they are checked. */
  const RequiredFields: seq<string> := ["title", "slug", "version", "created", "tags", "category", "difficulty"]

  const OverviewHeader: string := "## 개요"
  const ExampleHeader: string := "## 예시"

  const MissingFieldPrefix: string := "Missing required field: "
  const MissingSectionPrefix: string := "Missing required section: "
  const ContentLengthMessage: string := "Content must be at least 50 characters long."

  function MissingFieldMessage(field: string): string {
    MissingFieldPrefix + field
  }

  const TitleLengthPrefix: string := "Title length must be between 5 and 100 chars (Current: "

  function TitleLengthMessage(length: nat): string {
    TitleLengthPrefix + DecimalString(length) + ")"
  }

  function MissingSectionMessage(header: string): string {
    MissingSectionPrefix + header
  }

  /** The title is set and has a length outside 5..100. */
  predicate TitleLengthBad(data: Frontmatter) {
    var title := Lookup(data, "title");
    Truthy(title) && Length(title).Some? && (Length(title).value < 5 || Length(title).value > 100)
  }

  /** The fields of `data` that are not set. */
  function Unset(data: Frontmatter): string -> bool {
    field => !Truthy(Lookup(data, field))
  }

  /** One message per required field that is not set, in field order. */
  function MissingFields(data: Frontmatter, fields: seq<string>): (r: seq<string>)
    ensures |r| <= |fields|
    ensures forall m :: m in r ==> StartsWith(m, MissingFieldPrefix)
  {
    if fields == [] then []
    else
      var last := fields[|fields| - 1];
      var init := MissingFields(data, fields[..|fields| - 1]);
      assert (MissingFieldMessage(last))[..|MissingFieldPrefix|] == MissingFieldPrefix;
      init + (if Truthy(Lookup(data, last)) then [] else [MissingFieldMessage(last)])
  }

  /** The messages are those of the unset fields, one each and in field order. */
  lemma {:induction false} MissingFieldsOfUnset(data: Frontmatter, fields: seq<string>)
    ensures var unset := Filter(fields, Unset(data));
      |MissingFields(data, fields)| == |unset|
      && forall k :: 0 <= k < |unset| ==> MissingFields(data, fields)[k] == MissingFieldMessage(unset[k])
  {
    if fields != [] {
      var init, last := fields[..|fields| - 1], fields[|fields| - 1];
      assert init + [last] == fields;
      MissingFieldsAppend(data, init, last);
      FilterAppend(init, last, Unset(data));
      MissingFieldsOfUnset(data, init);
      var r, ri := MissingFields(data, fields), MissingFields(data, init);
      var u, ui := Filter(fields, Unset(data)), Filter(init, Unset(data));
      forall k | 0 <= k < |u| ensures r[k] == MissingFieldMessage(u[k]) {
        if k < |ui| {
          assert r[k] == ri[k] && u[k] == ui[k];
        }
      }
    }
  }

  lemma MissingFieldsAppend(data: Frontmatter, fields: seq<string>, field: string)
    ensures MissingFields(data, fields + [field])
      == MissingFields(data, fields) + (if Truthy(Lookup(data, field)) then [] else [MissingFieldMessage(field)])
  {
    assert (fields + [field])[..|fields|] == fields;
  }

  /** A field's message is present exactly when the field is one of those checked and is
      not set. */
  lemma {:induction false} MissingFieldsExact(data: Frontmatter, fields: seq<string>, field: string)
    ensures MissingFieldMessage(field) in MissingFields(data, fields)
      <==> field in fields && !Truthy(Lookup(data, field))
  {
    if fields != [] {
      var last := fields[|fields| - 1];
      MissingFieldsExact(data, fields[..|fields| - 1], field);
      assert fields == fields[..|fields| - 1] + [last];
      if MissingFieldMessage(field) == MissingFieldMessage(last) {
        assert field == MissingFieldMessage(field)[|MissingFieldPrefix|..];
      }
    }
  }

  /** The messages about the frontmatter: missing fields, then the title length. */
  function FrontmatterErrors(data: Frontmatter): seq<string> {
    MissingFields(data, RequiredFields)
    + (if TitleLengthBad(data) then [TitleLengthMessage(Length(Lookup(data, "title")).value)] else [])
  }

  /** The messages about the body: its length, then each missing section header. */
  function BodyErrors(body: string): seq<string> {
    (if |Trim(body)| < 50 then [ContentLengthMessage] else [])
    + (if !Contains(body, OverviewHeader) then [MissingSectionMessage(OverviewHeader)] else [])
    + (if !Contains(body, ExampleHeader) then [MissingSectionMessage(ExampleHeader)] else [])
  }

  /** Every message `validateFile` reports for a file, in the order it reports them. */
  function Errors(data: Frontmatter, body: string): seq<string> {
    FrontmatterErrors(data) + BodyErrors(body)
  }

  /** A file passes exactly when every required field is set, the title length is
      within 5..100, the trimmed body has at least 50 characters and both section
      headers occur. */
  lemma ErrorsEmptyIff(data: Frontmatter, body: string)
    ensures Errors(data, body) == [] <==>
      && (forall f :: f in RequiredFields ==> Truthy(Lookup(data, f)))
      && !TitleLengthBad(data)
      && |Trim(body)| >= 50
      && Contains(body, OverviewHeader)
      && Contains(body, ExampleHeader)
  {
    forall f | f in RequiredFields ensures Truthy(Lookup(data, f)) <==> MissingFieldMessage(f) !in MissingFields(data, RequiredFields) {
      MissingFieldsExact(data, RequiredFields, f);
    }
    if MissingFields(data, RequiredFields) != [] {
      var m := MissingFields(data, RequiredFields)[0];
      assert m in MissingFields(data, RequiredFields);
      var f := m[|MissingFieldPrefix|..];
      assert m == MissingFieldMessage(f);
      MissingFieldsExact(data, RequiredFields, f);
    }
  }

  /** No frontmatter message is about a section. */
  lemma SectionMessageNotFrontmatter(data: Frontmatter, header: string)
    ensures MissingSectionMessage(header) !in FrontmatterErrors(data)
  {
    var m := MissingSectionMessage(header);
    assert m[17] == MissingSectionPrefix[17];
    assert !StartsWith(m, MissingFieldPrefix) by { assert m[17] != MissingFieldPrefix[17]; }
    assert m !in MissingFields(data, RequiredFields);
    if TitleLengthBad(data) {
      var t := TitleLengthMessage(Length(Lookup(data, "title")).value);
      assert m != t by {
        assert t[24] == TitleLengthPrefix[24] == 'w';
        assert m[24] == MissingSectionPrefix[24] == ':';
      }
      assert FrontmatterErrors(data) == MissingFields(data, RequiredFields) + [t];
      assert m !in [t];
    } else {
      assert FrontmatterErrors(data) == MissingFields(data, RequiredFields);
    }
  }

  /** The body messages, one condition each. */
  lemma BodyErrorsMembers(body: string, m: string)
    ensures m in BodyErrors(body) <==>
      || (m == ContentLengthMessage && |Trim(body)| < 50)
      || (m == MissingSectionMessage(OverviewHeader) && !Contains(body, OverviewHeader))
      || (m == MissingSectionMessage(ExampleHeader) && !Contains(body, ExampleHeader))
  {
  }

  /** Each missing section header has its own message, whatever the other header does. */
  lemma SectionErrorsIndependent(data: Frontmatter, body: string)
    ensures MissingSectionMessage(OverviewHeader) in Errors(data, body) <==> !Contains(body, OverviewHeader)
    ensures MissingSectionMessage(ExampleHeader) in Errors(data, body) <==> !Contains(body, ExampleHeader)
  {
    var overview := MissingSectionMessage(OverviewHeader);
    var example := MissingSectionMessage(ExampleHeader);
    SectionMessageNotFrontmatter(data, OverviewHeader);
    SectionMessageNotFrontmatter(data, ExampleHeader);
    BodyErrorsMembers(body, overview);
    BodyErrorsMembers(body, example);
    SectionMessagesDistinct();
  }

  lemma SectionMessagesDistinct()
    ensures MissingSectionMessage(OverviewHeader) != MissingSectionMessage(ExampleHeader)
    ensures MissingSectionMessage(OverviewHeader) != ContentLengthMessage
    ensures MissingSectionMessage(ExampleHeader) != ContentLengthMessage
  {
    var overview := MissingSectionMessage(OverviewHeader);
    var example := MissingSectionMessage(ExampleHeader);
    assert overview[|MissingSectionPrefix| + 3] != example[|MissingSectionPrefix| + 3];
    assert ContentLengthMessage[24] == ' ' && MissingSectionPrefix[24] == ':';
    assert overview[24] == example[24] == MissingSectionPrefix[24];
  }

  /** `validateFile` on a file already split into frontmatter and body. */
  method ValidateFile(data: Frontmatter, body: string) returns (errors: seq<string>)
    ensures errors == Errors(data, body)
    ensures errors == [] <==>
      && (forall f :: f in RequiredFields ==> Truthy(Lookup(data, f)))
      && !TitleLengthBad(data)
      && |Trim(body)| >= 50
      && Contains(body, OverviewHeader)
      && Contains(body, ExampleHeader)
  {
    errors := [];
    var i := 0;
    while i < |RequiredFields|
      invariant 0 <= i <= |RequiredFields|
      invariant errors == MissingFields(data, RequiredFields[..i])
    {
      var field := RequiredFields[i];
      if !Truthy(Lookup(data, field)) {
        errors := errors + [MissingFieldMessage(field)];
      }
      assert RequiredFields[..i + 1][..i] == RequiredFields[..i];
      i := i + 1;
    }
    assert RequiredFields[..i] == RequiredFields;
    var title := Lookup(data, "title");
    var titleBad := Truthy(title) && Length(title).Some? && (Length(title).value < 5 || Length(title).value > 100);
    errors := errors + (if titleBad then [TitleLengthMessage(Length(title).value)] else []);
    assert errors == FrontmatterErrors(data);
    var bodyErrors := if |Trim(body)| < 50 then [ContentLengthMessage] else [];
    bodyErrors := bodyErrors + (if !Contains(body, OverviewHeader) then [MissingSectionMessage(OverviewHeader)] else []);
    bodyErrors := bodyErrors + (if !Contains(body, ExampleHeader) then [MissingSectionMessage(ExampleHeader)] else []);
    errors := errors + bodyErrors;
    ErrorsEmptyIff(data, body);
  }

  /** One rule file: its frontmatter and body. */
  datatype RuleText = RuleText(data: Frontmatter, body: string)

  function ErrorCount(file: RuleText): nat {
    |Errors(file.data, file.body)|
  }

  /** The number of problems over all files. */
  function TotalErrors(files: seq<RuleText>): nat {
    SumOf(files, ErrorCount)
  }

  lemma TotalErrorsZeroIff(files: seq<RuleText>)
    ensures TotalErrors(files) == 0 <==> forall i :: 0 <= i < |files| ==> Errors(files[i].data, files[i].body) == []
  {
    SumOfZeroIff(files, ErrorCount);
    assert forall i :: 0 <= i < |files| ==> (ErrorCount(files[i]) == 0 <==> Errors(files[i].data, files[i].body) == []);
  }

  lemma TotalErrorsStep(files: seq<RuleText>, i: nat, errors: seq<string>)
    requires i < |files| && errors == Errors(files[i].data, files[i].body)
    ensures TotalErrors(files[..i + 1]) == TotalErrors(files[..i]) + |errors|
  {
    assert files[..i + 1][..i] == files[..i];
  }

  /** The status the script exits with once it has the total. */
  function ExitCode(files: seq<RuleText>, totalErrors: nat): (exitCode: int)
    requires totalErrors == TotalErrors(files)
    ensures exitCode == if totalErrors > 0 then 1 else 0
    ensures exitCode == 0 <==> forall i :: 0 <= i < |files| ==> Errors(files[i].data, files[i].body) == []
  {
    TotalErrorsZeroIff(files);
    if totalErrors > 0 then 1 else 0
  }

  /** The script's driver: validates every file, adds up the problems, and exits with 1
      when there was any and with 0 otherwise. */
  method ValidateAll(files: seq<RuleText>) returns (totalErrors: nat, exitCode: int)
    ensures totalErrors == TotalErrors(files)
    ensures exitCode == if totalErrors > 0 then 1 else 0
    ensures exitCode == 0 <==> forall i :: 0 <= i < |files| ==> Errors(files[i].data, files[i].body) == []
  {
    totalErrors := 0;
    var i := 0;
    while i < |files|
      invariant 0 <= i <= |files|
      invariant totalErrors == TotalErrors(files[..i])
    {
      var errors := ValidateFile(files[i].data, files[i].body);
      if |errors| > 0 {
        totalErrors := totalErrors + |errors|;
      }
      TotalErrorsStep(files, i, errors);
      i := i + 1;
    }
    assert files[..i] == files;
    exitCode := ExitCode(files, totalErrors);
  }
}
