/** AWSCloudFormationBuilder: the plain build step that submits one stack
    and returns at once, with its own comma-only parameter parser. */
module Builder {
  import opened Wrappers
  import opened JavaText
  import opened ParameterUtils
  import ParsedParameters
  import Lifecycle
  import Beans

  /** The builder's configuration, stored as given. */
  datatype AWSCloudFormationBuilder = AWSCloudFormationBuilder(stackName: string, description: string,
                                                               cloudFormationRecipe: string,
                                                               parameters: Option<string>,
                                                               awsAccessKey: string, awsSecretKey: string)

  /** One round of buildParammeters: `tokens = param.split("=")`, key
      `tokens[0]` and value `tokens[1]`, neither of them trimmed; an entry
      without a second token fails on the array access. */
  function RawEntry(e: string): (r: Result<Parameter>)
    ensures r.Ok? <==> ParsedParameters.WellFormed(e)
    ensures r.Err? ==> r.error == IndexOutOfBounds
    ensures r.Ok? ==> '=' in e && r.value == Parameter(Before(e, '='), Between(e, '='))
  {
    SplitTokens(e, '=');
    var tokens := Split(e, '=');
    if |tokens| < 2 then Err(IndexOutOfBounds) else Ok(Parameter(tokens[0], tokens[1]))
  }

  /** buildParammeters: null for a null or empty text; otherwise one
      parameter per comma-separated entry, in order and duplicates kept, or
      the exception of the first entry without a value. */
  function BuildParameters(parameters: Option<string>): (r: Result<Option<seq<Parameter>>>)
    ensures (parameters.None? || parameters.value == "") <==> r == Ok(None)
    ensures r.Err? ==> r.error == IndexOutOfBounds
    ensures parameters.Some? && parameters.value != "" ==>
      (r.Ok? <==> forall i :: 0 <= i < |Split(parameters.value, ',')| ==>
        ParsedParameters.WellFormed(Split(parameters.value, ',')[i]))
    ensures r.Ok? && r.value.Some? ==> parameters.Some? && |r.value.value| == |Split(parameters.value, ',')|
    ensures r.Ok? && r.value.Some? ==> forall i :: 0 <= i < |r.value.value| ==>
      var e := Split(parameters.value, ',')[i];
      '=' in e && r.value.value[i] == Parameter(Before(e, '='), Between(e, '='))
  {
    if parameters.None? || |parameters.value| == 0 then Ok(None)
    else
      var ps := Split(parameters.value, ',');
      var rounds := seq(|ps|, i requires 0 <= i < |ps| => RawEntry(ps[i]));
      assert forall i :: 0 <= i < |ps| ==> rounds[i] == RawEntry(ps[i]);
      var r := Collect(rounds);
      if r.Err? then Err(r.error) else Ok(Some(r.value))
  }

  /** A parameter as a user writes it in the comma-separated text. */
  function Render(p: Parameter): string
  {
    p.key + "=" + p.value
  }

  function RenderAll(ps: seq<Parameter>): (es: seq<string>)
    ensures |es| == |ps|
    ensures forall i :: 0 <= i < |ps| ==> es[i] == Render(ps[i])
  {
    seq(|ps|, i requires 0 <= i < |ps| => Render(ps[i]))
  }

  /** A parameter whose rendering the parser reads back: no ',' or '=' in
      its key or value, and a value. Blanks are allowed anywhere. */
  predicate Plain(p: Parameter)
  {
    ',' !in p.key && '=' !in p.key && ',' !in p.value && '=' !in p.value && p.value != ""
  }

  /** Each rendered parameter is one entry without a comma that the
      parser reads back as that parameter. */
  lemma RenderedEntriesParse(ps: seq<Parameter>)
    requires forall i :: 0 <= i < |ps| ==> Plain(ps[i])
    ensures forall i :: 0 <= i < |ps| ==>
      && ',' !in RenderAll(ps)[i] && ParsedParameters.WellFormed(RenderAll(ps)[i])
      && Before(RenderAll(ps)[i], '=') == ps[i].key && Between(RenderAll(ps)[i], '=') == ps[i].value
  {
    var es := RenderAll(ps);
    forall i | 0 <= i < |ps|
      ensures ',' !in es[i] && ParsedParameters.WellFormed(es[i])
      ensures Before(es[i], '=') == ps[i].key && Between(es[i], '=') == ps[i].value
    {
      assert es[i] == ps[i].key + ['='] + ps[i].value;
      ParsedParameters.OneSeparator(ps[i].key, ps[i].value);
    }
  }

  /** Rendering parameters, joining them with commas (trailing commas
      allowed) and parsing the text gives the same parameters back, in the
      same order, duplicates and surrounding blanks included. */
  lemma BuildParametersRoundTrip(ps: seq<Parameter>, n: nat)
    requires |ps| >= 1
    requires forall i :: 0 <= i < |ps| ==> Plain(ps[i])
    ensures BuildParameters(Some(Join(RenderAll(ps) + seq(n, i => ""), ','))) == Ok(Some(ps))
  {
    var es := RenderAll(ps);
    var text := Join(es + seq(n, i => ""), ',');
    RenderedEntriesParse(ps);
    assert es[|es| - 1] != "" by {
      assert '=' in es[|es| - 1];
    }
    SplitJoinTrailing(es, ',', n);
    assert text != "" by {
      assert Split("", ',') == [""];
    }
    ParseRendered(ps, text);
  }

  /** A non-empty text whose comma-separated entries are the renderings
      of `ps` parses back to `ps`. */
  lemma ParseRendered(ps: seq<Parameter>, text: string)
    requires forall i :: 0 <= i < |ps| ==> Plain(ps[i])
    requires text != "" && Split(text, ',') == RenderAll(ps)
    ensures BuildParameters(Some(text)) == Ok(Some(ps))
  {
    RenderedEntriesParse(ps);
    var r := BuildParameters(Some(text));
    assert r.Ok? && r.value.Some?;
    assert r.value.value == ps;
  }

  /** createStackRequest: the raw stack name (not expanded), the parsed
      parameters, the template body read from the workspace and no
      capabilities. A parameter error escapes before the file is read. */
  function CreateStackRequestOf(b: AWSCloudFormationBuilder, workspace: string -> Result<string>): (r: Result<Lifecycle.Request>)
    ensures BuildParameters(b.parameters).Err? ==> r == Err(IndexOutOfBounds)
    ensures BuildParameters(b.parameters).Ok? && workspace(b.cloudFormationRecipe).Err? ==>
      r == Err(workspace(b.cloudFormationRecipe).error)
    ensures r.Ok? <==> BuildParameters(b.parameters).Ok? && workspace(b.cloudFormationRecipe).Ok?
    ensures r.Ok? ==>
      && r.value.CreateStackRequest? && r.value.stackName == b.stackName
      && r.value.parameters == BuildParameters(b.parameters).value
      && r.value.template == Lifecycle.TemplateBody(workspace(b.cloudFormationRecipe).value)
      && r.value.capabilities == []
  {
    match BuildParameters(b.parameters)
    case Err(e) => Err(e)
    case Ok(parameters) =>
      match workspace(b.cloudFormationRecipe)
      case Err(e) => Err(e)
      case Ok(body) => Ok(Lifecycle.CreateStackRequest(b.stackName, parameters, Lifecycle.TemplateBody(body), []))
  }

  /** The result of perform: its return value or the exception it lets
      escape, the request it submitted, and whether it marked the build
      as failed. */
  datatype PerformRun = PerformRun(result: Result<bool>, submitted: Option<Lifecycle.Request>, buildFailed: bool)

  /** perform: builds the request and submits it. It waits for nothing (the
      wait is empty), so an accepted submission returns true at once. Only
      an IOException is caught: it fails the build and returns false. A
      parameter error and a rejected submission escape. */
  function Perform(b: AWSCloudFormationBuilder, workspace: string -> Result<string>, submitAccepted: bool): (run: PerformRun)
    ensures run.result == Ok(true) <==> run.submitted.Some? && submitAccepted
    ensures run.result == Ok(false) <==> run.buildFailed
    ensures run.buildFailed <==> CreateStackRequestOf(b, workspace) == Err(IOException)
    ensures run.submitted.Some? <==> CreateStackRequestOf(b, workspace).Ok?
    ensures run.submitted.Some? ==> run.submitted.value == CreateStackRequestOf(b, workspace).value
    ensures run.submitted.Some? && !submitAccepted ==> run.result == Err(AmazonServiceException)
    ensures run.result.Err? ==> run.result.error != IOException
  {
    match CreateStackRequestOf(b, workspace)
    case Err(e) =>
      if e == IOException then PerformRun(Ok(false), None, true)
      else PerformRun(Err(e), None, false)
    case Ok(request) =>
      if submitAccepted then PerformRun(Ok(true), Some(request), false)
      else PerformRun(Err(AmazonServiceException), Some(request), false)
  }

  /** DescriptorImpl.doCheckName: an error for an empty name, a warning for
      one shorter than four UTF-16 code units (String.length), fine
      otherwise. */
  function DoCheckName(value: string): (v: Beans.FormValidation)
    ensures v == Beans.FormError("Please set a name") <==> |value| == 0
    ensures v == Beans.FormWarning("Isn't the name too short?") <==> 1 <= Utf16Length(value) < 4
    ensures v == Beans.FormOk <==> Utf16Length(value) >= 4
  {
    if Utf16Length(value) == 0 then Beans.FormError("Please set a name")
    else if Utf16Length(value) < 4 then Beans.FormWarning("Isn't the name too short?")
    else Beans.FormOk
  }

  /** For names within the Basic Multilingual Plane the thresholds count
      characters. */
  lemma DoCheckNameCountsCharacters(value: string)
    requires forall i :: 0 <= i < |value| ==> !IsSupplementary(value[i])
    ensures DoCheckName(value) == Beans.FormOk <==> |value| >= 4
    ensures DoCheckName(value) == Beans.FormWarning("Isn't the name too short?") <==> 1 <= |value| < 4
  {
    Utf16LengthOfBmp(value);
  }

  /** Two characters outside the Basic Multilingual Plane already make four
      code units, so a two-emoji name passes without a warning. */
  lemma DoCheckNameCountsCodeUnits()
    ensures DoCheckName("\U{1F600}\U{1F600}") == Beans.FormOk
  {
    var s := "\U{1F600}\U{1F600}";
    Utf16LengthAppend(s[..1], s[1..]);
    assert s[..1] + s[1..] == s;
    assert Utf16Length(s[..1]) == 2 by { assert s[..1][..0] == []; }
    assert Utf16Length(s[1..]) == 2 by { assert s[1..][..0] == []; }
  }
}
