/** CloudFormationBuildStep: creates every configured stack as a build
    step and hands the outputs of the created ones to the build as
    variable-injection actions. */
module BuildStep {
  import opened Wrappers
  import JavaMaps
  import Lifecycle
  import ParsedParameters
  import Beans
  import VariableInjection
  import opened Builds

  /** newCloudFormation. `parsedRecipe` is what getParsedCloudFormationRecipe
      returns for a bean; a URL is passed on as it is, any other value names
      the workspace file whose text becomes the template. The parameters
      are parsed against StepEnv, the build's environment with its build
      variables laid over it; the stack is never
      auto-deleted and keeps the bean's sleep. */
  function NewCloudFormation(bean: Beans.PostBuildStackBean, build: Build,
                             parsedRecipe: Beans.PostBuildStackBean -> string): Result<Lifecycle.CloudFormation>
  {
    var name := parsedRecipe(bean);
    var isUrl := Lifecycle.IsRecipeUrl(name);
    var recipe := if isUrl then Ok(name) else build.workspace(name);
    if recipe.Err? then Err(recipe.error)
    else
      var expand := ExpandIn(build, StepEnv(build));
      match ParsedParameters.GetParsedParameters(bean.parameters, expand)
      case Err(e) => Err(e)
      case Ok(parsed) =>
        Ok(Lifecycle.New(bean.stackName, isUrl, recipe.value, Some(build.iterate(parsed)), bean.timeout,
                         bean.region, false, expand, Some(false), bean.sleep))
  }

  /** What newCloudFormation builds: a workspace error comes first, then a
      parameter error; otherwise the object has the bean's name, timeout
      rule, region and sleep, auto-delete and prefix selection off, and the
      recipe or the text of the file it names. */
  lemma NewCloudFormationBuilds(bean: Beans.PostBuildStackBean, build: Build,
                                parsedRecipe: Beans.PostBuildStackBean -> string)
    ensures var r := NewCloudFormation(bean, build, parsedRecipe);
      var name := parsedRecipe(bean);
      !Lifecycle.IsRecipeUrl(name) && build.workspace(name).Err? ==> r == Err(build.workspace(name).error)
    ensures var r := NewCloudFormation(bean, build, parsedRecipe);
      var name := parsedRecipe(bean);
      r.Ok? <==>
        && (Lifecycle.IsRecipeUrl(name) || build.workspace(name).Ok?)
        && ParsedParameters.GetParsedParameters(bean.parameters, ExpandIn(build, StepEnv(build))).Ok?
    ensures var r := NewCloudFormation(bean, build, parsedRecipe);
      var name := parsedRecipe(bean);
      r.Ok? ==>
        && r.value.isRecipeUrl == Lifecycle.IsRecipeUrl(name)
        && r.value.recipe == (if r.value.isRecipeUrl then name else build.workspace(name).value)
    ensures var r := NewCloudFormation(bean, build, parsedRecipe);
      r.Ok? ==>
        && r.value.stackName == bean.stackName && !r.value.autoDeleteStack
        && r.value.timeout == Lifecycle.EffectiveTimeout(bean.timeout)
        && r.value.isPrefixSelected == Some(false) && r.value.sleep == bean.sleep
        && forall s :: r.value.expand(s) == build.expand(StepEnv(build), s)
    ensures var r := NewCloudFormation(bean, build, parsedRecipe);
      IteratesMaps(build) && r.Ok? ==>
        CarriesParameters(r.value.parameters,
                          ParsedParameters.GetParsedParameters(bean.parameters, ExpandIn(build, StepEnv(build))).value)
  {
    var r := NewCloudFormation(bean, build, parsedRecipe);
    if IteratesMaps(build) && r.Ok? {
      var parsed := ParsedParameters.GetParsedParameters(bean.parameters, ExpandIn(build, StepEnv(build))).value;
      EnumeratedParameters(build.iterate(parsed), parsed);
    }
  }

  /** The objects perform builds, one per stack; the environment does not
      change between stacks, so each depends on its bean alone. */
  function Built(stacks: seq<Beans.PostBuildStackBean>, build: Build,
                 parsedRecipe: Beans.PostBuildStackBean -> string): (b: seq<Result<Lifecycle.CloudFormation>>)
    ensures |b| == |stacks|
  {
    seq(|stacks|, j requires 0 <= j < |stacks| => NewCloudFormation(stacks[j], build, parsedRecipe))
  }

  /** perform's result (or the exception it lets escape), the create()
      calls it made and the actions it added to the build. */
  datatype StepRun = StepRun(result: Result<bool>, creates: nat, actions: seq<VariableInjection.VariableInjectionAction>)

  /** perform: every stack is built and created in turn against the same
      environment (the build's, with the build variables over it). A stack
      that is not created makes the result false without stopping the
      loop; each created stack adds one action per output. */
  function Perform(stacks: seq<Beans.PostBuildStackBean>, build: Build,
                   parsedRecipe: Beans.PostBuildStackBean -> string, answers: nat -> CreateResult): (run: StepRun)
    ensures run.creates <= |stacks|
    ensures run.result.Ok? <==>
      forall j :: 0 <= j < |stacks| ==> Fine(Built(stacks, build, parsedRecipe), answers, j)
    ensures run.result.Ok? ==> run.creates == |stacks|
    ensures run.result.Ok? ==> (run.result.value <==> forall j :: 0 <= j < |stacks| ==> answers(j).Created?)
    ensures run.result.Err? ==>
      || (&& run.creates < |stacks| && Built(stacks, build, parsedRecipe)[run.creates] == Err(run.result.error)
          && forall j :: 0 <= j < run.creates ==> Fine(Built(stacks, build, parsedRecipe), answers, j))
      || (&& 0 < run.creates && Built(stacks, build, parsedRecipe)[run.creates - 1].Ok?
          && answers(run.creates - 1) == CreateThrew(run.result.error)
          && forall j :: 0 <= j < run.creates - 1 ==> Fine(Built(stacks, build, parsedRecipe), answers, j))
    ensures run.actions == VariableInjection.ActionsFor(CreatedOutputs(Built(stacks, build, parsedRecipe), PrefixedOutputs, answers, 0, run.creates))
  {
    var built := Built(stacks, build, parsedRecipe);
    var each := CreateEach(built, PrefixedOutputs, answers, 0, true, []);
    CreateEachOutputs(built, PrefixedOutputs, answers, 0, true, []);
    assert each.outputs == CreatedOutputs(built, PrefixedOutputs, answers, 0, each.creates) by {
      assert [] + CreatedOutputs(built, PrefixedOutputs, answers, 0, each.creates)
          == CreatedOutputs(built, PrefixedOutputs, answers, 0, each.creates);
    }
    StepRun(each.result, each.creates, VariableInjection.ActionsFor(each.outputs))
  }

  /** Once Jenkins applies the actions, the build's variables hold the
      outputs of the created stacks, a later stack's output winning over
      an earlier one. */
  lemma PerformInjectsOutputs(stacks: seq<Beans.PostBuildStackBean>, build: Build,
                              parsedRecipe: Beans.PostBuildStackBean -> string, answers: nat -> CreateResult,
                              vars: map<string, string>)
    ensures var run := Perform(stacks, build, parsedRecipe, answers);
      VariableInjection.ApplyActions(run.actions, Some(vars))
        == Some(JavaMaps.PutAll(vars, CreatedOutputs(Built(stacks, build, parsedRecipe), PrefixedOutputs, answers, 0, run.creates)))
  {
    var run := Perform(stacks, build, parsedRecipe, answers);
    VariableInjection.ApplyActionsPutsAll(CreatedOutputs(Built(stacks, build, parsedRecipe), PrefixedOutputs, answers, 0, run.creates), vars);
  }

  /** Unlike the build wrapper, a failed stack does not stop the step:
      with the first stack not created and the second created, both
      create() calls happen, the result is false and the second stack's
      outputs are injected. */
  lemma FailedStackDoesNotStopTheStep(stacks: seq<Beans.PostBuildStackBean>, build: Build,
                                      parsedRecipe: Beans.PostBuildStackBean -> string,
                                      answers: nat -> CreateResult, outs: seq<JavaMaps.Entry>)
    requires |stacks| == 2
    requires Built(stacks, build, parsedRecipe)[0].Ok? && Built(stacks, build, parsedRecipe)[1].Ok?
    requires answers(0) == NotCreated && answers(1) == Created(outs)
    ensures var run := Perform(stacks, build, parsedRecipe, answers);
      && run.result == Ok(false) && run.creates == 2
      && run.actions == VariableInjection.ActionsFor(PrefixedOutputs(Built(stacks, build, parsedRecipe)[1].value, outs))
  {
    var built := Built(stacks, build, parsedRecipe);
    var got := PrefixedOutputs(built[1].value, outs);
    var last := CreateEach(built, PrefixedOutputs, answers, 2, false, got);
    assert last == EachRun(Ok(false), 2, got);
    assert CreateEach(built, PrefixedOutputs, answers, 1, false, []) == last by {
      assert [] + got == got;
    }
    assert CreateEach(built, PrefixedOutputs, answers, 0, true, []) == last;
    assert CreatedOutputs(built, PrefixedOutputs, answers, 2, 2) == [];
    assert CreatedOutputs(built, PrefixedOutputs, answers, 1, 2) == got + [];
    assert CreatedOutputs(built, PrefixedOutputs, answers, 0, 2) == [] + CreatedOutputs(built, PrefixedOutputs, answers, 1, 2);
  }
}
