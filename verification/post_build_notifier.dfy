/** CloudFormationPostBuildNotifier: creates every configured stack after
    the build. Its recipe is always a workspace file. */
module PostBuildNotifier {
  import opened Wrappers
  import Lifecycle
  import ParsedParameters
  import Beans
  import opened Builds

  /** newCloudFormation: the recipe field names a workspace file, read
      without expanding variables in the name; the parameters are parsed
      against StepEnv, the build's environment with its build variables
      laid over it. The stack is never auto-deleted and keeps the bean's
      sleep. */
  function NewCloudFormation(bean: Beans.PostBuildStackBean, build: Build): Result<Lifecycle.CloudFormation>
  {
    match build.workspace(bean.recipe)
    case Err(e) => Err(e)
    case Ok(text) =>
      var expand := ExpandIn(build, StepEnv(build));
      match ParsedParameters.GetParsedParameters(bean.parameters, expand)
      case Err(e) => Err(e)
      case Ok(parsed) =>
        Ok(Lifecycle.New(bean.stackName, false, text, Some(build.iterate(parsed)), bean.timeout,
                         bean.region, false, expand, Some(false), bean.sleep))
  }

  /** What newCloudFormation builds: the file is read before the parameters
      are parsed, a URL is never recognised, and the object has the bean's
      name, timeout rule and sleep with auto-delete and prefix selection
      off. */
  lemma NewCloudFormationBuilds(bean: Beans.PostBuildStackBean, build: Build)
    ensures var r := NewCloudFormation(bean, build);
      build.workspace(bean.recipe).Err? ==> r == Err(build.workspace(bean.recipe).error)
    ensures var r := NewCloudFormation(bean, build);
      r.Ok? <==>
        build.workspace(bean.recipe).Ok? && ParsedParameters.GetParsedParameters(bean.parameters, ExpandIn(build, StepEnv(build))).Ok?
    ensures var r := NewCloudFormation(bean, build);
      r.Ok? ==>
        && !r.value.isRecipeUrl && r.value.recipe == build.workspace(bean.recipe).value
        && r.value.stackName == bean.stackName && !r.value.autoDeleteStack
        && r.value.timeout == Lifecycle.EffectiveTimeout(bean.timeout)
        && r.value.isPrefixSelected == Some(false) && r.value.sleep == bean.sleep
    ensures var r := NewCloudFormation(bean, build);
      IteratesMaps(build) && r.Ok? ==>
        CarriesParameters(r.value.parameters,
                          ParsedParameters.GetParsedParameters(bean.parameters, ExpandIn(build, StepEnv(build))).value)
  {
    var r := NewCloudFormation(bean, build);
    if IteratesMaps(build) && r.Ok? {
      var parsed := ParsedParameters.GetParsedParameters(bean.parameters, ExpandIn(build, StepEnv(build))).value;
      EnumeratedParameters(build.iterate(parsed), parsed);
    }
  }

  /** The objects perform builds, one per stack, all against the same
      environment. */
  function Built(stacks: seq<Beans.PostBuildStackBean>, build: Build): (b: seq<Result<Lifecycle.CloudFormation>>)
    ensures |b| == |stacks|
  {
    seq(|stacks|, j requires 0 <= j < |stacks| => NewCloudFormation(stacks[j], build))
  }

  /** perform's result (or the exception it lets escape) and the create()
      calls it made. */
  datatype NotifierRun = NotifierRun(result: Result<bool>, creates: nat)

  /** perform: every stack is built and created in turn; one that is not
      created makes the result false and the loop goes on; an exception
      escapes. */
  function Perform(stacks: seq<Beans.PostBuildStackBean>, build: Build, answers: nat -> CreateResult): (run: NotifierRun)
    ensures run.creates <= |stacks|
    ensures run.result.Ok? <==> forall j :: 0 <= j < |stacks| ==> Fine(Built(stacks, build), answers, j)
    ensures run.result.Ok? ==> run.creates == |stacks|
    ensures run.result.Ok? ==> (run.result.value <==> forall j :: 0 <= j < |stacks| ==> answers(j).Created?)
    ensures run.result.Err? ==>
      || (&& run.creates < |stacks| && Built(stacks, build)[run.creates] == Err(run.result.error)
          && forall j :: 0 <= j < run.creates ==> Fine(Built(stacks, build), answers, j))
      || (&& 0 < run.creates && Built(stacks, build)[run.creates - 1].Ok?
          && answers(run.creates - 1) == CreateThrew(run.result.error)
          && forall j :: 0 <= j < run.creates - 1 ==> Fine(Built(stacks, build), answers, j))
  {
    var each := CreateEach(Built(stacks, build), PrefixedOutputs, answers, 0, true, []);
    NotifierRun(each.result, each.creates)
  }

  /** A workspace file that cannot be read stops the notifier at that
      stack: the create() calls before it are all that happen. */
  lemma UnreadableRecipeStops(stacks: seq<Beans.PostBuildStackBean>, build: Build, answers: nat -> CreateResult, k: nat)
    requires k < |stacks| && build.workspace(stacks[k].recipe) == Err(IOException)
    requires forall j :: 0 <= j < k ==> Fine(Built(stacks, build), answers, j)
    ensures Perform(stacks, build, answers) == NotifierRun(Err(IOException), k)
  {
    var built := Built(stacks, build);
    assert built[k] == NewCloudFormation(stacks[k], build) == Err(IOException);
    BuildFailureStops(built, PrefixedOutputs, answers, 0, true, [], k);
  }
}
