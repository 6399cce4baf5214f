/** CloudFormationNotifier: deletes the configured stacks after the build. */
module Notifier {
  import opened Wrappers
  import Regions
  import Lifecycle
  import Beans
  import opened Builds

  /** The object perform builds for a stack: no recipe, an empty parameter
      map, timeout 0 (so the minimum applies), the bean's region and prefix
      flag, never auto-deleted. It expands names against getEnvironment
      alone (`build.env`), without the build variables laid over it. */
  function NewCloudFormation(bean: Beans.SimpleStackBean, build: Build): (cf: Lifecycle.CloudFormation)
    ensures cf.stackName == bean.stackName && !cf.isRecipeUrl && cf.recipe == ""
    ensures cf.parameters.None? && cf.timeout == Lifecycle.EffectiveTimeout(0)
    ensures cf.region == bean.region && !cf.autoDeleteStack
    ensures cf.isPrefixSelected == bean.isPrefixSelected
    ensures forall s :: cf.expand(s) == build.expand(build.env, s)
  {
    Lifecycle.New(bean.stackName, false, "", Some([]), 0, Some(bean.region), false,
                  ExpandIn(build, build.env), bean.isPrefixSelected, 0)
  }

  /** What delete() does for each stack. Each call depends on its own stack
      alone, so perform's calls are a prefix of these. */
  function Deletions(stacks: seq<Beans.SimpleStackBean>, build: Build, scripts: nat -> Lifecycle.DeleteScript): (ds: seq<Lifecycle.DeleteRun>)
    ensures |ds| == |stacks|
  {
    seq(|stacks|, j requires 0 <= j < |stacks| => Lifecycle.Delete(NewCloudFormation(stacks[j], build), scripts(j)))
  }

  /** How perform's loop ended: its result (a return value, an exception
      that escaped, or the script running out) and the delete() calls it
      made. */
  datatype LoopRun = LoopRun(result: Outcome, calls: nat)

  /** The loop of perform from stack `i` on, over what each delete() does:
      a false answer makes the result false and the loop goes on, anything
      but a return value ends it. */
  function PerformLoop(outcomes: seq<Outcome>, i: nat, result: bool): (r: LoopRun)
    requires i <= |outcomes|
    ensures i <= r.calls <= |outcomes|
    ensures forall j :: i <= j < r.calls - 1 ==> outcomes[j].Returned?
    ensures r.result.Returned? <==> forall j :: i <= j < |outcomes| ==> outcomes[j].Returned?
    ensures r.result.Returned? ==> r.calls == |outcomes|
    ensures r.result.Returned? ==> (r.result.ok <==> result && forall j :: i <= j < |outcomes| ==> outcomes[j].ok)
    ensures !r.result.Returned? ==> r.calls > i && r.result == outcomes[r.calls - 1]
    decreases |outcomes| - i
  {
    if i == |outcomes| then LoopRun(Returned(result), i)
    else
      match outcomes[i]
      case Returned(ok) => PerformLoop(outcomes, i + 1, result && ok)
      case _ => LoopRun(outcomes[i], i + 1)
  }

  /** The first delete() that does not return ends the loop with what it
      did. */
  lemma {:induction false} EscapeStops(outcomes: seq<Outcome>, i: nat, result: bool, k: nat)
    requires i <= k < |outcomes| && !outcomes[k].Returned?
    requires forall j :: i <= j < k ==> outcomes[j].Returned?
    ensures PerformLoop(outcomes, i, result) == LoopRun(outcomes[k], k + 1)
    decreases k - i
  {
    if i < k {
      EscapeStops(outcomes, i + 1, result && outcomes[i].ok, k);
    }
  }

  /** perform's result and the delete() runs it made, in stack order. */
  datatype NotifierRun = NotifierRun(result: Outcome, runs: seq<Lifecycle.DeleteRun>)

  /** perform's loop over what each delete() does: the runs it made are
      the first ones; the result is true exactly when every delete()
      returned true, and anything but a return value ends the loop. */
  function PerformOn(ds: seq<Lifecycle.DeleteRun>): (r: NotifierRun)
    ensures |r.runs| <= |ds| && r.runs == ds[..|r.runs|]
    ensures r.result.Returned? <==> forall j :: 0 <= j < |ds| ==> ds[j].outcome.Returned?
    ensures r.result.Returned? ==> |r.runs| == |ds|
    ensures r.result.Returned? ==> (r.result.ok <==> forall j :: 0 <= j < |ds| ==> ds[j].outcome.ok)
    ensures !r.result.Returned? ==>
      && |r.runs| > 0 && r.result == r.runs[|r.runs| - 1].outcome
      && forall j :: 0 <= j < |r.runs| - 1 ==> r.runs[j].outcome.Returned?
  {
    var outcomes := seq(|ds|, j requires 0 <= j < |ds| => ds[j].outcome);
    var loop := PerformLoop(outcomes, 0, true);
    assert forall j :: 0 <= j < |ds| ==> outcomes[j] == ds[j].outcome;
    NotifierRun(loop.result, ds[..loop.calls])
  }

  /** perform: every stack is deleted in turn. */
  function Perform(stacks: seq<Beans.SimpleStackBean>, build: Build, scripts: nat -> Lifecycle.DeleteScript): NotifierRun
  {
    PerformOn(Deletions(stacks, build, scripts))
  }

  /** The runs perform makes are delete() on the stacks in order, each on
      the object built for its bean with that stack's answers. */
  lemma PerformDeletesInOrder(stacks: seq<Beans.SimpleStackBean>, build: Build, scripts: nat -> Lifecycle.DeleteScript)
    ensures var r := Perform(stacks, build, scripts);
      |r.runs| <= |stacks|
      && forall j :: 0 <= j < |r.runs| ==> r.runs[j] == Lifecycle.Delete(NewCloudFormation(stacks[j], build), scripts(j))
  {
    var r := Perform(stacks, build, scripts);
    var ds := Deletions(stacks, build, scripts);
    forall j | 0 <= j < |r.runs|
      ensures r.runs[j] == Lifecycle.Delete(NewCloudFormation(stacks[j], build), scripts(j))
    {
      assert r.runs[j] == ds[j];
    }
  }

  /** A stack saved without a prefix flag makes delete() dereference null:
      the exception ends perform at that stack. */
  lemma NullPrefixFlagAborts(stacks: seq<Beans.SimpleStackBean>, build: Build, scripts: nat -> Lifecycle.DeleteScript, k: nat)
    requires k < |stacks| && stacks[k].isPrefixSelected.None?
    requires forall j :: 0 <= j < k ==> Deletions(stacks, build, scripts)[j].outcome.Returned?
    ensures Perform(stacks, build, scripts).result == Throws(NullPointerException)
    ensures |Perform(stacks, build, scripts).runs| == k + 1
  {
    var ds := Deletions(stacks, build, scripts);
    assert ds[k] == Lifecycle.Delete(NewCloudFormation(stacks[k], build), scripts(k));
    assert ds[k].outcome == Throws(NullPointerException);
    var outcomes := seq(|ds|, j requires 0 <= j < |ds| => ds[j].outcome);
    assert forall j :: 0 <= j < |ds| ==> outcomes[j] == ds[j].outcome;
    EscapeStops(outcomes, 0, true, k);
  }

  /** Without prefix selection, each delete() targets the bean's stack
      name with the build's variables expanded in it. */
  lemma PlainNamesAreExpanded(stacks: seq<Beans.SimpleStackBean>, build: Build, scripts: nat -> Lifecycle.DeleteScript)
    ensures var r := Perform(stacks, build, scripts);
      forall j :: 0 <= j < |r.runs| && stacks[j].isPrefixSelected == Some(false) ==>
        r.runs[j].target == Some(build.expand(build.env, stacks[j].stackName))
  {
    var r := Perform(stacks, build, scripts);
    forall j | 0 <= j < |r.runs| && stacks[j].isPrefixSelected == Some(false)
      ensures r.runs[j].target == Some(build.expand(build.env, stacks[j].stackName))
    {
      assert r.runs[j] == Deletions(stacks, build, scripts)[j] == Lifecycle.Delete(NewCloudFormation(stacks[j], build), scripts(j));
    }
  }
}
