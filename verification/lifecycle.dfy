/** CloudFormation: one stack's lifecycle against the remote CloudFormation
    service. The remote is a script of answers to describeStacks, the wall
    clock a script of currentTimeMillis readings; both are consumed in call
    order, and the polling loops become recursion over them. */
module Lifecycle {
  import opened Wrappers
  import opened JavaText
  import JavaMaps
  import Regions
  import ParameterUtils

  /** The least timeout, in seconds, that a stack gets. */
  const MinTimeout: int := 300
  /** The timeout value that switches timing off (and with it all waiting). */
  const TestingTimeout: int := -12345
  /** The longest wait between two polls, in milliseconds. */
  const MaxWaitMs: int := 300000
  /** The only capability every request asks for. */
  const CapabilityIam: string := "CAPABILITY_IAM"

  // ---------------------------------------------------------------- remote data

  datatype StackStatus =
    | CreateInProgress | CreateFailed | CreateComplete
    | RollbackInProgress | RollbackFailed | RollbackComplete
    | DeleteInProgress | DeleteFailed | DeleteComplete
    | UpdateInProgress | UpdateCompleteCleanupInProgress | UpdateComplete
    | UpdateRollbackInProgress | UpdateRollbackFailed
    | UpdateRollbackCompleteCleanupInProgress | UpdateRollbackComplete

  /** isStackCreationInProgress: the creation poll keeps going. */
  predicate CreationInProgress(s: StackStatus)
  {
    s == CreateInProgress || s == UpdateInProgress
  }

  /** isStackCreationSuccessful. */
  predicate CreationSuccessful(s: StackStatus)
  {
    s == CreateComplete || s == UpdateComplete
  }

  datatype Output = Output(key: string, value: string)

  datatype StackInfo = StackInfo(name: string, status: StackStatus, statusReason: string, outputs: seq<Output>)

  /** One answer to describeStacks: a throttling rejection, any other
      service rejection, or the stacks described. */
  datatype DescribeResponse = Throttled | ServiceError | Stacks(stacks: seq<StackInfo>)

  /** A line of listStacks: name and creation time (milliseconds). */
  datatype StackSummary = StackSummary(name: string, creationTime: int)

  datatype Template = TemplateUrl(url: string) | TemplateBody(body: string)

  datatype Request =
    | CreateStackRequest(stackName: string, parameters: Option<seq<ParameterUtils.Parameter>>,
                         template: Template, capabilities: seq<string>)
    | UpdateStackRequest(stackName: string, parameters: Option<seq<ParameterUtils.Parameter>>,
                         templateBody: string, capabilities: seq<string>)

  // ---------------------------------------------------------------- the object

  /** The fields of a CloudFormation object that its behaviour depends on.
      `expand` is EnvVars.expand of the build's environment. */
  datatype CloudFormation = CloudFormation(
    stackName: string,
    isRecipeUrl: bool,
    recipe: string,
    parameters: Option<seq<ParameterUtils.Parameter>>,
    timeout: int,
    region: Regions.Region,
    autoDeleteStack: bool,
    expand: string -> string,
    isPrefixSelected: Option<bool>,
    sleep: int,
    stack: Option<StackInfo>,
    outputs: Option<map<string, string>>)

  /** The constructor's timeout rule: the sentinel switches timing off,
      anything else is raised to at least MinTimeout. */
  function EffectiveTimeout(timeout: int): (t: int)
    ensures t == 0 <==> timeout == TestingTimeout
    ensures timeout != TestingTimeout ==> t >= MinTimeout && t >= timeout
    ensures timeout != TestingTimeout && timeout > MinTimeout ==> t == timeout
    ensures timeout != TestingTimeout && timeout <= MinTimeout ==> t == MinTimeout
  {
    if timeout == TestingTimeout then 0
    else if timeout > MinTimeout then timeout
    else MinTimeout
  }

  /** CloudFormation.parameters(map): null for a null or empty map, the
      converted list otherwise. */
  function StackParameters(parameters: Option<seq<JavaMaps.Entry>>): (r: Option<seq<ParameterUtils.Parameter>>)
    ensures r.None? <==> parameters.None? || |parameters.value| == 0
    ensures r.Some? ==> r == ParameterUtils.Convert(parameters)
  {
    if parameters.None? || |parameters.value| == 0 then None
    else ParameterUtils.Convert(parameters)
  }

  /** The CloudFormation constructors. Each caller picks the overload; the
      one taking `sleep` fixes autoDeleteStack to false, the others leave
      `sleep` at 0. */
  function New(stackName: string, isRecipeUrl: bool, recipe: string,
               parameters: Option<seq<JavaMaps.Entry>>, timeout: int,
               region: Option<Regions.Region>, autoDeleteStack: bool,
               expand: string -> string, isPrefixSelected: Option<bool>,
               sleep: int): (cf: CloudFormation)
    ensures cf.timeout == EffectiveTimeout(timeout)
    ensures cf.region == Regions.OrDefault(region)
    ensures cf.parameters == StackParameters(parameters)
    ensures cf.stack.None? && cf.outputs.None?
    ensures cf.stackName == stackName && cf.recipe == recipe && cf.isRecipeUrl == isRecipeUrl
    ensures cf.autoDeleteStack == autoDeleteStack && cf.isPrefixSelected == isPrefixSelected
    ensures cf.sleep == sleep && cf.expand == expand
  {
    CloudFormation(stackName, isRecipeUrl, recipe, StackParameters(parameters),
                   EffectiveTimeout(timeout), Regions.OrDefault(region), autoDeleteStack,
                   expand, isPrefixSelected, sleep, None, None)
  }

  function ExpandedName(cf: CloudFormation): string
  {
    cf.expand(cf.stackName)
  }

  // ---------------------------------------------------------------- timing

  /** 2^n, which outgrows its exponent. */
  function Pow2(n: nat): (r: nat)
    ensures r >= 1 && r > n
  {
    if n == 0 then 1 else 2 * Pow2(n - 1)
  }

  /** getWaitBetweenAttempts: no wait without a timeout, otherwise
      2^retries * 100 ms, capped at MaxWaitMs. */
  function BackOff(timeout: int, retries: nat): (ms: int)
    ensures 0 <= ms <= MaxWaitMs
    ensures timeout == 0 <==> ms == 0
  {
    if timeout == 0 then 0
    else if Pow2(retries) * 100 < MaxWaitMs then Pow2(retries) * 100
    else MaxWaitMs
  }

  lemma {:induction false} Pow2Monotone(a: nat, b: nat)
    requires a <= b
    ensures Pow2(a) <= Pow2(b)
    decreases b
  {
    if a < b {
      Pow2Monotone(a, b - 1);
    }
  }

  /** The wait never shrinks as retries grow, doubles from 200 ms and is
      capped from the twelfth retry on. */
  lemma BackOffShape(timeout: int, r1: nat, r2: nat)
    requires r1 <= r2
    ensures BackOff(timeout, r1) <= BackOff(timeout, r2)
    ensures timeout != 0 && r1 <= 11 ==> BackOff(timeout, r1) == Pow2(r1) * 100
    ensures timeout != 0 && r2 >= 12 ==> BackOff(timeout, r2) == MaxWaitMs
  {
    Pow2Monotone(r1, r2);
    assert Pow2(12) == 4096 by {
      assert Pow2(1) == 2 && Pow2(2) == 4 && Pow2(3) == 8 && Pow2(4) == 16 && Pow2(5) == 32;
      assert Pow2(6) == 64 && Pow2(7) == 128 && Pow2(8) == 256 && Pow2(9) == 512 && Pow2(10) == 1024;
      assert Pow2(11) == 2048;
    }
    if r1 <= 11 {
      Pow2Monotone(r1, 11);
    }
    if r2 >= 12 {
      Pow2Monotone(12, r2);
    }
  }

  /** A Java long: two's-complement wrap-around. */
  function Wrap64(x: int): (r: int)
    ensures MinLong <= r <= MaxLong
    ensures MinLong <= x <= MaxLong ==> r == x
  {
    (x - MinLong) % 0x1_0000_0000_0000_0000 + MinLong
  }

  /** isTimeout: never without a timeout; otherwise the elapsed time
      (long subtraction) must exceed timeout * 1000 (long multiplication). */
  predicate IsTimeout(timeout: int, start: int, now: int)
  {
    timeout != 0 && Wrap64(now - start) > Wrap64(timeout * 1000)
  }

  /** The deadline check: reads the clock only when a timeout is set. */
  datatype Deadline = Late | InTime(rest: seq<int>) | NoReading

  function ReadDeadline(timeout: int, start: int, clock: seq<int>): (d: Deadline)
    ensures timeout == 0 ==> d == InTime(clock)
    ensures d.Late? <==> timeout != 0 && |clock| > 0 && IsTimeout(timeout, start, clock[0])
    ensures d.InTime? && timeout != 0 ==> |clock| > 0 && d.rest == clock[1..]
    ensures d.NoReading? <==> timeout != 0 && |clock| == 0
  {
    if timeout == 0 then InTime(clock)
    else if |clock| == 0 then NoReading
    else if IsTimeout(timeout, start, clock[0]) then Late
    else InTime(clock[1..])
  }

  /** Within range, a timeout fires exactly when more than timeout seconds
      have passed. */
  lemma TimeoutMeaning(timeout: int, start: int, now: int)
    requires 0 < timeout && timeout * 1000 <= MaxLong
    requires 0 <= start <= now <= MaxLong
    ensures IsTimeout(timeout, start, now) <==> now - start > timeout * 1000
  {
  }

  // ---------------------------------------------------------------- describing

  /** Position of the first stack named `name`; |stacks| when none is. */
  function FirstNamed(stacks: seq<StackInfo>, name: string): (i: nat)
    ensures i <= |stacks|
    ensures i < |stacks| ==> stacks[i].name == name
    ensures forall j :: 0 <= j < i ==> stacks[j].name != name
  {
    if |stacks| == 0 then 0
    else if stacks[0].name == name then 0
    else
      var i := 1 + FirstNamed(stacks[1..], name);
      assert forall j :: 1 <= j < |stacks| ==> stacks[j] == stacks[1..][j - 1];
      i
  }

  /** getStack: the first described stack named `name`, or null. */
  function GetStack(stacks: seq<StackInfo>, name: string): (r: Option<StackInfo>)
    ensures r.Some? ==> r.value in stacks && r.value.name == name
    ensures r.None? <==> forall i :: 0 <= i < |stacks| ==> stacks[i].name != name
  {
    var i := FirstNamed(stacks, name);
    if i < |stacks| then Some(stacks[i]) else None
  }

  /** A describe answer on which the creation poll goes round again. */
  predicate KeepsCreating(r: DescribeResponse, name: string)
  {
    || r.Throttled?
    || (r.Stacks? && GetStack(r.stacks, name).Some? && CreationInProgress(GetStack(r.stacks, name).value.status))
  }

  datatype CreationOutcome = Settled(stack: StackInfo) | PollTimedOut | PollServiceError | PollNoStack | PollUnscripted

  /** The clock readings one round of the creation poll takes: its subTime
      reading, then the deadline reading when a timeout is set. Round `i`
      therefore reads its deadline at position 2 * i + 1. */
  function Stride(timeout: int): (n: nat)
    ensures n >= 1 && (n == 2 <==> timeout != 0)
  {
    if timeout == 0 then 1 else 2
  }

  /** The creation poll's result, the describe calls it made and the waits
      it asked for, in order. */
  datatype CreationPoll = CreationPoll(outcome: CreationOutcome, describes: nat, sleeps: seq<int>)

  /** waitForStackToBeCreated from its loop on: each round reads the clock,
      describes the stack and either stops or (still in progress, or
      throttled) checks the deadline and waits. A service error other than
      throttling ends the poll; an answer without the stack dereferences null. */
  function PollCreation(name: string, timeout: int, start: int, retries: nat,
                        rs: seq<DescribeResponse>, clock: seq<int>): (p: CreationPoll)
    ensures p.describes <= |rs|
    ensures |p.sleeps| <= p.describes
    ensures forall i :: 0 <= i < |p.sleeps| ==> p.sleeps[i] == BackOff(timeout, retries + i)
    ensures forall i :: 0 <= i < |p.sleeps| ==> KeepsCreating(rs[i], name)
    ensures p.outcome != PollUnscripted ==> p.describes >= 1 && |p.sleeps| == p.describes - 1
    ensures p.outcome.Settled? ==>
      && rs[p.describes - 1].Stacks?
      && GetStack(rs[p.describes - 1].stacks, name) == Some(p.outcome.stack)
      && !CreationInProgress(p.outcome.stack.status)
    ensures p.outcome.PollTimedOut? ==> timeout != 0 && KeepsCreating(rs[p.describes - 1], name)
    ensures p.outcome.PollServiceError? ==> rs[p.describes - 1].ServiceError?
    ensures p.outcome.PollNoStack? ==>
      rs[p.describes - 1].Stacks? && GetStack(rs[p.describes - 1].stacks, name).None?
    decreases |rs|
  {
    if |rs| == 0 || |clock| == 0 then CreationPoll(PollUnscripted, 0, [])
    else
      // clock[0] is the round's subTime reading, used only in the log line
      var r := rs[0];
      if r.ServiceError? then CreationPoll(PollServiceError, 1, [])
      else if r.Stacks? && GetStack(r.stacks, name).None? then CreationPoll(PollNoStack, 1, [])
      else if r.Stacks? && !CreationInProgress(GetStack(r.stacks, name).value.status) then
        CreationPoll(Settled(GetStack(r.stacks, name).value), 1, [])
      else
        match ReadDeadline(timeout, start, clock[1..])
        case NoReading => CreationPoll(PollUnscripted, 1, [])
        case Late => CreationPoll(PollTimedOut, 1, [])
        case InTime(rest) =>
          var next := PollCreation(name, timeout, start, retries + 1, rs[1..], rest);
          assert forall i :: 1 <= i < |rs| ==> rs[i] == rs[1..][i - 1];
          CreationPoll(next.outcome, next.describes + 1, [BackOff(timeout, retries)] + next.sleeps)
  }

  /** A round of the creation poll goes round again exactly on an answer
      that keeps it creating and a deadline reading in time. */
  predicate GoesRound(name: string, timeout: int, start: int, rs: seq<DescribeResponse>, clock: seq<int>)
  {
    |rs| > 0 && |clock| > 0 && KeepsCreating(rs[0], name) && ReadDeadline(timeout, start, clock[1..]).InTime?
  }

  /** One round that goes round again: the rest of the poll runs on the
      remaining answers and the clock after the round's readings. */
  lemma PollCreationRound(name: string, timeout: int, start: int, retries: nat,
                          rs: seq<DescribeResponse>, clock: seq<int>)
    requires GoesRound(name, timeout, start, rs, clock)
    ensures Stride(timeout) <= |clock|
    ensures timeout != 0 ==> !IsTimeout(timeout, start, clock[1])
    ensures var next := PollCreation(name, timeout, start, retries + 1, rs[1..], clock[Stride(timeout)..]);
      PollCreation(name, timeout, start, retries, rs, clock)
        == CreationPoll(next.outcome, next.describes + 1, [BackOff(timeout, retries)] + next.sleeps)
  {
    assert ReadDeadline(timeout, start, clock[1..]).rest == clock[Stride(timeout)..];
    assert timeout != 0 ==> clock[1..][0] == clock[1];
  }

  /** A round that does not go round again ends the poll without a wait. */
  lemma PollCreationLastRound(name: string, timeout: int, start: int, retries: nat,
                              rs: seq<DescribeResponse>, clock: seq<int>)
    requires !GoesRound(name, timeout, start, rs, clock)
    ensures PollCreation(name, timeout, start, retries, rs, clock).sleeps == []
    ensures PollCreation(name, timeout, start, retries, rs, clock).outcome.PollTimedOut? ==>
      && |clock| >= 2 && IsTimeout(timeout, start, clock[1])
      && PollCreation(name, timeout, start, retries, rs, clock).describes == 1
    ensures PollCreation(name, timeout, start, retries, rs, clock).outcome.PollUnscripted? ==>
      || (PollCreation(name, timeout, start, retries, rs, clock).describes == 0 && (|rs| == 0 || |clock| == 0))
      || (&& timeout != 0 && PollCreation(name, timeout, start, retries, rs, clock).describes == 1
          && KeepsCreating(rs[0], name) && |clock| == 1)
  {
    assert |clock| >= 2 ==> clock[1..][0] == clock[1];
  }

  /** In-time deadline readings of the rounds after the first carry over
      to the whole clock once the first round's reading is in time too. */
  lemma InTimeCons(timeout: int, start: int, clock: seq<int>, n: nat)
    requires 2 <= |clock| && !IsTimeout(timeout, start, clock[1]) && 2 * n <= |clock[2..]|
    requires forall i :: 0 <= i < n ==> !IsTimeout(timeout, start, clock[2..][2 * i + 1])
    ensures forall i :: 0 <= i < n + 1 ==> !IsTimeout(timeout, start, clock[2 * i + 1])
  {
    forall i | 1 <= i < n + 1 ensures !IsTimeout(timeout, start, clock[2 * i + 1]) {
      assert clock[2 * i + 1] == clock[2..][2 * (i - 1) + 1];
    }
  }

  /** The rounds that went round again read their deadline in time. */
  lemma {:induction false} PollCreationInTime(name: string, timeout: int, start: int, retries: nat,
                                              rs: seq<DescribeResponse>, clock: seq<int>)
    ensures Stride(timeout) * |PollCreation(name, timeout, start, retries, rs, clock).sleeps| <= |clock|
    ensures timeout != 0 ==> forall i :: 0 <= i < |PollCreation(name, timeout, start, retries, rs, clock).sleeps| ==>
      !IsTimeout(timeout, start, clock[2 * i + 1])
    decreases |rs|
  {
    if GoesRound(name, timeout, start, rs, clock) {
      var rest := clock[Stride(timeout)..];
      PollCreationRound(name, timeout, start, retries, rs, clock);
      PollCreationInTime(name, timeout, start, retries + 1, rs[1..], rest);
      var p := PollCreation(name, timeout, start, retries, rs, clock);
      var next := PollCreation(name, timeout, start, retries + 1, rs[1..], rest);
      assert p.sleeps == [BackOff(timeout, retries)] + next.sleeps;
      if timeout != 0 {
        InTimeCons(timeout, start, clock, |next.sleeps|);
      }
    } else {
      PollCreationLastRound(name, timeout, start, retries, rs, clock);
    }
  }

  /** A timeout comes from a late deadline reading in the last round. */
  lemma {:induction false} PollCreationTimedOut(name: string, timeout: int, start: int, retries: nat,
                                                rs: seq<DescribeResponse>, clock: seq<int>)
    ensures PollCreation(name, timeout, start, retries, rs, clock).outcome.PollTimedOut? ==>
      && 2 * PollCreation(name, timeout, start, retries, rs, clock).describes <= |clock|
      && IsTimeout(timeout, start, clock[2 * PollCreation(name, timeout, start, retries, rs, clock).describes - 1])
    decreases |rs|
  {
    if GoesRound(name, timeout, start, rs, clock) {
      var rest := clock[Stride(timeout)..];
      PollCreationRound(name, timeout, start, retries, rs, clock);
      PollCreationTimedOut(name, timeout, start, retries + 1, rs[1..], rest);
      var next := PollCreation(name, timeout, start, retries + 1, rs[1..], rest);
      if next.outcome.PollTimedOut? {
        assert clock[2 * (next.describes + 1) - 1] == rest[2 * next.describes - 1];
      }
    } else {
      PollCreationLastRound(name, timeout, start, retries, rs, clock);
    }
  }

  /** The creation poll reports that the script ran out only when it did:
      the describe answers are used up, or the clock has no reading left
      for the next round or for the deadline of a round that goes on. */
  lemma {:induction false} PollCreationUnscripted(name: string, timeout: int, start: int, retries: nat,
                                                  rs: seq<DescribeResponse>, clock: seq<int>)
    ensures PollCreation(name, timeout, start, retries, rs, clock).outcome.PollUnscripted? ==>
      || (&& PollCreation(name, timeout, start, retries, rs, clock).describes
               == |PollCreation(name, timeout, start, retries, rs, clock).sleeps|
          && (|| PollCreation(name, timeout, start, retries, rs, clock).describes == |rs|
              || |clock| == Stride(timeout) * PollCreation(name, timeout, start, retries, rs, clock).describes))
      || (&& timeout != 0
          && PollCreation(name, timeout, start, retries, rs, clock).describes
               == |PollCreation(name, timeout, start, retries, rs, clock).sleeps| + 1
          && KeepsCreating(rs[PollCreation(name, timeout, start, retries, rs, clock).describes - 1], name)
          && |clock| == 2 * PollCreation(name, timeout, start, retries, rs, clock).describes - 1)
    decreases |rs|
  {
    if GoesRound(name, timeout, start, rs, clock) {
      PollCreationRound(name, timeout, start, retries, rs, clock);
      PollCreationUnscripted(name, timeout, start, retries + 1, rs[1..], clock[Stride(timeout)..]);
    } else {
      PollCreationLastRound(name, timeout, start, retries, rs, clock);
    }
  }

  /** A describe answer on which the deletion poll goes round again. */
  predicate KeepsDeleting(r: DescribeResponse, name: string)
  {
    || r.Throttled?
    || (r.Stacks? && GetStack(r.stacks, name).Some?
        && GetStack(r.stacks, name).value.status != DeleteComplete
        && GetStack(r.stacks, name).value.status != DeleteFailed)
  }

  /** The deletion poll's result, describe calls, waits, and the value left
      in the `stack` field (each answered describe overwrites it). */
  datatype DeletionPoll = DeletionPoll(outcome: Outcome, describes: nat, sleeps: seq<int>, stack: Option<StackInfo>)

  /** waitForStackToBeDeleted: done when the stack is gone or
      DELETE_COMPLETE, failed on DELETE_FAILED, round again on any other
      status or on throttling; there is no deadline. Any other service error
      escapes. */
  function PollDeletion(name: string, timeout: int, retries: nat,
                        rs: seq<DescribeResponse>, stack: Option<StackInfo>): (p: DeletionPoll)
    ensures p.describes <= |rs|
    ensures |p.sleeps| <= p.describes
    ensures forall i :: 0 <= i < |p.sleeps| ==> p.sleeps[i] == BackOff(timeout, retries + i)
    ensures p.outcome != Unscripted ==> p.describes >= 1 && |p.sleeps| == p.describes - 1
    ensures p.outcome.Returned? ==>
      && rs[p.describes - 1].Stacks?
      && p.stack == GetStack(rs[p.describes - 1].stacks, name)
      && (p.outcome.ok <==> p.stack.None? || p.stack.value.status == DeleteComplete)
      && (!p.outcome.ok ==> p.stack.value.status == DeleteFailed)
    ensures p.outcome.Throws? ==> p.outcome.error == AmazonServiceException && rs[p.describes - 1].ServiceError?
    decreases |rs|
  {
    if |rs| == 0 then DeletionPoll(Unscripted, 0, [], stack)
    else
      match rs[0]
      case ServiceError => DeletionPoll(Throws(AmazonServiceException), 1, [], stack)
      case Throttled =>
        var next := PollDeletion(name, timeout, retries + 1, rs[1..], stack);
        DeletionPoll(next.outcome, next.describes + 1, [BackOff(timeout, retries)] + next.sleeps, next.stack)
      case Stacks(ss) =>
        var seen := GetStack(ss, name);
        if seen.None? || seen.value.status == DeleteComplete then DeletionPoll(Returned(true), 1, [], seen)
        else if seen.value.status == DeleteFailed then DeletionPoll(Returned(false), 1, [], seen)
        else
          var next := PollDeletion(name, timeout, retries + 1, rs[1..], seen);
          DeletionPoll(next.outcome, next.describes + 1, [BackOff(timeout, retries)] + next.sleeps, next.stack)
  }

  /** The deletion poll goes round again exactly on the answers before its
      last: each of them keeps it deleting. */
  lemma {:induction false} PollDeletionKeepsDeleting(name: string, timeout: int, retries: nat,
                                                     rs: seq<DescribeResponse>, stack: Option<StackInfo>)
    ensures forall i :: 0 <= i < |PollDeletion(name, timeout, retries, rs, stack).sleeps| ==> KeepsDeleting(rs[i], name)
    decreases |rs|
  {
    if |rs| > 0 && KeepsDeleting(rs[0], name) {
      var seen := if rs[0].Stacks? then GetStack(rs[0].stacks, name) else stack;
      var p := PollDeletion(name, timeout, retries, rs, stack);
      PollDeletionKeepsDeleting(name, timeout, retries + 1, rs[1..], seen);
      forall i | 1 <= i < |p.sleeps| ensures KeepsDeleting(rs[i], name) {
        assert rs[i] == rs[1..][i - 1];
      }
    }
  }

  /** The deletion poll reports that the script ran out only after using
      every answer, each of which sent it round again. */
  lemma {:induction false} PollDeletionUnscripted(name: string, timeout: int, retries: nat,
                                                  rs: seq<DescribeResponse>, stack: Option<StackInfo>)
    ensures PollDeletion(name, timeout, retries, rs, stack).outcome == Unscripted ==>
      PollDeletion(name, timeout, retries, rs, stack).describes == |rs| == |PollDeletion(name, timeout, retries, rs, stack).sleeps|
    decreases |rs|
  {
    if |rs| > 0 && KeepsDeleting(rs[0], name) {
      var seen := if rs[0].Stacks? then GetStack(rs[0].stacks, name) else stack;
      PollDeletionUnscripted(name, timeout, retries + 1, rs[1..], seen);
    }
  }

  // ---------------------------------------------------------------- requests

  /** isRecipeURL: a case-insensitive "http://" or "https://" prefix. */
  predicate IsRecipeUrl(recipe: string)
  {
    StartsWithIgnoreCase(recipe, "http://") || StartsWithIgnoreCase(recipe, "https://")
  }

  /** The URL test does not depend on letter case. */
  lemma IsRecipeUrlIgnoresCase(recipe: string)
    ensures IsRecipeUrl(recipe) <==> IsRecipeUrl(FoldAll(recipe))
  {
    StartsWithIgnoreCaseFolded(recipe, "http://");
    StartsWithIgnoreCaseFolded(recipe, "https://");
  }

  /** URLs are recognised in any letter case. */
  lemma IsRecipeUrlAccepts()
    ensures IsRecipeUrl("HTTPS://bucket/stack.json")
    ensures IsRecipeUrl("http://x")
  {
    assert StartsWithIgnoreCase("HTTPS://bucket/stack.json", "https://");
    assert StartsWithIgnoreCase("http://x", "http://");
  }

  /** A file name that merely starts with "http" is not a URL. */
  lemma IsRecipeUrlRejects()
    ensures !IsRecipeUrl("httpstack.json")
    ensures !IsRecipeUrl("http:/x")
    ensures !IsRecipeUrl("")
  {
    assert FoldCase("httpstack.json"[4]) != FoldCase("http://"[4]);
    assert FoldCase("httpstack.json"[5]) != FoldCase("https://"[5]);
    assert FoldCase("http:/x"[6]) != FoldCase("http://"[6]);
  }

  function CreateRequestOf(cf: CloudFormation): Request
  {
    CreateStackRequest(ExpandedName(cf), cf.parameters,
                       if cf.isRecipeUrl then TemplateUrl(cf.recipe) else TemplateBody(cf.recipe),
                       [CapabilityIam])
  }

  function UpdateRequestOf(cf: CloudFormation): Request
  {
    UpdateStackRequest(ExpandedName(cf), cf.parameters, cf.recipe, [CapabilityIam])
  }

  // ---------------------------------------------------------------- create

  /** What the remote and the clock answer during one create(): the describe
      answers (the existence probe first), whether createStack/updateStack
      and describeStackEvents are accepted, and the clock readings. */
  datatype CreateScript = CreateScript(describes: seq<DescribeResponse>, submitAccepted: bool,
                                       eventsAccepted: bool, clock: seq<int>)

  /** The outcome of create(), the request it submitted, the describe calls,
      the waits between polls, the final pause (ms) and the object after. */
  datatype CreateRun = CreateRun(outcome: Outcome, request: Option<Request>, describes: nat,
                                 sleeps: seq<int>, pauseMs: int, after: CloudFormation)

  /** No output after position `i` has the same key. */
  predicate LastOfKey(outs: seq<Output>, i: nat)
    requires i < |outs|
  {
    forall j :: i < j < |outs| ==> outs[j].key != outs[i].key
  }

  /** The stack outputs as the map create() fills: one put per output, so
      a key given twice keeps the value of its last output. */
  function OutputMap(outs: seq<Output>): (m: map<string, string>)
    ensures forall o :: o in outs ==> o.key in m
    ensures forall k :: k in m ==> exists o :: o in outs && o.key == k && m[k] == o.value
    ensures forall i :: 0 <= i < |outs| && LastOfKey(outs, i) ==> outs[i].key in m && m[outs[i].key] == outs[i].value
  {
    var es := seq(|outs|, i requires 0 <= i < |outs| => (outs[i].key, outs[i].value));
    var m := JavaMaps.PutAll(map[], es);
    forall i | 0 <= i < |outs| && LastOfKey(outs, i)
      ensures outs[i].key in m && m[outs[i].key] == outs[i].value
    {
      JavaMaps.LastValueOfLast(es, i);
    }
    forall o | o in outs ensures o.key in m {
      var i :| 0 <= i < |outs| && outs[i] == o;
      assert es[i].0 == o.key;
    }
    forall k | k in m ensures exists o :: o in outs && o.key == k && m[k] == o.value {
      JavaMaps.LastValueAt(es, k);
      var i :| 0 <= i < |es| && es[i] == (k, m[k]) && JavaMaps.NotAfter(es, i, k);
      assert outs[i].key == k && outs[i].value == m[k];
    }
    m
  }

  /** TimeUnit.SECONDS.toMillis: saturates at the long range. */
  function SecondsToMillis(s: int): (ms: int)
    ensures MinLong <= s * 1000 <= MaxLong ==> ms == s * 1000
    ensures s >= 0 <==> ms >= 0
  {
    if s > MaxLong / 1000 then MaxLong
    else if s < -(MaxLong / 1000) then MinLong
    else s * 1000
  }

  /** create(): probe, submit, poll, then record outputs and pause. The probe
      stores its answer in a local, so whether a create or an update is sent
      depends only on the `stack` field. Service rejections make create()
      return false; TimeoutException, a null stack and a negative pause escape. */
  function Create(cf: CloudFormation, script: CreateScript): (run: CreateRun)
    ensures run.describes <= |script.describes|
    ensures run.request.Some? ==> (run.request.value.CreateStackRequest? <==> cf.stack.None?)
    ensures run.request.Some? && run.request.value.CreateStackRequest? ==>
      && run.request.value.stackName == ExpandedName(cf)
      && run.request.value.parameters == cf.parameters
      && (run.request.value.template.TemplateUrl? <==> cf.isRecipeUrl)
      && run.request.value.template == (if cf.isRecipeUrl then TemplateUrl(cf.recipe) else TemplateBody(cf.recipe))
      && run.request.value.capabilities == [CapabilityIam]
    ensures run.request.Some? && run.request.value.UpdateStackRequest? ==>
      && run.request.value.stackName == ExpandedName(cf)
      && run.request.value.parameters == cf.parameters
      && run.request.value.templateBody == cf.recipe
      && run.request.value.capabilities == [CapabilityIam]
    ensures run.outcome != Unscripted ==> run.request.Some? && run.describes >= 1
    ensures forall i :: 0 <= i < |run.sleeps| ==> run.sleeps[i] == BackOff(cf.timeout, i + 1)
    ensures run.outcome == Returned(true) ==>
      && script.submitAccepted && script.eventsAccepted
      && run.after.stack.Some?
      && CreationSuccessful(run.after.stack.value.status)
      && script.describes[run.describes - 1].Stacks?
      && GetStack(script.describes[run.describes - 1].stacks, ExpandedName(cf)) == run.after.stack
      && run.after.outputs == Some(OutputMap(run.after.stack.value.outputs))
      && run.pauseMs == SecondsToMillis(cf.sleep)
    ensures run.outcome == Throws(TimeoutException) ==> cf.timeout != 0
    ensures run.outcome == Throws(IllegalArgumentException) ==> cf.sleep < 0
    ensures run.outcome.Throws? ==>
      run.outcome.error in {TimeoutException, NullPointerException, IllegalArgumentException}
    ensures !(run.outcome == Returned(true) || run.outcome == Throws(IllegalArgumentException)) ==>
      run.after.outputs == cf.outputs
    ensures run.after == cf.(stack := run.after.stack, outputs := run.after.outputs)
  {
    if |script.describes| == 0 then CreateRun(Unscripted, None, 0, [], 0, cf)
    else
      // script.describes[0] answers the existence probe; its stack is never read
      var request := if cf.stack.None? then CreateRequestOf(cf) else UpdateRequestOf(cf);
      if !script.submitAccepted then CreateRun(Returned(false), Some(request), 1, [], 0, cf)
      else if |script.clock| == 0 then CreateRun(Unscripted, Some(request), 1, [], 0, cf)
      else
        var name := ExpandedName(cf);
        var poll := PollCreation(name, cf.timeout, script.clock[0], 1, script.describes[1..], script.clock[1..]);
        var describes := 1 + poll.describes;
        assert forall i :: 1 <= i < |script.describes| ==> script.describes[i] == script.describes[1..][i - 1];
        match poll.outcome
        case PollUnscripted => CreateRun(Unscripted, Some(request), describes, poll.sleeps, 0, cf)
        case PollTimedOut => CreateRun(Throws(TimeoutException), Some(request), describes, poll.sleeps, 0, cf)
        case PollServiceError => CreateRun(Returned(false), Some(request), describes, poll.sleeps, 0, cf)
        case PollNoStack => CreateRun(Throws(NullPointerException), Some(request), describes, poll.sleeps, 0, cf)
        case Settled(st) =>
          if !script.eventsAccepted then CreateRun(Returned(false), Some(request), describes, poll.sleeps, 0, cf)
          else
            var settled := cf.(stack := Some(st));
            if !CreationSuccessful(st.status) then
              CreateRun(Returned(false), Some(request), describes, poll.sleeps, 0, settled)
            else
              var done := settled.(outputs := Some(OutputMap(st.outputs)));
              if cf.sleep < 0 then
                CreateRun(Throws(IllegalArgumentException), Some(request), describes, poll.sleeps, 0, done)
              else
                CreateRun(Returned(true), Some(request), describes, poll.sleeps, SecondsToMillis(cf.sleep), done)
  }

  /** The creation poll a create() runs once its request was accepted: on
      the describe answers after the existence probe, with the first clock
      reading as its start. */
  function CreationPollOf(cf: CloudFormation, script: CreateScript): CreationPoll
    requires |script.describes| > 0 && |script.clock| > 0
  {
    PollCreation(ExpandedName(cf), cf.timeout, script.clock[0], 1, script.describes[1..], script.clock[1..])
  }

  /** How create()'s outcome follows from the remote's answers: a rejected
      submission gives false after the probe alone; otherwise the outcome is
      decided by how the creation poll ended. A settled stack gives true
      exactly when the events were described, its status is CREATE_COMPLETE
      or UPDATE_COMPLETE and the pause is not negative, and false when the
      events were rejected or the status is any other. */
  lemma CreateFollowsPoll(cf: CloudFormation, script: CreateScript)
    ensures |script.describes| == 0 ==> Create(cf, script).outcome == Unscripted
    ensures |script.describes| > 0 && !script.submitAccepted ==>
      Create(cf, script).outcome == Returned(false) && Create(cf, script).describes == 1
    ensures |script.describes| > 0 && script.submitAccepted && |script.clock| == 0 ==>
      Create(cf, script).outcome == Unscripted
    ensures |script.describes| > 0 && script.submitAccepted && |script.clock| > 0 ==>
      && Create(cf, script).describes == 1 + CreationPollOf(cf, script).describes
      && Create(cf, script).sleeps == CreationPollOf(cf, script).sleeps
      && (Create(cf, script).outcome == Throws(TimeoutException) <==> CreationPollOf(cf, script).outcome.PollTimedOut?)
      && (Create(cf, script).outcome == Unscripted <==> CreationPollOf(cf, script).outcome.PollUnscripted?)
      && (Create(cf, script).outcome == Throws(NullPointerException) <==> CreationPollOf(cf, script).outcome.PollNoStack?)
      && (CreationPollOf(cf, script).outcome.PollServiceError? ==> Create(cf, script).outcome == Returned(false))
    ensures |script.describes| > 0 && script.submitAccepted && |script.clock| > 0
            && CreationPollOf(cf, script).outcome.Settled? ==>
      && (Create(cf, script).outcome == Returned(true) <==>
            script.eventsAccepted && CreationSuccessful(CreationPollOf(cf, script).outcome.stack.status) && cf.sleep >= 0)
      && (Create(cf, script).outcome == Returned(false) <==>
            !script.eventsAccepted || !CreationSuccessful(CreationPollOf(cf, script).outcome.stack.status))
  {
  }

  /** getOutputs: every output key prefixed with the expanded stack name and
      an underscore, with its value. Before a successful create `outputs` is
      null and the call dereferences it. */
  function PrefixedKey(name: string, key: string): string
  {
    name + "_" + key
  }

  function GetOutputs(cf: CloudFormation): (r: Result<map<string, string>>)
    ensures cf.outputs.None? <==> r == Err(NullPointerException)
    ensures r.Ok? ==> forall k :: k in cf.outputs.value ==>
      PrefixedKey(ExpandedName(cf), k) in r.value && r.value[PrefixedKey(ExpandedName(cf), k)] == cf.outputs.value[k]
    ensures r.Ok? ==> forall k :: k in r.value ==>
      exists k0 :: k0 in cf.outputs.value && k == PrefixedKey(ExpandedName(cf), k0)
    ensures r.Ok? ==> |r.value| == |cf.outputs.value|
  {
    match cf.outputs
    case None => Err(NullPointerException)
    case Some(outs) =>
      var name := ExpandedName(cf);
      var keys := set k | k in outs :: PrefixedKey(name, k);
      assert forall k :: k in keys ==> k[|name| + 1..] in outs && PrefixedKey(name, k[|name| + 1..]) == k by {
        forall k | k in keys ensures k[|name| + 1..] in outs && PrefixedKey(name, k[|name| + 1..]) == k {
          var k0 :| k0 in outs && k == PrefixedKey(name, k0);
          assert k[|name| + 1..] == k0;
        }
      }
      var m := map k | k in keys :: outs[k[|name| + 1..]];
      assert forall k :: k in outs ==> PrefixedKey(name, k)[|name| + 1..] == k;
      SetImageSize(outs.Keys, name);
      assert m.Keys == keys;
      Ok(m)
  }

  /** Different keys stay different once prefixed. */
  lemma PrefixedKeyInjective(name: string, a: string, b: string)
    requires PrefixedKey(name, a) == PrefixedKey(name, b)
    ensures a == b
  {
    assert a == PrefixedKey(name, a)[|name| + 1..];
    assert b == PrefixedKey(name, b)[|name| + 1..];
  }

  /** Prefixing keeps keys apart, so there are as many prefixed keys as keys. */
  lemma {:induction false} SetImageSize(keys: set<string>, name: string)
    ensures |set k | k in keys :: PrefixedKey(name, k)| == |keys|
    decreases |keys|
  {
    if keys != {} {
      var x :| x in keys;
      var rest := keys - {x};
      SetImageSize(rest, name);
      var img := set k | k in keys :: PrefixedKey(name, k);
      var imgRest := set k | k in rest :: PrefixedKey(name, k);
      assert img == imgRest + {PrefixedKey(name, x)};
      forall y | y in rest ensures PrefixedKey(name, y) != PrefixedKey(name, x) {
        if PrefixedKey(name, y) == PrefixedKey(name, x) {
          PrefixedKeyInjective(name, y, x);
        }
      }
      assert PrefixedKey(name, x) !in imgRest;
    }
  }

  // ---------------------------------------------------------------- delete target

  predicate NoMatchAfter(prefix: string, running: seq<StackSummary>, i: int)
  {
    forall j :: 0 <= j < |running| && i < j ==> !StartsWith(running[j].name, prefix)
  }

  /** The summaries whose name starts with `prefix`, in list order. */
  function PrefixMatches(prefix: string, running: seq<StackSummary>): (ms: seq<StackSummary>)
    ensures |ms| <= |running|
    decreases |running|
  {
    if |running| == 0 then []
    else
      var ms := PrefixMatches(prefix, running[..|running| - 1]);
      var last := running[|running| - 1];
      if StartsWith(last.name, prefix) then ms + [last] else ms
  }

  /** The matches are exactly the running stacks whose name starts with
      the prefix. */
  lemma {:induction false} PrefixMatchesMembers(prefix: string, running: seq<StackSummary>)
    ensures forall s :: s in PrefixMatches(prefix, running) <==> s in running && StartsWith(s.name, prefix)
    decreases |running|
  {
    if |running| > 0 {
      var init := running[..|running| - 1];
      PrefixMatchesMembers(prefix, init);
      assert running == init + [running[|running| - 1]];
    }
  }

  /** No running stack after the last match matches. */
  lemma {:induction false} PrefixMatchesLast(prefix: string, running: seq<StackSummary>)
    ensures var ms := PrefixMatches(prefix, running);
      |ms| > 0 ==> exists i :: 0 <= i < |running| && running[i] == ms[|ms| - 1] && NoMatchAfter(prefix, running, i)
    decreases |running|
  {
    if |running| > 0 {
      var init := running[..|running| - 1];
      var last := running[|running| - 1];
      var ms := PrefixMatches(prefix, init);
      if StartsWith(last.name, prefix) {
        assert NoMatchAfter(prefix, running, |running| - 1);
      } else if |ms| > 0 {
        PrefixMatchesLast(prefix, init);
        var i :| 0 <= i < |init| && init[i] == ms[|ms| - 1] && NoMatchAfter(prefix, init, i);
        assert running[i] == init[i];
        forall j | 0 <= j < |running| && i < j ensures !StartsWith(running[j].name, prefix) {
          if j < |init| {
            assert running[j] == init[j];
          }
        }
      }
    }
  }

  /** returnOldestStackName as written: the `if` comparing creation times
      ends in an empty statement, so the block after it runs for every
      summary and the last one listed wins, whatever its creation time. */
  function ReturnOldestStackName(ms: seq<StackSummary>, date: int, name: string): (r: string)
    ensures |ms| > 0 ==> r == ms[|ms| - 1].name
    ensures |ms| == 0 ==> r == name
  {
    if |ms| == 0 then name
    else ReturnOldestStackName(ms[1..], ms[0].creationTime, ms[0].name)
  }

  /** getOldestStackNameWithPrefix: with fewer than two matches the prefix
      itself, otherwise the last matching summary in list order. */
  function OldestStackNameWithPrefix(prefix: string, running: seq<StackSummary>): (r: string)
    ensures |PrefixMatches(prefix, running)| <= 1 ==> r == prefix
    ensures |PrefixMatches(prefix, running)| >= 2 ==>
      StartsWith(r, prefix)
      && exists i :: 0 <= i < |running| && running[i].name == r && NoMatchAfter(prefix, running, i)
  {
    var ms := PrefixMatches(prefix, running);
    PrefixMatchesMembers(prefix, running);
    PrefixMatchesLast(prefix, running);
    if |ms| <= 1 then prefix
    else
      assert ms[|ms| - 1] in ms;
      ReturnOldestStackName(ms, ms[0].creationTime, "")
  }

  /** The choice the method's name promises: the position of the earliest
      created summary (the first one on ties). */
  function EarliestCreated(ms: seq<StackSummary>): (i: nat)
    requires |ms| > 0
    ensures i < |ms|
    ensures forall j :: 0 <= j < |ms| ==> ms[i].creationTime <= ms[j].creationTime
    ensures forall j :: 0 <= j < i ==> ms[j].creationTime > ms[i].creationTime
  {
    if |ms| == 1 then 0
    else
      var k := EarliestCreated(ms[1..]);
      assert forall j :: 1 <= j < |ms| ==> ms[j] == ms[1..][j - 1];
      if ms[0].creationTime <= ms[k + 1].creationTime then 0 else k + 1
  }

  /** Two matching stacks, the older listed first: the stack chosen for
      deletion is the newer one, not the oldest. */
  lemma OldestSelectionPicksLastListed()
    ensures var running := [StackSummary("app-1", 100), StackSummary("app-2", 200)];
      && PrefixMatches("app-", running) == running
      && running[EarliestCreated(running)].name == "app-1"
      && OldestStackNameWithPrefix("app-", running) == "app-2"
  {
    var running := [StackSummary("app-1", 100), StackSummary("app-2", 200)];
    assert StartsWith("app-1", "app-") && StartsWith("app-2", "app-");
    assert running[..1] == [running[0]];
    assert running[..1][..0] == [];
    assert PrefixMatches("app-", running[..1]) == [running[0]];
  }

  // ---------------------------------------------------------------- delete

  /** What the remote answers during one delete(): the running stacks listed
      for prefix selection, whether deleteStack is accepted, and the answers
      to describeStacks. */
  datatype DeleteScript = DeleteScript(running: seq<StackSummary>, deleteAccepted: bool,
                                       describes: seq<DescribeResponse>)

  datatype DeleteRun = DeleteRun(outcome: Outcome, target: Option<string>, describes: nat,
                                 sleeps: seq<int>, after: CloudFormation)

  /** delete(): a null prefix flag dereferences null; with the flag set the
      stack name is replaced by the prefix selection first; then deleteStack
      (a rejection escapes) and the deletion poll. */
  function Delete(cf: CloudFormation, script: DeleteScript): (run: DeleteRun)
    ensures run.describes <= |script.describes| && |run.sleeps| <= run.describes
    ensures cf.isPrefixSelected.None? ==> run.outcome == Throws(NullPointerException) && run.after == cf
    ensures cf.isPrefixSelected == Some(false) ==> run.after.stackName == cf.stackName
    ensures cf.isPrefixSelected == Some(true) ==>
      run.after.stackName == OldestStackNameWithPrefix(cf.stackName, script.running)
    ensures cf.isPrefixSelected.Some? ==> run.target == Some(ExpandedName(run.after))
    ensures cf.isPrefixSelected.Some? && !script.deleteAccepted ==>
      run.outcome == Throws(AmazonServiceException) && run.describes == 0
    ensures run.outcome.Returned? ==>
      && script.deleteAccepted
      && run.describes >= 1
      && script.describes[run.describes - 1].Stacks?
      && run.after.stack == GetStack(script.describes[run.describes - 1].stacks, run.target.value)
      && (run.outcome.ok <==> run.after.stack.None? || run.after.stack.value.status == DeleteComplete)
      && (!run.outcome.ok ==> run.after.stack.value.status == DeleteFailed)
    ensures run.describes >= 1 && run.outcome != Unscripted ==> |run.sleeps| == run.describes - 1
    ensures run.describes >= 1 && run.outcome.Throws? ==>
      run.outcome.error == AmazonServiceException && script.describes[run.describes - 1].ServiceError?
    ensures forall i :: 0 <= i < |run.sleeps| ==>
      run.sleeps[i] == BackOff(cf.timeout, i + 1)
      && run.target.Some? && KeepsDeleting(script.describes[i], run.target.value)
    ensures run.outcome == Unscripted ==> run.describes == |script.describes| == |run.sleeps|
    ensures run.after == cf.(stackName := run.after.stackName, stack := run.after.stack)
  {
    match cf.isPrefixSelected
    case None => DeleteRun(Throws(NullPointerException), None, 0, [], cf)
    case Some(prefixed) =>
      var name := if prefixed then OldestStackNameWithPrefix(cf.stackName, script.running) else cf.stackName;
      var renamed := cf.(stackName := name);
      var target := ExpandedName(renamed);
      if !script.deleteAccepted then DeleteRun(Throws(AmazonServiceException), Some(target), 0, [], renamed)
      else
        var p := PollDeletion(target, cf.timeout, 1, script.describes, cf.stack);
        PollDeletionUnscripted(target, cf.timeout, 1, script.describes, cf.stack);
        PollDeletionKeepsDeleting(target, cf.timeout, 1, script.describes, cf.stack);
        DeleteRun(p.outcome, Some(target), p.describes, p.sleeps, renamed.(stack := p.stack))
  }
}
