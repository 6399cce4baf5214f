/** Properties of the stack lifecycle that relate several calls, or pin
    down what a given remote script makes create() and delete() do. */
module LifecycleLemmas {
  import opened Wrappers
  import opened Lifecycle

  /** A described stack with the given name and status and no outputs. */
  function Described(name: string, status: StackStatus): DescribeResponse
  {
    Stacks([StackInfo(name, status, "", [])])
  }

  /** The deadline readings of the first `n` rounds of a creation poll
      (positions 1, 3, 5, ... of its clock) are all in time. */
  predicate InTimeFor(timeout: int, start: int, clock: seq<int>, n: nat)
  {
    timeout != 0 ==> forall i :: 0 <= i < n && 2 * i + 1 < |clock| ==> !IsTimeout(timeout, start, clock[2 * i + 1])
  }

  /** A creation poll whose first `n` answers keep it creating, each with
      its deadline reading in time, and whose script does not run out
      before round `n` runs at least to round `n`. */
  lemma PollRunsThrough(name: string, timeout: int, start: int, retries: nat,
                        rs: seq<DescribeResponse>, clock: seq<int>, n: nat)
    requires n < |rs| && Stride(timeout) * n < |clock|
    requires forall i :: 0 <= i < n ==> KeepsCreating(rs[i], name)
    requires InTimeFor(timeout, start, clock, n)
    ensures PollCreation(name, timeout, start, retries, rs, clock).describes >= n + 1
  {
    var p := PollCreation(name, timeout, start, retries, rs, clock);
    PollCreationTimedOut(name, timeout, start, retries, rs, clock);
    PollCreationUnscripted(name, timeout, start, retries, rs, clock);
    InTimeShifted(timeout, start, clock, n);
  }

  /** The in-time readings of `InTimeFor`, numbered from one. */
  lemma InTimeShifted(timeout: int, start: int, clock: seq<int>, n: nat)
    requires InTimeFor(timeout, start, clock, n)
    ensures timeout != 0 ==>
      forall k :: 0 < k <= n && 2 * k <= |clock| ==> !IsTimeout(timeout, start, clock[2 * k - 1])
  {
    if timeout != 0 {
      forall k | 0 < k <= n && 2 * k <= |clock|
        ensures !IsTimeout(timeout, start, clock[2 * k - 1])
      {
        assert 2 * k - 1 == 2 * (k - 1) + 1;
      }
    }
  }

  /** A creation poll that sees `n` answers on which it goes round again,
      each with its deadline reading in time, and then a settled stack stops
      there with that stack, after n + 1 describes. */
  lemma CreationSettlesAfterPending(name: string, timeout: int, start: int, retries: nat,
                                    rs: seq<DescribeResponse>, clock: seq<int>, n: nat)
    requires n < |rs| && Stride(timeout) * n < |clock|
    requires forall i :: 0 <= i < n ==> KeepsCreating(rs[i], name)
    requires InTimeFor(timeout, start, clock, n)
    requires rs[n].Stacks? && GetStack(rs[n].stacks, name).Some?
    requires !CreationInProgress(GetStack(rs[n].stacks, name).value.status)
    ensures PollCreation(name, timeout, start, retries, rs, clock).outcome == Settled(GetStack(rs[n].stacks, name).value)
    ensures PollCreation(name, timeout, start, retries, rs, clock).describes == n + 1
  {
    PollRunsThrough(name, timeout, start, retries, rs, clock, n);
    PollCreationUnscripted(name, timeout, start, retries, rs, clock);
    assert !KeepsCreating(rs[n], name);
  }

  /** With a timeout set, a creation poll that goes round `n` times in time
      and then sees a stack still in progress (or a throttled answer) with
      a late deadline reading ends with a timeout after n + 1 describes. */
  lemma CreationTimesOut(name: string, timeout: int, start: int, retries: nat,
                         rs: seq<DescribeResponse>, clock: seq<int>, n: nat)
    requires timeout != 0
    requires n < |rs| && 2 * n + 2 <= |clock|
    requires forall i :: 0 <= i <= n ==> KeepsCreating(rs[i], name)
    requires InTimeFor(timeout, start, clock, n)
    requires IsTimeout(timeout, start, clock[2 * n + 1])
    ensures PollCreation(name, timeout, start, retries, rs, clock).outcome == PollTimedOut
    ensures PollCreation(name, timeout, start, retries, rs, clock).describes == n + 1
  {
    PollRunsThrough(name, timeout, start, retries, rs, clock, n);
    PollStopsBy(name, timeout, start, retries, rs, clock, n);
    PollCreationUnscripted(name, timeout, start, retries, rs, clock);
  }

  /** A late deadline reading in round `n` stops the poll by that round. */
  lemma PollStopsBy(name: string, timeout: int, start: int, retries: nat,
                    rs: seq<DescribeResponse>, clock: seq<int>, n: nat)
    requires timeout != 0 && 2 * n + 1 < |clock|
    requires IsTimeout(timeout, start, clock[2 * n + 1])
    ensures |PollCreation(name, timeout, start, retries, rs, clock).sleeps| <= n
  {
    PollCreationInTime(name, timeout, start, retries, rs, clock);
  }

  /** Deletion poll: after `n` answers on which it goes round again, an
      answer that stops it (the stack gone, DELETE_COMPLETE or
      DELETE_FAILED) ends it with true exactly when the stack is gone or
      deleted, after n + 1 describes. */
  lemma {:induction false} DeletionSettlesAfterPending(name: string, timeout: int, retries: nat,
                                                       rs: seq<DescribeResponse>, seen: Option<StackInfo>, n: nat)
    requires n < |rs|
    requires forall i :: 0 <= i < n ==> KeepsDeleting(rs[i], name)
    requires rs[n].Stacks? && !KeepsDeleting(rs[n], name)
    ensures PollDeletion(name, timeout, retries, rs, seen).outcome
      == Returned(GetStack(rs[n].stacks, name).None? || GetStack(rs[n].stacks, name).value.status == DeleteComplete)
    ensures PollDeletion(name, timeout, retries, rs, seen).describes == n + 1
    ensures PollDeletion(name, timeout, retries, rs, seen).stack == GetStack(rs[n].stacks, name)
    decreases n
  {
    if n > 0 {
      assert forall i :: 1 <= i < |rs| ==> rs[i] == rs[1..][i - 1];
      var seen' := if rs[0].Stacks? then GetStack(rs[0].stacks, name) else seen;
      DeletionSettlesAfterPending(name, timeout, retries + 1, rs[1..], seen', n - 1);
    }
  }

  /** The existence probe's answer never matters: create() behaves the same
      whatever the first describe returns. */
  lemma ProbeAnswerIgnored(cf: CloudFormation, script: CreateScript, probe: DescribeResponse)
    requires |script.describes| > 0
    ensures Create(cf, script) == Create(cf, script.(describes := [probe] + script.describes[1..]))
  {
    var other := script.(describes := [probe] + script.describes[1..]);
    assert other.describes[1..] == script.describes[1..];
  }

  /** On a freshly constructed object create() sends createStack and never
      updateStack, whatever the remote answers. */
  lemma FreshObjectCreates(stackName: string, isRecipeUrl: bool, recipe: string,
                           parameters: Option<seq<(string, string)>>, timeout: int,
                           autoDelete: bool, expand: string -> string, script: CreateScript)
    requires script.submitAccepted && |script.describes| > 0
    ensures var run := Create(New(stackName, isRecipeUrl, recipe, parameters, timeout, None, autoDelete, expand, Some(false), 0), script);
      run.request.Some? && run.request.value.CreateStackRequest?
  {
  }

  /** create() succeeds once the stack is described complete after `n`
      answers on which the poll goes round again, each round's deadline
      reading in time: n + 2 describe calls, counting the existence probe.
      The clock starts with the start reading, so round `i` reads its
      deadline at position 2 * i + 2. */
  lemma CreateSucceedsAfterPending(cf: CloudFormation, script: CreateScript, n: nat)
    requires cf.sleep >= 0
    requires script.submitAccepted && script.eventsAccepted
    requires n + 1 < |script.describes| && Stride(cf.timeout) * n + 1 < |script.clock|
    requires forall i :: 1 <= i < n + 1 ==> KeepsCreating(script.describes[i], ExpandedName(cf))
    requires InTimeFor(cf.timeout, script.clock[0], script.clock[1..], n)
    requires script.describes[n + 1].Stacks?
    requires GetStack(script.describes[n + 1].stacks, ExpandedName(cf)).Some?
    requires CreationSuccessful(GetStack(script.describes[n + 1].stacks, ExpandedName(cf)).value.status)
    ensures Create(cf, script).outcome == Returned(true)
    ensures Create(cf, script).describes == n + 2
  {
    var rs := script.describes[1..];
    assert forall i :: 0 <= i < n ==> rs[i] == script.describes[i + 1];
    assert rs[n] == script.describes[n + 1];
    CreationSettlesAfterPending(ExpandedName(cf), cf.timeout, script.clock[0], 1, rs, script.clock[1..], n);
    CreateFollowsPoll(cf, script);
  }

  /** With a timeout set, create() throws TimeoutException when the poll
      goes round `n` times in time and then sees the stack still in
      progress with a late deadline reading. */
  lemma CreateTimesOut(cf: CloudFormation, script: CreateScript, n: nat)
    requires cf.timeout != 0 && script.submitAccepted
    requires n + 1 < |script.describes| && 2 * n + 3 <= |script.clock|
    requires forall i :: 1 <= i <= n + 1 ==> KeepsCreating(script.describes[i], ExpandedName(cf))
    requires InTimeFor(cf.timeout, script.clock[0], script.clock[1..], n)
    requires IsTimeout(cf.timeout, script.clock[0], script.clock[2 * n + 2])
    ensures Create(cf, script).outcome == Throws(TimeoutException)
    ensures Create(cf, script).describes == n + 2
  {
    var rs := script.describes[1..];
    assert forall i :: 0 <= i <= n ==> rs[i] == script.describes[i + 1];
    assert script.clock[1..][2 * n + 1] == script.clock[2 * n + 2];
    CreationTimesOut(ExpandedName(cf), cf.timeout, script.clock[0], 1, rs, script.clock[1..], n);
    CreateFollowsPoll(cf, script);
  }

  /** A delete() without prefix selection whose deleteStack is accepted
      ends after `n` answers on which its poll goes round again and one
      that stops it: true when the stack is gone or DELETE_COMPLETE, false
      when it is DELETE_FAILED. */
  lemma DeleteSettlesAfterPending(cf: CloudFormation, script: DeleteScript, n: nat)
    requires cf.isPrefixSelected == Some(false) && script.deleteAccepted
    requires n < |script.describes|
    requires forall i :: 0 <= i < n ==> KeepsDeleting(script.describes[i], ExpandedName(cf))
    requires script.describes[n].Stacks? && !KeepsDeleting(script.describes[n], ExpandedName(cf))
    ensures var st := GetStack(script.describes[n].stacks, ExpandedName(cf));
      Delete(cf, script).outcome == Returned(st.None? || st.value.status == DeleteComplete)
    ensures var st := GetStack(script.describes[n].stacks, ExpandedName(cf));
      st.Some? && st.value.status == DeleteFailed ==> Delete(cf, script).outcome == Returned(false)
    ensures Delete(cf, script).describes == n + 1
  {
    assert cf.(stackName := cf.stackName) == cf;
    DeletionSettlesAfterPending(ExpandedName(cf), cf.timeout, 1, script.describes, cf.stack, n);
  }

  /** The identity expansion: an environment without variables in play. */
  function NoVariables(s: string): string { s }

  /** The test object: timing switched off, no parameters, default region. */
  function TestStack(): CloudFormation
  {
    New("testStack", false, "{}", None, TestingTimeout, None, true, NoVariables, Some(false), 0)
  }

  /** Two in-progress answers then complete: create() returns true after
      exactly three describe calls, the probe included. */
  lemma CreateWaitsForCompletion()
    ensures var pending := Described("testStack", CreateInProgress);
      var run := Create(TestStack(), CreateScript([pending, pending, Described("testStack", CreateComplete)], true, true, [0, 1, 2]));
      run.outcome == Returned(true) && run.describes == 3
  {
    var pending := Described("testStack", CreateInProgress);
    var script := CreateScript([pending, pending, Described("testStack", CreateComplete)], true, true, [0, 1, 2]);
    assert KeepsCreating(script.describes[1], "testStack");
    CreateSucceedsAfterPending(TestStack(), script, 1);
  }

  /** A stack described CREATE_FAILED makes create() return false. */
  lemma CreateReportsFailure()
    ensures var failed := Described("testStack", CreateFailed);
      Create(TestStack(), CreateScript([failed, failed], true, true, [0, 1])).outcome == Returned(false)
  {
    var failed := Described("testStack", CreateFailed);
    var script := CreateScript([failed, failed], true, true, [0, 1]);
    assert GetStack(failed.stacks, "testStack") == Some(StackInfo("testStack", CreateFailed, "", []));
  }

  /** Deleting, deleting, gone: delete() returns true after three describes. */
  lemma DeleteWaitsUntilGone()
    ensures var deleting := Described("testStack", DeleteInProgress);
      var run := Delete(TestStack(), DeleteScript([], true, [deleting, deleting, Stacks([])]));
      run.outcome == Returned(true) && run.describes == 3
  {
    var deleting := Described("testStack", DeleteInProgress);
    var rs := [deleting, deleting, Stacks([])];
    assert KeepsDeleting(rs[0], "testStack") && KeepsDeleting(rs[1], "testStack");
    DeletionSettlesAfterPending("testStack", 0, 1, rs, None, 2);
  }

  /** A stack described DELETE_FAILED makes delete() return false. */
  lemma DeleteReportsFailure()
    ensures Delete(TestStack(), DeleteScript([], true, [Described("testStack", DeleteFailed)])).outcome == Returned(false)
  {
    var failed := Described("testStack", DeleteFailed);
    assert GetStack(failed.stacks, "testStack") == Some(StackInfo("testStack", DeleteFailed, "", []));
  }

  /** After create() returned true, getOutputs() answers with one entry per
      output of the created stack, under a key prefixed with the stack name;
      before any create() it dereferences null. */
  lemma OutputsAfterCreate(cf: CloudFormation, script: CreateScript)
    ensures cf.outputs.None? ==> GetOutputs(cf) == Err(NullPointerException)
    ensures var run := Create(cf, script);
      run.outcome == Returned(true) ==>
        && GetOutputs(run.after).Ok?
        && forall o :: o in run.after.stack.value.outputs ==>
             PrefixedKey(ExpandedName(run.after), o.key) in GetOutputs(run.after).value
  {
  }
}
