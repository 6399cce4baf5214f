# CloudFormation plugin for Jenkins — a Dafny model

This project models the core of the Jenkins CloudFormation plugin: the
`CloudFormation` object that creates, polls and deletes one AWS
CloudFormation stack, and the four Jenkins extensions that drive it:
- the build wrapper, which creates stacks before the build and tears them down after it;
- the build step and the post-build notifier, which create stacks;
- the notifier, which deletes stacks.

It also models the parameter text parsers of the stack beans and of the
plain `AWSCloudFormationBuilder`, the form validators, `ParameterUtils`,
`ParametersConverter`, `VariableInjectionAction` and the `Region` table.

Everything is a pure function over immutable values:
- The AWS service is a script. It holds the answers to `describeStacks`, in call order, and says whether `createStack`/`updateStack`, `deleteStack` and `describeStackEvents` are accepted.
- The clock is the sequence of `System.currentTimeMillis` readings.
- An exception that escapes is a value of the `Outcome`/`Result` datatypes.
- `Unscripted` marks a run whose script or clock ran out. It exists only in the model.
- `EnvVars.expand`, `EnvVars.overrideAll` and the workspace file reader are function parameters.
- In the build wrapper, build step and post-build notifier, what each `create()`/`delete()` call did is an input, indexed by stack position. A successful `create()` leaves the stack's own outputs on the object; `getOutputs()` prefixes each key with the stack name as the object expands it when called.
- The notifier runs the full `delete()` model on each stack.

Modules, one file each:
- `Wrappers` (`wrappers.dfy`): Option, Result, the Java exceptions and `Outcome`.
- `JavaText` (`java_text.dfy`): `String.trim`, `String.split` for a one-character literal (trailing empty strings dropped), case-insensitive `regionMatches`, `Long.parseLong` and `Long.toString`.
- `JavaMaps` (`java_maps.dfy`): `Map.put`/`putAll` over entry sequences.
- `Regions` (`region.dfy`): `Region`.
- `ParameterUtils` (`parameter_utils.dfy`): `ParameterUtils.merge` and `convert`.
- `ParametersConverter` (`parameters_converter.dfy`): `ParametersConverter.convert`, as a loop.
- `ParsedParameters` (`parsed_parameters.dfy`): `getParsedParameters` of `StackBean` and `PostBuildStackBean`.
- `Lifecycle` (`lifecycle.dfy`): `CloudFormation`.
- `LifecycleLemmas` (`lifecycle_lemmas.dfy`): scenarios of `create()`/`delete()`, including those of `CloudFormationTest`.
- `Beans` (`beans.dfy`): the three beans and their validators.
- `Builder` (`builder.dfy`): `AWSCloudFormationBuilder`.
- `VariableInjection` (`variable_injection.dfy`): `VariableInjectionAction`.
- `Builds` (`builds.dfy`): the Jenkins build as seen by the extensions, and the create-every-stack loop shared by the build step and the post-build notifier.
- `BuildWrapper` (`build_wrapper.dfy`): `CloudFormationBuildWrapper`.
- `BuildStep` (`build_step.dfy`): `CloudFormationBuildStep`.
- `PostBuildNotifier` (`post_build_notifier.dfy`): `CloudFormationPostBuildNotifier`.
- `Notifier` (`notifier.dfy`): `CloudFormationNotifier`.

## Where the code differs from its names and comments

- **The create/update choice.** `create()` stores the probe's answer in a local variable (CloudFormation.java:197). The `if (stack == null)` test (:204) reads the field instead. So a freshly constructed object always sends `createStack`, and the probe's answer never matters. `Lifecycle.Create`, `LifecycleLemmas.ProbeAnswerIgnored` and `LifecycleLemmas.FreshObjectCreates` state this.
- **The "oldest" stack with a prefix.** The `if` in `returnOldestStackName` ends in an empty statement (CloudFormation.java:489). The block after it therefore runs for every summary, and the last matching summary in list order is deleted, whatever its creation time. The model keeps this behaviour; `Lifecycle.OldestSelectionPicksLastListed` shows a case where it differs from the earliest-created stack (`Lifecycle.EarliestCreated`).
- **Tear-down uses the final environment.** The wrapper hands every `CloudFormation` the same `EnvVars` object (CloudFormationBuildWrapper.java:67-68), and each created stack's outputs are then put into it (:73). So `delete()` at tear-down expands a stack name with the outputs of every recorded stack in place. If a later stack outputs a variable used in an earlier stack's name, the stack deleted is not the one created. `BuildWrapper.TearDownExpandsInFinalEnv` states both names.
- **Build variables use the final environment too.** `makeBuildVariables` (CloudFormationBuildWrapper.java:44-46) calls `getOutputs()` again, after `setUp` returned. Each key is then prefixed with the stack name expanded in that final environment (CloudFormation.java:456-466). `setUp` put the same outputs into its environment under the name expanded at create time (:73). When an earlier stack's name uses a later stack's output, the two key sets differ: with stack 0 named `a${b_X}` and output `K`, and stack 1 named `b` with output `X=1`, `setUp`'s environment has `a${b_X}_K` and the build variables have `a1_K`. `BuildWrapper.BuildVariablesUseFinalNames` states both keys; `BuildWrapper.BuildVariablesMatchSetUp` states that the maps agree when every name expands as it did.
- **Tear-down short-circuits.** `result = result && cf.delete()` (CloudFormationBuildWrapper.java:122) calls no further `delete()` after one returns false.
- **Cascading failure is dead code.** The cascade-skip branch of `setUp` (CloudFormationBuildWrapper.java:62-65) never runs, because both failure paths `break` out of the loop.
- **Text after a second `=` is dropped.** In the bean parsers, `split("=")` keeps only `token[1]` as the value.
- **The region default.** The region falls back to `Region.getDefault()` in the `CloudFormation` constructors and in `SimpleStackBean`. `StackBean` and `PostBuildStackBean` keep a null region, and the constructor defaults it later.
- **The wrapper test calls tearDown on a null environment.** When the second stack fails (CloudFormationBuildWrapperTest.java:55-69), `setUp` returns null. The test's later `env.tearDown` therefore dereferences null, and the one `delete()` of the first stack comes from `setUp`'s own immediate tear-down. `BuildWrapper.SecondStackFailsFirstIsDeleted` states the part that `setUp` does.

## Model

| member | source | states |
|---|---|---|
| Wrappers.Collect | src/main/java/com/syncapse/jenkinsci/plugins/awscloudformationwrapper/CloudFormationBuildStep.java:77-97 | a loop that stops at the first exception: Ok exactly when every round is Ok, then one value per round in order; otherwise the first round's exception |
| JavaText.TrimPadded | src/main/java/com/syncapse/jenkinsci/plugins/awscloudformationwrapper/StackBean.java:133 | `trim()` removes exactly the surrounding blanks (characters up to U+0020) and nothing of the text between them |
| JavaText.TrimIdempotent | src/main/java/com/syncapse/jenkinsci/plugins/awscloudformationwrapper/StackBean.java:139 | trimming a trimmed key or value changes nothing |
| JavaText.Utf16Length | src/main/java/com/syncapse/jenkinsci/plugins/AWSCloudFormationBuilder.java:165-167 | `String.length()` counts between one and two code units per character, and is 0 exactly for the empty text |
| JavaText.Utf16LengthOfBmp | src/main/java/com/syncapse/jenkinsci/plugins/AWSCloudFormationBuilder.java:165-167 | without supplementary characters the length is the character count |
| JavaText.Utf16LengthAppend | src/main/java/com/syncapse/jenkinsci/plugins/AWSCloudFormationBuilder.java:165-167 | the length of a concatenation is the sum of the lengths |
| JavaText.IndexOf | src/main/java/com/syncapse/jenkinsci/plugins/awscloudformationwrapper/StackBean.java:132 | the first occurrence of the separator, and none before it; the end of the text exactly when it does not occur |
| JavaText.Pieces | src/main/java/com/syncapse/jenkinsci/plugins/awscloudformationwrapper/StackBean.java:131 | cutting a text at every separator gives pieces free of the separator that join back to the text |
| JavaText.DropTrailingEmpty | src/main/java/com/syncapse/jenkinsci/plugins/AWSCloudFormationBuilder.java:114 | `split` drops exactly the empty pieces at the end, and the piece it keeps last is not empty |
| JavaText.SplitTokens | src/main/java/com/syncapse/jenkinsci/plugins/awscloudformationwrapper/StackBean.java:132-133 | `split("=")` yields a second token exactly when some character after the first `=` is not `=`; the two tokens are then the texts before the first `=` and between the first and second `=` |
| JavaText.SplitJoin | src/main/java/com/syncapse/jenkinsci/plugins/awscloudformationwrapper/StackBean.java:131 | splitting a separator-joined list of separator-free entries gives the entries back |
| JavaText.SplitJoinTrailing | src/main/java/com/syncapse/jenkinsci/plugins/AWSCloudFormationBuilder.java:114 | separators at the end of the text add nothing to what `split` returns |
| JavaText.StartsWithIgnoreCaseFolded | src/main/java/com/syncapse/jenkinsci/plugins/awscloudformationwrapper/CloudFormation.java:538-539 | the case-insensitive prefix test gives the same answer on a case-folded text |
| JavaText.ParseShowLong | src/main/java/com/syncapse/jenkinsci/plugins/awscloudformationwrapper/StackBean.java:176 | `Long.parseLong` reads back every long's decimal rendering |
| JavaMaps.PutAll | src/main/java/com/syncapse/jenkinsci/plugins/awscloudformationwrapper/CloudFormationBuildWrapper.java:45 | after `putAll`, the keys are the old keys plus the new ones; a key that is put gets its last value put, and any other key keeps its old value |
| JavaMaps.PutAllAppend | src/main/java/com/syncapse/jenkinsci/plugins/awscloudformationwrapper/CloudFormationBuildWrapper.java:44-46 | two `putAll` calls in a row equal one `putAll` of both entry lists |
| JavaMaps.LastValueOfDistinct | src/main/java/com/syncapse/jenkinsci/plugins/awscloudformationwrapper/CloudFormationBuildWrapper.java:45 | in a map's own entry list, every key looks up its stored value |
| JavaMaps.LastValueOfLast | src/main/java/com/syncapse/jenkinsci/plugins/awscloudformationwrapper/CloudFormation.java:223-225 | the entry after which its key is never put again holds the key's final value: the last put wins |
| JavaMaps.PutAllLastEntry | src/main/java/com/syncapse/jenkinsci/plugins/awscloudformationwrapper/CloudFormation.java:223-225 | each key of a map filled by puts holds the value of its last put, with no later put of that key |
| Regions.Default | src/main/java/com/syncapse/jenkinsci/plugins/awscloudformationwrapper/Region.java:24-26 | the default region is US East with endpoint `cloudformation.us-east-1.amazonaws.com` |
| Regions.OrDefault | src/main/java/com/syncapse/jenkinsci/plugins/awscloudformationwrapper/CloudFormation.java:106 | a given region is kept; a null one becomes the default region |
| Regions.EndPointRoundTrip | src/main/java/com/syncapse/jenkinsci/plugins/awscloudformationwrapper/Region.java:4-22 | every region is found back from its endpoint, so no two regions share one |
| Regions.ReadableNameRoundTrip | src/main/java/com/syncapse/jenkinsci/plugins/awscloudformationwrapper/Region.java:4-22 | every region is found back from its readable name |
| Regions.RegionTable | src/main/java/com/syncapse/jenkinsci/plugins/awscloudformationwrapper/Region.java:3-17 | `values()` lists ten regions, each once; endpoints and readable names identify regions |
| ParameterUtils.FirstIndex | src/main/java/com/syncapse/jenkinsci/plugins/awscloudformationwrapper/ParameterUtils.java:20-21 | where a LinkedHashMap keeps a key: its first put; the end of the list when the key was never put |
| ParameterUtils.SnocFacts | src/main/java/com/syncapse/jenkinsci/plugins/awscloudformationwrapper/ParameterUtils.java:20-25 | one more put: the key is then present, keeps its first position, and its last put is the new parameter |
| ParameterUtils.PutStep | src/main/java/com/syncapse/jenkinsci/plugins/awscloudformationwrapper/ParameterUtils.java:20-25 | one `LinkedHashMap.put` keeps the value list in the insertion-order summary of all puts so far |
| ParameterUtils.ReplaceKeys | src/main/java/com/syncapse/jenkinsci/plugins/awscloudformationwrapper/ParameterUtils.java:20-25 | putting an existing key keeps the keys distinct and the key set unchanged |
| ParameterUtils.ReplaceLast | src/main/java/com/syncapse/jenkinsci/plugins/awscloudformationwrapper/ParameterUtils.java:20-25 | putting an existing key replaces that key's parameter in place |
| ParameterUtils.ReplaceOrder | src/main/java/com/syncapse/jenkinsci/plugins/awscloudformationwrapper/ParameterUtils.java:20-25 | putting an existing key leaves the key order as it was |
| ParameterUtils.AppendKeys | src/main/java/com/syncapse/jenkinsci/plugins/awscloudformationwrapper/ParameterUtils.java:20-25 | putting a new key keeps the keys distinct and adds exactly that key |
| ParameterUtils.AppendLast | src/main/java/com/syncapse/jenkinsci/plugins/awscloudformationwrapper/ParameterUtils.java:20-25 | putting a new key leaves the other parameters as they were |
| ParameterUtils.AppendOrder | src/main/java/com/syncapse/jenkinsci/plugins/awscloudformationwrapper/ParameterUtils.java:20-25 | a new key goes after every key already there |
| ParameterUtils.PutEachSummarises | src/main/java/com/syncapse/jenkinsci/plugins/awscloudformationwrapper/ParameterUtils.java:17-27 | the values of a LinkedHashMap after putting a list of parameters: one per key, the last put for each key, in order of first put |
| ParameterUtils.Merge | src/main/java/com/syncapse/jenkinsci/plugins/awscloudformationwrapper/ParameterUtils.java:16-28 | the merged keys are distinct and are those of either list; a key of `second` takes its last parameter there, any other key its last in `first`; keys are ordered by first appearance in `first` then `second`; the length is at most the sum of the lengths |
| ParameterUtils.MentionsAppend | src/main/java/com/syncapse/jenkinsci/plugins/awscloudformationwrapper/ParameterUtils.java:19-25 | a key occurs in two lists together exactly when it occurs in one of them |
| ParameterUtils.LastWithAppend | src/main/java/com/syncapse/jenkinsci/plugins/awscloudformationwrapper/ParameterUtils.java:19-25 | the last parameter for a key in `first ++ second` is the one in `second` when `second` has the key |
| ParameterUtils.PutEachDistinct | src/main/java/com/syncapse/jenkinsci/plugins/awscloudformationwrapper/ParameterUtils.java:17-27 | putting a duplicate-free list gives that list back |
| ParameterUtils.LastKeyIsNew | src/main/java/com/syncapse/jenkinsci/plugins/awscloudformationwrapper/ParameterUtils.java:20-21 | in a duplicate-free list, the last key is new to the parameters before it |
| ParameterUtils.MergeDistinctWithNothing | src/main/java/com/syncapse/jenkinsci/plugins/awscloudformationwrapper/ParameterUtils.java:16-28 | merging a duplicate-free list with nothing gives it back unchanged |
| ParameterUtils.MergeExample | src/test/java/com/syncapse/jenkinsci/plugins/awscloudformationwrapper/ParameterUtilsTest.java:45-62 | merging [key1, key2] with [key2, key3] gives key1, then key2 with the second list's value, then key3 |
| ParameterUtils.Convert | src/main/java/com/syncapse/jenkinsci/plugins/awscloudformationwrapper/ParameterUtils.java:30-44 | null gives null; otherwise there is one parameter per map entry in iteration order, with its key and value, so an empty map gives an empty list |
| ParameterUtils.ConvertRoundTrip | src/test/java/com/syncapse/jenkinsci/plugins/awscloudformationwrapper/ParameterUtilsTest.java:31-42 | converting a map gives its entries back as parameters with distinct keys, and putting them into a map rebuilds it |
| ParameterUtils.AsEntries | src/main/java/com/syncapse/jenkinsci/plugins/awscloudformationwrapper/ParameterUtils.java:36-41 | a parameter list read back as (key, value) pairs, element by element |
| ParametersConverter.Convert | src/main/java/com/syncapse/jenkinsci/plugins/awscloudformationwrapper/ParametersConverter.java:11-25 | the loop gives the same list as `ParameterUtils.convert`: null for null, otherwise one parameter per entry with the entry's key and value |
| ParsedParameters.Delimiter | src/main/java/com/syncapse/jenkinsci/plugins/awscloudformationwrapper/StackBean.java:130-141 | `;` separates entries exactly when the text contains one; `,` otherwise |
| ParsedParameters.ParseEntry | src/main/java/com/syncapse/jenkinsci/plugins/awscloudformationwrapper/StackBean.java:132-133 | an entry parses exactly when `split("=")` gives two tokens, and otherwise throws IndexOutOfBounds; the key is the trimmed text before the first `=`, and the value is the expanded, trimmed text up to the second `=` |
| ParsedParameters.ParseEntries | src/main/java/com/syncapse/jenkinsci/plugins/awscloudformationwrapper/StackBean.java:131-134 | the loop parses every entry in order, or throws IndexOutOfBounds exactly when some entry has no value |
| ParsedParameters.GetParsedParameters | src/main/java/com/syncapse/jenkinsci/plugins/awscloudformationwrapper/StackBean.java:121-143 | null or empty text gives an empty map; otherwise the map holds exactly the entries' keys; each key's value is from the last entry with that key; a value-less entry makes it throw IndexOutOfBounds |
| ParsedParameters.PutAllKeys | src/main/java/com/syncapse/jenkinsci/plugins/awscloudformationwrapper/StackBean.java:133 | the keys of the parsed map are the keys of the entries |
| ParsedParameters.PutAllValues | src/main/java/com/syncapse/jenkinsci/plugins/awscloudformationwrapper/StackBean.java:133 | a later entry's value wins over an earlier one with the same key |
| ParsedParameters.OneSeparator | src/main/java/com/syncapse/jenkinsci/plugins/awscloudformationwrapper/StackBean.java:132-133 | an entry with one `=` parses into exactly its two sides |
| ParsedParameters.PaddedEntry | src/test/java/com/syncapse/jenkinsci/plugins/awscloudformationwrapper/StackBeanTest.java:44-54 | blanks around the key, the `=` and the value do not matter |
| ParsedParameters.ParseEntryPadded | src/test/java/com/syncapse/jenkinsci/plugins/awscloudformationwrapper/StackBeanTest.java:44-54 | a padded entry parses to the bare key and the expanded bare value |
| ParsedParameters.ParsedDistinct | src/main/java/com/syncapse/jenkinsci/plugins/awscloudformationwrapper/StackBean.java:121-143 | a text of well-formed entries with distinct keys parses to one map entry per text entry |
| ParsedParameters.JoinedTokens | src/main/java/com/syncapse/jenkinsci/plugins/awscloudformationwrapper/StackBean.java:130-141 | joining entries with `;` (or with `,` when no entry holds `;`) gives entries the parser cuts back apart, so commas survive inside `;`-separated values |
| ParsedParameters.ParsedJoin | src/test/java/com/syncapse/jenkinsci/plugins/awscloudformationwrapper/StackBeanTest.java:71-84 | entries joined by the separator parse to the map of their keys and expanded values |
| Lifecycle.EffectiveTimeout | src/main/java/com/syncapse/jenkinsci/plugins/awscloudformationwrapper/CloudFormation.java:109-113 | the timeout is 0 exactly for the sentinel -12345; otherwise it is the given value when that exceeds 300, and 300 when it does not |
| Lifecycle.StackParameters | src/main/java/com/syncapse/jenkinsci/plugins/awscloudformationwrapper/CloudFormation.java:313-329 | a null or empty parameter map gives null; any other map gives one parameter per entry, as `convert` does |
| Lifecycle.New | src/main/java/com/syncapse/jenkinsci/plugins/awscloudformationwrapper/CloudFormation.java:94-150 | the constructors keep their arguments, apply the timeout rule and the default region, convert the parameters, and start with no stack and no outputs |
| Lifecycle.Pow2 | src/main/java/com/syncapse/jenkinsci/plugins/awscloudformationwrapper/CloudFormation.java:407 | a power of two is at least one and exceeds its exponent; `Lifecycle.Pow2Monotone` and `Lifecycle.BackOffShape` state its growth |
| Lifecycle.BackOff | src/main/java/com/syncapse/jenkinsci/plugins/awscloudformationwrapper/CloudFormation.java:403-409 | the wait between polls is 0 exactly without a timeout, and otherwise never above 300000 ms |
| Lifecycle.Pow2Monotone | src/main/java/com/syncapse/jenkinsci/plugins/awscloudformationwrapper/CloudFormation.java:407 | powers of two grow with the exponent |
| Lifecycle.BackOffShape | src/main/java/com/syncapse/jenkinsci/plugins/awscloudformationwrapper/CloudFormation.java:403-409 | the wait never shrinks as retries grow; with a timeout it is 2^r·100 ms up to 11 retries and 300000 ms from 12 on |
| Lifecycle.Wrap64 | src/main/java/com/syncapse/jenkinsci/plugins/awscloudformationwrapper/CloudFormation.java:385 | long arithmetic wraps into the 64-bit range and leaves in-range values alone |
| Lifecycle.ReadDeadline | src/main/java/com/syncapse/jenkinsci/plugins/awscloudformationwrapper/CloudFormation.java:384-386 | without a timeout the clock is not read and there is no deadline; with one, the deadline has passed exactly when the reading says so |
| Lifecycle.TimeoutMeaning | src/main/java/com/syncapse/jenkinsci/plugins/awscloudformationwrapper/CloudFormation.java:384-386 | without overflow, the deadline has passed exactly when more than timeout·1000 ms have elapsed |
| Lifecycle.FirstNamed | src/main/java/com/syncapse/jenkinsci/plugins/awscloudformationwrapper/CloudFormation.java:388-397 | the position of the first described stack with the name, and none before it has that name |
| Lifecycle.GetStack | src/main/java/com/syncapse/jenkinsci/plugins/awscloudformationwrapper/CloudFormation.java:388-397 | returns a described stack with the expanded name, and null exactly when no described stack has that name |
| Lifecycle.PollCreation | src/main/java/com/syncapse/jenkinsci/plugins/awscloudformationwrapper/CloudFormation.java:331-368 | the poll waits the back-off after each in-progress or throttled answer, and each of those answers keeps it creating. It ends on a settled status of the named stack, times out only with a timeout set, ends on a non-throttling service error, and dereferences null when the stack is missing |
| Lifecycle.PollCreationRound | src/main/java/com/syncapse/jenkinsci/plugins/awscloudformationwrapper/CloudFormation.java:339-363 | one round that goes on: it reads the clock once for the round and, with a timeout, once more for an in-time deadline, then waits the back-off and polls again with the retry count one higher |
| Lifecycle.PollCreationInTime | src/main/java/com/syncapse/jenkinsci/plugins/awscloudformationwrapper/CloudFormation.java:346-360 | every round that waited had its deadline reading in time, so a timeout never fires in a round the poll went on from |
| Lifecycle.PollCreationTimedOut | src/main/java/com/syncapse/jenkinsci/plugins/awscloudformationwrapper/CloudFormation.java:346-358 | a TimeoutException comes from the deadline reading of the round that ended the poll, which was past the deadline |
| Lifecycle.PollCreationUnscripted | src/main/java/com/syncapse/jenkinsci/plugins/awscloudformationwrapper/CloudFormation.java:339-363 | the run is cut short only when the describe answers are used up or the clock has no reading left for the next round or for a going-on round's deadline |
| Lifecycle.PollDeletion | src/main/java/com/syncapse/jenkinsci/plugins/awscloudformationwrapper/CloudFormation.java:279-311 | the poll returns true when the stack is gone or DELETE_COMPLETE and false on DELETE_FAILED. It retries any other status or throttling with the back-off, and lets any other service error escape |
| Lifecycle.PollDeletionKeepsDeleting | src/main/java/com/syncapse/jenkinsci/plugins/awscloudformationwrapper/CloudFormation.java:279-311 | every answer the poll waited after was a throttling or a stack neither gone nor DELETE_COMPLETE nor DELETE_FAILED |
| Lifecycle.PollDeletionUnscripted | src/main/java/com/syncapse/jenkinsci/plugins/awscloudformationwrapper/CloudFormation.java:281-310 | the run is cut short only after every describe answer was used, each of them sending the poll round again |
| Lifecycle.IsRecipeUrlIgnoresCase | src/main/java/com/syncapse/jenkinsci/plugins/awscloudformationwrapper/CloudFormation.java:535-543 | the URL test does not depend on letter case |
| Lifecycle.IsRecipeUrlAccepts | src/main/java/com/syncapse/jenkinsci/plugins/awscloudformationwrapper/CloudFormation.java:538-539 | `http://` and `https://` prefixes count as URLs in any case |
| Lifecycle.IsRecipeUrlRejects | src/main/java/com/syncapse/jenkinsci/plugins/awscloudformationwrapper/CloudFormation.java:536-537 | a file name that only starts with `http` is not a URL, and neither is the empty text |
| Lifecycle.OutputMap | src/main/java/com/syncapse/jenkinsci/plugins/awscloudformationwrapper/CloudFormation.java:220-225 | every output's key is in the map, each key holds the value of an output with that key, and that is the value of its last output: a later put of the same key wins |
| Lifecycle.SecondsToMillis | src/main/java/com/syncapse/jenkinsci/plugins/awscloudformationwrapper/CloudFormation.java:229 | seconds become milliseconds exactly when within the long range, and the sign is kept |
| Lifecycle.Create | src/main/java/com/syncapse/jenkinsci/plugins/awscloudformationwrapper/CloudFormation.java:190-243 | `create()` sends createStack exactly when the `stack` field is null, otherwise updateStack, with the expanded name, the template URL or body, the converted parameters and CAPABILITY_IAM. It returns true only after the last describe shows the stack CREATE_COMPLETE or UPDATE_COMPLETE; then the outputs are recorded and the pause is `sleep` seconds. A TimeoutException escapes only with a timeout set; service errors give false |
| Lifecycle.CreateFollowsPoll | src/main/java/com/syncapse/jenkinsci/plugins/awscloudformationwrapper/CloudFormation.java:204-234 | after a submitted request, `create()` ends as the creation poll does: it times out, dereferences null or runs out exactly when the poll does, a service error gives false, and a settled stack gives true exactly when events are accepted, the status is a success and `sleep` is not negative, and false when events are rejected or the status is a failure |
| Lifecycle.GetOutputs | src/main/java/com/syncapse/jenkinsci/plugins/awscloudformationwrapper/CloudFormation.java:456-463 | before any outputs were recorded it dereferences null; otherwise every key becomes `expandedName_key` with its value, and there are as many entries as outputs |
| Lifecycle.PrefixedKeyInjective | src/main/java/com/syncapse/jenkinsci/plugins/awscloudformationwrapper/CloudFormation.java:460 | two output keys never collide once prefixed |
| Lifecycle.SetImageSize | src/main/java/com/syncapse/jenkinsci/plugins/awscloudformationwrapper/CloudFormation.java:459-461 | prefixing keeps the number of keys |
| Lifecycle.PrefixMatchesMembers | src/main/java/com/syncapse/jenkinsci/plugins/awscloudformationwrapper/CloudFormation.java:473-477 | exactly the running stacks whose name starts with the raw stack name are kept |
| Lifecycle.PrefixMatchesLast | src/main/java/com/syncapse/jenkinsci/plugins/awscloudformationwrapper/CloudFormation.java:473-477 | no running stack listed after the last match starts with the raw stack name |
| Lifecycle.ReturnOldestStackName | src/main/java/com/syncapse/jenkinsci/plugins/awscloudformationwrapper/CloudFormation.java:485-497 | with the stray `;`, the last summary's name is returned |
| Lifecycle.OldestStackNameWithPrefix | src/main/java/com/syncapse/jenkinsci/plugins/awscloudformationwrapper/CloudFormation.java:469-483 | with fewer than two matches the prefix itself; otherwise a matching name after which no running stack matches |
| Lifecycle.EarliestCreated | src/main/java/com/syncapse/jenkinsci/plugins/awscloudformationwrapper/CloudFormation.java:485-497 | the earliest created summary (the first on ties), the choice the method's name promises |
| Lifecycle.OldestSelectionPicksLastListed | src/main/java/com/syncapse/jenkinsci/plugins/awscloudformationwrapper/CloudFormation.java:489 | of two matching stacks listed oldest first, the newer one is chosen for deletion |
| Lifecycle.Delete | src/main/java/com/syncapse/jenkinsci/plugins/awscloudformationwrapper/CloudFormation.java:166-179 | a null prefix flag dereferences null. With prefix selection the name is replaced first. The expanded name is the target; a rejected deleteStack escapes; the result is true exactly when the last describe shows the stack gone or DELETE_COMPLETE, and false only on DELETE_FAILED; a describe that escapes is a service error; a finished poll waited once less than it described; a run is cut short only after every describe answer was used |
| LifecycleLemmas.PollRunsThrough | src/main/java/com/syncapse/jenkinsci/plugins/awscloudformationwrapper/CloudFormation.java:339-363 | a poll whose first `n` answers keep it creating, with in-time deadline readings and enough script, makes at least `n` + 1 describes |
| LifecycleLemmas.CreationSettlesAfterPending | src/main/java/com/syncapse/jenkinsci/plugins/awscloudformationwrapper/CloudFormation.java:339-363 | with or without a timeout, after `n` in-progress or throttled answers read in time, a settled answer ends the poll with that stack after `n` + 1 describes |
| LifecycleLemmas.CreationTimesOut | src/main/java/com/syncapse/jenkinsci/plugins/awscloudformationwrapper/CloudFormation.java:346-358 | with a timeout set, after `n` in-time rounds, an in-progress or throttled answer whose deadline reading is late ends the poll with a TimeoutException after `n` + 1 describes |
| LifecycleLemmas.PollStopsBy | src/main/java/com/syncapse/jenkinsci/plugins/awscloudformationwrapper/CloudFormation.java:346-358 | a late deadline reading in round `n` leaves the poll at most `n` waits |
| LifecycleLemmas.DeletionSettlesAfterPending | src/main/java/com/syncapse/jenkinsci/plugins/awscloudformationwrapper/CloudFormation.java:279-311 | after `n` in-progress or throttled answers, a gone or DELETE_COMPLETE stack gives true and DELETE_FAILED gives false, after `n` + 1 describes, with the last answer's stack kept |
| LifecycleLemmas.ProbeAnswerIgnored | src/main/java/com/syncapse/jenkinsci/plugins/awscloudformationwrapper/CloudFormation.java:195-204 | the existence probe's answer never changes what `create()` does |
| LifecycleLemmas.FreshObjectCreates | src/main/java/com/syncapse/jenkinsci/plugins/awscloudformationwrapper/CloudFormation.java:204-208 | on a freshly constructed object `create()` sends createStack, never updateStack |
| LifecycleLemmas.CreateSucceedsAfterPending | src/main/java/com/syncapse/jenkinsci/plugins/awscloudformationwrapper/CloudFormation.java:204-230 | with or without a timeout, `create()` returns true once the stack is described complete after `n` pending answers read in time, with one describe per answer plus the probe |
| LifecycleLemmas.CreateTimesOut | src/main/java/com/syncapse/jenkinsci/plugins/awscloudformationwrapper/CloudFormation.java:204-216 | with a timeout set, `create()` throws a TimeoutException when an in-progress answer after `n` in-time rounds meets a late deadline reading, after `n` + 2 describes counting the probe |
| LifecycleLemmas.DeleteSettlesAfterPending | src/main/java/com/syncapse/jenkinsci/plugins/awscloudformationwrapper/CloudFormation.java:166-179 | without prefix selection and with deleteStack accepted, `delete()` returns true for a gone or DELETE_COMPLETE stack and false for DELETE_FAILED after `n` pending answers, with `n` + 1 describes |
| LifecycleLemmas.CreateWaitsForCompletion | src/test/java/com/syncapse/jenkinsci/plugins/awscloudformationwrapper/CloudFormationTest.java:57-67 | with answers in-progress, in-progress, complete, `create()` returns true after three describes, the existence probe included (its answer is the first in-progress one) |
| LifecycleLemmas.CreateReportsFailure | src/test/java/com/syncapse/jenkinsci/plugins/awscloudformationwrapper/CloudFormationTest.java:70-75 | a CREATE_FAILED answer makes `create()` return false |
| LifecycleLemmas.DeleteWaitsUntilGone | src/test/java/com/syncapse/jenkinsci/plugins/awscloudformationwrapper/CloudFormationTest.java:78-83 | with answers deleting, deleting, gone, `delete()` returns true after three describes |
| LifecycleLemmas.DeleteReportsFailure | src/test/java/com/syncapse/jenkinsci/plugins/awscloudformationwrapper/CloudFormationTest.java:86-90 | a DELETE_FAILED answer makes `delete()` return false |
| LifecycleLemmas.OutputsAfterCreate | src/main/java/com/syncapse/jenkinsci/plugins/awscloudformationwrapper/CloudFormation.java:228 | after `create()` returned true, `getOutputs()` has a prefixed entry for every output; before, it dereferences null |
| Beans.NewSimpleStackBean | src/main/java/com/syncapse/jenkinsci/plugins/awscloudformationwrapper/SimpleStackBean.java:51-61 | a null region becomes the default region and a given one is kept; the prefix flag is stored as given, null included |
| Beans.CheckRequired | src/main/java/com/syncapse/jenkinsci/plugins/awscloudformationwrapper/StackBean.java:162-169 | a required field is fine exactly when it is not empty, and otherwise gets an error with the field's message |
| Beans.CheckStackName | src/main/java/com/syncapse/jenkinsci/plugins/awscloudformationwrapper/StackBean.java:162-169 | an error "Empty stack name" exactly for the empty name |
| Beans.CheckCloudFormationRecipe | src/main/java/com/syncapse/jenkinsci/plugins/awscloudformationwrapper/PostBuildStackBean.java:219-226 | an error "Empty recipe file." exactly for the empty recipe |
| Beans.CheckAwsAccessKey | src/main/java/com/syncapse/jenkinsci/plugins/awscloudformationwrapper/SimpleStackBean.java:109-116 | an error "Empty aws access key" exactly for the empty key |
| Beans.CheckAwsSecretKey | src/main/java/com/syncapse/jenkinsci/plugins/awscloudformationwrapper/SimpleStackBean.java:118-125 | an error "Empty aws secret key" exactly for the empty key |
| Beans.CheckNumber | src/main/java/com/syncapse/jenkinsci/plugins/awscloudformationwrapper/PostBuildStackBean.java:181-218 | the timeout, check interval and sleep fields are fine exactly when empty or accepted by `Long.parseLong`, and otherwise get the "not a number" error |
| Beans.CheckNumberOfRendering | src/main/java/com/syncapse/jenkinsci/plugins/awscloudformationwrapper/StackBean.java:171-182 | a written-out integer passes exactly when it lies in the long range |
| Beans.CheckNumberRejectsNonDigit | src/main/java/com/syncapse/jenkinsci/plugins/awscloudformationwrapper/StackBean.java:176 | a character that is neither a digit nor a leading sign makes the value fail |
| Beans.CheckNumberRejectsBareSign | src/main/java/com/syncapse/jenkinsci/plugins/awscloudformationwrapper/StackBean.java:176 | a sign alone is not a number |
| Builder.RawEntry | src/main/java/com/syncapse/jenkinsci/plugins/AWSCloudFormationBuilder.java:119-122 | an entry parses exactly when `split("=")` gives two tokens, untrimmed, and otherwise throws IndexOutOfBounds |
| Builder.BuildParameters | src/main/java/com/syncapse/jenkinsci/plugins/AWSCloudFormationBuilder.java:108-127 | null or empty text gives null. Otherwise there is one parameter per comma-separated entry, in order and with duplicates kept: the untrimmed text before the first `=` and up to the second `=`. An entry without a value throws IndexOutOfBounds |
| Builder.BuildParametersRoundTrip | src/main/java/com/syncapse/jenkinsci/plugins/AWSCloudFormationBuilder.java:108-127 | rendering parameters, joining them with commas (trailing commas allowed) and parsing gives them back, blanks and duplicates included |
| Builder.CreateStackRequestOf | src/main/java/com/syncapse/jenkinsci/plugins/AWSCloudFormationBuilder.java:97-106 | a parameter error escapes first, then a workspace error; the request has the raw name, the parsed parameters, the file's text as the body and no capabilities |
| Builder.Perform | src/main/java/com/syncapse/jenkinsci/plugins/AWSCloudFormationBuilder.java:76-95 | true exactly when the request was built and accepted, with no polling; an IOException fails the build and gives false; any other exception escapes |
| Builder.DoCheckName | src/main/java/com/syncapse/jenkinsci/plugins/AWSCloudFormationBuilder.java:164-170 | an error for the empty name, a warning for one to three UTF-16 code units (`String.length`), fine from four on |
| Builder.DoCheckNameCountsCharacters | src/main/java/com/syncapse/jenkinsci/plugins/AWSCloudFormationBuilder.java:164-170 | for a name without characters outside the Basic Multilingual Plane the thresholds count characters |
| Builder.DoCheckNameCountsCodeUnits | src/main/java/com/syncapse/jenkinsci/plugins/AWSCloudFormationBuilder.java:167 | a name of two emoji already has length four and passes without a warning |
| VariableInjection.BuildEnvVars | src/main/java/com/syncapse/jenkinsci/plugins/awscloudformationwrapper/VariableInjectionAction.java:23-28 | with a non-null environment, key and value, the key is set to the value and every other key is untouched; a null key or value changes nothing; a null environment stays null |
| VariableInjection.ApplyActions | src/main/java/com/syncapse/jenkinsci/plugins/awscloudformationwrapper/CloudFormationBuildStep.java:83-87 | applying actions to an environment keeps it null exactly when it was null |
| VariableInjection.ApplyActionsPutsAll | src/main/java/com/syncapse/jenkinsci/plugins/awscloudformationwrapper/CloudFormationBuildStep.java:83-90 | the actions made from outputs do what `putAll` of those outputs does |
| VariableInjection.ApplyActionsAppend | src/main/java/com/syncapse/jenkinsci/plugins/awscloudformationwrapper/CloudFormationBuildStep.java:77-97 | applying two lists of actions in turn is applying their concatenation |
| VariableInjection.NullActionsIgnored | src/main/java/com/syncapse/jenkinsci/plugins/awscloudformationwrapper/VariableInjectionAction.java:25 | actions with a null key or value leave the environment as it was |
| Builds.EnumerationRebuilds | src/main/java/com/syncapse/jenkinsci/plugins/awscloudformationwrapper/CloudFormation.java:321-326 | putting the entries of a map's iteration into an empty map rebuilds the map |
| Builds.EnumerationSize | src/main/java/com/syncapse/jenkinsci/plugins/awscloudformationwrapper/ParametersConverter.java:16-22 | a map's iteration has as many entries as the map |
| Builds.DistinctKeysCount | src/main/java/com/syncapse/jenkinsci/plugins/awscloudformationwrapper/ParametersConverter.java:17-21 | a map's iteration yields each key once |
| Builds.EnumeratedParameters | src/main/java/com/syncapse/jenkinsci/plugins/awscloudformationwrapper/CloudFormation.java:313-329 | the stack parameters made from an iteration of a map are null exactly for the empty map; otherwise one per entry, no key twice, and together they give back the map |
| Builds.CreateEach | src/main/java/com/syncapse/jenkinsci/plugins/awscloudformationwrapper/CloudFormationBuildStep.java:77-97 | every stack is created in order; one not created makes the result false and the loop goes on. The result is returned exactly when no stack failed to build and no `create()` threw, and is then true exactly when all were created. Otherwise the exception of the first such stack escapes |
| Builds.CreateEachOutputs | src/main/java/com/syncapse/jenkinsci/plugins/awscloudformationwrapper/CloudFormationBuildStep.java:80-87 | the outputs gathered are `getOutputs()` of the created stacks, one stack after the other in creation order, none for a stack not created |
| Builds.PrefixedOutputsMatchGetOutputs | src/main/java/com/syncapse/jenkinsci/plugins/awscloudformationwrapper/CloudFormation.java:456-463 | listing a stack's output map and prefixing each key gives, put into a map, exactly `getOutputs()`, with no key twice |
| Builds.BuildFailureStops | src/main/java/com/syncapse/jenkinsci/plugins/awscloudformationwrapper/CloudFormationPostBuildNotifier.java:76 | the first stack whose object cannot be built ends the loop with that exception, after the `create()` calls before it |
| BuildWrapper.NewCloudFormationBuilds | src/main/java/com/syncapse/jenkinsci/plugins/awscloudformationwrapper/CloudFormationBuildWrapper.java:129-149 | a URL recipe is passed on, any other is read from the workspace, and a read error escapes first. The parameters are parsed in the current environment, and when the build iterates every map as an enumeration of it the stack parameters carry the parsed map exactly. The object keeps the bean's name, timeout, region and auto-delete flag, with prefix selection off |
| BuildWrapper.MakeBuildVariables | src/main/java/com/syncapse/jenkinsci/plugins/awscloudformationwrapper/CloudFormationBuildWrapper.java:41-48 | the build variables gain `getOutputs()` of every recorded stack, called anew: a later stack wins on equal keys and all of them win over the variables already there. The wrapper applies it to `BuildWrapper.Kept`, the objects expanding in `setUp`'s final environment |
| BuildWrapper.EnvFoldPutAll | src/main/java/com/syncapse/jenkinsci/plugins/awscloudformationwrapper/CloudFormationBuildWrapper.java:71-73 | laying each recorded stack's outputs over the environment in turn equals one `putAll` of all of them |
| BuildWrapper.EnvFoldPutAllPrefixes | src/main/java/com/syncapse/jenkinsci/plugins/awscloudformationwrapper/CloudFormationBuildWrapper.java:71-73 | after any number of recorded stacks, the environment is the start environment with their outputs put over it |
| BuildWrapper.SetUpLoop | src/main/java/com/syncapse/jenkinsci/plugins/awscloudformationwrapper/CloudFormationBuildWrapper.java:60-92 | stacks are created in list order. Only created ones are recorded, and their outputs go into the environment before the next stack is built. The first stack not created, or whose `create()` timed out, ends the loop with failure. Any other exception escapes. Every stack is created when none fails |
| BuildWrapper.SetUpLoopBuilds | src/main/java/com/syncapse/jenkinsci/plugins/awscloudformationwrapper/CloudFormationBuildWrapper.java:67-73 | each recorded stack is the object built for its bean in the environment left by the stacks before it |
| BuildWrapper.SetUp | src/main/java/com/syncapse/jenkinsci/plugins/awscloudformationwrapper/CloudFormationBuildWrapper.java:50-110 | full success returns an environment with tear-down deferred; a failure runs tear-down at once and returns null unless tear-down throws; an exception building a stack escapes without tear-down |
| BuildWrapper.AutoDeletedSelects | src/main/java/com/syncapse/jenkinsci/plugins/awscloudformationwrapper/CloudFormationBuildWrapper.java:115-121 | the recorded stacks marked for auto-delete, exactly those, from the last created to the first |
| BuildWrapper.DeleteInOrder | src/main/java/com/syncapse/jenkinsci/plugins/awscloudformationwrapper/CloudFormationBuildWrapper.java:118-126 | `delete()` is called in order until one returns false or throws; the result is true exactly when every call returned true |
| BuildWrapper.TearDownLoop | src/main/java/com/syncapse/jenkinsci/plugins/awscloudformationwrapper/CloudFormationBuildWrapper.java:118-124 | the loop in reverse order equals the reference order: auto-delete stacks, last created first, stopping after the first false |
| BuildWrapper.DoTearDown | src/main/java/com/syncapse/jenkinsci/plugins/awscloudformationwrapper/CloudFormationBuildWrapper.java:112-127 | `doTearDown` deletes the auto-delete stacks, last created first, until one delete returns false |
| BuildWrapper.SecondStackBreaksOff | src/test/java/com/syncapse/jenkinsci/plugins/awscloudformationwrapper/CloudFormationBuildWrapperTest.java:55-69 | with the first stack created and the second not, the loop records the first stack, makes two `create()` calls and breaks off |
| BuildWrapper.SecondStackFailsFirstIsDeleted | src/test/java/com/syncapse/jenkinsci/plugins/awscloudformationwrapper/CloudFormationBuildWrapperTest.java:55-69 | with the first stack created and the second not, both creates run once, the first stack is deleted once, the second never, and `setUp` returns null |
| BuildWrapper.BuildVariablesUseFinalNames | src/main/java/com/syncapse/jenkinsci/plugins/awscloudformationwrapper/CloudFormationBuildWrapper.java:44-46 | each output of a recorded stack is in `setUp`'s environment under the name expanded at create time, and in the build variables under the name expanded in `setUp`'s final environment |
| BuildWrapper.BuildVariablesMatchSetUp | src/main/java/com/syncapse/jenkinsci/plugins/awscloudformationwrapper/CloudFormationBuildWrapper.java:41-48 | when every recorded name expands in the final environment as it did at create time, `makeBuildVariables` gives every output key the value `setUp`'s final environment holds, whatever variables the build has; from `setUp`'s own starting environment the two maps are equal |
| BuildWrapper.TearDownExpandsInFinalEnv | src/main/java/com/syncapse/jenkinsci/plugins/awscloudformationwrapper/CloudFormationBuildWrapper.java:67-73 | `create()` of a recorded stack uses its name expanded in the environment the earlier stacks left, while its `delete()` at tear-down expands the name in the environment all recorded stacks left, because every object shares the one `EnvVars` |
| BuildStep.NewCloudFormationBuilds | src/main/java/com/syncapse/jenkinsci/plugins/awscloudformationwrapper/CloudFormationBuildStep.java:101-121 | a URL recipe is passed on, any other names the workspace file whose text is the template. Parameters are parsed in the build's environment with the build variables over it, and when the build iterates every map as an enumeration of it the stack parameters carry the parsed map exactly. The object has the bean's name, timeout rule, region and sleep, with auto-delete and prefix selection off |
| BuildStep.Perform | src/main/java/com/syncapse/jenkinsci/plugins/awscloudformationwrapper/CloudFormationBuildStep.java:71-99 | every stack's `create()` is attempted in order, regardless of earlier failures. The result is true exactly when all were created. An exception escapes, ending the loop. One action is added per output of each created stack, none for the others |
| BuildStep.PerformInjectsOutputs | src/main/java/com/syncapse/jenkinsci/plugins/awscloudformationwrapper/CloudFormationBuildStep.java:80-90 | once applied, the actions give the build the outputs of the created stacks, a later stack winning on equal keys |
| BuildStep.FailedStackDoesNotStopTheStep | src/main/java/com/syncapse/jenkinsci/plugins/awscloudformationwrapper/CloudFormationBuildStep.java:93-96 | when the first stack is not created and the second is, both are attempted, the result is false and `getOutputs()` of the second stack is injected |
| PostBuildNotifier.NewCloudFormationBuilds | src/main/java/com/syncapse/jenkinsci/plugins/awscloudformationwrapper/CloudFormationPostBuildNotifier.java:98-109 | the recipe field always names a workspace file and its text is the template; a read error escapes first; when the build iterates every map as an enumeration of it the stack parameters carry the parsed map exactly; no auto-delete, no prefix selection, the bean's sleep |
| PostBuildNotifier.Perform | src/main/java/com/syncapse/jenkinsci/plugins/awscloudformationwrapper/CloudFormationPostBuildNotifier.java:69-97 | every stack's `create()` is attempted in order; the result is true exactly when all were created; an exception (a TimeoutException included) escapes and ends the loop |
| PostBuildNotifier.UnreadableRecipeStops | src/main/java/com/syncapse/jenkinsci/plugins/awscloudformationwrapper/CloudFormationPostBuildNotifier.java:76 | an unreadable recipe file stops the notifier at that stack with an IOException |
| Notifier.NewCloudFormation | src/main/java/com/syncapse/jenkinsci/plugins/awscloudformationwrapper/CloudFormationNotifier.java:64-70 | each stack object has an empty recipe, no parameters, the minimum timeout, the bean's region and prefix flag, and no auto-delete; names are expanded in `getEnvironment` alone, without the build variables |
| Notifier.PerformLoop | src/main/java/com/syncapse/jenkinsci/plugins/awscloudformationwrapper/CloudFormationNotifier.java:66-79 | the loop goes on after a false result and ends on an exception; the result is true exactly when every call returned true |
| Notifier.EscapeStops | src/main/java/com/syncapse/jenkinsci/plugins/awscloudformationwrapper/CloudFormationNotifier.java:72 | the first `delete()` that throws ends the loop with that exception |
| Notifier.PerformOn | src/main/java/com/syncapse/jenkinsci/plugins/awscloudformationwrapper/CloudFormationNotifier.java:63-80 | every stack's `delete()` is attempted in order; the result is true exactly when every delete returned true; an exception escapes after the calls before it |
| Notifier.PerformDeletesInOrder | src/main/java/com/syncapse/jenkinsci/plugins/awscloudformationwrapper/CloudFormationNotifier.java:66-72 | the calls made are `delete()` on each stack's object in list order |
| Notifier.NullPrefixFlagAborts | src/main/java/com/syncapse/jenkinsci/plugins/awscloudformationwrapper/SimpleStackBean.java:58 | a stack saved without a prefix flag makes `delete()` dereference null, ending the notifier at that stack |
| Notifier.PlainNamesAreExpanded | src/main/java/com/syncapse/jenkinsci/plugins/awscloudformationwrapper/CloudFormationNotifier.java:67-72 | without prefix selection, each delete targets the bean's stack name expanded in the build's environment |

## Left out

- The AWS client, credentials, proxy settings, the second client built for `listStacks`, and `getStackParameters`: calls into the AWS SDK. The service is the script described above.
- `Lifecycle.StackStatus`: the sixteen statuses the SDK's `StackStatus` enum knows. `getStackStatus` calls `StackStatus.fromValue` (CloudFormation.java:426-428), and that throws `IllegalArgumentException` for a null status or one the enum does not know, such as `REVIEW_IN_PROGRESS` from later service versions. The exception would escape `create()` (from :218 or :344) and `delete()` (from :290), since only `AmazonServiceException` and `AmazonClientException` are caught there. A scripted describe answer cannot carry such a status, so this error path is not modelled.
- Logging, `printStackEvents` output and `detailedError`: they only print. Whether `describeStackEvents` is accepted is part of the script, because a rejection makes `create()` return false.
- `Thread.sleep` and `InterruptedException`: the waits are returned as values (`sleeps`, `pauseMs`) and nothing interrupts them.
- `Math.pow` in floating point: modelled as the exact power of two, which `Math.pow(2, r)` is for every retry count the poll can reach.
- `ParameterUtils.parse`: JSON decoding through Jackson, a foreign library.
- HashMap iteration order: it is an input (`Build.iterate`, the outputs order) rather than Java's hash order. That an iteration visits each entry once is the predicate `Builds.IteratesMaps`, assumed where the parameters are traced.
- Jenkins scaffolding: descriptors, `ListBoxModel`s, display names, `prebuild`, project actions, `readResolve` and `getRequiredMonitorService`.
- `getParsedAwsAccessKey`/`getParsedAwsSecretKey` of the three beans: they only feed the AWS credentials, which are not modelled. `Secret` decryption is Jenkins' own.
- The constructor calls at CloudFormationBuildStep.java:115-119 (fourteen arguments) and CloudFormationPostBuildNotifier.java:102-107 (eleven arguments) match no constructor of `CloudFormation`. Both are modelled as the overload that takes `sleep` (auto-delete off). The post-build notifier's call passes the recipe text where the URL flag goes, so the flag is modelled as false. `checkInterval` is dropped.
- `getParsedCloudFormationRecipe`: `PostBuildStackBean` does not define it. It is an input function (`parsedRecipe`) of `BuildStep.NewCloudFormation`.
- `StackBean.getFailCascade`: `StackBean` does not define it. It is modelled as the bean field `failCascade`, and the branch that reads it never matters, as said above.
- The build wrapper's `cloudFormations` list is a field that is never cleared. The model starts each `setUp` with no recorded stacks.
- `BuildWrapper.SetUp`, `BuildStep.Perform`, `PostBuildNotifier.Perform`: what each `create()` and `delete()` call did is an input, not the `Lifecycle.Create`/`Lifecycle.Delete` model. The build steps cannot know a call's script.
- `Lifecycle.Create`, `Lifecycle.Delete`: the `Unscripted` outcome is reported when the script or clock runs out. It stands for the service answering forever, which the original can do.
- `Lifecycle.ReadDeadline`: the subtraction and `timeout * 1000` wrap as Java longs. `Lifecycle.TimeoutMeaning` states the intended meaning only within range.
- `JavaText.ParseLong`: accepts ASCII digits only. `Long.parseLong` also accepts other Unicode decimal digits.
- `Lifecycle.IsRecipeUrlIgnoresCase`: case folding covers ASCII letters and the one non-ASCII character that Java folds onto `h`, `t`, `p` or `s` (U+017F). `regionMatches` folds the rest of Unicode too, which cannot change the answer for these ASCII prefixes.
- `Builds.StepEnv`: `EnvVars.overrideAll` is a function parameter of the build (`Build.overrideAll`). Its handling of empty values and `PATH+XYZ` keys is Jenkins' own and not modelled.
- `BuildWrapper.SetUp`: `EnvVars` is a case-insensitive `TreeMap`; the model uses a case-sensitive map, so outputs whose keys differ only in case are two entries here and one there. The shared `EnvVars` is modelled by `BuildWrapper.AtTearDown`; the `delete()` answers at tear-down are inputs, not runs of `Lifecycle.Delete` on those objects.
- `BuildWrapper.BuildVariablesMatchSetUp`: the equality holds for the case-sensitive map of the model, and only when every stack name expands at the end as it did at create time. In Java the build variables map is case-sensitive while `EnvVars` folds case, so the two can differ when output keys differ only in case.
- `VariableInjection.BuildEnvVars`: `envVars.put` writes into the build's `EnvVars`, a case-insensitive `TreeMap`. The model's map is case-sensitive, so two output keys that differ only in case stay two entries here and become one in Java. The same holds for `VariableInjection.ApplyActions`, `VariableInjection.ApplyActionsPutsAll` and `BuildStep.PerformInjectsOutputs`.
- Concrete parsing examples such as `StackBeanTest`'s literal strings: the general lemmas `ParsedParameters.ParsedJoin` and `ParsedParameters.ParseEntryPadded` state them for every input of that shape.
