/** The stack beans: the settings a job stores for each stack, and the form
    validators Jenkins runs on their fields while the job is configured. */
module Beans {
  import opened Wrappers
  import opened JavaText
  import opened Regions

  /** hudson.util.FormValidation. */
  datatype FormValidation = FormOk | FormWarning(message: string) | FormError(message: string)

  /** StackBean: one stack of the build wrapper, as configured. The region
      is stored as given, null included. `failCascade` is the value
      getFailCascade() would return: the build wrapper calls it, but
      StackBean.java does not define it, so it is taken as given. */
  datatype StackBean = StackBean(stackName: string, description: string, recipe: string,
                                 parameters: Option<string>, timeout: int,
                                 awsAccessKey: string, awsSecretKey: string,
                                 autoDeleteStack: bool, region: Option<Region>,
                                 failCascade: bool)

  /** PostBuildStackBean: one stack of the build step or the post-build
      notifier, with its sleep and check interval. */
  datatype PostBuildStackBean = PostBuildStackBean(stackName: string, description: string, recipe: string,
                                                   parameters: Option<string>, timeout: int,
                                                   awsAccessKey: string, awsSecretKey: string,
                                                   region: Option<Region>, sleep: int, checkInterval: int)

  /** SimpleStackBean: one stack the notifier deletes. */
  datatype SimpleStackBean = SimpleStackBean(stackName: string, awsAccessKey: string, awsSecretKey: string,
                                             region: Region, isPrefixSelected: Option<bool>)

  /** The SimpleStackBean constructor: a null region becomes the default
      region, every other argument (a null prefix flag included) is kept. */
  function NewSimpleStackBean(stackName: string, awsAccessKey: string, awsSecretKey: string,
                              region: Option<Region>, isPrefixSelected: Option<bool>): (b: SimpleStackBean)
    ensures region.Some? ==> b.region == region.value
    ensures region.None? ==> b.region == Default() && EndPoint(b.region) == "cloudformation.us-east-1.amazonaws.com"
    ensures b.isPrefixSelected == isPrefixSelected
    ensures b.stackName == stackName && b.awsAccessKey == awsAccessKey && b.awsSecretKey == awsSecretKey
  {
    SimpleStackBean(stackName, awsAccessKey, awsSecretKey, OrDefault(region), isPrefixSelected)
  }

  // ------------------------------------------------------------ validators

  const EmptyStackName: string := "Empty stack name"
  const EmptyRecipe: string := "Empty recipe file."
  const EmptyAccessKey: string := "Empty aws access key"
  const EmptySecretKey: string := "Empty aws secret key"

  /** The shape of every required-field validator: an error carrying the
      field's message exactly when the value is empty. */
  function CheckRequired(value: string, message: string): (v: FormValidation)
    ensures v == FormOk <==> |value| > 0
    ensures v != FormOk ==> v == FormError(message)
  {
    if 0 == |value| then FormError(message) else FormOk
  }

  /** doCheckStackName, the same in all three beans. */
  function CheckStackName(value: string): (v: FormValidation)
    ensures v == FormOk <==> value != ""
    ensures v != FormOk ==> v == FormError("Empty stack name")
  {
    CheckRequired(value, EmptyStackName)
  }

  /** doCheckCloudFormationRecipe of StackBean and PostBuildStackBean. */
  function CheckCloudFormationRecipe(value: string): (v: FormValidation)
    ensures v == FormOk <==> value != ""
    ensures v != FormOk ==> v == FormError("Empty recipe file.")
  {
    CheckRequired(value, EmptyRecipe)
  }

  /** doCheckAwsAccessKey, the same in all three beans. */
  function CheckAwsAccessKey(value: string): (v: FormValidation)
    ensures v == FormOk <==> value != ""
    ensures v != FormOk ==> v == FormError("Empty aws access key")
  {
    CheckRequired(value, EmptyAccessKey)
  }

  /** doCheckAwsSecretKey, the same in all three beans. */
  function CheckAwsSecretKey(value: string): (v: FormValidation)
    ensures v == FormOk <==> value != ""
    ensures v != FormOk ==> v == FormError("Empty aws secret key")
  {
    CheckRequired(value, EmptySecretKey)
  }

  /** The message of the number validators. All three (timeout, check
      interval and sleep) speak of a timeout value. */
  function NotANumber(value: string): string
  {
    "Timeout value " + value + " is not a number."
  }

  /** doCheckTimeout, doCheckCheckInterval and doCheckSleep: an empty value
      is accepted; any other must be one Long.parseLong accepts. */
  function CheckNumber(value: string): (v: FormValidation)
    ensures v == FormOk <==> value == "" || ParseLong(value).Some?
    ensures v != FormOk ==> v == FormError(NotANumber(value))
  {
    if |value| > 0 && ParseLong(value).None? then FormError(NotANumber(value)) else FormOk
  }

  /** The decimal rendering of an integer passes the number check exactly
      when the integer fits in a long. */
  lemma CheckNumberOfRendering(n: int)
    ensures CheckNumber(ShowLong(n)) == FormOk <==> MinLong <= n <= MaxLong
  {
    if MinLong <= n <= MaxLong {
      ParseShowLong(n);
    } else {
      var s := ShowLong(n);
      if n < 0 {
        assert s[1..] == ShowNat(-n);
        assert s[0] == '-';
      } else {
        assert IsDigit(s[0]);
      }
    }
  }

  /** A character that is neither a digit nor a leading sign makes the
      number check fail. */
  lemma CheckNumberRejectsNonDigit(value: string, i: nat)
    requires i < |value| && !IsDigit(value[i])
    requires i == 0 ==> value[0] != '-' && value[0] != '+'
    ensures CheckNumber(value) == FormError(NotANumber(value))
  {
    if value[0] == '-' || value[0] == '+' {
      assert value[1..][i - 1] == value[i];
    }
  }

  /** A sign alone is not a number. */
  lemma CheckNumberRejectsBareSign()
    ensures CheckNumber("-") == FormError(NotANumber("-"))
    ensures CheckNumber("+") == FormError(NotANumber("+"))
  {
    assert "-"[1..] == [];
    assert "+"[1..] == [];
  }
}
