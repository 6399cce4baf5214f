/** The Region enum: the CloudFormation endpoints the plugin can talk to. */
module Regions {
  import opened Wrappers

  datatype Region =
    | UsEastNorthernVirginia
    | UsWestOregon
    | UsWestNorthernCalifornia
    | EuIreland
    | EuFrankfurt
    | AsiaPacificSingapore
    | AsiaPacificSydney
    | AsiaPacificTokyo
    | SouthAmericaSaoPaulo
    | ChinaBeijing

  /** Region.values(), in declaration order. */
  const AllRegions: seq<Region> := [
    UsEastNorthernVirginia, UsWestOregon, UsWestNorthernCalifornia, EuIreland, EuFrankfurt,
    AsiaPacificSingapore, AsiaPacificSydney, AsiaPacificTokyo, SouthAmericaSaoPaulo, ChinaBeijing
  ]

  function ReadableName(r: Region): string
  {
    match r
    case UsEastNorthernVirginia => "US East (Northern Virginia) Region"
    case UsWestOregon => "US West (Oregon) Region"
    case UsWestNorthernCalifornia => "US West (Northern California) Region"
    case EuIreland => "EU (Ireland) Region"
    case EuFrankfurt => "EU (Frankfurt) Region"
    case AsiaPacificSingapore => "Asia Pacific (Singapore) Region"
    case AsiaPacificSydney => "Asia Pacific (Sydney) Region"
    case AsiaPacificTokyo => "Asia Pacific (Tokyo) Region"
    case SouthAmericaSaoPaulo => "South America (Sao Paulo) Region"
    case ChinaBeijing => "China (Beijing) Region"
  }

  function EndPoint(r: Region): string
  {
    match r
    case UsEastNorthernVirginia => "cloudformation.us-east-1.amazonaws.com"
    case UsWestOregon => "cloudformation.us-west-2.amazonaws.com"
    case UsWestNorthernCalifornia => "cloudformation.us-west-1.amazonaws.com"
    case EuIreland => "cloudformation.eu-west-1.amazonaws.com"
    case EuFrankfurt => "cloudformation.eu-central-1.amazonaws.com"
    case AsiaPacificSingapore => "cloudformation.ap-southeast-1.amazonaws.com"
    case AsiaPacificSydney => "cloudformation.ap-southeast-2.amazonaws.com"
    case AsiaPacificTokyo => "cloudformation.ap-northeast-1.amazonaws.com"
    case SouthAmericaSaoPaulo => "cloudformation.sa-east-1.amazonaws.com"
    case ChinaBeijing => "cloudformation.cn-north-1.amazonaws.com.cn"
  }

  /** Region.getDefault(). */
  function Default(): (r: Region)
    ensures EndPoint(r) == "cloudformation.us-east-1.amazonaws.com"
  {
    UsEastNorthernVirginia
  }

  /** The `region != null ? region : Region.getDefault()` idiom used by the
      constructors of CloudFormation and SimpleStackBean. */
  function OrDefault(region: Option<Region>): (r: Region)
    ensures region.Some? ==> r == region.value
    ensures region.None? ==> EndPoint(r) == EndPoint(Default()) && r == Default()
  {
    match region
    case Some(given) => given
    case None => Default()
  }

  /** The region whose endpoint is `e`, if any: the partner of EndPoint.
      The endpoints have lengths 38, 41, 42 and 43, so the length narrows
      the search before the text is compared. */
  function FromEndPoint(e: string): Option<Region>
  {
    match |e|
    case 38 =>
      if e == "cloudformation.us-east-1.amazonaws.com" then Some(UsEastNorthernVirginia)
      else if e == "cloudformation.us-west-2.amazonaws.com" then Some(UsWestOregon)
      else if e == "cloudformation.us-west-1.amazonaws.com" then Some(UsWestNorthernCalifornia)
      else if e == "cloudformation.eu-west-1.amazonaws.com" then Some(EuIreland)
      else if e == "cloudformation.sa-east-1.amazonaws.com" then Some(SouthAmericaSaoPaulo)
      else None
    case 41 => if e == "cloudformation.eu-central-1.amazonaws.com" then Some(EuFrankfurt) else None
    case 42 => if e == "cloudformation.cn-north-1.amazonaws.com.cn" then Some(ChinaBeijing) else None
    case 43 =>
      if e == "cloudformation.ap-southeast-1.amazonaws.com" then Some(AsiaPacificSingapore)
      else if e == "cloudformation.ap-southeast-2.amazonaws.com" then Some(AsiaPacificSydney)
      else if e == "cloudformation.ap-northeast-1.amazonaws.com" then Some(AsiaPacificTokyo)
      else None
    case _ => None
  }

  /** The five endpoints of length 38 lead back to their regions. */
  lemma ShortEndPointRoundTrip(r: Region)
    requires |EndPoint(r)| == 38
    ensures FromEndPoint(EndPoint(r)) == Some(r)
  {
  }

  /** Every endpoint leads back to its region, so no two regions share one. */
  lemma EndPointRoundTrip(r: Region)
    ensures FromEndPoint(EndPoint(r)) == Some(r)
  {
    if |EndPoint(r)| == 38 {
      ShortEndPointRoundTrip(r);
    }
  }

  /** The region whose readable name is `n`, if any: the partner of
      ReadableName. No two readable names have the same length, so the
      length picks the only candidate. */
  function FromReadableName(n: string): Option<Region>
  {
    var candidate := match |n|
      case 34 => Some(UsEastNorthernVirginia)
      case 23 => Some(UsWestOregon)
      case 36 => Some(UsWestNorthernCalifornia)
      case 19 => Some(EuIreland)
      case 21 => Some(EuFrankfurt)
      case 31 => Some(AsiaPacificSingapore)
      case 28 => Some(AsiaPacificSydney)
      case 27 => Some(AsiaPacificTokyo)
      case 32 => Some(SouthAmericaSaoPaulo)
      case 22 => Some(ChinaBeijing)
      case _ => None;
    if candidate.Some? && n == ReadableName(candidate.value) then candidate else None
  }

  /** Every readable name leads back to its region, so no two regions
      share one. */
  lemma ReadableNameRoundTrip(r: Region)
    ensures FromReadableName(ReadableName(r)) == Some(r)
  {
  }

  /** There are ten regions, each listed once in Region.values(), and both
      the endpoint and the readable name identify the region. */
  lemma RegionTable()
    ensures |AllRegions| == 10
    ensures forall r: Region :: r in AllRegions
    ensures forall i, j :: 0 <= i < j < |AllRegions| ==> AllRegions[i] != AllRegions[j]
    ensures forall r1: Region, r2: Region :: EndPoint(r1) == EndPoint(r2) ==> r1 == r2
    ensures forall r1: Region, r2: Region :: ReadableName(r1) == ReadableName(r2) ==> r1 == r2
  {
    forall r: Region ensures r in AllRegions {
      var i := match r
        case UsEastNorthernVirginia => 0
        case UsWestOregon => 1
        case UsWestNorthernCalifornia => 2
        case EuIreland => 3
        case EuFrankfurt => 4
        case AsiaPacificSingapore => 5
        case AsiaPacificSydney => 6
        case AsiaPacificTokyo => 7
        case SouthAmericaSaoPaulo => 8
        case ChinaBeijing => 9;
      assert AllRegions[i] == r;
    }
    forall r1: Region, r2: Region | EndPoint(r1) == EndPoint(r2) ensures r1 == r2 {
      EndPointRoundTrip(r1);
      EndPointRoundTrip(r2);
    }
    forall r1: Region, r2: Region | ReadableName(r1) == ReadableName(r2) ensures r1 == r2 {
      ReadableNameRoundTrip(r1);
      ReadableNameRoundTrip(r2);
    }
  }
}
