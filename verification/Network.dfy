/** Network filters and requests as values. A mask is the set of its single-bit flags. */
module Network {
  import opened Prelude

  datatype Flag =
    | FromImage | FromMedia | FromObject | FromOther | FromPing | FromScript | FromStylesheet
    | FromSubdocument | FromWebsocket | FromXmlHttpRequest | FromFont | FromHttp | FromHttps
    | IsImportant | MatchCase | IsRemoveParam | ThirdParty | FirstParty
    | IsRegex | IsLeftAnchor | IsRightAnchor | IsHostnameAnchor | IsException | IsCsp
    | IsCompleteRegex | Unmatched | IsRedirect | BadFilter | IsHostnameRegex | FromDocument
    | GenericHide | AlsoBlockRedirect

  type Mask = set<Flag>

  /** `mask.set(flag, on)`. */
  function SetFlag(mask: Mask, flag: Flag, on: bool): Mask {
    if on then mask + {flag} else mask - {flag}
  }

  datatype FilterPart = Empty | Simple(pattern: string) | AnyOf(patterns: seq<string>)

  /** The patterns of a filter part, as its iterator yields them. */
  function Patterns(part: FilterPart): seq<string> {
    match part
    case Empty => []
    case Simple(s) => [s]
    case AnyOf(ss) => ss
  }

  datatype NetworkFilter = NetworkFilter(
    mask: Mask,
    part: FilterPart,
    optDomains: Option<seq<Hash>>,
    optNotDomains: Option<seq<Hash>>,
    modifierOption: Option<string>,
    hostname: Option<string>,
    tag: Option<string>,
    rawLine: Option<string>,
    id: Hash)

  datatype RequestType =
    | Beacon | Csp | Document | Dtd | Fetch | Font | Image | Media | Object | Other | Ping | Script
    | Stylesheet | Subdocument | Websocket | Xlst | Xmlhttprequest

  function TypeFlag(requestType: RequestType): Flag {
    match requestType
    case Beacon | Ping => FromPing
    case Csp => Unmatched
    case Document => FromDocument
    case Dtd | Fetch | Other | Xlst => FromOther
    case Font => FromFont
    case Image => FromImage
    case Media => FromMedia
    case Object => FromObject
    case Script => FromScript
    case Stylesheet => FromStylesheet
    case Subdocument => FromSubdocument
    case Websocket => FromWebsocket
    case Xmlhttprequest => FromXmlHttpRequest
  }

  datatype Request = Request(
    requestType: RequestType,
    isHttp: bool,
    isHttps: bool,
    isSupported: bool,
    isThirdParty: bool,
    url: string,
    urlLower: string,
    hostname: string,
    sourceHashes: Option<seq<Hash>>,
    tokens: seq<Hash>,
    originalUrl: string)

  function GetUrl(request: Request, caseSensitive: bool): string {
    if caseSensitive then request.url else request.urlLower
  }

  /** Source-host hashes first, then the tokens of the URL. */
  function TokensForMatch(request: Request): seq<Hash> {
    (if request.sourceHashes.Some? then request.sourceHashes.value else []) + request.tokens
  }

  /** The tag of a filter must be active; an untagged filter always is. */
  predicate TagActive(tag: Option<string>, activeTags: set<string>) {
    tag.Some? ==> tag.value in activeTags
  }
}
