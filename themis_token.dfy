/**
  The token request of `getThemisToken` (utils.go): the ten `X-Midt-*`
  headers built from the configuration, and what becomes of the reply. The
  HTTP exchange is a parameter: a transport that maps the request to either
  a transport failure or a response whose body was read, possibly with a
  read error part of the way.
 */
module ThemisToken {
  import opened Wrappers
  import GoStrings
  import DeviceConfig

  newtype byte = x: int | 0 <= x < 256

  /** The ten `X-Midt-*` request headers. */
  datatype HeaderName =
    | MacAddress | SerialNumber | Uuid | PartnerId | HardwareModel
    | HardwareManufacturer | FirmwareName | Protocol | InterfaceUsed | LastRebootReason

  /** Every header name; `EveryHeaderListed` shows none is missing. */
  const AllHeaders: set<HeaderName> :=
    { MacAddress, SerialNumber, Uuid, PartnerId, HardwareModel,
      HardwareManufacturer, FirmwareName, Protocol, InterfaceUsed, LastRebootReason }

  /** There are ten of them. */
  lemma AllHeadersCount()
    ensures |AllHeaders| == 10
  {
  }

  lemma EveryHeaderListed(n: HeaderName)
    ensures n in AllHeaders
  {
    match n
    case MacAddress =>
    case SerialNumber =>
    case Uuid =>
    case PartnerId =>
    case HardwareModel =>
    case HardwareManufacturer =>
    case FirmwareName =>
    case Protocol =>
    case InterfaceUsed =>
    case LastRebootReason =>
  }

  /** The header's name on the wire; already in canonical MIME form, so `Set` keeps it as it is. */
  function WireName(n: HeaderName): (w: string)
    ensures |w| > 7 && w[..7] == "X-Midt-"
    ensures |w| == NameSignature(n).0 && w[7] == NameSignature(n).1
  {
    match n
    case MacAddress => "X-Midt-Mac-Address"
    case SerialNumber => "X-Midt-Serial-Number"
    case Uuid => "X-Midt-Uuid"
    case PartnerId => "X-Midt-Partner-Id"
    case HardwareModel => "X-Midt-Hardware-Model"
    case HardwareManufacturer => "X-Midt-Hardware-Manufacturer"
    case FirmwareName => "X-Midt-Firmware-Name"
    case Protocol => "X-Midt-Protocol"
    case InterfaceUsed => "X-Midt-Interface-Used"
    case LastRebootReason => "X-Midt-Last-Reboot-Reason"
  }

  /** Length and eighth character of each wire name; no two names agree in both. */
  function NameSignature(n: HeaderName): (int, char) {
    match n
    case MacAddress => (18, 'M')
    case SerialNumber => (20, 'S')
    case Uuid => (11, 'U')
    case PartnerId => (17, 'P')
    case HardwareModel => (21, 'H')
    case HardwareManufacturer => (28, 'H')
    case FirmwareName => (20, 'F')
    case Protocol => (15, 'P')
    case InterfaceUsed => (21, 'I')
    case LastRebootReason => (25, 'L')
  }

  /** Different headers have different wire names, so the string-keyed header has the same entries. */
  lemma WireNameInjective(a: HeaderName, b: HeaderName)
    requires WireName(a) == WireName(b)
    ensures a == b
  {
  }

  /** `http.Header`: each key maps to its list of values. */
  type Header = map<HeaderName, seq<string>>

  /** An HTTP request: method, URL and headers. */
  datatype Request = Request(verb: string, url: string, header: Header)

  /**
    The request `getThemisToken` sends: a GET of the token URL carrying
    every one of the ten headers and no other, each holding just the value
    its `Set` call gave it (`Set` replaces a key's values by one value, and
    the ten calls name ten different headers, so none overrides another).
    The MAC header keeps the MAC's colons.
   */
  function TokenRequest(c: DeviceConfig.Config, uuid: string): (req: Request)
    ensures req.verb == "GET" && req.url == c.AuthTokenURL
    ensures req.header.Keys == AllHeaders && |req.header| == 10
    ensures req.header[MacAddress] == ["mac:" + c.HardwareMAC]
    ensures req.header[SerialNumber] == [c.HardwareSerialNumber]
    ensures req.header[Uuid] == [uuid]
    ensures req.header[PartnerId] == [c.PartnerID]
    ensures req.header[HardwareModel] == [c.HardwareModel]
    ensures req.header[HardwareManufacturer] == [c.HardwareManufacturer]
    ensures req.header[FirmwareName] == [c.FirmwareName]
    ensures req.header[Protocol] == [c.Protocol]
    ensures req.header[InterfaceUsed] == [c.Interface]
    ensures req.header[LastRebootReason] == [c.HardwareLastRebootReason]
  {
    var h: Header := map[
      MacAddress := ["mac:" + c.HardwareMAC],
      SerialNumber := [c.HardwareSerialNumber],
      Uuid := [uuid],
      PartnerId := [c.PartnerID],
      HardwareModel := [c.HardwareModel],
      HardwareManufacturer := [c.HardwareManufacturer],
      FirmwareName := [c.FirmwareName],
      Protocol := [c.Protocol],
      InterfaceUsed := [c.Interface],
      LastRebootReason := [c.HardwareLastRebootReason]];
    assert h.Keys == AllHeaders;
    AllHeadersCount();
    Request("GET", c.AuthTokenURL, h)
  }

  /** What the transport reports for one request. Redirects are not followed: a redirect is a response. */
  datatype Exchange =
    | TransportFailure(err: string)
    | Response(status: int, body: seq<byte>, readErr: Option<string>)

  /** The token and the error `getThemisToken` returns. */
  datatype TokenResult = TokenResult(token: seq<byte>, err: Option<string>)

  /**
    `getThemisToken`: one request through the transport. A transport failure
    gives the empty token and that error; otherwise the token is the body
    read, byte for byte, whatever the status, with the read error if any.
   */
  function GetThemisToken(c: DeviceConfig.Config, uuid: string, transport: Request -> Exchange): (r: TokenResult)
    ensures transport(TokenRequest(c, uuid)).TransportFailure? ==>
      r.token == [] && r.err == Some(transport(TokenRequest(c, uuid)).err)
    ensures transport(TokenRequest(c, uuid)).Response? ==>
      r.token == transport(TokenRequest(c, uuid)).body && r.err == transport(TokenRequest(c, uuid)).readErr
  {
    match transport(TokenRequest(c, uuid))
    case TransportFailure(err) => TokenResult([], Some(err))
    case Response(_, body, readErr) => TokenResult(body, readErr)
  }

  // ---------------------------------------------------------------------------
  // Properties
  // ---------------------------------------------------------------------------

  /** A non-empty token comes from a response body, and an error-free result from a fully read response. */
  lemma TokenOnlyFromBody(c: DeviceConfig.Config, uuid: string, transport: Request -> Exchange)
    ensures var x := transport(TokenRequest(c, uuid));
      && (GetThemisToken(c, uuid, transport).token != [] ==> x.Response?)
      && (GetThemisToken(c, uuid, transport).err == None <==> x.Response? && x.readErr == None)
  {
  }

  /** The status of the response plays no part: a redirect's body is the token like any other. */
  lemma StatusIgnored(c: DeviceConfig.Config, uuid: string, t1: Request -> Exchange, t2: Request -> Exchange)
    requires t1(TokenRequest(c, uuid)).Response? && t2(TokenRequest(c, uuid)).Response?
    requires t1(TokenRequest(c, uuid)).body == t2(TokenRequest(c, uuid)).body
    requires t1(TokenRequest(c, uuid)).readErr == t2(TokenRequest(c, uuid)).readErr
    ensures GetThemisToken(c, uuid, t1) == GetThemisToken(c, uuid, t2)
  {
  }

  /**
    For a configuration built by `Provide`, the MAC header keeps the colons
    the device id drops: the two differ whenever the MAC has a colon, the
    protocol header is always empty and the serial header is the raw flag.
   */
  lemma ProvidedRequestHeaders(f: DeviceConfig.Flags, uuid: string)
    ensures var c := DeviceConfig.Provide(f).0;
      var h := TokenRequest(c, uuid).header;
      && h[MacAddress] == ["mac:" + GoStrings.ToLower(f.HardwareMAC)]
      && (':' in f.HardwareMAC <==> h[MacAddress] != [c.DeviceID])
      && h[Protocol] == [""]
      && h[SerialNumber] == [f.HardwareSerialNumber]
  {
    var c := DeviceConfig.Provide(f).0;
    GoStrings.ColonSurvivesLower(f.HardwareMAC);
    if ':' !in c.HardwareMAC {
      GoStrings.StripColonsKeepsColonFree(c.HardwareMAC);
    } else {
      assert |c.DeviceID| < |"mac:" + c.HardwareMAC|;
    }
  }
}
