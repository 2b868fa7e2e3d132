/**
  Device-identity bootstrap (config.go): `Provide` turns the raw flag values
  into a `Config` and returns it together with the result of
  `validateConfig`. The flag set itself is not modelled: its values arrive
  as a `Flags` record.
 */
module DeviceConfig {
  import opened Wrappers
  import GoStrings
  import MacAddress

  /** `DEVICEID = "mac:%s"`: the device id is this prefix and the MAC without colons. */
  const DeviceIDPrefix: string := "mac:"

  /** `XMIDTPathURL`: the path appended to the configured URL. */
  const XMIDTPathURL: string := "/api/v2/device"

  /** Flag names that appear in validation errors. */
  const HardwareModelKeyName: string := "hw-model"
  const HardwareSerialNumberKeyName: string := "hw-serial-number"
  const HardwareManufacturerKeyName: string := "hw-manufacturer"
  const URLKeyName: string := "webpa-url"

  /** Go's `int64`; Go's `int` is taken to be 64 bits wide as well. */
  newtype Int64 = x: int | -0x8000_0000_0000_0000 <= x < 0x8000_0000_0000_0000

  /** The values `Provide` reads from the flag set, one per flag it looks up. */
  datatype Flags = Flags(
    HardwareModel: string,
    HardwareSerialNumber: string,
    HardwareManufacturer: string,
    HardwareMAC: string,
    HardwareLastRebootReason: string,
    FirmwareName: string,
    BootTime: Int64,
    URL: string,
    MaxBackoff: Int64,
    PingTimeout: Int64,
    Interface: string,
    LocalURL: string,
    PartnerID: string,
    CertPath: string,
    IPv4: bool,
    IPv6: bool,
    Debug: bool,
    PrintVersion: bool,
    AuthTokenURL: string,
    ClientCertPath: string,
    MtlsClientKeyPath: string,
    MtlsClientCertPath: string)

  /** The device configuration, field for field as the source declares it. */
  datatype Config = Config(
    HardwareModel: string,
    HardwareSerialNumber: string,
    HardwareManufacturer: string,
    HardwareMAC: string,
    HardwareLastRebootReason: string,
    FirmwareName: string,
    BootTime: Int64,
    PingTimeout: Int64,
    URL: string,
    MaxBackoff: Int64,
    Interface: string,
    Protocol: string,
    UUID: string,
    LocalURL: string,
    PartnerID: string,
    CertPath: string,
    AuthTokenURL: string,
    DeviceID: string,
    IPv4: bool,
    IPv6: bool,
    Debug: bool,
    PrintVersion: bool,
    ClientCertPath: string,
    MtlsClientKeyPath: string,
    MtlsClientCertPath: string)

  /** The two kinds of error `validateConfig` returns. */
  datatype ConfigError =
    | MissingField(key: string)   // "<key> must be set"
    | BadMAC(mac: string)         // "bad mac address: <mac>"

  /** The text of the error, as `fmt.Errorf` formats it; the key or the MAC can be read back from it. */
  function Message(e: ConfigError): (m: string)
    ensures e.MissingField? ==> |m| == |e.key| + 12 && m[..|e.key|] == e.key
    ensures e.BadMAC? ==> |m| == |e.mac| + 17 && m[17..] == e.mac
  {
    match e
    case MissingField(key) => key + " must be set"
    case BadMAC(mac) => "bad mac address: " + mac
  }

  /** The configuration invariant: required fields set and a recognisable MAC address. */
  predicate ConfigValid(c: Config): (r: bool)
    ensures r ==> c.HardwareModel != "" && c.URL != "" && |c.HardwareMAC| >= 12
  {
    && c.HardwareModel != ""
    && c.HardwareSerialNumber != ""
    && c.HardwareManufacturer != ""
    && MacAddress.ValidateMAC(c.HardwareMAC)
    && c.URL != ""
  }

  /**
    `validateConfig`: no error exactly when the invariant holds; otherwise the
    first failing check in the order model, serial, manufacturer, MAC, URL.
   */
  function ValidateConfig(c: Config): (r: Option<ConfigError>)
    ensures r.None? <==> ConfigValid(c)
    ensures r == Some(MissingField(HardwareModelKeyName)) <==> c.HardwareModel == ""
    ensures r == Some(MissingField(HardwareSerialNumberKeyName)) <==>
      c.HardwareModel != "" && c.HardwareSerialNumber == ""
    ensures r == Some(MissingField(HardwareManufacturerKeyName)) <==>
      c.HardwareModel != "" && c.HardwareSerialNumber != "" && c.HardwareManufacturer == ""
    ensures r == Some(BadMAC(c.HardwareMAC)) <==>
      c.HardwareModel != "" && c.HardwareSerialNumber != "" && c.HardwareManufacturer != ""
      && !MacAddress.ValidateMAC(c.HardwareMAC)
    ensures r == Some(MissingField(URLKeyName)) <==>
      c.HardwareModel != "" && c.HardwareSerialNumber != "" && c.HardwareManufacturer != ""
      && MacAddress.ValidateMAC(c.HardwareMAC) && c.URL == ""
  {
    if c.HardwareModel == "" then Some(MissingField(HardwareModelKeyName))
    else if c.HardwareSerialNumber == "" then Some(MissingField(HardwareSerialNumberKeyName))
    else if c.HardwareManufacturer == "" then Some(MissingField(HardwareManufacturerKeyName))
    else if !MacAddress.ValidateMAC(c.HardwareMAC) then Some(BadMAC(c.HardwareMAC))
    else if c.URL == "" then Some(MissingField(URLKeyName))
    else None
  }

  /** The fields `Provide` copies from the flags unchanged. */
  predicate CopiedFrom(c: Config, f: Flags) {
    && c.HardwareModel == f.HardwareModel
    && c.HardwareSerialNumber == f.HardwareSerialNumber
    && c.HardwareManufacturer == f.HardwareManufacturer
    && c.HardwareLastRebootReason == f.HardwareLastRebootReason
    && c.FirmwareName == f.FirmwareName
    && c.BootTime == f.BootTime
    && c.PingTimeout == f.PingTimeout
    && c.MaxBackoff == f.MaxBackoff
    && c.Interface == f.Interface
    && c.LocalURL == f.LocalURL
    && c.PartnerID == f.PartnerID
    && c.CertPath == f.CertPath
    && c.AuthTokenURL == f.AuthTokenURL
    && c.IPv4 == f.IPv4
    && c.IPv6 == f.IPv6
    && c.Debug == f.Debug
    && c.PrintVersion == f.PrintVersion
    && c.ClientCertPath == f.ClientCertPath
    && c.MtlsClientKeyPath == f.MtlsClientKeyPath
    && c.MtlsClientCertPath == f.MtlsClientCertPath
  }

  /**
    `Provide`: the populated configuration is returned whatever the
    validation says, next to the validation's verdict on it.
   */
  function Provide(f: Flags): (r: (Config, Option<ConfigError>))
    ensures r.1 == ValidateConfig(r.0)
    ensures CopiedFrom(r.0, f)
    ensures r.0.HardwareMAC == GoStrings.ToLower(f.HardwareMAC)
    ensures r.0.URL == f.URL + XMIDTPathURL
    ensures r.0.DeviceID == DeviceIDPrefix + GoStrings.StripColons(r.0.HardwareMAC)
    ensures r.0.Protocol == "" && r.0.UUID == ""
  {
    var mac := GoStrings.ToLower(f.HardwareMAC);
    var c := Config(
      HardwareModel := f.HardwareModel,
      HardwareSerialNumber := f.HardwareSerialNumber,
      HardwareManufacturer := f.HardwareManufacturer,
      HardwareMAC := mac,
      HardwareLastRebootReason := f.HardwareLastRebootReason,
      FirmwareName := f.FirmwareName,
      BootTime := f.BootTime,
      PingTimeout := f.PingTimeout,
      URL := f.URL + XMIDTPathURL,
      MaxBackoff := f.MaxBackoff,
      Interface := f.Interface,
      Protocol := "",
      UUID := "",
      LocalURL := f.LocalURL,
      PartnerID := f.PartnerID,
      CertPath := f.CertPath,
      AuthTokenURL := f.AuthTokenURL,
      DeviceID := DeviceIDPrefix + GoStrings.StripColons(mac),
      IPv4 := f.IPv4,
      IPv6 := f.IPv6,
      Debug := f.Debug,
      PrintVersion := f.PrintVersion,
      ClientCertPath := f.ClientCertPath,
      MtlsClientKeyPath := f.MtlsClientKeyPath,
      MtlsClientCertPath := f.MtlsClientCertPath);
    (c, ValidateConfig(c))
  }

  // ---------------------------------------------------------------------------
  // Properties of the derived fields
  // ---------------------------------------------------------------------------

  /** The stored MAC contains no ASCII upper-case letter and is the input up to case. */
  lemma ProvideLowersMAC(f: Flags)
    ensures var mac := Provide(f).0.HardwareMAC;
      && |mac| == |f.HardwareMAC|
      && (forall k :: 0 <= k < |mac| ==> !GoStrings.IsAsciiUpper(mac[k]))
      && GoStrings.ToLower(mac) == mac
  {
    GoStrings.ToLowerIdempotent(f.HardwareMAC);
  }

  /** The stored URL is the input URL followed by exactly one copy of the device path. */
  lemma ProvideAppendsPathOnce(f: Flags)
    ensures var url := Provide(f).0.URL;
      && |url| == |f.URL| + |XMIDTPathURL|
      && url[..|f.URL|] == f.URL
      && url[|f.URL|..] == XMIDTPathURL
  {
  }

  /**
    After the `mac:` prefix the device id holds no colon, and every other
    character of the lower-cased MAC (dashes and dots included) is kept, as
    often as it occurs; a MAC without colons is kept whole.
   */
  lemma ProvideDeviceID(f: Flags, ch: char)
    requires ch != ':'
    ensures var c := Provide(f).0;
      && c.DeviceID[..|DeviceIDPrefix|] == "mac:"
      && ':' !in c.DeviceID[|DeviceIDPrefix|..]
      && multiset(c.DeviceID[|DeviceIDPrefix|..])[ch] == multiset(c.HardwareMAC)[ch]
      && (':' !in c.HardwareMAC ==> c.DeviceID == "mac:" + c.HardwareMAC)
  {
    var c := Provide(f).0;
    assert c.DeviceID[|DeviceIDPrefix|..] == GoStrings.StripColons(c.HardwareMAC);
    GoStrings.StripColonsCounts(c.HardwareMAC, ch);
    if ':' !in c.HardwareMAC {
      GoStrings.StripColonsKeepsColonFree(c.HardwareMAC);
    }
  }

  /**
    The verdict on the raw flags: no error exactly when model, serial and
    manufacturer are set and the MAC as given (in any case) is valid. The
    URL condition drops out because the path was appended.
   */
  lemma ProvideErrorIff(f: Flags)
    ensures Provide(f).1.None? <==>
      && f.HardwareModel != ""
      && f.HardwareSerialNumber != ""
      && f.HardwareManufacturer != ""
      && MacAddress.ValidateMAC(f.HardwareMAC)
  {
    MacAddress.ValidateMACIgnoresCase(f.HardwareMAC);
  }

  /** The URL check can never fire on a configuration `Provide` built. */
  lemma ProvideNeverMissingURL(f: Flags)
    ensures Provide(f).1 != Some(MissingField(URLKeyName))
  {
    assert Provide(f).0.URL != "";
  }

  /** An empty model gives the model error whatever every other flag holds. */
  lemma ProvideModelCheckedFirst(f: Flags)
    requires f.HardwareModel == ""
    ensures Provide(f).1 == Some(MissingField(HardwareModelKeyName))
    ensures Message(Provide(f).1.value) == "hw-model must be set"
  {
  }

  /** A bad MAC is reported, with the lower-cased MAC, only once the three string fields are set. */
  lemma ProvideBadMAC(f: Flags)
    ensures Provide(f).1.Some? && Provide(f).1.value.BadMAC? <==>
      && f.HardwareModel != ""
      && f.HardwareSerialNumber != ""
      && f.HardwareManufacturer != ""
      && !MacAddress.ValidateMAC(f.HardwareMAC)
    ensures Provide(f).1.Some? && Provide(f).1.value.BadMAC? ==>
      Provide(f).1.value.mac == GoStrings.ToLower(f.HardwareMAC)
  {
    MacAddress.ValidateMACIgnoresCase(f.HardwareMAC);
  }

  /** The strings of `parts` one after another. */
  function Concat(parts: seq<string>): string {
    if parts == [] then "" else parts[0] + Concat(parts[1..])
  }

  /**
    For a MAC written as colon-free groups joined by ':' (or by nothing),
    the part of the device id after `mac:` is the groups run together.
   */
  lemma {:induction false} StripColonDelimited(groups: seq<string>, seps: seq<string>)
    requires |groups| == |seps| + 1
    requires forall k :: 0 <= k < |groups| ==> ':' !in groups[k]
    requires forall k :: 0 <= k < |seps| ==> seps[k] == "" || seps[k] == ":"
    ensures GoStrings.StripColons(MacAddress.Interleave(groups, seps)) == Concat(groups)
    decreases seps
  {
    GoStrings.StripColonsKeepsColonFree(groups[0]);
    if seps == [] {
      assert Concat(groups) == groups[0] + Concat(groups[1..]);
      assert groups[1..] == [];
    } else {
      var rest := MacAddress.Interleave(groups[1..], seps[1..]);
      StripColonDelimited(groups[1..], seps[1..]);
      GoStrings.StripColonsConcat(groups[0] + seps[0], rest);
      GoStrings.StripColonsConcat(groups[0], seps[0]);
      assert GoStrings.StripColons(seps[0]) == "";
    }
  }

  /** An upper-case colon-delimited MAC with the other required fields set. */
  function ExampleFlags(): Flags {
    Flags(
      HardwareModel := "X1", HardwareSerialNumber := "S123", HardwareManufacturer := "Acme",
      HardwareMAC := "AA:BB:CC:DD:EE:FF", HardwareLastRebootReason := "unknown",
      FirmwareName := "unknown", BootTime := 0, URL := "https://host:1234",
      MaxBackoff := 60, PingTimeout := 180, Interface := "eth0",
      LocalURL := "tcp://127.0.0.1:6666", PartnerID := "comcast", CertPath := "",
      IPv4 := false, IPv6 := false, Debug := false, PrintVersion := false,
      AuthTokenURL := "https://themis:6501/issue", ClientCertPath := "",
      MtlsClientKeyPath := "", MtlsClientCertPath := "")
  }

  /** The MAC is lower-cased, the colons dropped from the id, the path appended, and nothing fails. */
  lemma ExampleProvide()
    ensures Provide(ExampleFlags()).0.URL == "https://host:1234/api/v2/device"
    ensures Provide(ExampleFlags()).0.HardwareMAC == "aa:bb:cc:dd:ee:ff"
    ensures Provide(ExampleFlags()).0.DeviceID == "mac:aabbccddeeff"
    ensures Provide(ExampleFlags()).1 == None
  {
    var f := ExampleFlags();
    ExampleLower();
    ExampleStrip();
    ExampleValid();
    ExampleConcats();
    ProvideErrorIff(f);
  }

  /** The two concatenations of the example, character by character. */
  lemma ExampleConcats()
    ensures "https://host:1234" + XMIDTPathURL == "https://host:1234/api/v2/device"
    ensures DeviceIDPrefix + "aabbccddeeff" == "mac:aabbccddeeff"
  {
    var u := "https://host:1234" + XMIDTPathURL;
    var w := "https://host:1234/api/v2/device";
    forall k | 0 <= k < |w|
      ensures u[k] == w[k]
    {
      if k < 17 { assert u[k] == "https://host:1234"[k]; } else { assert u[k] == XMIDTPathURL[k - 17]; }
    }
  }

  /** `strings.ToLower` on the example MAC. */
  lemma ExampleLower()
    ensures GoStrings.ToLower("AA:BB:CC:DD:EE:FF") == "aa:bb:cc:dd:ee:ff"
  {
    var l := GoStrings.ToLower("AA:BB:CC:DD:EE:FF");
    assert forall k :: 0 <= k < 17 ==> l[k] == "aa:bb:cc:dd:ee:ff"[k];
  }

  /** Colon removal on the lower-cased example MAC. */
  lemma ExampleStrip()
    ensures GoStrings.StripColons("aa:bb:cc:dd:ee:ff") == "aabbccddeeff"
  {
    var pairs := ["aa", "bb", "cc", "dd", "ee", "ff"];
    var seps := [":", ":", ":", ":", ":"];
    assert MacAddress.Interleave(pairs, seps) == "aa:bb:cc:dd:ee:ff";
    StripColonDelimited(pairs, seps);
    assert Concat(pairs) == "aabbccddeeff";
  }

  /** The example MAC, in upper case, passes the MAC check. */
  lemma ExampleValid()
    ensures MacAddress.ValidateMAC("AA:BB:CC:DD:EE:FF")
  {
    var pairs := ["AA", "BB", "CC", "DD", "EE", "FF"];
    var seps := [":", ":", ":", ":", ":"];
    assert MacAddress.Interleave(pairs, seps) == "AA:BB:CC:DD:EE:FF";
    MacAddress.AnySeparatorsAccepted(pairs, seps);
  }
}
