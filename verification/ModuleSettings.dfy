/**
 The settings form of a module: how it is read, which submissions pass against
 the values the page shows, and what passing guarantees.
 */
module ModuleSettings {
  import opened Wrappers
  import opened Ipv4
  import opened DottedQuad
  import opened Registers

  const SWITCHES: seq<Key> := [Dhcp, Ntp]
  const SERVERS: seq<Key> := [DnsServer1, DnsServer2, NtpServer1, NtpServer2]
  const ADDRESSES: seq<Key> := [IpAddress, Gateway, DnsServer1, DnsServer2, NtpServer1, NtpServer2, Netmask]

  /** Shown empty when unset: every address but the netmask. */
  predicate IsOptionalAddress(k: Key) {
    k in ADDRESSES && k != Netmask
  }

  const HOSTNAME_MAX_LENGTH: nat := HOSTNAME_WORDS * 2 - 1

  datatype FormError =
    | InvalidAddressError
    | NotAWholeNumber
    | InvalidHostname
    | InvalidTimeout
    | InvalidNetmaskError
    | GatewayOutside

  /** What was typed where a number belongs. */
  datatype Typed = NotANumber | NotFinite | Finite(value: real)

  /** A submitted page. An optional field left empty may be missing. */
  datatype Form = Form(switches: map<Key, bool>, texts: map<Key, string>, timeout: Typed)

  /** What a read reports, and what a form is turned into. */
  predicate IsReading(values: Changes) {
    values.Keys == ALL_KEYS && AllWritable(values)
  }

  // ---------------------------------------------------------------- typing

  /** The characters Python's `str.strip` drops. */
  predicate IsBlank(c: char) {
    var n := c as int;
    || 0x09 <= n <= 0x0D || 0x1C <= n <= 0x20 || n == 0x85 || n == 0xA0 || n == 0x1680
    || 0x2000 <= n <= 0x200A || n == 0x2028 || n == 0x2029 || n == 0x202F || n == 0x205F || n == 0x3000
  }

  function StripLeft(s: string): string {
    if s != "" && IsBlank(s[0]) then StripLeft(s[1..]) else s
  }

  function StripRight(s: string): string {
    if s != "" && IsBlank(s[|s| - 1]) then StripRight(s[..|s| - 1]) else s
  }

  function Strip(s: string): string {
    StripRight(StripLeft(s))
  }

  function TextOf(form: Form, k: Key): string {
    if k in form.texts then form.texts[k] else ""
  }

  /** Blanks around the text are dropped; the empty text is 0.0.0.0. */
  function TypedAddress(text: string): Option<Address> {
    if Strip(text) == "" then Some(UNSET) else Parse(Strip(text))
  }

  function TypedNumber(typed: Typed): Option<int> {
    if typed.Finite? && typed.value == typed.value.Floor as real then Some(typed.value.Floor) else None
  }

  /** The value typed into one field, if it has that field's form at all. */
  function TypedValue(form: Form, k: Key): Option<Value> {
    match k
    case Dhcp | Ntp => Some(Switch(k in form.switches && form.switches[k]))
    case Hostname => Some(Name(TextOf(form, k)))
    case Timeout => (match TypedNumber(form.timeout) case Some(n) => Some(Number(n)) case None => None)
    case _ => (match TypedAddress(TextOf(form, k)) case Some(a) => Some(Ip(a)) case None => None)
  }

  // ------------------------------------------------------------ the checks

  predicate IsAlphanumeric(c: char) {
    'a' <= c <= 'z' || 'A' <= c <= 'Z' || '0' <= c <= '9'
  }

  predicate IsLabelText(text: string) {
    forall i :: 0 <= i < |text| ==> IsAlphanumeric(text[i]) || text[i] == '-'
  }

  /** The program's pattern: an alphanumeric character, alone or before any label
      text that ends in one; and the length it allows. */
  predicate MatchesHostname(text: string) {
    && |text| <= HOSTNAME_MAX_LENGTH
    && text != "" && IsAlphanumeric(text[0])
    && (|text| == 1 || (IsLabelText(text[1..|text| - 1]) && IsAlphanumeric(text[|text| - 1])))
  }

  /** A label as RFC 1123, section 2.1, has it: letters, digits and hyphens, none
      of these at an end. */
  predicate IsHostname(text: string) {
    && 1 <= |text| <= 31
    && (forall i :: 0 <= i < |text| ==>
          var c := text[i];
          ('a' <= c <= 'z' || 'A' <= c <= 'Z' || '0' <= c <= '9') || (c == '-' && 0 < i < |text| - 1))
  }

  lemma HostnameExact(text: string)
    ensures MatchesHostname(text) <==> IsHostname(text)
  {
    if MatchesHostname(text) && |text| > 1 {
      forall i | 0 < i < |text| - 1 ensures IsAlphanumeric(text[i]) || text[i] == '-' {
        assert text[1..|text| - 1][i - 1] == text[i];
      }
    }
  }

  /** An accepted name leaves a zero byte at the end of its registers. */
  lemma HostnameLeavesAZero(text: string)
    requires IsHostname(text)
    ensures IsText(text) && EncodeName(text)[HOSTNAME_WORDS - 1] % 256 == 0
  {
  }

  predicate ServerOk(v: Value) {
    v.Ip? && (v.address == UNSET || IsHostAddress(v.address))
  }

  function NetworkCheck(settings: Changes): Option<FormError>
    requires IpAddress in settings && Netmask in settings && Gateway in settings
    requires settings[IpAddress].Ip? && settings[Netmask].Ip? && settings[Gateway].Ip?
  {
    match CheckNetwork(settings[IpAddress].address, settings[Netmask].address, settings[Gateway].address)
    case None => None
    case Some(InvalidNetmask) => Some(InvalidNetmaskError)
    case Some(InvalidAddress) => Some(InvalidAddressError)
    case Some(GatewayOutsideNetwork) => Some(GatewayOutside)
  }

  /** The settings have every field, each of its own form. */
  predicate IsTyped(settings: Changes) {
    && settings.Keys == ALL_KEYS
    && forall k :: k in settings ==>
         match k
         case Dhcp | Ntp => settings[k].Switch?
         case Hostname => settings[k].Name?
         case Timeout => settings[k].Number?
         case _ => settings[k].Ip?
  }

  predicate Changed(settings: Changes, current: Changes, k: Key) {
    k in settings && (k !in current || current[k] != settings[k])
  }

  predicate NetworkChanged(settings: Changes, current: Changes) {
    Changed(settings, current, Dhcp) || Changed(settings, current, IpAddress) || Changed(settings, current, Netmask)
    || Changed(settings, current, Gateway)
  }

  /** What a rule refuses in the changed settings; the first of them counts. */
  function Refusal(settings: Changes, current: Changes): Option<FormError>
    requires IsTyped(settings)
  {
    if exists k :: k in SERVERS && Changed(settings, current, k) && !ServerOk(settings[k]) then
      Some(InvalidAddressError)
    else if Changed(settings, current, Hostname) && !MatchesHostname(settings[Hostname].text) then
      Some(InvalidHostname)
    else if Changed(settings, current, Timeout) && !(1 <= settings[Timeout].n < WORD_RANGE) then
      Some(InvalidTimeout)
    else if Changed(settings, current, IpAddress) && !ServerOk(settings[IpAddress]) then
      Some(InvalidAddressError)
    else if Changed(settings, current, Netmask) && Interface(settings[Netmask].address) == None then
      Some(InvalidNetmaskError)
    else if NetworkChanged(settings, current) && !settings[Dhcp].on then NetworkCheck(settings)
    else None
  }

  predicate AllTyped(form: Form) {
    forall k: Key :: TypedValue(form, k).Some?
  }

  function TypedValues(form: Form): (settings: Changes)
    requires AllTyped(form)
    ensures IsTyped(settings)
  {
    map k | k in ALL_KEYS :: TypedValue(form, k).value
  }

  /** Every field read, or the first error in reading them. */
  function Read(form: Form): Result<Changes, FormError> {
    if exists k :: k in ADDRESSES && TypedValue(form, k) == None then Err(InvalidAddressError)
    else if TypedValue(form, Timeout) == None then Err(NotAWholeNumber)
    else Ok(TypedValues(form))
  }

  /** Reading first, then the checks. */
  function Submitted(form: Form, current: Changes): Result<Changes, FormError> {
    match Read(form)
    case Err(error) => Err(error)
    case Ok(settings) =>
      match Refusal(settings, current)
      case Some(error) => Err(error)
      case None => Ok(settings)
  }

  // ------------------------------------------------- as the program does it

  /** The order in which the program fills its dictionary. */
  method FillSettings(form: Form) returns (r: Result<Changes, FormError>)
    ensures r == Read(form)
  {
    hide TypedAddress, TypedNumber;
    var settings: Changes := map[];
    for i := 0 to |SWITCHES|
      invariant forall j :: 0 <= j < i ==> SWITCHES[j] in settings
      invariant forall k :: k in settings ==> TypedValue(form, k) == Some(settings[k])
    {
      settings := settings[SWITCHES[i] := TypedValue(form, SWITCHES[i]).value];
    }
    for i := 0 to |ADDRESSES|
      invariant forall j :: 0 <= j < |SWITCHES| ==> SWITCHES[j] in settings
      invariant forall j :: 0 <= j < i ==> ADDRESSES[j] in settings
      invariant forall k :: k in settings ==> TypedValue(form, k) == Some(settings[k])
    {
      var key := ADDRESSES[i];
      var address := TypedAddress(TextOf(form, key));
      if address == None {
        assert key in ADDRESSES && TypedValue(form, key) == None;
        return Err(InvalidAddressError);
      }
      settings := settings[key := Ip(address.value)];
    }
    settings := settings[Hostname := Name(TextOf(form, Hostname))];
    var number := TypedNumber(form.timeout);
    if number == None {
      return Err(NotAWholeNumber);
    }
    settings := settings[Timeout := Number(number.value)];
    AllFilled(settings);
    assert forall k: Key :: TypedValue(form, k) == Some(settings[k]);
    assert settings == TypedValues(form);
    r := Ok(settings);
  }

  lemma AllFilled(settings: Changes)
    requires forall j :: 0 <= j < |SWITCHES| ==> SWITCHES[j] in settings
    requires forall j :: 0 <= j < |ADDRESSES| ==> ADDRESSES[j] in settings
    requires Hostname in settings && Timeout in settings
    ensures settings.Keys == ALL_KEYS
  {
    assert SWITCHES[0] in settings && SWITCHES[1] in settings;
    forall k: Key ensures k in settings {
      match k
      case Timeout => case Hostname => case Dhcp => case Ntp =>
      case IpAddress => assert ADDRESSES[0] == k;
      case Gateway => assert ADDRESSES[1] == k;
      case DnsServer1 => assert ADDRESSES[2] == k;
      case DnsServer2 => assert ADDRESSES[3] == k;
      case NtpServer1 => assert ADDRESSES[4] == k;
      case NtpServer2 => assert ADDRESSES[5] == k;
      case Netmask => assert ADDRESSES[6] == k;
    }
  }

  /** The checks, in the program's order. */
  method CheckSettings(settings: Changes, current: Changes) returns (refused: Option<FormError>)
    requires IsTyped(settings)
    ensures refused == Refusal(settings, current)
  {
    hide NetworkCheck, Interface, MatchesHostname, IsHostAddress;
    for i := 0 to |SERVERS|
      invariant forall k :: k in SERVERS[..i] && Changed(settings, current, k) ==> ServerOk(settings[k])
    {
      var key := SERVERS[i];
      if Changed(settings, current, key) && !ServerOk(settings[key]) {
        assert key in SERVERS;
        return Some(InvalidAddressError);
      }
    }
    if Changed(settings, current, Hostname) && !MatchesHostname(settings[Hostname].text) {
      return Some(InvalidHostname);
    }
    if Changed(settings, current, Timeout) && !(1 <= settings[Timeout].n < WORD_RANGE) {
      return Some(InvalidTimeout);
    }
    if Changed(settings, current, IpAddress) && settings[IpAddress].address != UNSET {
      if !ServerOk(settings[IpAddress]) {
        return Some(InvalidAddressError);
      }
    }
    if Changed(settings, current, Netmask) && Interface(settings[Netmask].address) == None {
      return Some(InvalidNetmaskError);
    }
    if NetworkChanged(settings, current) && !settings[Dhcp].on {
      refused := NetworkCheck(settings);
      return;
    }
    refused := None;
  }

  method Settings(form: Form, current: Changes) returns (r: Result<Changes, FormError>)
    ensures r == Submitted(form, current)
  {
    r := FillSettings(form);
    if r.Ok? {
      var refused := CheckSettings(r.value, current);
      if refused.Some? {
        r := Err(refused.value);
      }
    }
  }

  // ------------------------------------------------------------ the meaning

  /** Switched off DHCP goes with a fixed address, netmask and gateway that work
      together. */
  ghost predicate NetworkWorks(values: Changes)
    requires IsTyped(values)
  {
    !values[Dhcp].on ==> GoodNetwork(values[IpAddress].address, values[Netmask].address, values[Gateway].address)
  }

  ghost predicate NetmaskWorks(values: Changes)
    requires IsTyped(values)
  {
    UsableMask(values[Netmask].address)
  }

  lemma ReadingIsTyped(values: Changes)
    requires IsReading(values)
    ensures IsTyped(values)
  {
  }

  /** The submission has another value here than the module was read with. */
  ghost predicate Differs(settings: Changes, current: Changes, k: Key) {
    k in settings && !(k in current && settings[k] == current[k])
  }

  ghost predicate NetworkDiffers(settings: Changes, current: Changes) {
    exists k :: k in {Dhcp, IpAddress, Netmask, Gateway} && Differs(settings, current, k)
  }

  /** A changed address that no host can have; 0.0.0.0 stands for none. */
  ghost predicate BadAddress(settings: Changes, current: Changes, k: Key)
    requires IsTyped(settings)
  {
    && k in {DnsServer1, DnsServer2, NtpServer1, NtpServer2, IpAddress} && Differs(settings, current, k)
    && settings[k].address != 0 && !IsHostAddress(settings[k].address)
  }

  ghost predicate BadServer(settings: Changes, current: Changes)
    requires IsTyped(settings)
  {
    exists k :: k != IpAddress && BadAddress(settings, current, k)
  }

  ghost predicate BadName(settings: Changes, current: Changes)
    requires IsTyped(settings)
  {
    Differs(settings, current, Hostname) && !IsHostname(settings[Hostname].text)
  }

  ghost predicate BadTimeout(settings: Changes, current: Changes)
    requires IsTyped(settings)
  {
    Differs(settings, current, Timeout) && (settings[Timeout].n < 1 || settings[Timeout].n > 0xFFFF)
  }

  ghost predicate BadNetmask(settings: Changes, current: Changes)
    requires IsTyped(settings)
  {
    Differs(settings, current, Netmask) && !NetmaskWorks(settings)
  }

  /** What the form's own values must be to pass, field by field: a field shown
      as it is held passes whatever it holds; a changed one has to be usable. */
  ghost predicate Acceptable(settings: Changes, current: Changes)
    requires IsTyped(settings)
  {
    && (forall k :: !BadAddress(settings, current, k))
    && !BadName(settings, current) && !BadTimeout(settings, current) && !BadNetmask(settings, current)
    && (NetworkDiffers(settings, current) ==> NetworkWorks(settings))
  }

  lemma NetworkCheckExact(settings: Changes)
    requires IsTyped(settings)
    ensures !settings[Dhcp].on ==> (NetworkCheck(settings) == None <==> NetworkWorks(settings))
    ensures Interface(settings[Netmask].address) == None <==> !NetmaskWorks(settings)
  {
    InterfaceAccepts(settings[Netmask].address);
    CheckNetworkExact(settings[IpAddress].address, settings[Netmask].address, settings[Gateway].address);
  }

  /** The checks in terms of the values themselves, the first that fails first. */
  ghost function Judged(settings: Changes, current: Changes): Option<FormError>
    requires IsTyped(settings)
  {
    if BadServer(settings, current) then Some(InvalidAddressError)
    else if BadName(settings, current) then Some(InvalidHostname)
    else if BadTimeout(settings, current) then Some(InvalidTimeout)
    else if BadAddress(settings, current, IpAddress) then Some(InvalidAddressError)
    else if BadNetmask(settings, current) then Some(InvalidNetmaskError)
    else if NetworkDiffers(settings, current) && !settings[Dhcp].on then NetworkCheck(settings)
    else None
  }

  lemma BadServerExact(settings: Changes, current: Changes)
    requires IsTyped(settings)
    ensures (exists k :: k in SERVERS && Changed(settings, current, k) && !ServerOk(settings[k])) <==> BadServer(settings, current)
  {
    hide IsHostAddress;
    assert forall k :: k in SERVERS <==> k in {DnsServer1, DnsServer2, NtpServer1, NtpServer2} by {
      assert SERVERS[0] == DnsServer1 && SERVERS[1] == DnsServer2 && SERVERS[2] == NtpServer1 && SERVERS[3] == NtpServer2;
    }
    forall k | k != IpAddress
      ensures k in SERVERS && Changed(settings, current, k) && !ServerOk(settings[k]) <==> BadAddress(settings, current, k)
    {
    }
    assert IpAddress !in SERVERS;
  }

  lemma BadIpAddressExact(settings: Changes, current: Changes)
    requires IsTyped(settings)
    ensures Changed(settings, current, IpAddress) && !ServerOk(settings[IpAddress]) <==> BadAddress(settings, current, IpAddress)
  {
    hide IsHostAddress;
  }

  lemma BadOthersExact(settings: Changes, current: Changes)
    requires IsTyped(settings)
    ensures Changed(settings, current, Hostname) && !MatchesHostname(settings[Hostname].text) <==> BadName(settings, current)
    ensures Changed(settings, current, Timeout) && !(1 <= settings[Timeout].n < WORD_RANGE) <==> BadTimeout(settings, current)
    ensures Changed(settings, current, Netmask) && Interface(settings[Netmask].address) == None <==> BadNetmask(settings, current)
  {
    HostnameExact(settings[Hostname].text);
    NetworkCheckExact(settings);
    hide MatchesHostname, IsHostname, Interface, NetmaskWorks, NetworkCheck, NetworkWorks;
  }

  lemma NetworkChangedExact(settings: Changes, current: Changes)
    ensures NetworkChanged(settings, current) <==> NetworkDiffers(settings, current)
  {
    var fields := {Dhcp, IpAddress, Netmask, Gateway};
    assert Dhcp in fields && IpAddress in fields && Netmask in fields && Gateway in fields;
    assert forall k: Key :: Changed(settings, current, k) <==> Differs(settings, current, k);
  }

  /** The program's checks are those. */
  lemma ChecksInWords(settings: Changes, current: Changes)
    requires IsTyped(settings)
    ensures Refusal(settings, current) == Judged(settings, current)
  {
    hide Changed, Differs, NetworkCheck, Interface, MatchesHostname, BadServer, BadName, BadTimeout, BadNetmask, BadAddress;
    hide ServerOk, NetworkChanged, NetworkDiffers, IsHostAddress;
    BadServerExact(settings, current);
    BadIpAddressExact(settings, current);
    BadOthersExact(settings, current);
    NetworkChangedExact(settings, current);
  }

  /** The checks refuse nothing else and let nothing else pass. */
  lemma RefusalExact(settings: Changes, current: Changes)
    requires IsTyped(settings)
    ensures Refusal(settings, current) == None <==> Acceptable(settings, current)
  {
    ChecksInWords(settings, current);
    NetworkCheckExact(settings);
    if settings[Dhcp].on {
      DhcpOnWorks(settings);
    }
    hide Refusal, NetworkCheck, Interface, NetmaskWorks, NetworkWorks, NetworkDiffers, BadAddress, BadName, BadTimeout, BadNetmask;
  }

  lemma DhcpOnWorks(settings: Changes)
    requires IsTyped(settings) && settings[Dhcp].on
    ensures NetworkWorks(settings)
  {
  }

  /** What an error says of one changed field is so. */
  ghost predicate FieldAtFault(error: FormError, settings: Changes, current: Changes)
    requires IsTyped(settings)
  {
    match error
    case InvalidAddressError => exists k :: BadAddress(settings, current, k)
    case InvalidHostname => BadName(settings, current)
    case InvalidTimeout => BadTimeout(settings, current)
    case InvalidNetmaskError => BadNetmask(settings, current)
    case _ => false
  }

  /** What an error says of the whole network is so. */
  ghost predicate NetworkAtFault(error: FormError, settings: Changes)
    requires IsTyped(settings)
  {
    var a, m, g := settings[IpAddress].address, settings[Netmask].address, settings[Gateway].address;
    match error
    case InvalidNetmaskError => !UsableMask(m)
    case InvalidAddressError => UsableMask(m) && !GoodNetwork(a, m, 0)
    case GatewayOutside => g != 0 && GoodNetwork(a, m, 0) && !GoodNetwork(a, m, g)
    case _ => false
  }

  /** A refused submission is told what is wrong with it. */
  lemma RefusalBlames(settings: Changes, current: Changes)
    requires IsTyped(settings) && Refusal(settings, current).Some?
    ensures var error := Refusal(settings, current).value;
            || FieldAtFault(error, settings, current)
            || (!settings[Dhcp].on && NetworkDiffers(settings, current) && NetworkAtFault(error, settings))
  {
    hide NetworkCheck, NetworkAtFault, NetworkDiffers, BadAddress, BadName, BadTimeout, BadNetmask;
    ChecksInWords(settings, current);
    hide Refusal;
    if NetworkCheck(settings).Some? {
      NetworkBlames(settings);
    }
  }

  lemma NetworkBlames(settings: Changes)
    requires IsTyped(settings) && NetworkCheck(settings).Some?
    ensures NetworkAtFault(NetworkCheck(settings).value, settings)
  {
    var a, m, g := settings[IpAddress].address, settings[Netmask].address, settings[Gateway].address;
    CheckNetworkExact(a, m, g);
    CheckNetworkExact(a, m, 0);
    hide CheckNetwork, UsableMask, GoodNetwork;
  }

  /** Accepted settings can always be written, whatever the module held. */
  lemma AcceptedIsWritable(settings: Changes, current: Changes)
    requires IsReading(current) && IsTyped(settings) && Refusal(settings, current) == None
    ensures IsReading(settings)
  {
    RefusalExact(settings, current);
    forall k | k in settings ensures Writable(k, settings[k]) {
      assert current[k] != settings[k] ==> Differs(settings, current, k);
      match k case Hostname => case Timeout => case _ =>
    }
  }

  /** Checking only what changed is enough: a working network stays one and a
      usable netmask stays one. */
  lemma ChecksKeepTheNetwork(settings: Changes, current: Changes)
    requires IsReading(current) && IsTyped(settings) && Refusal(settings, current) == None
    ensures NetworkWorks(current) ==> NetworkWorks(settings)
    ensures NetmaskWorks(current) ==> NetmaskWorks(settings)
  {
    RefusalExact(settings, current);
    hide Refusal, GoodNetwork, UsableMask, BadAddress, IsHostname;
    var fields := {Dhcp, IpAddress, Netmask, Gateway};
    forall k | k in fields && Differs(settings, current, k) ensures NetworkDiffers(settings, current) {
    }
    assert Dhcp in fields && IpAddress in fields && Netmask in fields && Gateway in fields;
    assert forall k | k in fields :: !Differs(settings, current, k) ==> settings[k] == current[k];
  }

  // ------------------------------------------------------- what was typed

  predicate AllBlank(s: string) {
    forall i :: 0 <= i < |s| ==> IsBlank(s[i])
  }

  /** The blanks of the keyboard, and what no blank is: anything else printed. */
  lemma BlanksOfTheKeyboard()
    ensures AllBlank(" \t\r\n")
    ensures forall c :: '!' <= c <= '~' ==> !IsBlank(c)
  {
  }

  /** `core` stands in `text` with nothing but blanks around it. */
  ghost predicate Surrounded(text: string, core: string) {
    exists i: nat, j: nat :: CoreAt(text, core, i, j)
  }

  predicate CoreAt(text: string, core: string, i: nat, j: nat) {
    i <= j <= |text| && text[i..j] == core && AllBlank(text[..i]) && AllBlank(text[j..])
  }

  /** No blank at an end. */
  predicate IsBare(core: string) {
    core == "" || (!IsBlank(core[0]) && !IsBlank(core[|core| - 1]))
  }

  lemma {:induction false} StripLeftCuts(s: string) returns (i: nat)
    ensures i <= |s| && StripLeft(s) == s[i..] && AllBlank(s[..i])
    ensures i < |s| ==> !IsBlank(s[i])
  {
    if s != "" && IsBlank(s[0]) {
      var k := StripLeftCuts(s[1..]);
      i := k + 1;
      assert s[1..][k..] == s[i..];
      assert s[..i] == [s[0]] + s[1..][..k];
    } else {
      i := 0;
    }
  }

  lemma {:induction false} StripRightCuts(s: string) returns (j: nat)
    ensures j <= |s| && StripRight(s) == s[..j] && AllBlank(s[j..])
    ensures j > 0 ==> !IsBlank(s[j - 1])
  {
    if s != "" && IsBlank(s[|s| - 1]) {
      j := StripRightCuts(s[..|s| - 1]);
      assert s[..|s| - 1][..j] == s[..j];
      assert s[j..] == s[..|s| - 1][j..] + [s[|s| - 1]];
    } else {
      j := |s|;
    }
  }

  lemma StripCuts(s: string) returns (i: nat, j: nat)
    ensures i <= j <= |s| && Strip(s) == s[i..j] && AllBlank(s[..i]) && AllBlank(s[j..])
    ensures IsBare(s[i..j])
  {
    i := StripLeftCuts(s);
    var k := StripRightCuts(s[i..]);
    j := i + k;
    assert s[i..][..k] == s[i..j] && s[i..][k..] == s[j..];
  }

  lemma OneCoreAt(text: string, a: string, i: nat, j: nat, b: string, k: nat, l: nat)
    requires CoreAt(text, a, i, j) && CoreAt(text, b, k, l) && IsBare(a)
    ensures a != "" ==> k <= i && j <= l
  {
    hide AllBlank, IsBlank;
    if a != "" {
      assert a[0] == text[i] && a[|a| - 1] == text[j - 1];
      BlankOrInside(text, k, l, i);
      BlankOrInside(text, k, l, j - 1);
    }
  }

  lemma BlankOrInside(text: string, i: nat, j: nat, at: nat)
    requires i <= j <= |text| && AllBlank(text[..i]) && AllBlank(text[j..]) && at < |text|
    ensures IsBlank(text[at]) || i <= at < j
  {
    hide IsBlank;
    if at < i {
      assert text[..i][at] == text[at];
    } else if at >= j {
      assert text[j..][at - j] == text[at];
    }
  }

  /** A text without blanks at its ends is surrounded by blanks in one way only. */
  lemma OneCore(text: string, a: string, b: string)
    requires Surrounded(text, a) && Surrounded(text, b) && IsBare(a) && IsBare(b)
    ensures a == b
  {
    hide AllBlank, IsBare;
    var i: nat, j: nat :| CoreAt(text, a, i, j);
    var k: nat, l: nat :| CoreAt(text, b, k, l);
    OneCoreAt(text, a, i, j, b, k, l);
    OneCoreAt(text, b, k, l, a, i, j);
  }

  lemma StripExact(text: string, core: string)
    requires IsBare(core)
    ensures Strip(text) == core <==> Surrounded(text, core)
  {
    var i, j := StripCuts(text);
    assert CoreAt(text, Strip(text), i, j);
    if Surrounded(text, core) {
      OneCore(text, core, Strip(text));
    }
  }

  /** An address is typed as its own text and in no other way, blanks around it
      aside; blanks alone, or nothing, are 0.0.0.0. */
  lemma TypedAddressExact(text: string, a: Address)
    ensures TypedAddress(text) == Some(a) <==> Surrounded(text, Text(a)) || (a == 0 && AllBlank(text))
  {
    AddressTextIsBare(a);
    BareText(a);
    StripExact(text, Text(a));
    StripExact(text, "");
    BlanksAlone(text);
    ParseExact(Strip(text), a);
    hide Text, Strip, Parse, Surrounded, AllBlank, IsBare;
  }

  lemma BlanksAlone(text: string)
    ensures Surrounded(text, "") <==> AllBlank(text)
  {
    if AllBlank(text) {
      assert text[..0] == "" && text[0..] == text;
      assert CoreAt(text, "", 0, 0);
    }
    if Surrounded(text, "") {
      var i: nat, j: nat :| CoreAt(text, "", i, j);
      forall k | 0 <= k < |text| ensures IsBlank(text[k]) {
        if k < i {
          assert text[..i][k] == text[k];
        } else {
          assert text[j..][k - j] == text[k];
        }
      }
    }
  }

  lemma BareText(a: Address)
    ensures IsBare(Text(a))
  {
    AddressTextIsBare(a);
    var i, j := StripCuts(Text(a));
    assert Strip(Text(a)) == Text(a);
  }

  /** What was typed into a text field; a field that was left out is empty. */
  function TypedText(form: Form, k: Key): (text: string)
    ensures k in form.texts ==> text == form.texts[k]
    ensures k !in form.texts ==> text == ""
  {
    TextOf(form, k)
  }

  /** The settings are what was typed: the whole number itself, the addresses by
      their texts, the name letter by letter, and each switch as it was set. */
  ghost predicate AsTyped(form: Form, settings: Changes)
    requires IsTyped(settings)
  {
    && form.timeout == Finite(settings[Timeout].n as real)
    && (forall k: Key :: IsAddressField(k) ==> AddressTyped(form, k, settings[k].address))
    && settings[Hostname].text == TypedText(form, Hostname)
    && (settings[Dhcp].on <==> Dhcp in form.switches && form.switches[Dhcp])
    && (settings[Ntp].on <==> Ntp in form.switches && form.switches[Ntp])
  }

  predicate IsNumber(typed: Typed, n: int) {
    typed == Finite(n as real)
  }

  lemma NumberAsTyped(typed: Typed, n: int)
    ensures TypedNumber(typed) == Some(n) <==> typed == Finite(n as real)
  {
  }

  /** What was typed for this address reads so. */
  ghost predicate AddressTyped(form: Form, k: Key, a: Address) {
    Surrounded(TypedText(form, k), Text(a)) || (a == 0 && AllBlank(TypedText(form, k)))
  }

  /** An address field with something typed that is no address's text. */
  ghost predicate NoAddress(form: Form, k: Key) {
    IsAddressField(k) && !AllBlank(TypedText(form, k)) && forall a: Address :: !Surrounded(TypedText(form, k), Text(a))
  }

  lemma NoAddressExact(text: string)
    ensures TypedAddress(text) == None <==> !AllBlank(text) && forall a: Address :: !Surrounded(text, Text(a))
  {
    TypedAddressExact(text, 0);
    if TypedAddress(text).Some? {
      TypedAddressExact(text, TypedAddress(text).value);
    } else {
      forall a: Address ensures !Surrounded(text, Text(a)) {
        TypedAddressExact(text, a);
      }
    }
    hide TypedAddress, Surrounded, AllBlank, Text;
  }

  lemma AddressFieldReads(form: Form, k: Key)
    requires IsAddressField(k)
    ensures forall a: Address :: TypedValue(form, k) == Some(Ip(a)) <==> TypedAddress(TypedText(form, k)) == Some(a)
    ensures TypedValue(form, k) == None <==> TypedAddress(TypedText(form, k)) == None
    ensures TypedValue(form, k).Some? ==> TypedValue(form, k).value.Ip?
  {
    hide TypedAddress;
  }

  lemma AddressFieldExact(form: Form, k: Key)
    requires IsAddressField(k)
    ensures forall a: Address :: TypedValue(form, k) == Some(Ip(a)) <==> AddressTyped(form, k, a)
    ensures TypedValue(form, k) == None <==> NoAddress(form, k)
    ensures TypedValue(form, k).Some? ==> TypedValue(form, k).value.Ip?
  {
    AddressFieldReads(form, k);
    NoAddressExact(TypedText(form, k));
    hide TypedValue, TypedAddress, Surrounded, AllBlank, Text;
    forall a: Address ensures TypedAddress(TypedText(form, k)) == Some(a) <==> AddressTyped(form, k, a) {
      TypedAddressExact(TypedText(form, k), a);
    }
    hide AddressTyped;
  }

  lemma ReadsAsTyped(form: Form)
    requires Read(form).Ok?
    ensures AsTyped(form, Read(form).value)
  {
    var settings := Read(form).value;
    forall k: Key | IsAddressField(k) ensures AddressTyped(form, k, settings[k].address) {
      AddressFieldExact(form, k);
    }
    NumberAsTyped(form.timeout, settings[Timeout].n);
    hide TypedAddress, TypedNumber, Surrounded, AllBlank, Text;
  }

  lemma NoAddressRefused(form: Form)
    ensures Read(form) == Err(InvalidAddressError) <==> exists k: Key :: NoAddress(form, k)
  {
    AddressFieldsAreAll();
    forall k: Key | IsAddressField(k) ensures TypedValue(form, k) == None <==> NoAddress(form, k) {
      AddressFieldExact(form, k);
    }
    hide TypedValue, TypedValues, Surrounded, AllBlank, Text;
  }

  lemma NoNumberRefused(form: Form)
    ensures TypedValue(form, Timeout) == None <==> forall n: int :: !IsNumber(form.timeout, n)
  {
    if TypedNumber(form.timeout).Some? {
      NumberAsTyped(form.timeout, TypedNumber(form.timeout).value);
      assert IsNumber(form.timeout, TypedNumber(form.timeout).value);
    } else {
      forall n: int ensures !IsNumber(form.timeout, n) {
        NumberAsTyped(form.timeout, n);
      }
    }
  }

  /** The form is read as exactly what was typed, and refused exactly if there is
      nothing it could stand for: an address text that is no address, or else a
      number that is not a whole one. */
  lemma ReadExact(form: Form)
    ensures Read(form).Ok? ==> AsTyped(form, Read(form).value)
    ensures Read(form) == Err(InvalidAddressError) <==> exists k: Key :: NoAddress(form, k)
    ensures Read(form) == Err(NotAWholeNumber) <==>
            Read(form) != Err(InvalidAddressError) && forall n: int :: !IsNumber(form.timeout, n)
  {
    if Read(form).Ok? {
      ReadsAsTyped(form);
    }
    NoAddressRefused(form);
    NoNumberRefused(form);
    hide TypedValue, TypedValues, AsTyped, NoAddress, IsNumber;
  }

  lemma AddressFieldsAreAll()
    ensures forall k: Key :: k in ADDRESSES <==> IsAddressField(k)
  {
    assert ADDRESSES[0] == IpAddress && ADDRESSES[1] == Gateway && ADDRESSES[2] == DnsServer1 && ADDRESSES[3] == DnsServer2;
    assert ADDRESSES[4] == NtpServer1 && ADDRESSES[5] == NtpServer2 && ADDRESSES[6] == Netmask;
  }

  /** What is accepted, and then written, is what was typed. */
  lemma AcceptedAsTyped(form: Form, current: Changes)
    requires Submitted(form, current).Ok?
    ensures IsTyped(Submitted(form, current).value) && AsTyped(form, Submitted(form, current).value)
    ensures Acceptable(Submitted(form, current).value, current)
  {
    ReadExact(form);
    RefusalExact(Submitted(form, current).value, current);
  }

  // -------------------------------------------------------- the page's form

  /** One field's text in the form: empty for 0.0.0.0, except in the netmask. */
  function ShownText(v: Value, k: Key): string {
    match v
    case Ip(address) => if IsOptionalAddress(k) && address == UNSET then "" else Text(address)
    case Name(text) => text
    case _ => ""
  }

  function Shown(values: Changes): Form
    requires IsTyped(values)
  {
    Form(map k | k in SWITCHES :: values[k].on,
         map k | k in ALL_KEYS && (values[k].Ip? || values[k].Name?) :: ShownText(values[k], k),
         Finite(values[Timeout].n as real))
  }

  /** An address is shown by its own text, but empty, other than in the netmask, if
      it is 0.0.0.0. */
  lemma ShownAddress(values: Changes, k: Key)
    requires IsTyped(values) && IsAddressField(k)
    ensures k in Shown(values).texts
    ensures Shown(values).texts[k] == if k != Netmask && values[k].address == 0 then "" else Text(values[k].address)
  {
    AddressFieldsAreAll();
    assert k in ALL_KEYS;
    hide Text;
  }

  /** Everything else is shown as it is. */
  lemma ShownOthers(values: Changes)
    requires IsTyped(values)
    ensures Hostname in Shown(values).texts && Shown(values).texts[Hostname] == values[Hostname].text
    ensures Shown(values).switches == map[Dhcp := values[Dhcp].on, Ntp := values[Ntp].on]
    ensures Shown(values).timeout == Finite(values[Timeout].n as real)
  {
    assert Hostname in ALL_KEYS;
    assert SWITCHES[0] == Dhcp && SWITCHES[1] == Ntp;
    hide Text, ShownText;
  }

  lemma AddressTextIsBare(a: Address)
    ensures Strip(Text(a)) == Text(a) && Text(a) != ""
  {
    var octets := Octets(a);
    forall i | 0 <= i < 4 ensures AllDigits(OctetText(octets[i])) && OctetText(octets[i]) != "" {
      DigitsOfText(octets[i]);
    }
    JoinEnds(OctetTexts(octets));
    DigitsAreNotBlank();
  }

  lemma DigitsAreNotBlank()
    ensures forall c :: IsDigit(c) ==> !IsBlank(c)
  {
  }

  /** The text an address is shown by is read as that address. */
  lemma AddressTextReadsBack(a: Address)
    ensures TypedAddress(Text(a)) == Some(a)
    ensures TypedAddress("") == Some(UNSET)
  {
    AddressTextIsBare(a);
    TextParses(a);
  }

  lemma {:induction false} JoinEnds(parts: seq<string>)
    requires |parts| >= 1 && forall i :: 0 <= i < |parts| ==> parts[i] != ""
    ensures Join(parts) != ""
    ensures Join(parts)[0] == parts[0][0]
    ensures var last := parts[|parts| - 1];
            Join(parts)[|Join(parts)| - 1] == last[|last| - 1]
  {
    if |parts| > 1 {
      JoinEnds(parts[1..]);
    }
  }

  lemma ShownReadsBack(values: Changes, k: Key)
    requires IsTyped(values)
    ensures TypedValue(Shown(values), k) == Some(values[k])
  {
    hide Text, Parse, Strip, TypedAddress;
    assert k in ALL_KEYS;
    var form := Shown(values);
    match k
    case Timeout =>
    case Dhcp => assert SWITCHES[0] == k;
    case Ntp => assert SWITCHES[1] == k;
    case Hostname => assert TextOf(form, k) == values[k].text;
    case _ =>
      assert TextOf(form, k) == ShownText(values[k], k);
      AddressTextReadsBack(values[k].address);
  }

  lemma UnchangedPasses(values: Changes)
    requires IsTyped(values)
    ensures Refusal(values, values) == None
  {
    RefusalExact(values, values);
  }

  lemma FormReads(form: Form, values: Changes)
    requires IsTyped(values) && forall k: Key :: TypedValue(form, k) == Some(values[k])
    ensures Read(form) == Ok(values)
  {
    assert TypedValues(form) == values;
  }

  /** A page sent back as it was shown is accepted and changes nothing, for
      everything a module can hold. */
  lemma PageRoundTrip(b: Blocks)
    ensures IsTyped(ReadValues(b))
    ensures Submitted(Shown(ReadValues(b)), ReadValues(b)) == Ok(ReadValues(b))
  {
    var values := ReadValues(b);
    ReadingIsTyped(values);
    var form := Shown(values);
    forall k: Key ensures TypedValue(form, k) == Some(values[k]) {
      ShownReadsBack(values, k);
    }
    FormReads(form, values);
    UnchangedPasses(values);
  }
}
