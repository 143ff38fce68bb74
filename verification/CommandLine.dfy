/**
  The command line of main/main.cpp: a loop over (flag, value) pairs with duplicate detection, and the
  port and address parsers it calls.
 */
module CommandLine {
  import opened Options

  // ---------------------------------------------------------------- numbers

  predicate IsSpace(c: char) { c in " \t\n\r" || c as int == 11 || c as int == 12 }
  predicate IsDigit(c: char) { '0' <= c <= '9' }

  predicate AllSpace(s: string) { forall c | c in s :: IsSpace(c) }
  predicate AllDigits(s: string) { forall c | c in s :: IsDigit(c) }

  function Decimal(d: string): nat
    requires AllDigits(d)
  {
    if d == "" then 0
    else
      assert d[|d| - 1] in d;
      10 * Decimal(d[..|d| - 1]) + (d[|d| - 1] as int - '0' as int)
  }

  function Spaces(s: string): (n: nat)
    ensures n <= |s| && AllSpace(s[..n]) && (n < |s| ==> !IsSpace(s[n]))
  {
    if s == "" || !IsSpace(s[0]) then 0
    else
      assert s == [s[0]] + s[1..];
      assert s[..1 + Spaces(s[1..])] == [s[0]] + s[1..][..Spaces(s[1..])];
      1 + Spaces(s[1..])
  }

  function Digits(s: string): (n: nat)
    ensures n <= |s| && AllDigits(s[..n]) && (n < |s| ==> !IsDigit(s[n]))
  {
    if s == "" || !IsDigit(s[0]) then 0
    else
      assert s[..1 + Digits(s[1..])] == [s[0]] + s[1..][..Digits(s[1..])];
      1 + Digits(s[1..])
  }

  /** std::stoi: an exception, or a value and how many characters were converted. */
  datatype Conversion = Threw | Converted(value: int, consumed: nat)

  const INT_MIN := -0x8000_0000
  const INT_MAX := 0x7FFF_FFFF

  function Stoi(s: string): Conversion
  {
    var w := Spaces(s);
    var signed := w < |s| && (s[w] == '+' || s[w] == '-');
    var start := if signed then w + 1 else w;
    var n := Digits(s[start..]);
    if n == 0 then Threw
    else
      var magnitude: int := Decimal(s[start..][..n]);
      var value := if signed && s[w] == '-' then -magnitude else magnitude;
      if value < INT_MIN || value > INT_MAX then Threw else Converted(value, start + n)
  }

  /** The whole text must convert, to a TCP port. */
  function ParsePort(value: string): Option<int>
  {
    match Stoi(value)
    case Threw => None
    case Converted(candidate, consumed) =>
      if consumed != |value| || candidate <= 0 || candidate > 65535 then None else Some(candidate)
  }

  /** Blanks, perhaps a plus sign, and digits that denote `port`. */
  ghost predicate PortText(value: string, w: nat, plus: bool, port: int)
  {
    var start := if plus then w + 1 else w;
    && start < |value|
    && AllSpace(value[..w])
    && (plus ==> value[w] == '+')
    && AllDigits(value[start..])
    && Decimal(value[start..]) == port
  }

  lemma {:induction false} SpacesOf(w: string, t: string)
    requires AllSpace(w) && (t == "" || !IsSpace(t[0]))
    ensures Spaces(w + t) == |w|
  {
    if w == "" {
      assert w + t == t;
    } else {
      assert (w + t)[1..] == w[1..] + t;
      SpacesOf(w[1..], t);
    }
  }

  lemma {:induction false} DigitsAll(s: string)
    requires AllDigits(s)
    ensures Digits(s) == |s|
  {
    if s != "" { DigitsAll(s[1..]); }
  }

  lemma PortHasText(value: string, port: int)
    requires ParsePort(value) == Some(port)
    ensures PortText(value, Spaces(value), value[Spaces(value)] == '+', port)
  {
    hide Decimal;
    var w := Spaces(value);
    var start := if value[w] == '+' then w + 1 else w;
    assert value[start..][..Digits(value[start..])] == value[start..];
  }

  lemma TextIsPort(value: string, w: nat, plus: bool, port: int)
    requires 1 <= port <= 65535 && PortText(value, w, plus, port)
    ensures ParsePort(value) == Some(port)
  {
    hide Decimal;
    var start := if plus then w + 1 else w;
    var digits := value[start..];
    assert digits[0] == value[start] && digits[0] in digits;
    assert value == value[..w] + value[w..];
    SpacesOf(value[..w], value[w..]);
    DigitsAll(digits);
    assert digits[..|digits|] == digits;
  }

  // ---------------------------------------------------------------- numerals

  function Numeral(n: nat): string
  {
    if n < 10 then ["0123456789"[n]] else Numeral(n / 10) + ["0123456789"[n % 10]]
  }

  function Zeros(z: nat): string { seq(z, _ => '0') }

  lemma DigitChar(d: nat)
    requires d < 10
    ensures var c := "0123456789"[d]; IsDigit(c) && c as int - '0' as int == d
  {
  }

  lemma DecimalSnoc(d: string, c: char)
    requires AllDigits(d) && IsDigit(c)
    ensures AllDigits(d + [c]) && Decimal(d + [c]) == 10 * Decimal(d) + (c as int - '0' as int)
  {
    assert (d + [c])[..|d|] == d;
  }

  lemma {:induction false} DecimalZeros(z: nat)
    ensures AllDigits(Zeros(z)) && Decimal(Zeros(z)) == 0
  {
    if z > 0 {
      DecimalZeros(z - 1);
      DecimalSnoc(Zeros(z - 1), '0');
      assert Zeros(z) == Zeros(z - 1) + ['0'];
    }
  }

  /** Leading zeros and the numeral of a number denote the number. */
  lemma {:induction false} DecimalNumeral(z: nat, n: nat)
    ensures AllDigits(Zeros(z) + Numeral(n)) && Decimal(Zeros(z) + Numeral(n)) == n
    decreases n
  {
    hide Decimal, Zeros;
    DigitChar(n % 10);
    var c := "0123456789"[n % 10];
    if n < 10 {
      DecimalZeros(z);
      DecimalSnoc(Zeros(z), c);
    } else {
      DecimalNumeral(z, n / 10);
      DecimalSnoc(Zeros(z) + Numeral(n / 10), c);
      assert Zeros(z) + Numeral(n) == Zeros(z) + Numeral(n / 10) + [c];
    }
  }

  /** Digits are zeros, or leading zeros and the numeral of what they denote. */
  lemma {:induction false} DigitsAreNumeral(d: string) returns (z: nat)
    requires AllDigits(d)
    ensures if Decimal(d) == 0 then d == Zeros(|d|) else d == Zeros(z) + Numeral(Decimal(d))
    decreases |d|
  {
    hide Numeral;
    z := 0;
    if d != "" {
      var init, c := d[..|d| - 1], d[|d| - 1];
      assert d == init + [c] && c in d;
      DecimalSnoc(init, c);
      z := DigitsAreNumeral(init);
      var k := c as int - '0' as int;
      SameDigit(c);
      if Decimal(init) == 0 {
        z := |init|;
        OneDigit(k);
        if k == 0 { assert Zeros(|d|) == Zeros(|init|) + ['0']; }
      } else {
        TwoDigits(Decimal(d), Decimal(init), k);
        assert Zeros(z) + Numeral(Decimal(init)) + [c] == Zeros(z) + (Numeral(Decimal(init)) + [c]);
      }
    }
  }

  lemma SameDigit(c: char)
    requires IsDigit(c)
    ensures 0 <= c as int - '0' as int < 10 && c == "0123456789"[c as int - '0' as int]
  {
    DigitChar(c as int - '0' as int);
  }

  lemma OneDigit(k: nat)
    requires k < 10
    ensures Numeral(k) == ["0123456789"[k]]
  {
  }

  lemma TwoDigits(n: nat, m: nat, k: nat)
    requires m > 0 && k < 10 && n == 10 * m + k
    ensures Numeral(n) == Numeral(m) + ["0123456789"[k]]
  {
    assert n / 10 == m && n % 10 == k;
  }

  /** Blanks, perhaps a plus sign, zeros, and the numeral of `port`. */
  ghost predicate PortForm(value: string, port: int)
  {
    1 <= port <= 65535
    && exists w, plus: bool, z: nat :: PortParts(value, w, plus, z, port)
  }

  predicate PortParts(value: string, w: string, plus: bool, z: nat, port: int)
    requires port >= 0
  {
    AllSpace(w) && value == w + (if plus then "+" else "") + (Zeros(z) + Numeral(port))
  }

  /** The six blanks of the C locale. */
  lemma SpaceCodes(c: char)
    ensures IsSpace(c) <==> c == ' ' || 9 <= c as int <= 13
  {
  }

  /** A port is accepted exactly when its text is blanks, an optional plus sign, zeros and the numeral of 1 to 65535. */
  lemma {:induction false} PortExactly(value: string, port: int)
    ensures ParsePort(value) == Some(port) <==> PortForm(value, port)
  {
    hide ParsePort, Decimal, Numeral, Zeros;
    if ParsePort(value) == Some(port) { PortHasForm(value, port); }
    if PortForm(value, port) {
      var w, plus: bool, z: nat :| PortParts(value, w, plus, z, port);
      FormIsPort(value, w, plus, z, port);
    }
  }

  lemma PortHasForm(value: string, port: int)
    requires ParsePort(value) == Some(port)
    ensures PortForm(value, port)
  {
    hide Decimal, Numeral, Zeros;
    PortHasText(value, port);
    var n := Spaces(value);
    var plus := value[n] == '+';
    var start := if plus then n + 1 else n;
    var z := DigitsAreNumeral(value[start..]);
    assert value == value[..n] + (if plus then "+" else "") + value[start..];
    assert PortParts(value, value[..n], plus, z, port);
  }

  lemma FormIsPort(value: string, w: string, plus: bool, z: nat, port: int)
    requires 1 <= port <= 65535 && PortParts(value, w, plus, z, port)
    ensures ParsePort(value) == Some(port)
  {
    hide Decimal, Numeral, Zeros, ParsePort;
    var digits := Zeros(z) + Numeral(port);
    DecimalNumeral(z, port);
    NumeralNonEmpty(port);
    var start := if plus then |w| + 1 else |w|;
    assert value[start..] == digits && value[..|w|] == w;
    assert PortText(value, |w|, plus, port);
    TextIsPort(value, |w|, plus, port);
  }

  lemma NumeralNonEmpty(n: nat)
    ensures Numeral(n) != ""
  {
  }

  /** The port 8080, as it is usually written. */
  lemma PortExample()
    ensures ParsePort("8080") == Some(8080)
  {
    hide ParsePort;
    assert Numeral(8080) == "8080" by {
      assert Numeral(80) == "80";
      assert Numeral(808) == "808";
    }
    assert Zeros(0) == "";
    assert PortParts("8080", "", false, 0, 8080);
    PortExactly("8080", 8080);
  }

  // ---------------------------------------------------------------- addresses

  /** std::string::rfind of a colon. */
  function LastColon(s: string): (r: Option<nat>)
    ensures r.Some? ==> r.value < |s| && s[r.value] == ':' && ':' !in s[r.value + 1..]
    ensures r.None? ==> ':' !in s
  {
    if s == "" then None
    else if s[|s| - 1] == ':' then Some(|s| - 1)
    else
      var r := LastColon(s[..|s| - 1]);
      assert s == s[..|s| - 1] + [s[|s| - 1]];
      assert r.Some? ==> s[r.value + 1..] == s[..|s| - 1][r.value + 1..] + [s[|s| - 1]];
      r
  }

  function ParseAddress(value: string): Option<(string, int)>
  {
    match LastColon(value)
    case None => None
    case Some(separator) =>
      if separator == 0 || separator + 1 >= |value| then None
      else
        match ParsePort(value[separator + 1..])
        case None => None
        case Some(port) => Some((value[..separator], port))
  }

  /** Text that is a port holds no colon. */
  lemma PortHasNoColon(t: string)
    requires ParsePort(t).Some?
    ensures t != "" && ':' !in t
  {
    hide ParsePort, Decimal;
    PortHasText(t, ParsePort(t).value);
    var w := Spaces(t);
    var start := if t[w] == '+' then w + 1 else w;
    assert ':' !in t[..w] && ':' !in t[start..];
    assert t == t[..w] + t[w..start] + t[start..];
  }

  lemma {:induction false} LastColonAt(host: string, t: string)
    requires ':' !in t
    ensures LastColon(host + ":" + t) == Some(|host|)
    decreases |t|
  {
    var s := host + ":" + t;
    if t != "" {
      assert s[|s| - 1] == t[|t| - 1] && t[|t| - 1] in t;
      assert s[..|s| - 1] == host + ":" + t[..|t| - 1];
      LastColonAt(host, t[..|t| - 1]);
    }
  }

  ghost predicate AddressForm(value: string, host: string, port: int)
  {
    host != "" && exists t :: value == host + ":" + t && PortForm(t, port)
  }

  /** An address is accepted exactly when it is a non-empty host, a colon and a port; the host may hold colons. */
  lemma {:induction false} AddressExactly(value: string, host: string, port: int)
    ensures ParseAddress(value) == Some((host, port)) <==> AddressForm(value, host, port)
  {
    hide ParsePort, LastColon, PortForm;
    if ParseAddress(value) == Some((host, port)) {
      var separator := LastColon(value).value;
      assert value == value[..separator] + ":" + value[separator + 1..];
      PortExactly(value[separator + 1..], port);
    }
    if AddressForm(value, host, port) {
      var t :| value == host + ":" + t && PortForm(t, port);
      PortExactly(t, port);
      PortHasNoColon(t);
      LastColonAt(host, t);
      assert value[|host| + 1..] == t && value[..|host|] == host;
    }
  }

  // ---------------------------------------------------------------- settings

  const CONFIG := "--config"
  const WORKLOAD := "--workload"
  const LISTEN_PORT := "--listen-port"
  const MODEL_DISTRIBUTOR := "--model-distributor"
  const SAMPLE_DISTRIBUTOR := "--sample-distributor"
  const EVALUATION_MODEL := "--evaluation-model"

  const FLAGS := {CONFIG, WORKLOAD, LISTEN_PORT, MODEL_DISTRIBUTOR, SAMPLE_DISTRIBUTOR, EVALUATION_MODEL}

  const DEFAULT_CONFIG_PATH := "configs/server_config.yaml"

  /** aiserver_mode::Parse; zero is not a valid mode. */
  function ParseMode(value: string): int
  {
    if value == "training" then 1 else if value == "evaluation" then 2 else 0
  }

  /** What the value of a flag denotes. */
  datatype Setting = Path(path: string) | Mode(mode: int) | Port(port: int) | Address(host: string, port: int)

  function Interpret(flag: string, value: string): Option<Setting>
  {
    if flag == CONFIG || flag == EVALUATION_MODEL then Some(Path(value))
    else if flag == WORKLOAD then (if ParseMode(value) == 0 then None else Some(Mode(ParseMode(value))))
    else if flag == LISTEN_PORT then (match ParsePort(value) case None => None case Some(p) => Some(Port(p)))
    else if flag == MODEL_DISTRIBUTOR || flag == SAMPLE_DISTRIBUTOR then
      (match ParseAddress(value) case None => None case Some(a) => Some(Address(a.0, a.1)))
    else None
  }

  /** What a value means for a flag, by their texts alone. */
  ghost predicate Denotes(flag: string, value: string, v: Setting)
  {
    match v
    case Path(path) => (flag == "--config" || flag == "--evaluation-model") && path == value
    case Mode(mode) => flag == "--workload" &&
      ((value == "training" && mode == 1) || (value == "evaluation" && mode == 2))
    case Port(port) => flag == "--listen-port" && PortForm(value, port)
    case Address(host, port) =>
      (flag == "--model-distributor" || flag == "--sample-distributor") && AddressForm(value, host, port)
  }

  lemma {:induction false} InterpretExactly(flag: string, value: string, v: Setting)
    ensures Interpret(flag, value) == Some(v) <==> Denotes(flag, value, v)
  {
    hide ParsePort, ParseAddress, PortForm, AddressForm, CONFIG, WORKLOAD, LISTEN_PORT, MODEL_DISTRIBUTOR,
      SAMPLE_DISTRIBUTOR, EVALUATION_MODEL, FLAGS;
    FlagTexts();
    FlagsDistinct();
    if v.Port? { PortExactly(value, v.port); }
    if v.Address? { AddressExactly(value, v.host, v.port); }
  }

  lemma FlagTexts()
    ensures CONFIG == "--config" && WORKLOAD == "--workload" && LISTEN_PORT == "--listen-port"
    ensures MODEL_DISTRIBUTOR == "--model-distributor" && SAMPLE_DISTRIBUTOR == "--sample-distributor"
    ensures EVALUATION_MODEL == "--evaluation-model"
  {
  }

  /** The settings a run of the loop has collected, by flag. */
  type Settings = map<string, Setting>

  function UsageError(flag: string): string
  {
    if flag == LISTEN_PORT then "--listen-port must be a valid TCP port"
    else if flag == MODEL_DISTRIBUTOR then "--model-distributor must use host:port"
    else if flag == SAMPLE_DISTRIBUTOR then "--sample-distributor must use host:port"
    else if flag == CONFIG then "--config may be specified only once"
    else if flag == WORKLOAD then "--workload may be specified only once"
    else "--evaluation-model may be specified only once"
  }

  /** A flag without a value: only two flags keep the message that says so. */
  function MissingError(flag: string): string
  {
    if flag == CONFIG || flag == WORKLOAD then flag + " requires a value" else UsageError(flag)
  }

  function BadError(flag: string, value: string): string
  {
    if flag == WORKLOAD then "unknown workload: " + value else UsageError(flag)
  }

  function StrayError(argument: string): string
  {
    if "--" <= argument then "unknown argument: " + argument
    else "positional arguments are not supported: " + argument
  }

  datatype Outcome = Accepted(settings: Settings) | Rejected(error: string)

  /** One flag and what follows it, if anything. */
  function Attempt(flag: string, candidate: Option<string>, st: Settings): Outcome
  {
    if candidate.None? then Rejected(MissingError(flag))
    else if flag in st then Rejected(UsageError(flag))
    else
      match Interpret(flag, candidate.value)
      case None => Rejected(BadError(flag, candidate.value))
      case Some(v) => Accepted(st[flag := v])
  }

  /** The loop as a function of what is left and what it has collected. */
  function Scan(args: seq<string>, st: Settings): Outcome
    decreases |args|
  {
    if args == [] then Accepted(st)
    else if args[0] !in FLAGS then Rejected(StrayError(args[0]))
    else
      match Attempt(args[0], if |args| == 1 then None else Some(args[1]), st)
      case Rejected(error) => Rejected(error)
      case Accepted(st') => if |args| == 1 then Accepted(st') else Scan(args[2..], st')
  }

  // ---------------------------------------------------------------- the loop

  lemma FlagsDistinct()
    ensures CONFIG != WORKLOAD && CONFIG != LISTEN_PORT && CONFIG != MODEL_DISTRIBUTOR && CONFIG != SAMPLE_DISTRIBUTOR
    ensures CONFIG != EVALUATION_MODEL && WORKLOAD != LISTEN_PORT && WORKLOAD != MODEL_DISTRIBUTOR
    ensures WORKLOAD != SAMPLE_DISTRIBUTOR && WORKLOAD != EVALUATION_MODEL && LISTEN_PORT != MODEL_DISTRIBUTOR
    ensures LISTEN_PORT != SAMPLE_DISTRIBUTOR && LISTEN_PORT != EVALUATION_MODEL &&
            MODEL_DISTRIBUTOR != SAMPLE_DISTRIBUTOR
    ensures MODEL_DISTRIBUTOR != EVALUATION_MODEL && SAMPLE_DISTRIBUTOR != EVALUATION_MODEL
    ensures FLAGS == {CONFIG, WORKLOAD, LISTEN_PORT, MODEL_DISTRIBUTOR, SAMPLE_DISTRIBUTOR, EVALUATION_MODEL}
  {
    assert CONFIG[2] == 'c' && WORKLOAD[2] == 'w' && LISTEN_PORT[2] == 'l' && MODEL_DISTRIBUTOR[2] == 'm';
    assert SAMPLE_DISTRIBUTOR[2] == 's' && EVALUATION_MODEL[2] == 'e';
  }

  /** The messages as the branches spell them. */
  lemma Messages()
    ensures MissingError(CONFIG) == CONFIG + " requires a value" &&
            MissingError(WORKLOAD) == WORKLOAD + " requires a value"
    ensures UsageError(CONFIG) == "--config may be specified only once"
    ensures UsageError(WORKLOAD) == "--workload may be specified only once"
    ensures MissingError(LISTEN_PORT) == UsageError(LISTEN_PORT) == "--listen-port must be a valid TCP port"
    ensures MissingError(MODEL_DISTRIBUTOR) == UsageError(MODEL_DISTRIBUTOR) == "--model-distributor must use host:port"
    ensures MissingError(SAMPLE_DISTRIBUTOR) == UsageError(SAMPLE_DISTRIBUTOR) ==
            "--sample-distributor must use host:port"
    ensures MissingError(EVALUATION_MODEL) == UsageError(EVALUATION_MODEL) ==
            "--evaluation-model may be specified only once"
    ensures forall v :: BadError(WORKLOAD, v) == "unknown workload: " + v
    ensures forall f, v :: f != WORKLOAD ==> BadError(f, v) == UsageError(f)
  {
    hide CONFIG, WORKLOAD, LISTEN_PORT, MODEL_DISTRIBUTOR, SAMPLE_DISTRIBUTOR, EVALUATION_MODEL, FLAGS, UsageError;
    FlagsDistinct();
    UsageMessages();
  }

  lemma UsageMessages()
    ensures UsageError(CONFIG) == "--config may be specified only once"
    ensures UsageError(WORKLOAD) == "--workload may be specified only once"
    ensures UsageError(EVALUATION_MODEL) == "--evaluation-model may be specified only once"
    ensures UsageError(LISTEN_PORT) == "--listen-port must be a valid TCP port"
    ensures UsageError(MODEL_DISTRIBUTOR) == "--model-distributor must use host:port"
    ensures UsageError(SAMPLE_DISTRIBUTOR) == "--sample-distributor must use host:port"
  {
    hide UsageError;
    OnceMessages();
    AddressMessages();
  }

  lemma OnceMessages()
    ensures UsageError(CONFIG) == "--config may be specified only once"
    ensures UsageError(WORKLOAD) == "--workload may be specified only once"
    ensures UsageError(EVALUATION_MODEL) == "--evaluation-model may be specified only once"
  {
    hide CONFIG, WORKLOAD, LISTEN_PORT, MODEL_DISTRIBUTOR, SAMPLE_DISTRIBUTOR, EVALUATION_MODEL, FLAGS;
    FlagsDistinct();
  }

  lemma AddressMessages()
    ensures UsageError(LISTEN_PORT) == "--listen-port must be a valid TCP port"
    ensures UsageError(MODEL_DISTRIBUTOR) == "--model-distributor must use host:port"
    ensures UsageError(SAMPLE_DISTRIBUTOR) == "--sample-distributor must use host:port"
  {
    hide CONFIG, WORKLOAD, LISTEN_PORT, MODEL_DISTRIBUTOR, SAMPLE_DISTRIBUTOR, EVALUATION_MODEL, FLAGS;
    FlagsDistinct();
  }

  predicate HoldsAddress(host: Option<string>, port: Option<int>, st: Settings, flag: string)
  {
    && (host.Some? <==> flag in st) && (port.Some? <==> flag in st)
    && (flag in st ==> host.Some? && port.Some? && st[flag] == Address(host.value, port.value))
  }

  /** ParsedCommandLine with its overrides. */
  class ParsedCommandLine {
    var configPath: string
    var workload: Option<int>
    var listenPort: Option<int>
    var modelDistributorHost: Option<string>
    var modelDistributorPort: Option<int>
    var sampleDistributorHost: Option<string>
    var sampleDistributorPort: Option<int>
    var evaluationModelPath: Option<string>

    constructor ()
      ensures Holds(false, map[]) && SetsOnly({}) && configPath == "configs/server_config.yaml"
    {
      configPath := DEFAULT_CONFIG_PATH;
      workload, listenPort, evaluationModelPath := None, None, None;
      modelDistributorHost, modelDistributorPort := None, None;
      sampleDistributorHost, sampleDistributorPort := None, None;
    }

    /** The fields say what `st` says: an override is set exactly when its flag was given. */
    ghost predicate Holds(configSeen: bool, st: Settings)
      reads this
    {
      && (configSeen <==> CONFIG in st)
      && (CONFIG in st ==> st[CONFIG] == Path(configPath))
      && (workload.Some? <==> WORKLOAD in st) && (WORKLOAD in st ==> st[WORKLOAD] == Mode(workload.value))
      && (listenPort.Some? <==> LISTEN_PORT in st) && (LISTEN_PORT in st ==> st[LISTEN_PORT] == Port(listenPort.value))
      && HoldsAddress(modelDistributorHost, modelDistributorPort, st, MODEL_DISTRIBUTOR)
      && HoldsAddress(sampleDistributorHost, sampleDistributorPort, st, SAMPLE_DISTRIBUTOR)
      && (evaluationModelPath.Some? <==> EVALUATION_MODEL in st)
      && (EVALUATION_MODEL in st ==> st[EVALUATION_MODEL] == Path(evaluationModelPath.value))
    }

    /** The field that `flag` is for holds what the text of its value says. */
    ghost predicate Stores(flag: string, value: string)
      reads this
    {
      && (flag == "--config" ==> configPath == value)
      && (flag == "--workload" ==>
            value in {"training", "evaluation"} && workload == Some(if value == "training" then 1 else 2))
      && (flag == "--listen-port" ==> listenPort.Some? && PortForm(value, listenPort.value))
      && (flag == "--model-distributor" ==>
            modelDistributorHost.Some? && modelDistributorPort.Some?
            && AddressForm(value, modelDistributorHost.value, modelDistributorPort.value))
      && (flag == "--sample-distributor" ==>
            sampleDistributorHost.Some? && sampleDistributorPort.Some?
            && AddressForm(value, sampleDistributorHost.value, sampleDistributorPort.value))
      && (flag == "--evaluation-model" ==> evaluationModelPath == Some(value))
    }

    /** No override is set but those in `flags`. */
    ghost predicate SetsOnly(flags: set<string>)
      reads this
    {
      && (workload.Some? ==> "--workload" in flags) && (listenPort.Some? ==> "--listen-port" in flags)
      && (modelDistributorHost.Some? || modelDistributorPort.Some? ==> "--model-distributor" in flags)
      && (sampleDistributorHost.Some? || sampleDistributorPort.Some? ==> "--sample-distributor" in flags)
      && (evaluationModelPath.Some? ==> "--evaluation-model" in flags)
    }

    lemma HoldsStores(configSeen: bool, st: Settings, flag: string, value: string)
      requires Holds(configSeen, st) && flag in st && Denotes(flag, value, st[flag])
      ensures Stores(flag, value)
    {
      hide PortForm, AddressForm, CONFIG, WORKLOAD, LISTEN_PORT, MODEL_DISTRIBUTOR, SAMPLE_DISTRIBUTOR,
        EVALUATION_MODEL;
      FlagTexts();
      FlagsDistinct();
    }

    /** A port is stored as the number whose numeral was given, however many blanks and zeros precede it. */
    lemma {:induction false} StoredPort(value: string, n: int)
      requires Stores("--listen-port", value) && PortForm(value, n)
      ensures listenPort == Some(n)
    {
      hide PortForm, AddressForm;
      PortExactly(value, n);
      PortExactly(value, listenPort.value);
    }

    /** An address is stored as its host and the number whose numeral follows the last colon. */
    lemma {:induction false} StoredAddress(value: string, host: string, n: int)
      requires AddressForm(value, host, n)
      ensures Stores("--model-distributor", value) ==>
                modelDistributorHost == Some(host) && modelDistributorPort == Some(n)
      ensures Stores("--sample-distributor", value) ==>
                sampleDistributorHost == Some(host) && sampleDistributorPort == Some(n)
    {
      hide PortForm, AddressForm, ParseAddress;
      AddressExactly(value, host, n);
      if Stores("--model-distributor", value) {
        AddressExactly(value, modelDistributorHost.value, modelDistributorPort.value);
      }
      if Stores("--sample-distributor", value) {
        AddressExactly(value, sampleDistributorHost.value, sampleDistributorPort.value);
      }
    }

    lemma HoldsOnly(configSeen: bool, st: Settings)
      requires Holds(configSeen, st)
      ensures SetsOnly(st.Keys)
    {
      hide CONFIG, WORKLOAD, LISTEN_PORT, MODEL_DISTRIBUTOR, SAMPLE_DISTRIBUTOR, EVALUATION_MODEL;
      FlagTexts();
    }

    lemma SeenMeansGiven(configSeen: bool, st: Settings)
      requires Holds(configSeen, st)
      ensures configSeen <==> CONFIG in st
    {
    }

    /** A branch of the loop did what the attempt on its flag says. */
    ghost predicate Took(outcome: Outcome, configSeen: bool, failure: Option<string>)
      reads this
    {
      match outcome
      case Rejected(message) => failure == Some(message)
      case Accepted(st) => failure == None && Holds(configSeen, st)
    }

    method TakeConfig(candidate: string, configSeen: bool, ghost st: Settings) returns (failure: Option<string>)
      requires Holds(configSeen, st)
      modifies this`configPath
      ensures Took(Attempt(CONFIG, Some(candidate), st), true, failure)
    {
      hide CONFIG, WORKLOAD, LISTEN_PORT, MODEL_DISTRIBUTOR, SAMPLE_DISTRIBUTOR, EVALUATION_MODEL, FLAGS, UsageError,
        BadError;
      FlagsDistinct();
      Messages();
      if configSeen { return Some("--config may be specified only once"); }
      configPath := candidate;
      return None;
    }

    method TakeWorkload(candidate: string, ghost configSeen: bool, ghost st: Settings) returns (failure: Option<string>)
      requires Holds(configSeen, st)
      modifies this`workload
      ensures Took(Attempt(WORKLOAD, Some(candidate), st), configSeen, failure)
    {
      hide CONFIG, WORKLOAD, LISTEN_PORT, MODEL_DISTRIBUTOR, SAMPLE_DISTRIBUTOR, EVALUATION_MODEL, FLAGS, UsageError,
        BadError;
      FlagsDistinct();
      Messages();
      if workload.Some? { return Some("--workload may be specified only once"); }
      var mode := ParseMode(candidate);
      if mode != 1 && mode != 2 { return Some("unknown workload: " + candidate); }
      workload := Some(mode);
      return None;
    }

    method TakeListenPort(candidate: Option<string>, ghost configSeen: bool, ghost st: Settings)
      returns (failure: Option<string>)
      requires Holds(configSeen, st)
      modifies this`listenPort
      ensures Took(Attempt(LISTEN_PORT, candidate, st), configSeen, failure)
    {
      hide CONFIG, WORKLOAD, LISTEN_PORT, MODEL_DISTRIBUTOR, SAMPLE_DISTRIBUTOR, EVALUATION_MODEL, FLAGS, UsageError,
        BadError, MissingError, ParsePort;
      FlagsDistinct();
      Messages();
      if candidate.None? || listenPort.Some? || ParsePort(candidate.value).None? {
        return Some("--listen-port must be a valid TCP port");
      }
      listenPort := ParsePort(candidate.value);
      return None;
    }

    method TakeModelDistributor(candidate: Option<string>, ghost configSeen: bool, ghost st: Settings)
      returns (failure: Option<string>)
      requires Holds(configSeen, st)
      modifies this`modelDistributorHost, this`modelDistributorPort
      ensures Took(Attempt(MODEL_DISTRIBUTOR, candidate, st), configSeen, failure)
    {
      hide CONFIG, WORKLOAD, LISTEN_PORT, MODEL_DISTRIBUTOR, SAMPLE_DISTRIBUTOR, EVALUATION_MODEL, FLAGS, UsageError,
        BadError, MissingError, ParseAddress;
      FlagsDistinct();
      Messages();
      if candidate.None? || modelDistributorHost.Some? || ParseAddress(candidate.value).None? {
        return Some("--model-distributor must use host:port");
      }
      var (host, port) := ParseAddress(candidate.value).value;
      modelDistributorHost := Some(host);
      modelDistributorPort := Some(port);
      return None;
    }

    method TakeSampleDistributor(candidate: Option<string>, ghost configSeen: bool, ghost st: Settings)
      returns (failure: Option<string>)
      requires Holds(configSeen, st)
      modifies this`sampleDistributorHost, this`sampleDistributorPort
      ensures Took(Attempt(SAMPLE_DISTRIBUTOR, candidate, st), configSeen, failure)
    {
      hide CONFIG, WORKLOAD, LISTEN_PORT, MODEL_DISTRIBUTOR, SAMPLE_DISTRIBUTOR, EVALUATION_MODEL, FLAGS, UsageError,
        BadError, MissingError, ParseAddress;
      FlagsDistinct();
      Messages();
      if candidate.None? || sampleDistributorHost.Some? || ParseAddress(candidate.value).None? {
        return Some("--sample-distributor must use host:port");
      }
      var (host, port) := ParseAddress(candidate.value).value;
      sampleDistributorHost := Some(host);
      sampleDistributorPort := Some(port);
      return None;
    }

    method TakeEvaluationModel(candidate: Option<string>, ghost configSeen: bool, ghost st: Settings)
      returns (failure: Option<string>)
      requires Holds(configSeen, st)
      modifies this`evaluationModelPath
      ensures Took(Attempt(EVALUATION_MODEL, candidate, st), configSeen, failure)
    {
      hide CONFIG, WORKLOAD, LISTEN_PORT, MODEL_DISTRIBUTOR, SAMPLE_DISTRIBUTOR, EVALUATION_MODEL, FLAGS, UsageError,
        BadError, MissingError;
      FlagsDistinct();
      Messages();
      if candidate.None? || evaluationModelPath.Some? {
        return Some("--evaluation-model may be specified only once");
      }
      evaluationModelPath := candidate;
      return None;
    }
  }

  /** The closure that takes the next argument as the value of `name`, or reports that there is none. */
  method NextValue(argv: seq<string>, i: nat, name: string) returns (candidate: Option<string>, at: nat, error: string)
    requires i < |argv|
    ensures if i + 1 >= |argv| then candidate == None && at == i && error == name + " requires a value"
            else candidate == Some(argv[i + 1]) && at == i + 1 && error == ""
  {
    if i + 1 >= |argv| { return None, i, name + " requires a value"; }
    return Some(argv[i + 1]), i + 1, "";
  }

  /** The branches on one argument; `i` is left at the last argument used. */
  method Branch(argv: seq<string>, start: nat, parsed: ParsedCommandLine, seen: bool, ghost st: Settings)
    returns (failure: Option<string>, i: nat, configSeen: bool)
    requires start < |argv| && parsed.Holds(seen, st)
    modifies parsed
    ensures argv[start] !in FLAGS ==> failure == Some(StrayError(argv[start]))
    ensures argv[start] in FLAGS ==>
              parsed.Took(Attempt(argv[start], if start + 1 == |argv| then None else Some(argv[start + 1]), st),
                configSeen, failure)
    ensures failure.None? ==> i == start + 1 < |argv|
    ensures argv[start] != CONFIG ==> parsed.configPath == old(parsed.configPath)
  {
    hide CONFIG, WORKLOAD, LISTEN_PORT, MODEL_DISTRIBUTOR, SAMPLE_DISTRIBUTOR, EVALUATION_MODEL, FLAGS, UsageError,
      BadError, MissingError, ParsedCommandLine.Holds, Interpret;
    FlagsDistinct();
    Messages();
    var argument := argv[start];
    i, configSeen := start, seen;
    var candidate: Option<string>;
    var missing: string;
    if argument == CONFIG {
      candidate, i, missing := NextValue(argv, i, CONFIG);
      if candidate.None? { return Some(missing), i, seen; }
      failure := parsed.TakeConfig(candidate.value, seen, st);
      configSeen := true;
    } else if argument == WORKLOAD {
      candidate, i, missing := NextValue(argv, i, WORKLOAD);
      if candidate.None? { return Some(missing), i, seen; }
      failure := parsed.TakeWorkload(candidate.value, seen, st);
    } else if argument == LISTEN_PORT {
      candidate, i, missing := NextValue(argv, i, LISTEN_PORT);
      failure := parsed.TakeListenPort(candidate, seen, st);
    } else if argument == MODEL_DISTRIBUTOR {
      candidate, i, missing := NextValue(argv, i, MODEL_DISTRIBUTOR);
      failure := parsed.TakeModelDistributor(candidate, seen, st);
    } else if argument == SAMPLE_DISTRIBUTOR {
      candidate, i, missing := NextValue(argv, i, SAMPLE_DISTRIBUTOR);
      failure := parsed.TakeSampleDistributor(candidate, seen, st);
    } else if argument == EVALUATION_MODEL {
      candidate, i, missing := NextValue(argv, i, EVALUATION_MODEL);
      failure := parsed.TakeEvaluationModel(candidate, seen, st);
    } else if "--" <= argument {
      failure := Some("unknown argument: " + argument);
    } else {
      failure := Some("positional arguments are not supported: " + argument);
    }
  }

  /** What follows the program name. */
  function Arguments(argv: seq<string>): seq<string> { if argv == [] then [] else argv[1..] }

  // ---------------------------------------------------------------- what the loop accepts

  type Pair = (string, string)

  function Pairs(args: seq<string>): seq<Pair>
    decreases |args|
  {
    if |args| < 2 then [] else [(args[0], args[1])] + Pairs(args[2..])
  }

  ghost predicate Distinct(ps: seq<Pair>)
  {
    forall i, j | 0 <= i < j < |ps| :: ps[i].0 != ps[j].0
  }

  /** Known flags, each given once, each with a value it understands. */
  ghost predicate ValidPairs(ps: seq<Pair>)
  {
    Distinct(ps) && forall p | p in ps :: p.0 in FLAGS && Interpret(p.0, p.1).Some?
  }

  ghost predicate Unset(ps: seq<Pair>, st: Settings)
  {
    forall p | p in ps :: p.0 !in st
  }

  lemma FirstPair(p: Pair, rest: seq<Pair>)
    ensures Distinct([p] + rest) <==> Distinct(rest) && forall q | q in rest :: q.0 != p.0
  {
    var ps := [p] + rest;
    assert forall i | 0 <= i < |rest| :: ps[i + 1] == rest[i];
    if Distinct(ps) {
      forall q | q in rest
        ensures q.0 != p.0
      {
        var i :| 0 <= i < |rest| && rest[i] == q;
        assert ps[0].0 != ps[i + 1].0;
      }
    }
  }

  lemma KnownFlag(flag: string, value: string)
    ensures Interpret(flag, value).Some? ==> flag in FLAGS
  {
  }

  /**
    The loop succeeds exactly on complete pairs of distinct known flags with valid values, none of them
    set before; it then holds what the pairs say and what was there before, and nothing else.
   */
  lemma {:induction false} ScanExactly(args: seq<string>, st: Settings)
    ensures Scan(args, st).Accepted? <==> |args| % 2 == 0 && ValidPairs(Pairs(args)) && Unset(Pairs(args), st)
    ensures Scan(args, st).Accepted? ==>
              var got := Scan(args, st).settings;
              && (forall p | p in Pairs(args) :: p.0 in got && Some(got[p.0]) == Interpret(p.0, p.1))
              && (forall f | f in st :: f in got && got[f] == st[f])
              && (forall f | f in got :: f in st || exists p :: p in Pairs(args) && p.0 == f)
    decreases |args|
  {
    hide FLAGS, Interpret, Distinct;
    if |args| >= 2 {
      var p := (args[0], args[1]);
      FirstPair(p, Pairs(args[2..]));
      KnownFlag(args[0], args[1]);
      assert p in Pairs(args);
      var attempt := Attempt(args[0], Some(args[1]), st);
      if attempt.Accepted? { ScanExactly(args[2..], attempt.settings); }
    } else {
      assert Distinct([]) by { NoPairs(); }
    }
  }

  lemma NoPairs()
    ensures Distinct([])
  {
  }

  /** A multiset of pairs in which no flag occurs twice. */
  ghost predicate Once(m: multiset<Pair>)
  {
    forall p, q | p in m && q in m && p.0 == q.0 :: p == q && m[p] == 1
  }

  lemma {:induction false} DistinctOnce(ps: seq<Pair>)
    ensures Distinct(ps) <==> Once(multiset(ps))
  {
    hide Distinct;
    if ps == [] {
      NoPairs();
    } else {
      var p, rest := ps[0], ps[1..];
      assert ps == [p] + rest;
      FirstPair(p, rest);
      DistinctOnce(rest);
      assert multiset(ps) == multiset{p} + multiset(rest);
      if Once(multiset(ps)) {
        forall q | q in rest
          ensures q.0 != p.0
        {
          assert q in multiset(ps) && p in multiset(ps);
          assert multiset(ps)[p] == 1 + multiset(rest)[p];
        }
      }
    }
  }

  /** `got` is what the pairs say and nothing else. */
  ghost predicate Collected(ps: seq<Pair>, got: Settings)
  {
    && (forall p | p in ps :: p.0 in got && Some(got[p.0]) == Interpret(p.0, p.1))
    && (forall f | f in got :: exists p :: p in ps && p.0 == f)
  }

  /** From an empty start: complete, valid pairs, collected. */
  lemma FreshScan(args: seq<string>)
    ensures Scan(args, map[]).Accepted? <==> |args| % 2 == 0 && ValidPairs(Pairs(args))
    ensures Scan(args, map[]).Accepted? ==> Collected(Pairs(args), Scan(args, map[]).settings)
  {
    hide Scan, ValidPairs, Interpret;
    ScanExactly(args, map[]);
  }

  lemma SameCollection(ps: seq<Pair>, qs: seq<Pair>, a: Settings, b: Settings)
    requires Collected(ps, a) && Collected(qs, b) && forall p :: p in ps <==> p in qs
    ensures a == b
  {
    hide Interpret;
    forall f
      ensures f in a <==> f in b
      ensures f in a && f in b ==> a[f] == b[f]
    {
    }
  }

  lemma SameValidity(ps: seq<Pair>, qs: seq<Pair>)
    requires multiset(ps) == multiset(qs) && ValidPairs(ps)
    ensures ValidPairs(qs) && forall p :: p in ps <==> p in qs
  {
    hide Interpret, FLAGS, Distinct, Once;
    DistinctOnce(ps);
    DistinctOnce(qs);
    assert forall p :: p in ps <==> p in multiset(ps);
    assert forall p :: p in qs <==> p in multiset(qs);
  }

  /** The order of the pairs does not matter. */
  lemma {:induction false} OrderIrrelevant(args: seq<string>, others: seq<string>)
    requires |args| % 2 == |others| % 2 && multiset(Pairs(args)) == multiset(Pairs(others))
    requires Scan(args, map[]).Accepted?
    ensures Scan(others, map[]) == Scan(args, map[])
  {
    hide Scan, ValidPairs, Collected;
    FreshScan(args);
    FreshScan(others);
    SameValidity(Pairs(args), Pairs(others));
    SameCollection(Pairs(args), Pairs(others), Scan(args, map[]).settings, Scan(others, map[]).settings);
  }

  // ---------------------------------------------------------------- the loop, by the texts of its arguments

  function FlagAt(argv: seq<string>, i: nat): string
    requires 2 * i + 2 < |argv|
  {
    argv[2 * i + 1]
  }

  function ValueAt(argv: seq<string>, i: nat): string
    requires 2 * i + 2 < |argv|
  {
    argv[2 * i + 2]
  }

  function Flags(argv: seq<string>): set<string> { set i | 0 <= i < |argv| && 2 * i + 2 < |argv| :: FlagAt(argv, i) }

  /** Every flag has a value that means something for it, and no flag is given twice. */
  ghost predicate Acceptable(argv: seq<string>)
  {
    && |Arguments(argv)| % 2 == 0
    && (forall i: nat, j: nat | i < j && 2 * j + 2 < |argv| :: FlagAt(argv, i) != FlagAt(argv, j))
    && forall i: nat | 2 * i + 2 < |argv| :: exists v :: Denotes(FlagAt(argv, i), ValueAt(argv, i), v)
  }

  lemma {:induction false} PairsAt(args: seq<string>)
    ensures |Pairs(args)| == |args| / 2
    ensures forall i: nat | i < |Pairs(args)| :: Pairs(args)[i] == (args[2 * i], args[2 * i + 1])
    decreases |args|
  {
    if |args| >= 2 {
      PairsAt(args[2..]);
      forall i: nat | i < |Pairs(args)|
        ensures Pairs(args)[i] == (args[2 * i], args[2 * i + 1])
      {
        if i > 0 { assert Pairs(args)[i] == Pairs(args[2..])[i - 1]; }
      }
    }
  }

  lemma ArgumentPairs(argv: seq<string>)
    ensures var ps := Pairs(Arguments(argv));
            |ps| == |Arguments(argv)| / 2
            && forall i: nat :: (i < |ps| <==> 2 * i + 2 < |argv|)
                                && (i < |ps| ==> ps[i] == (FlagAt(argv, i), ValueAt(argv, i)))
  {
    PairsAt(Arguments(argv));
  }

  lemma Understood(flag: string, value: string)
    ensures Interpret(flag, value).Some? <==> exists v :: Denotes(flag, value, v)
  {
    hide Interpret, Denotes;
    if Interpret(flag, value).Some? { InterpretExactly(flag, value, Interpret(flag, value).value); }
    if v :| Denotes(flag, value, v) { InterpretExactly(flag, value, v); }
  }

  /** The scan of the pairs accepts exactly the acceptable argument lists. */
  lemma AcceptableExactly(argv: seq<string>)
    ensures Scan(Arguments(argv), map[]).Accepted? <==> Acceptable(argv)
  {
    hide Scan, Interpret, Denotes, Pairs, FLAGS, Arguments;
    var ps := Pairs(Arguments(argv));
    FreshScan(Arguments(argv));
    ArgumentPairs(argv);
    forall i: nat | i < |ps|
      ensures Interpret(ps[i].0, ps[i].1).Some? <==> exists v :: Denotes(FlagAt(argv, i), ValueAt(argv, i), v)
    {
      Understood(FlagAt(argv, i), ValueAt(argv, i));
    }
    SamePairs(argv, ps);
  }

  lemma SamePairs(argv: seq<string>, ps: seq<Pair>)
    requires |ps| == |Arguments(argv)| / 2
    requires forall i: nat :: (i < |ps| <==> 2 * i + 2 < |argv|)
                              && (i < |ps| ==> ps[i] == (FlagAt(argv, i), ValueAt(argv, i)))
    requires forall i: nat | i < |ps| ::
               Interpret(ps[i].0, ps[i].1).Some? <==> exists v :: Denotes(FlagAt(argv, i), ValueAt(argv, i), v)
    ensures |Arguments(argv)| % 2 == 0 && ValidPairs(ps) <==> Acceptable(argv)
  {
    hide Interpret, Denotes, FLAGS, Arguments, FlagAt, ValueAt;
    forall p | p in ps
      ensures Interpret(p.0, p.1).Some? ==> p.0 in FLAGS
    {
      KnownFlag(p.0, p.1);
    }
    assert Distinct(ps) <==> forall i: nat, j: nat | i < j && 2 * j + 2 < |argv| :: FlagAt(argv, i) != FlagAt(argv, j);
    assert (forall p | p in ps :: Interpret(p.0, p.1).Some?) <==>
           forall i: nat | i < |ps| :: Interpret(ps[i].0, ps[i].1).Some?;
  }

  /** An accepted scan leaves in every field what its flag's value says. */
  lemma AcceptedFields(argv: seq<string>, parsed: ParsedCommandLine, configSeen: bool, st: Settings)
    requires Scan(Arguments(argv), map[]) == Accepted(st) && parsed.Holds(configSeen, st)
    ensures forall i: nat | 2 * i + 2 < |argv| :: parsed.Stores(FlagAt(argv, i), ValueAt(argv, i))
    ensures parsed.SetsOnly(Flags(argv)) && ("--config" in Flags(argv) <==> CONFIG in st)
  {
    hide Scan, Interpret, Denotes, Pairs, Arguments, ParsedCommandLine.Stores, ParsedCommandLine.Holds, CONFIG,
      FlagAt, ValueAt;
    var ps := Pairs(Arguments(argv));
    FreshScan(Arguments(argv));
    ArgumentPairs(argv);
    FlagTexts();
    forall i: nat | 2 * i + 2 < |argv|
      ensures parsed.Stores(FlagAt(argv, i), ValueAt(argv, i))
    {
      var p := ps[i];
      assert p in ps;
      InterpretExactly(p.0, p.1, st[p.0]);
      parsed.HoldsStores(configSeen, st, p.0, p.1);
    }
    parsed.HoldsOnly(configSeen, st);
    forall f
      ensures f in st <==> f in Flags(argv)
    {
      if f in st {
        var p :| p in ps && p.0 == f;
        var i :| 0 <= i < |ps| && ps[i] == p;
        assert FlagAt(argv, i) == f;
      }
      if f in Flags(argv) {
        var i :| 0 <= i < |argv| && 2 * i + 2 < |argv| && FlagAt(argv, i) == f;
        assert ps[i] in ps;
      }
    }
    assert st.Keys == Flags(argv);
  }

  /** The loop over argv. */
  method ParseCommandLine(argv: seq<string>, parsed: ParsedCommandLine) returns (ok: bool, error: string)
    requires parsed.Holds(false, map[])
    modifies parsed
    ensures ok <==> Acceptable(argv)
    ensures ok ==> forall i: nat | 2 * i + 2 < |argv| :: parsed.Stores(FlagAt(argv, i), ValueAt(argv, i))
    ensures ok ==> parsed.SetsOnly(Flags(argv))
    ensures ok && "--config" !in Flags(argv) ==> parsed.configPath == old(parsed.configPath)
    ensures ok <==> Scan(Arguments(argv), map[]).Accepted?
    ensures !ok ==> error == Scan(Arguments(argv), map[]).error
    ensures ok ==>
              var st := Scan(Arguments(argv), map[]).settings;
              parsed.Holds(CONFIG in st, st) && (CONFIG !in st ==> parsed.configPath == old(parsed.configPath))
  {
    hide CONFIG, FLAGS, Interpret, UsageError, MissingError, BadError, StrayError, ParsedCommandLine.Holds, Acceptable,
      ParsedCommandLine.Stores, ParsedCommandLine.SetsOnly, Flags;
    AcceptableExactly(argv);
    var configSeen := false;
    ghost var st: Settings := map[];
    var i := 1;
    if i < |argv| {
      while i < |argv|
        invariant 1 <= i <= |argv| && parsed.Holds(configSeen, st)
        invariant CONFIG !in st ==> parsed.configPath == old(parsed.configPath)
        invariant Scan(Arguments(argv), map[]) == Scan(argv[i..], st)
        decreases |argv| - i
      {
        ghost var attempt := Attempt(argv[i], if i + 1 == |argv| then None else Some(argv[i + 1]), st);
        var failure;
        failure, i, configSeen := Branch(argv, i, parsed, configSeen, st);
        if failure.Some? { return false, failure.value; }
        st := attempt.settings;
        i := i + 1;
      }
    }
    parsed.SeenMeansGiven(configSeen, st);
    AcceptedFields(argv, parsed, configSeen, st);
    return true, "";
  }
}
