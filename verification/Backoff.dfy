/** Numeric options of the server, and the delays between its connection attempts. */
module Backoff {
  import opened ByteStrings

  const WORD64 := 0x1_0000_0000_0000_0000
  const WORD32 := 0x1_0000_0000

  function Least(a: nat, b: nat): (r: nat)
    ensures r <= a && r <= b && (r == a || r == b)
  {
    if a < b then a else b
  }

  // ---- Bounded decimal parsing ----

  /** One digit, in 64-bit unsigned arithmetic; `maximum - digit` wraps when the digit is the larger one. */
  function AddDigit(parsed: nat, digit: nat, maximum: nat): Option<nat>
    requires parsed < WORD64 && maximum < WORD64 && digit <= 9
  {
    if parsed > (WORD64 + maximum - digit) % WORD64 / 10 then None else Some((parsed * 10 + digit) % WORD64)
  }

  function Accumulate(text: bytes, maximum: nat): (r: Option<nat>)
    requires maximum < WORD64
    ensures r.Some? ==> r.value < WORD64
  {
    if text == [] then Some(0)
    else
      var last: int := text[|text| - 1];
      match Accumulate(text[..|text| - 1], maximum)
      case None => None
      case Some(parsed) => if IsDigit(last) then AddDigit(parsed, last - 0x30, maximum) else None
  }

  method ParseUnsigned(text: bytes, maximum: nat) returns (ok: bool, value: nat)
    requires maximum < WORD64
    ensures ok == (text != [] && Accumulate(text, maximum).Some?)
    ensures ok ==> value == Accumulate(text, maximum).value
    ensures maximum >= 9 ==> ok == InBounds(text, maximum)
    ensures maximum >= 9 && ok ==> AllDigits(text) && value == DigitsValue(text)
  {
    hide AllDigits, DigitsValue;
    value := 0;
    if text == [] {
      return false, 0;
    }
    if maximum >= 9 { Accumulates(text, maximum); }
    for i := 0 to |text|
      invariant Accumulate(text[..i], maximum) == Some(value)
    {
      var current: int := text[i];
      assert text[..i + 1][..i] == text[..i];
      if current < 0x30 || current > 0x39 {
        Refused(text, i + 1, maximum);
        return false, 0;
      }
      var digit := current - 0x30;
      if value > (WORD64 + maximum - digit) % WORD64 / 10 {
        Refused(text, i + 1, maximum);
        return false, 0;
      }
      value := (value * 10 + digit) % WORD64;
    }
    assert text[..|text|] == text;
    ok := true;
  }

  lemma {:induction false} Refused(text: bytes, i: nat, maximum: nat)
    requires i <= |text| && maximum < WORD64 && Accumulate(text[..i], maximum).None?
    ensures Accumulate(text, maximum).None?
    decreases |text| - i
  {
    if i < |text| {
      assert text[..i + 1][..i] == text[..i];
      Refused(text, i + 1, maximum);
    } else {
      assert text[..i] == text;
    }
  }

  /** What the option's bounds ask for: digits whose value is at most the maximum. */
  predicate InBounds(text: bytes, maximum: nat) { text != [] && AllDigits(text) && DigitsValue(text) <= maximum }

  /** With a maximum of at least 9 every digit that is accepted keeps the value within the maximum, and is accepted if it does. */
  lemma {:induction false} Accumulates(text: bytes, maximum: nat)
    requires 9 <= maximum < WORD64
    ensures Accumulate(text, maximum) == if AllDigits(text) && DigitsValue(text) <= maximum then Some(DigitsValue(text)) else None
    decreases |text|
  {
    hide AllDigits, AddDigit;
    if text == [] {
      NoDigits();
    } else {
      var front, last := text[..|text| - 1], text[|text| - 1];
      Accumulates(front, maximum);
      DigitsFront(text);
      if AllDigits(text) { DigitAdded(DigitsValue(front), last - 0x30, maximum); }
    }
  }

  lemma NoDigits()
    ensures AllDigits([])
  {
  }

  lemma DigitsFront(text: bytes)
    requires text != []
    ensures AllDigits(text) <==> AllDigits(text[..|text| - 1]) && IsDigit(text[|text| - 1])
  {
    var front := text[..|text| - 1];
    if AllDigits(front) && IsDigit(text[|text| - 1]) {
      forall i | 0 <= i < |text| ensures IsDigit(text[i]) {
        if i < |front| { assert IsDigit(front[i]); }
      }
    }
  }

  lemma DigitAdded(parsed: nat, digit: nat, maximum: nat)
    requires 9 <= maximum < WORD64 && digit <= 9
    ensures parsed <= maximum ==> AddDigit(parsed, digit, maximum) == if parsed * 10 + digit <= maximum then Some(parsed * 10 + digit) else None
    ensures parsed > maximum ==> parsed * 10 + digit > maximum
  {
    DigitBound(parsed, digit, maximum);
  }

  lemma DigitBound(parsed: nat, digit: nat, maximum: nat)
    requires 9 <= maximum < WORD64 && digit <= 9
    ensures (WORD64 + maximum - digit) % WORD64 == maximum - digit
    ensures parsed > (maximum - digit) / 10 <==> parsed * 10 + digit > maximum
  {
  }

  /** The bounds are respected on every text exactly when the maximum is at least 9: below that, the subtraction wraps
      for a single digit above the maximum, and the digit is accepted. */
  lemma BoundsHoldFromNine(maximum: nat)
    requires maximum < WORD64
    ensures maximum >= 9 <==> forall text: bytes :: text != [] && Accumulate(text, maximum).Some? ==> InBounds(text, maximum)
  {
    if maximum >= 9 {
      forall text: bytes | text != [] && Accumulate(text, maximum).Some? ensures InBounds(text, maximum) { Accumulates(text, maximum); }
    } else {
      var text: bytes := [0x30 + maximum + 1];
      assert text[..0] == [];
      assert Accumulate(text, maximum) == AddDigit(0, maximum + 1, maximum) == Some(maximum + 1);
      assert DigitsValue(text) == maximum + 1;
      assert !InBounds(text, maximum);
    }
  }

  // ---- Options ----

  datatype Options = Options(configPath: bytes, host: bytes, port: nat, authToken: bytes, maxFrameBytes: nat, initialMs: nat, maxMs: nat, help: bool)

  const DEFAULTS := Options([], Ascii("127.0.0.1"), 0, [], 8 * 1024 * 1024, 250, 5000, false)

  const MAXIMUM_FRAME := 64 * 1024 * 1024

  /** The numeric bounds of every option read so far; a port of 0 is one not given. */
  predicate Bounded(o: Options) {
    o.port <= 65535 && 1024 <= o.maxFrameBytes <= MAXIMUM_FRAME && 1 <= o.initialMs <= 60000 && 1 <= o.maxMs <= 300000
  }

  /** What an accepted command line guarantees. */
  predicate Accepted(o: Options) {
    o.help || (Bounded(o) && o.configPath != [] && o.port >= 1 && 1 <= |o.authToken| <= 512 && o.initialMs <= o.maxMs)
  }

  datatype Name = Help | Config | Host | Port | Token | FrameLimit | InitialDelay | MaximumDelay

  function NameOf(option: bytes): Option<Name> {
    if option == Ascii("--help") || option == Ascii("-h") then Some(Help)
    else if option == Ascii("--config") then Some(Config)
    else if option == Ascii("--connect-host") then Some(Host)
    else if option == Ascii("--connect-port") then Some(Port)
    else if option == Ascii("--auth-token") then Some(Token)
    else if option == Ascii("--max-frame-bytes") then Some(FrameLimit)
    else if option == Ascii("--reconnect-initial-ms") then Some(InitialDelay)
    else if option == Ascii("--reconnect-max-ms") then Some(MaximumDelay)
    else None
  }

  predicate NumberIn(value: bytes, least: nat, most: nat) { InBounds(value, most) && DigitsValue(value) >= least }

  /** An option and its value that the command line may hold. */
  predicate GoodOption(option: bytes, value: bytes) {
    match NameOf(option)
    case None => false
    case Some(Help) => false
    case Some(Port) => NumberIn(value, 1, 65535)
    case Some(FrameLimit) => NumberIn(value, 1024, MAXIMUM_FRAME)
    case Some(InitialDelay) => NumberIn(value, 1, 60000)
    case Some(MaximumDelay) => NumberIn(value, 1, 300000)
    case _ => true
  }

  /** The first `n` arguments are options with their values. */
  predicate GoodOptions(arguments: seq<bytes>, n: nat)
    requires n <= |arguments|
  {
    n == 0 || (n >= 2 && GoodOptions(arguments, n - 2) && GoodOption(arguments[n - 2], arguments[n - 1]))
  }

  /** The value of the last option with this name among the first `n` arguments. */
  function LastValue(arguments: seq<bytes>, n: nat, name: Name): Option<bytes>
    requires n <= |arguments|
  {
    if n < 2 then None
    else if NameOf(arguments[n - 2]) == Some(name) then Some(arguments[n - 1])
    else LastValue(arguments, n - 2, name)
  }

  function ValueOr(value: Option<bytes>, otherwise: bytes): bytes { if value.Some? then value.value else otherwise }

  function NumberOr(value: Option<bytes>, otherwise: nat): nat {
    if value.Some? && AllDigits(value.value) then DigitsValue(value.value) else otherwise
  }

  /** The last value of every option, and the default of every option not given. */
  function Collected(arguments: seq<bytes>, n: nat): Options
    requires n <= |arguments|
  {
    Options(ValueOr(LastValue(arguments, n, Config), DEFAULTS.configPath), ValueOr(LastValue(arguments, n, Host), DEFAULTS.host),
            NumberOr(LastValue(arguments, n, Port), DEFAULTS.port), ValueOr(LastValue(arguments, n, Token), DEFAULTS.authToken),
            NumberOr(LastValue(arguments, n, FrameLimit), DEFAULTS.maxFrameBytes),
            NumberOr(LastValue(arguments, n, InitialDelay), DEFAULTS.initialMs),
            NumberOr(LastValue(arguments, n, MaximumDelay), DEFAULTS.maxMs), false)
  }

  /** Which text names which option. */
  lemma NamesExactly(option: bytes)
    ensures NameOf(option) == Some(Help) <==> option == Ascii("--help") || option == Ascii("-h")
    ensures NameOf(option) == Some(Config) <==> option == Ascii("--config")
    ensures NameOf(option) == Some(Host) <==> option == Ascii("--connect-host")
    ensures NameOf(option) == Some(Port) <==> option == Ascii("--connect-port")
    ensures NameOf(option) == Some(Token) <==> option == Ascii("--auth-token")
    ensures NameOf(option) == Some(FrameLimit) <==> option == Ascii("--max-frame-bytes")
    ensures NameOf(option) == Some(InitialDelay) <==> option == Ascii("--reconnect-initial-ms")
    ensures NameOf(option) == Some(MaximumDelay) <==> option == Ascii("--reconnect-max-ms")
  {
    LengthsDiffer();
    hide Ascii;
  }

  lemma LengthsDiffer()
    ensures |Ascii("--help")| == 6 && |Ascii("-h")| == 2 && |Ascii("--config")| == 8 && |Ascii("--auth-token")| == 12
    ensures |Ascii("--connect-host")| == 14 && |Ascii("--connect-port")| == 14 && Ascii("--connect-host") != Ascii("--connect-port")
    ensures |Ascii("--max-frame-bytes")| == 17 && |Ascii("--reconnect-initial-ms")| == 22 && |Ascii("--reconnect-max-ms")| == 18
  {
    assert Ascii("--connect-host")[10] != Ascii("--connect-port")[10];
  }

  /** The value of the last option with this text among the first `n` arguments. */
  function LastText(arguments: seq<bytes>, n: nat, option: bytes): Option<bytes>
    requires n <= |arguments|
  {
    if n < 2 then None else if arguments[n - 2] == option then Some(arguments[n - 1]) else LastText(arguments, n - 2, option)
  }

  lemma {:induction false} SameLast(arguments: seq<bytes>, n: nat, name: Name, option: bytes)
    requires n <= |arguments| && forall text :: NameOf(text) == Some(name) <==> text == option
    ensures LastValue(arguments, n, name) == LastText(arguments, n, option)
    decreases n
  {
    hide NameOf;
    if n >= 2 { SameLast(arguments, n - 2, name, option); }
  }

  /** Which option text sets which field, and the default of each. */
  lemma FieldsByText(arguments: seq<bytes>, n: nat)
    requires n <= |arguments|
    ensures Collected(arguments, n) ==
            Options(ValueOr(LastText(arguments, n, Ascii("--config")), []),
                    ValueOr(LastText(arguments, n, Ascii("--connect-host")), Ascii("127.0.0.1")),
                    NumberOr(LastText(arguments, n, Ascii("--connect-port")), 0),
                    ValueOr(LastText(arguments, n, Ascii("--auth-token")), []),
                    NumberOr(LastText(arguments, n, Ascii("--max-frame-bytes")), 8388608),
                    NumberOr(LastText(arguments, n, Ascii("--reconnect-initial-ms")), 250),
                    NumberOr(LastText(arguments, n, Ascii("--reconnect-max-ms")), 5000), false)
  {
    forall option { NamesExactly(option); }
    hide NameOf, Ascii, LastValue, LastText, ValueOr, NumberOr;
    SameLast(arguments, n, Config, Ascii("--config"));
    SameLast(arguments, n, Host, Ascii("--connect-host"));
    SameLast(arguments, n, Port, Ascii("--connect-port"));
    SameLast(arguments, n, Token, Ascii("--auth-token"));
    SameLast(arguments, n, FrameLimit, Ascii("--max-frame-bytes"));
    SameLast(arguments, n, InitialDelay, Ascii("--reconnect-initial-ms"));
    SameLast(arguments, n, MaximumDelay, Ascii("--reconnect-max-ms"));
  }

  predicate HelpAt(arguments: seq<bytes>, n: nat) { n < |arguments| && NameOf(arguments[n]) == Some(Help) && GoodOptions(arguments, n) }

  /** A request for help behind good options, or good options that give everything required. */
  ghost predicate Acceptable(arguments: seq<bytes>) {
    || (exists n :: HelpAt(arguments, n))
    || (GoodOptions(arguments, |arguments|) && Accepted(Collected(arguments, |arguments|)))
  }

  method ParseArguments(arguments: seq<bytes>) returns (ok: bool, options: Options)
    ensures ok <==> Acceptable(arguments)
    ensures ok ==> Accepted(options) && (options.help || options == Collected(arguments, |arguments|))
  {
    hide Ascii, AllDigits, DigitsValue, GoodOptions, Collected, Acceptable;
    options := DEFAULTS;
    var index := 0;
    NothingCollected(arguments);
    while index < |arguments|
      invariant index <= |arguments| && Bounded(options) && GoodOptions(arguments, index) && options == Collected(arguments, index)
    {
      var option := arguments[index];
      if option == Ascii("--help") || option == Ascii("-h") {
        options := options.(help := true);
        HelpAccepted(arguments, index);
        return true, options;
      }
      if index + 1 >= |arguments| {
        Unacceptable(arguments, index);
        return false, options;
      }
      var value := arguments[index + 1];
      OneMoreOption(arguments, index);
      var read;
      read, options := ReadOption(option, value, options);
      if !read {
        Unacceptable(arguments, index);
        return false, options;
      }
      index := index + 2;
    }
    ok := options.configPath != [] && options.port != 0 && 1 <= |options.authToken| <= 512 && options.initialMs <= options.maxMs;
    AllRead(arguments);
  }

  /** The branches on one option and its value. */
  method ReadOption(option: bytes, value: bytes, before: Options) returns (ok: bool, options: Options)
    requires Bounded(before) && NameOf(option) != Some(Help)
    ensures ok == GoodOption(option, value)
    ensures ok ==> options == With(before, NameOf(option).value, value) && Bounded(options)
  {
    hide Ascii, AllDigits, DigitsValue;
    options := before;
    if option == Ascii("--config") {
      options := options.(configPath := value);
    } else if option == Ascii("--connect-host") {
      options := options.(host := value);
    } else if option == Ascii("--connect-port") {
      var read, parsed := ParseUnsigned(value, 65535);
      if !read || parsed == 0 {
        return false, options;
      }
      options := options.(port := parsed);
    } else if option == Ascii("--auth-token") {
      options := options.(authToken := value);
    } else if option == Ascii("--max-frame-bytes") {
      var read, parsed := ParseUnsigned(value, MAXIMUM_FRAME);
      if !read || parsed < 1024 {
        return false, options;
      }
      options := options.(maxFrameBytes := parsed);
    } else if option == Ascii("--reconnect-initial-ms") {
      var read, parsed := ParseUnsigned(value, 60000);
      if !read || parsed == 0 {
        return false, options;
      }
      options := options.(initialMs := parsed);
    } else if option == Ascii("--reconnect-max-ms") {
      var read, parsed := ParseUnsigned(value, 300000);
      if !read || parsed == 0 {
        return false, options;
      }
      options := options.(maxMs := parsed);
    } else {
      return false, options;
    }
    ok := true;
  }

  lemma NothingCollected(arguments: seq<bytes>)
    ensures Collected(arguments, 0) == DEFAULTS && GoodOptions(arguments, 0)
  {
  }

  lemma HelpAccepted(arguments: seq<bytes>, n: nat)
    requires HelpAt(arguments, n)
    ensures Acceptable(arguments)
  {
  }

  /** The options with one more of them set. */
  function With(o: Options, name: Name, value: bytes): Options {
    match name
    case Help => o
    case Config => o.(configPath := value)
    case Host => o.(host := value)
    case Port => o.(port := NumberOr(Some(value), o.port))
    case Token => o.(authToken := value)
    case FrameLimit => o.(maxFrameBytes := NumberOr(Some(value), o.maxFrameBytes))
    case InitialDelay => o.(initialMs := NumberOr(Some(value), o.initialMs))
    case MaximumDelay => o.(maxMs := NumberOr(Some(value), o.maxMs))
  }

  lemma Digital(option: bytes, value: bytes)
    requires GoodOption(option, value)
    ensures var name := NameOf(option); name.Some? && !name.value.Help? && (name.value.Config? || name.value.Host? || name.value.Token? || AllDigits(value))
  {
    hide NameOf, DigitsValue;
  }

  /** What one more option with its value changes. */
  lemma OneMoreOption(arguments: seq<bytes>, n: nat)
    requires n + 2 <= |arguments| && GoodOptions(arguments, n)
    ensures GoodOption(arguments[n], arguments[n + 1]) ==>
              && GoodOptions(arguments, n + 2) && NameOf(arguments[n]).Some?
              && Collected(arguments, n + 2) == With(Collected(arguments, n), NameOf(arguments[n]).value, arguments[n + 1])
  {
    hide NameOf, GoodOption, DigitsValue, AllDigits;
    if GoodOption(arguments[n], arguments[n + 1]) { Digital(arguments[n], arguments[n + 1]); }
  }

  lemma {:induction false} GoodBefore(arguments: seq<bytes>, m: nat, n: nat)
    requires m < n <= |arguments| && GoodOptions(arguments, m) && GoodOptions(arguments, n)
    ensures m + 2 <= n && GoodOption(arguments[m], arguments[m + 1])
    decreases n
  {
    Even(arguments, m);
    Even(arguments, n);
    if m + 2 < n { GoodBefore(arguments, m, n - 2); }
  }

  lemma {:induction false} Even(arguments: seq<bytes>, n: nat)
    requires n <= |arguments| && GoodOptions(arguments, n)
    ensures n % 2 == 0
    decreases n
  {
    if n > 0 { Even(arguments, n - 2); }
  }

  /** An argument that is neither help nor a good option behind good options refuses the command line. */
  lemma Unacceptable(arguments: seq<bytes>, n: nat)
    requires n < |arguments| && GoodOptions(arguments, n) && NameOf(arguments[n]) != Some(Help)
    requires n + 1 < |arguments| ==> !GoodOption(arguments[n], arguments[n + 1])
    ensures !Acceptable(arguments)
  {
    forall m: nat ensures !HelpAt(arguments, m) {
      if HelpAt(arguments, m) {
        if m < n { GoodBefore(arguments, m, n); }
        if n < m { GoodBefore(arguments, n, m); }
      }
    }
    if GoodOptions(arguments, |arguments|) { GoodBefore(arguments, n, |arguments|); }
  }

  /** Options that were all good leave the final checks. */
  lemma AllRead(arguments: seq<bytes>)
    requires GoodOptions(arguments, |arguments|)
    ensures Acceptable(arguments) <==> Accepted(Collected(arguments, |arguments|))
    ensures !Collected(arguments, |arguments|).help
  {
    forall m: nat ensures !HelpAt(arguments, m) {
      if HelpAt(arguments, m) { GoodBefore(arguments, m, |arguments|); }
    }
  }

  // ---- Delays ----

  /** One turn of `Run`: no connection, or a session, after which the program may be asked to stop. */
  datatype Attempt = NoConnection | SessionEnded(authenticated: bool, stopping: bool)

  /** Attempts since the start, or since the last authenticated session, which itself is number 0. */
  function Since(attempts: seq<Attempt>, i: nat): nat
    requires i < |attempts|
  {
    if attempts[i].SessionEnded? && attempts[i].authenticated then 0
    else if i == 0 then 0
    else Since(attempts, i - 1) + 1
  }

  /** The delay of the k-th sleep. */
  function Delay(o: Options, k: nat): nat { Least(o.maxMs, o.initialMs * Pow(2, k)) }

  lemma DelayDoubles(o: Options, k: nat)
    requires Bounded(o)
    ensures Delay(o, k) * 2 < WORD32 && Delay(o, k + 1) == Least(o.maxMs, Delay(o, k) * 2)
    ensures o.initialMs <= o.maxMs ==> Delay(o, 0) == o.initialMs
  {
    assert Pow(2, k + 1) == 2 * Pow(2, k);
    assert o.initialMs * Pow(2, k + 1) == o.initialMs * Pow(2, k) * 2;
    assert Pow(2, 0) == 1;
  }

  /** The sleeps of `Run`, in 32-bit arithmetic: the k-th since the start or the last authenticated session
      is min(max, initial * 2^k), and the doubling never wraps. `attempts` runs out when the program is asked to stop. */
  method Run(options: Options, attempts: seq<Attempt>) returns (sleeps: seq<nat>)
    requires Accepted(options) && !options.help
    ensures |sleeps| <= |attempts| && forall i :: 0 <= i < |sleeps| ==> sleeps[i] == Delay(options, Since(attempts, i))
    ensures forall i :: 0 <= i < |sleeps| ==> attempts[i].NoConnection? || !attempts[i].stopping
    ensures |sleeps| < |attempts| ==> attempts[|sleeps|].SessionEnded? && attempts[|sleeps|].stopping
  {
    hide Delay, Pow, Since;
    sleeps := [];
    var reconnectDelay := options.initialMs;
    DelayDoubles(options, 0);
    while |sleeps| < |attempts|
      invariant |sleeps| <= |attempts|
      invariant forall i :: 0 <= i < |sleeps| ==> sleeps[i] == Delay(options, Since(attempts, i))
      invariant forall i :: 0 <= i < |sleeps| ==> attempts[i].NoConnection? || !attempts[i].stopping
      invariant reconnectDelay == Delay(options, Next(attempts, |sleeps|))
      decreases |attempts| - |sleeps|
    {
      var attempt := attempts[|sleeps|];
      NextSleep(attempts, |sleeps|);
      if attempt.SessionEnded? {
        if attempt.stopping {
          break;
        }
        if attempt.authenticated {
          reconnectDelay := options.initialMs;
        }
      }
      ghost var k := Since(attempts, |sleeps|);
      assert reconnectDelay == Delay(options, k);
      DelayDoubles(options, k);
      sleeps := sleeps + [reconnectDelay];
      reconnectDelay := Least(options.maxMs, reconnectDelay * 2 % WORD32);
    }
  }

  /** The number of the i-th sleep if its attempt is not an authenticated session. */
  function Next(attempts: seq<Attempt>, i: nat): nat
    requires i <= |attempts|
  {
    if i == 0 then 0 else Since(attempts, i - 1) + 1
  }

  lemma NextSleep(attempts: seq<Attempt>, i: nat)
    requires i < |attempts|
    ensures Since(attempts, i) == if attempts[i].SessionEnded? && attempts[i].authenticated then 0 else Next(attempts, i)
    ensures Next(attempts, i + 1) == Since(attempts, i) + 1
  {
  }

  function Sum(s: seq<nat>): nat { if s == [] then 0 else Sum(s[..|s| - 1]) + s[|s| - 1] }

  /** Slices of at most 100 ms that add up exactly; `polls` is how often the program finds that it may go on. */
  method SleepForReconnect(milliseconds: nat, polls: Option<nat>) returns (slices: seq<nat>)
    ensures forall i :: 0 <= i < |slices| ==> 1 <= slices[i] <= 100
    ensures polls.None? ==> Sum(slices) == milliseconds
    ensures polls.Some? ==> |slices| <= polls.value && Sum(slices) == Least(milliseconds, 100 * polls.value)
  {
    slices := [];
    var remaining := milliseconds;
    while remaining > 0 && (polls == None || |slices| < polls.value)
      invariant Sum(slices) + remaining == milliseconds
      invariant forall i :: 0 <= i < |slices| ==> 1 <= slices[i] <= 100
      invariant remaining > 0 ==> Sum(slices) == 100 * |slices|
      invariant polls.Some? ==> |slices| <= polls.value && Sum(slices) <= 100 * |slices|
      decreases remaining
    {
      var interval := Least(remaining, 100);
      assert (slices + [interval])[..|slices|] == slices;
      slices := slices + [interval];
      remaining := remaining - interval;
    }
  }
}
