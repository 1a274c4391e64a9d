/** The configuration reader: the `[acpi]`, `[evdev]` and `[timer]` sections
    of the INI file become the two filters and the timer flag. The file is
    taken as already loaded: a map from section name to the section's
    key/value pairs. */
module Args {
  import opened Wrappers
  import opened Primitives
  import opened Strings
  import opened Filter

  type Properties = map<string, string>
  type Ini = map<string, Properties>

  const AcpiSection := "acpi"
  const DeviceClassKey := "device_class_whitelist"
  const EvdevSection := "evdev"
  const TypeKey := "type_whitelist"
  const CodeKey := "code_whitelist"
  const TimerSection := "timer"
  const ResetOnInputKey := "reset_on_input"
  const ListSeparator := ","

  /** `ini.section(Some(section))` followed by `get(key)`. */
  function Lookup(ini: Ini, section: string, key: string): (r: Option<string>)
    ensures r.Some? <==> section in ini && key in ini[section]
    ensures r.Some? ==> r.value == ini[section][key]
  {
    if section in ini && key in ini[section] then Some(ini[section][key]) else None
  }

  // ---------------------------------------------------------------- [acpi]

  /** The pieces that are not empty, in order (the `filter_map` over the split). */
  function NonEmpty(pieces: seq<string>): (r: seq<string>)
    ensures |r| <= |pieces|
    ensures forall i :: 0 <= i < |r| ==> r[i] != ""
    ensures forall x :: x in r <==> x in pieces && x != ""
  {
    if |pieces| == 0 then []
    else if pieces[0] == "" then NonEmpty(pieces[1..])
    else
      assert forall x :: x in pieces <==> x == pieces[0] || x in pieces[1..];
      [pieces[0]] + NonEmpty(pieces[1..])
  }

  /** Pieces that are all non-empty are kept as they are. */
  lemma {:induction false} NonEmptyKeepsAll(pieces: seq<string>)
    requires forall i :: 0 <= i < |pieces| ==> pieces[i] != ""
    ensures NonEmpty(pieces) == pieces
  {
    if |pieces| > 0 {
      NonEmptyKeepsAll(pieces[1..]);
    }
  }

  /** Dropping the empty pieces keeps the order: it works piece by piece. */
  lemma {:induction false} NonEmptyConcat(a: seq<string>, b: seq<string>)
    ensures NonEmpty(a + b) == NonEmpty(a) + NonEmpty(b)
  {
    if |a| > 0 {
      assert (a + b)[1..] == a[1..] + b;
      NonEmptyConcat(a[1..], b);
    } else {
      assert a + b == b;
    }
  }

  /** A piece of a split at a one-character separator does not hold it. */
  lemma SplitPiecesLackSep(s: string, c: char)
    ensures forall k :: 0 <= k < |Split(s, [c])| ==> c !in Split(s, [c])[k]
  {
    SplitPiecesAvoidSep(s, [c]);
    forall k, v | 0 <= k < |Split(s, [c])| && 0 <= v < |Split(s, [c])[k]|
      ensures Split(s, [c])[k][v] != c
    {
      OccursSingle(Split(s, [c])[k], c, v);
    }
  }

  /** `parse_acpi_config`: the comma-separated device classes, empty ones
      dropped; no section or no key gives the wildcard filter. */
  function ParseAcpiConfig(ini: Ini): (f: AcpiFilter)
    ensures Lookup(ini, AcpiSection, DeviceClassKey).None? ==> f.deviceClassWhitelist == []
    ensures forall i :: 0 <= i < |f.deviceClassWhitelist| ==>
      f.deviceClassWhitelist[i] != "" && ',' !in f.deviceClassWhitelist[i]
    ensures Lookup(ini, AcpiSection, DeviceClassKey).Some? ==> forall c ::
      c in f.deviceClassWhitelist <==> c != "" && c in Split(Lookup(ini, AcpiSection, DeviceClassKey).value, ListSeparator)
  {
    match Lookup(ini, AcpiSection, DeviceClassKey)
    case None => AcpiFilter([])
    case Some(wl) =>
      var pieces := Split(wl, ListSeparator);
      var kept := NonEmpty(pieces);
      SplitPiecesLackSep(wl, ',');
      assert forall i :: 0 <= i < |kept| ==> ',' !in kept[i] by {
        forall i | 0 <= i < |kept| ensures ',' !in kept[i] {
          assert kept[i] in pieces;
        }
      }
      AcpiFilter(kept)
  }

  /** Device classes written comma-separated are read back as written. */
  lemma ParseAcpiConfigJoin(ini: Ini, classes: seq<string>)
    requires |classes| > 0
    requires forall i :: 0 <= i < |classes| ==> classes[i] != "" && ',' !in classes[i]
    requires Lookup(ini, AcpiSection, DeviceClassKey) == Some(Join(classes, ListSeparator))
    ensures ParseAcpiConfig(ini).deviceClassWhitelist == classes
  {
    SplitJoin(classes, ',');
    NonEmptyKeepsAll(classes);
  }

  // ---------------------------------------------------------------- numbers

  predicate IsDigit(c: char) {
    '0' <= c <= '9'
  }

  predicate AllDigits(s: string) {
    forall i :: 0 <= i < |s| ==> IsDigit(s[i])
  }

  /** The value of a string of decimal digits, most significant first. */
  function DigitsValue(s: string): nat
    requires AllDigits(s)
  {
    if |s| == 0 then 0 else 10 * DigitsValue(s[..|s| - 1]) + (s[|s| - 1] as int - '0' as int)
  }

  /** The digits after an optional leading plus sign. */
  function Unsigned(s: string): (d: string)
    ensures |s| > 0 && s[0] == '+' ==> d == s[1..]
    ensures !(|s| > 0 && s[0] == '+') ==> d == s
  {
    if |s| > 0 && s[0] == '+' then s[1..] else s
  }

  /** `str::parse::<u16>`: an optional plus sign and at least one decimal
      digit, of value at most 65535; a minus sign, any other character, an
      empty string or an overflow is an error. */
  function ParseU16(s: string): (r: Option<u16>)
    ensures r.Some? <==> |Unsigned(s)| > 0 && AllDigits(Unsigned(s)) && DigitsValue(Unsigned(s)) < 0x1_0000
    ensures r.Some? ==> r.value == DigitsValue(Unsigned(s))
    ensures "-" <= s || "" == s ==> r.None?
  {
    var digits := Unsigned(s);
    if |digits| == 0 || !AllDigits(digits) then None
    else
      var v := DigitsValue(digits);
      if v < 0x1_0000 then Some(v) else None
  }

  /** The decimal digits of `n`, without leading zeros. */
  function Decimal(n: nat): (s: string)
    ensures |s| > 0 && AllDigits(s)
    ensures ',' !in s
  {
    var d := ['0' + (n % 10) as char];
    if n < 10 then d else Decimal(n / 10) + d
  }

  lemma {:induction false} DecimalValue(n: nat)
    ensures DigitsValue(Decimal(n)) == n
  {
    if n >= 10 {
      DecimalValue(n / 10);
      var s := Decimal(n);
      assert s[..|s| - 1] == Decimal(n / 10);
    }
  }

  /** Every `u16` written in decimal, with or without a plus sign, parses back. */
  lemma ParseU16Decimal(n: u16)
    ensures ParseU16(Decimal(n)) == Some(n)
    ensures ParseU16("+" + Decimal(n)) == Some(n)
  {
    DecimalValue(n);
    assert ("+" + Decimal(n))[1..] == Decimal(n);
  }

  /** Some piece parses as `x`. */
  ghost predicate ParsesTo(pieces: seq<string>, x: u16) {
    exists i :: 0 <= i < |pieces| && ParseU16(pieces[i]) == Some(x)
  }

  /** The pieces that parse as `u16`, in order; the others are dropped. */
  function ParsedU16s(pieces: seq<string>): (r: seq<u16>)
    ensures |r| <= |pieces|
    ensures forall x :: x in r <==> ParsesTo(pieces, x)
  {
    if |pieces| == 0 then []
    else
      var rest := ParsedU16s(pieces[1..]);
      assert forall x: u16 :: ParsesTo(pieces, x) <==> ParseU16(pieces[0]) == Some(x) || ParsesTo(pieces[1..], x) by {
        forall x: u16 | ParsesTo(pieces, x) && ParseU16(pieces[0]) != Some(x)
          ensures ParsesTo(pieces[1..], x)
        {
          var i :| 0 <= i < |pieces| && ParseU16(pieces[i]) == Some(x);
          assert pieces[1..][i - 1] == pieces[i];
        }
        forall x: u16 | ParsesTo(pieces[1..], x)
          ensures ParsesTo(pieces, x)
        {
          var i :| 0 <= i < |pieces[1..]| && ParseU16(pieces[1..][i]) == Some(x);
          assert pieces[i + 1] == pieces[1..][i];
        }
      }
      match ParseU16(pieces[0])
      case Some(v) => [v] + rest
      case None => rest
  }

  /** Parsing keeps the order: it works piece by piece. */
  lemma {:induction false} ParsedU16sConcat(a: seq<string>, b: seq<string>)
    ensures ParsedU16s(a + b) == ParsedU16s(a) + ParsedU16s(b)
  {
    if |a| > 0 {
      assert (a + b)[1..] == a[1..] + b;
      ParsedU16sConcat(a[1..], b);
    } else {
      assert a + b == b;
    }
  }

  /** The numbers written in decimal, one piece each. */
  function Decimals(ns: seq<u16>): (r: seq<string>)
    ensures |r| == |ns|
    ensures forall k :: 0 <= k < |r| ==> r[k] == Decimal(ns[k])
  {
    if |ns| == 0 then [] else [Decimal(ns[0])] + Decimals(ns[1..])
  }

  /** Numbers written in decimal are read back in order. */
  lemma {:induction false} ParsedU16sDecimals(ns: seq<u16>)
    ensures ParsedU16s(Decimals(ns)) == ns
  {
    if |ns| > 0 {
      ParseU16Decimal(ns[0]);
      ParsedU16sDecimals(ns[1..]);
      assert Decimals(ns)[1..] == Decimals(ns[1..]);
    }
  }

  // ---------------------------------------------------------------- [evdev]

  /** A comma-separated list of numbers; a missing key reads as the empty
      string, whose single empty piece does not parse. */
  function U16List(value: Option<string>): (r: seq<u16>)
    ensures value.None? ==> r == []
    ensures value.Some? ==> forall x :: x in r <==> ParsesTo(Split(value.value, ListSeparator), x)
  {
    var text := if value.Some? then value.value else "";
    var pieces := Split(text, ListSeparator);
    assert value.None? ==> pieces == [""] by {
      if value.None? {
        AbsentHeadNotContained(text, ListSeparator);
      }
    }
    ParsedU16s(pieces)
  }

  /** `parse_evdev_config`: the type and code lists; the value list is never
      read from the file and stays empty, so no value is filtered. */
  function ParseEvdevConfig(ini: Ini): (f: EvdevFilter)
    ensures f.evdevValueWhitelist == []
    ensures f.evdevTypeWhitelist == U16List(Lookup(ini, EvdevSection, TypeKey))
    ensures f.evdevCodeWhitelist == U16List(Lookup(ini, EvdevSection, CodeKey))
    ensures EvdevSection !in ini ==> f.IsWildcard()
  {
    if EvdevSection in ini then
      EvdevFilter(U16List(Lookup(ini, EvdevSection, TypeKey)), U16List(Lookup(ini, EvdevSection, CodeKey)), [])
    else
      EvdevFilter([], [], [])
  }

  /** Types written comma-separated in decimal are read back as written. */
  lemma U16ListJoin(ns: seq<u16>)
    requires |ns| > 0
    ensures U16List(Some(Join(Decimals(ns), ListSeparator))) == ns
  {
    SplitJoin(Decimals(ns), ',');
    ParsedU16sDecimals(ns);
  }

  /** With every number of the two lists written in decimal, the filter holds
      exactly those numbers and admits any value. */
  lemma ParseEvdevConfigJoin(ini: Ini, types: seq<u16>, codes: seq<u16>)
    requires |types| > 0 && |codes| > 0
    requires Lookup(ini, EvdevSection, TypeKey) == Some(Join(Decimals(types), ListSeparator))
    requires Lookup(ini, EvdevSection, CodeKey) == Some(Join(Decimals(codes), ListSeparator))
    ensures ParseEvdevConfig(ini) == EvdevFilter(types, codes, [])
  {
    U16ListJoin(types);
    U16ListJoin(codes);
  }

  // ---------------------------------------------------------------- [timer]

  /** `str::parse::<bool>`: exactly "true" or "false". */
  function ParseBool(s: string): (r: Option<bool>)
    ensures r == Some(true) <==> s == "true"
    ensures r == Some(false) <==> s == "false"
    ensures r.None? <==> s != "true" && s != "false"
  {
    if s == "true" then Some(true) else if s == "false" then Some(false) else None
  }

  /** `parse_timer_config`: on exactly when the key is present and reads "true";
      a missing section or key and any value that is not a boolean mean off. */
  function ParseTimerConfig(ini: Ini): (r: bool)
    ensures r <==> TimerSection in ini && ResetOnInputKey in ini[TimerSection] && ini[TimerSection][ResetOnInputKey] == "true"
  {
    match Lookup(ini, TimerSection, ResetOnInputKey)
    case None => false
    case Some(v) =>
      match ParseBool(v)
      case Some(b) => b
      case None => false
  }

  // ---------------------------------------------------------------- the file

  datatype CfgFile = CfgFile(acpi: AcpiFilter, evdev: EvdevFilter, input: bool)

  /** `parse_config` once the file is loaded: the three sections read independently. */
  function ParseConfig(ini: Ini): (c: CfgFile)
    ensures c.input <==> Lookup(ini, TimerSection, ResetOnInputKey) == Some("true")
    ensures c.evdev.evdevValueWhitelist == []
    ensures Lookup(ini, AcpiSection, DeviceClassKey).None? ==> c.acpi.IsWildcard()
  {
    CfgFile(ParseAcpiConfig(ini), ParseEvdevConfig(ini), ParseTimerConfig(ini))
  }

  /** Each section is read on its own: changing a section other than `[acpi]`
      and `[evdev]` leaves both filters unchanged, and one other than `[timer]`
      also leaves the timer flag unchanged. */
  lemma SectionsIndependent(ini: Ini, section: string, props: Properties)
    requires section != AcpiSection && section != EvdevSection
    ensures ParseAcpiConfig(ini[section := props]) == ParseAcpiConfig(ini)
    ensures ParseEvdevConfig(ini[section := props]) == ParseEvdevConfig(ini)
    ensures section != TimerSection ==> ParseTimerConfig(ini[section := props]) == ParseTimerConfig(ini)
  {
  }
}
