// kbp/cmd/kbp/main.go: the command-line tool. It parses the -device string
// into a query, unescapes the layer text, and picks one action from the
// flags. Go strings are byte sequences, and so are the strings here.

module KbpMain {
  import opened Config
  import opened HidQuery
  import opened Kb

  const Colon: byte := 0x3a
  const Backslash: byte := 0x5c
  const LetterN: byte := 0x6e
  const Newline: byte := 0x0a

  // ---------------------------------------------------------------------
  // strings.Split(s, ":").

  /** strings.Split(s, ":"): the fields between the colons; an empty string is one empty field. */
  function Fields(s: seq<byte>): (fs: seq<seq<byte>>)
    ensures |fs| >= 1
  {
    if s == [] then [[]]
    else
      var r := Fields(s[1..]);
      if s[0] == Colon then [[]] + r else [[s[0]] + r[0]] + r[1..]
  }

  /** The number of colons in s. */
  function Colons(s: seq<byte>): nat
  {
    if s == [] then 0 else (if s[0] == Colon then 1 else 0) + Colons(s[1..])
  }

  /** The fields joined back with colons. */
  function Join(fs: seq<seq<byte>>): seq<byte>
    requires |fs| >= 1
  {
    if |fs| == 1 then fs[0] else fs[0] + [Colon] + Join(fs[1..])
  }

  predicate ColonFree(s: seq<byte>)
  {
    forall i :: 0 <= i < |s| ==> s[i] != Colon
  }

  /** Splitting yields one field more than there are colons, and no field holds a colon. */
  lemma {:induction false} FieldsCount(s: seq<byte>)
    ensures |Fields(s)| == Colons(s) + 1
    ensures forall k :: 0 <= k < |Fields(s)| ==> ColonFree(Fields(s)[k])
  {
    if s != [] {
      FieldsCount(s[1..]);
    }
  }

  /** Joining the fields gives back the string. */
  lemma {:induction false} JoinFields(s: seq<byte>)
    ensures Join(Fields(s)) == s
  {
    if s != [] {
      JoinFields(s[1..]);
      var r := Fields(s[1..]);
      if s[0] == Colon {
        assert Fields(s)[1..] == r;
      } else if |r| > 1 {
        assert Fields(s)[1..] == r[1..];
      }
    }
  }

  /** A field without colons followed by a colon splits off as the first field. */
  lemma {:induction false} FieldsOfPrefix(a: seq<byte>, rest: seq<byte>)
    requires ColonFree(a)
    ensures Fields(a + [Colon] + rest) == [a] + Fields(rest)
  {
    if a != [] {
      assert (a + [Colon] + rest)[1..] == a[1..] + [Colon] + rest;
      FieldsOfPrefix(a[1..], rest);
      assert [a[0]] + a[1..] == a;
    } else {
      assert a + [Colon] + rest == [Colon] + rest;
    }
  }

  /** A string without colons is a single field. */
  lemma {:induction false} FieldsOfColonFree(a: seq<byte>)
    requires ColonFree(a)
    ensures Fields(a) == [a]
  {
    if a != [] {
      FieldsOfColonFree(a[1..]);
      assert [a[0]] + a[1..] == a;
    }
  }

  /** Splitting colon-free fields joined with colons gives back the fields. */
  lemma {:induction false} FieldsOfJoin(fs: seq<seq<byte>>)
    requires |fs| >= 1 && forall k :: 0 <= k < |fs| ==> ColonFree(fs[k])
    ensures Fields(Join(fs)) == fs
  {
    if |fs| == 1 {
      FieldsOfColonFree(fs[0]);
    } else {
      FieldsOfJoin(fs[1..]);
      FieldsOfPrefix(fs[0], Join(fs[1..]));
      assert [fs[0]] + fs[1..] == fs;
    }
  }

  // ---------------------------------------------------------------------
  // strconv.ParseUint(s, 16, 16), its error ignored.

  /** The value of a hexadecimal digit, either case; None for any other byte. */
  function HexDigit(c: byte): (d: Option<nat>)
    ensures d.Some? ==> d.value < 16
  {
    if 0x30 <= c <= 0x39 then Some(c - 0x30)
    else if 0x61 <= c <= 0x66 then Some(c - 0x61 + 10)
    else if 0x41 <= c <= 0x46 then Some(c - 0x41 + 10)
    else None
  }

  predicate AllHex(s: seq<byte>)
  {
    forall i :: 0 <= i < |s| ==> HexDigit(s[i]).Some?
  }

  /**
   * ParseUint's scan from left to right with n accumulated so far: a byte
   * that is not a hex digit gives 0 (syntax error), a value past 0xffff
   * gives 0xffff at once (range error), whatever follows.
   */
  function ParseFrom(n: u16, s: seq<byte>): u16
    decreases |s|
  {
    if s == [] then n
    else match HexDigit(s[0])
      case None => 0
      case Some(d) => if n * 16 + d > 0xffff then 0xffff else ParseFrom(n * 16 + d, s[1..])
  }

  /** The value parse stores for a non-empty id field. */
  function ParseHex16(s: seq<byte>): u16
  {
    if s == [] then 0 else ParseFrom(0, s)
  }

  /** The value of a string of hex digits, accumulated onto n, without a bound. */
  function HexValueFrom(n: nat, s: seq<byte>): nat
    requires AllHex(s)
    decreases |s|
  {
    if s == [] then n else HexValueFrom(n * 16 + HexDigit(s[0]).value, s[1..])
  }

  lemma {:induction false} HexValueFromAtLeast(n: nat, s: seq<byte>)
    requires AllHex(s)
    ensures HexValueFrom(n, s) >= n
    decreases |s|
  {
    if s != [] {
      HexValueFromAtLeast(n * 16 + HexDigit(s[0]).value, s[1..]);
    }
  }

  /** On hex digits the scan computes the value, saturated at 0xffff. */
  lemma {:induction false} ParseFromDigits(n: u16, s: seq<byte>)
    requires AllHex(s)
    ensures ParseFrom(n, s) == Min(HexValueFrom(n, s), 0xffff)
    decreases |s|
  {
    if s != [] {
      var m := n * 16 + HexDigit(s[0]).value;
      if m > 0xffff {
        HexValueFromAtLeast(m, s[1..]);
      } else {
        ParseFromDigits(m, s[1..]);
      }
    }
  }

  /** A field of hex digits parses to its value when it fits in 16 bits, and to 0xffff when it does not. */
  lemma ParseHex16Digits(s: seq<byte>)
    requires s != [] && AllHex(s)
    ensures ParseHex16(s) == Min(HexValueFrom(0, s), 0xffff)
  {
    ParseFromDigits(0, s);
  }

  /** A byte that is not a hex digit, before any overflow, gives 0: "0x10" is 0. */
  lemma ParseHex16SyntaxError()
    ensures ParseHex16(Ascii("0x10")) == 0
  {
    var x := Ascii("0x10");
    assert x == [0x30, 0x78, 0x31, 0x30];
    assert ParseFrom(0, x) == ParseFrom(0, x[1..]) == 0;
  }

  /** Once the value passes 0xffff the rest is not looked at: "fffffz" is 0xffff. */
  lemma ParseHex16RangeError()
    ensures ParseHex16(Ascii("fffffz")) == 0xffff
  {
    var z := Ascii("fffffz");
    assert z == [0x66, 0x66, 0x66, 0x66, 0x66, 0x7a];
    assert ParseFrom(0xffff, z[4..]) == 0xffff;
    assert ParseFrom(0xfff, z[3..]) == ParseFrom(0xffff, z[4..]);
    assert ParseFrom(0xff, z[2..]) == ParseFrom(0xfff, z[3..]);
    assert ParseFrom(0, z) == ParseFrom(0xf, z[1..]) == ParseFrom(0xff, z[2..]);
  }

  /** A lower-case hex digit. */
  function HexChar(d: nat): (c: byte)
    requires d < 16
    ensures HexDigit(c) == Some(d)
  {
    if d < 10 then 0x30 + d else 0x61 + d - 10
  }

  /** The four hex digits of a 16-bit value, as the usage text writes ids. */
  function Hex4(v: u16): (s: seq<byte>)
    ensures |s| == 4 && AllHex(s) && ColonFree(s)
  {
    [HexChar(v / 16 / 16 / 16), HexChar(v / 16 / 16 % 16), HexChar(v / 16 % 16), HexChar(v % 16)]
  }

  /** The value of four hex digits. */
  lemma HexValueFour(s: seq<byte>)
    requires |s| == 4 && AllHex(s)
    ensures HexValueFrom(0, s) ==
      ((HexDigit(s[0]).value * 16 + HexDigit(s[1]).value) * 16 + HexDigit(s[2]).value) * 16 + HexDigit(s[3]).value
  {
    var d0, d1, d2, d3 := HexDigit(s[0]).value, HexDigit(s[1]).value, HexDigit(s[2]).value, HexDigit(s[3]).value;
    assert HexValueFrom(((d0 * 16 + d1) * 16 + d2) * 16 + d3, s[4..]) == ((d0 * 16 + d1) * 16 + d2) * 16 + d3;
    assert HexValueFrom((d0 * 16 + d1) * 16 + d2, s[3..]) == HexValueFrom(((d0 * 16 + d1) * 16 + d2) * 16 + d3, s[4..]);
    assert HexValueFrom(d0 * 16 + d1, s[2..]) == HexValueFrom((d0 * 16 + d1) * 16 + d2, s[3..]);
    assert HexValueFrom(d0, s[1..]) == HexValueFrom(d0 * 16 + d1, s[2..]);
  }

  /** Parsing four hex digits gives back the value. */
  lemma ParseHex4(v: u16)
    ensures ParseHex16(Hex4(v)) == v
  {
    var s := Hex4(v);
    var q1 := v / 16;
    var q2 := q1 / 16;
    assert q2 / 16 < 16;
    assert q2 / 16 * 16 + q2 % 16 == q2;
    assert q2 * 16 + q1 % 16 == q1;
    assert q1 * 16 + v % 16 == v;
    HexValueFour(s);
    ParseHex16Digits(s);
  }

  // ---------------------------------------------------------------------
  // parse.

  /** parse: six colon-separated fields; empty fields keep NewQueryParams' defaults. */
  function Parsed(dev: seq<byte>): (r: Option<Criteria>)
  {
    var p := Fields(dev);
    if |p| != 6 then None
    else Some(Criteria(
      usageId := if p[4] == [] then Defaults.usageId else ParseHex16(p[4]),
      usagePage := if p[5] == [] then Defaults.usagePage else ParseHex16(p[5]),
      vendorId := if p[2] == [] then Defaults.vendorId else ParseHex16(p[2]),
      productId := if p[3] == [] then Defaults.productId else ParseHex16(p[3]),
      productName := p[1],
      vendorName := p[0]))
  }

  /** A device string is accepted exactly when it has five colons. */
  lemma ParsedNeedsSixFields(dev: seq<byte>)
    ensures Parsed(dev).Some? <==> Colons(dev) == 5
  {
    FieldsCount(dev);
  }

  /** The default device string ":::::" gives exactly the default query. */
  lemma ParsedDefault()
    ensures Parsed(Ascii(":::::")) == Some(Defaults)
  {
    var s := Ascii(":::::");
    assert s == [Colon] + [Colon] + [Colon] + [Colon] + [Colon];
    assert Fields(s) == [[], [], [], [], [], []];
  }

  /** The device string of a query in the documented format VENDOR_NAME:PRODUCT_NAME:VENDOR_ID:PRODUCT_ID:USAGE_ID:USAGE_PAGE. */
  function Format(c: Criteria): seq<byte>
  {
    Join([c.vendorName, c.productName, Hex4(c.vendorId), Hex4(c.productId), Hex4(c.usageId), Hex4(c.usagePage)])
  }

  /** Every query whose names hold no colon can be written as a device string and parsed back. */
  lemma ParsedFormat(c: Criteria)
    requires ColonFree(c.vendorName) && ColonFree(c.productName)
    ensures Parsed(Format(c)) == Some(c)
  {
    var fs := [c.vendorName, c.productName, Hex4(c.vendorId), Hex4(c.productId), Hex4(c.usageId), Hex4(c.usagePage)];
    FieldsOfJoin(fs);
    ParseHex4(c.vendorId);
    ParseHex4(c.productId);
    ParseHex4(c.usageId);
    ParseHex4(c.usagePage);
  }

  /** parse: nil for a malformed string, otherwise a fresh DeviceQueryParams filled field by field. */
  method Parse(dev: seq<byte>) returns (d: QueryParams?)
    ensures d == null <==> Parsed(dev).None?
    ensures d != null ==> fresh(d) && d.Value() == Parsed(dev).value
  {
    var props := Fields(dev);
    if |props| != 6 {
      return null;
    }
    d := new QueryParams();
    if props[0] != [] {
      d.vendorName := props[0];
    }
    if props[1] != [] {
      d.productName := props[1];
    }
    if props[2] != [] {
      d.vendorId := ParseHex16(props[2]);
    }
    if props[3] != [] {
      d.productId := ParseHex16(props[3]);
    }
    if props[4] != [] {
      d.usageId := ParseHex16(props[4]);
    }
    if props[5] != [] {
      d.usagePage := ParseHex16(props[5]);
    }
  }

  // ---------------------------------------------------------------------
  // getDev.

  /** The zero DeviceInfo. */
  const NoDevice := DeviceInfo(HidInfo([], 0, 0, [], [], 0, 0))

  /** What getDev hands its caller: it panics, or returns a device and an error. */
  datatype Lookup = NilDereference | Lookup(device: DeviceInfo, err: Option<KbpError>)

  /**
   * getDev as written: a malformed device string makes parse return nil,
   * which openQuery dereferences; when the query does not find exactly one
   * device it returns the zero device with a nil error, because Query
   * never reports one.
   */
  function GetDevAsWritten(dev: seq<byte>, enumerated: seq<HidInfo>): (r: Lookup)
    ensures r == NilDereference <==> Parsed(dev).None?
    ensures r.Lookup? ==> r.err.None?
    ensures r.Lookup? && r.device != NoDevice ==>
              r.device.info in enumerated && Match(Parsed(dev).value, r.device.info) &&
              forall e :: e in enumerated && Match(Parsed(dev).value, e) ==> e == r.device.info
  {
    match Parsed(dev)
    case None => NilDereference
    case Some(c) =>
      var ds := Filter(c, enumerated);
      if |ds| != 1 then Lookup(NoDevice, None)
      else
        FilterKeepsMatches(c, enumerated);
        assert forall e :: e in ds ==> e == ds[0];
        Lookup(DeviceInfo(ds[0]), None)
  }

  /** getDev as intended: a malformed string or anything but one match is an error. */
  function GetDevSpec(dev: seq<byte>, enumerated: seq<HidInfo>): Lookup
  {
    match Parsed(dev)
    case None => Lookup(NoDevice, Some(NoDeviceFound))
    case Some(c) =>
      var ds := Filter(c, enumerated);
      if |ds| > 1 then Lookup(NoDevice, Some(NoUniqueDeviceFound))
      else if |ds| == 0 then Lookup(NoDevice, Some(NoDeviceFound))
      else Lookup(DeviceInfo(ds[0]), None)
  }

  /** As written, "-device a:b" (two fields) crashes the tool. */
  lemma GetDevAsWrittenPanics(enumerated: seq<HidInfo>)
    ensures GetDevAsWritten(Ascii("a:b"), enumerated) == NilDereference
  {
    var s := Ascii("a:b");
    assert s == [0x61] + [Colon] + [0x62];
    var a: seq<byte>, b: seq<byte> := [0x61], [0x62];
    FieldsOfColonFree(b);
    FieldsOfPrefix(a, b);
    assert s == a + [Colon] + b;
  }

  /** The query openDevice builds from the zero device has no criteria, so every interface meets it. */
  lemma NoDeviceMatchesAll(d: HidInfo)
    ensures Match(QueryOf(NoDevice.info), d)
  {
  }

  /**
   * As written, a device string that matches nothing still yields no error,
   * and the command is then sent to the zero device: on a bus with one
   * interface, openDevice opens that interface.
   */
  lemma GetDevAsWrittenFallsThrough(dev: seq<byte>, x: HidInfo)
    requires Parsed(dev).Some? && !Match(Parsed(dev).value, x)
    ensures GetDevAsWritten(dev, [x]) == Lookup(NoDevice, None)
    ensures OpenOutcome(NoDevice, [x], true) == Opened(x)
  {
    assert Filter(Parsed(dev).value, [x]) == [];
    assert Filter(QueryOf(NoDevice.info), [x]) == [x];
  }

  /** As intended, getDev never crashes, and returns a device without error only when it is the one match. */
  lemma GetDevFindsUnique(dev: seq<byte>, enumerated: seq<HidInfo>)
    ensures GetDevSpec(dev, enumerated) != NilDereference
    ensures var r := GetDevSpec(dev, enumerated);
            r.err.None? ==>
              Parsed(dev).Some? && r.device.info in enumerated && Match(Parsed(dev).value, r.device.info) &&
              forall e :: e in enumerated && Match(Parsed(dev).value, e) ==> e == r.device.info
  {
    var r := GetDevSpec(dev, enumerated);
    if r.err.None? {
      var c := Parsed(dev).value;
      FilterKeepsMatches(c, enumerated);
      var ds := Filter(c, enumerated);
      assert forall e :: e in ds ==> e == ds[0];
    }
  }

  /** getDev, as intended. */
  method GetDev(dev: seq<byte>, enumerated: seq<HidInfo>) returns (r: Lookup)
    ensures r == GetDevSpec(dev, enumerated)
  {
    var p := Parse(dev);
    if p == null {
      return Lookup(NoDevice, Some(NoDeviceFound));
    }
    var devs := Query(p, enumerated);
    if |devs| > 1 {
      return Lookup(NoDevice, Some(NoUniqueDeviceFound));
    }
    if |devs| == 0 {
      return Lookup(NoDevice, Some(NoDeviceFound));
    }
    return Lookup(devs[0], None);
  }

  // ---------------------------------------------------------------------
  // The layer text.

  /** strings.ReplaceAll(text, `\n`, "\n"): each two-byte escape, left to right, becomes a newline. */
  function Unescape(s: seq<byte>): (r: seq<byte>)
    ensures |r| <= |s|
  {
    if |s| >= 2 && s[0] == Backslash && s[1] == LetterN then [Newline] + Unescape(s[2..])
    else if s == [] then []
    else [s[0]] + Unescape(s[1..])
  }

  /** The text holds the escape `\n` at position i. */
  predicate EscapeAt(s: seq<byte>, i: int)
  {
    0 <= i && i + 1 < |s| && s[i] == Backslash && s[i + 1] == LetterN
  }

  predicate NoEscape(s: seq<byte>)
  {
    forall i :: 0 <= i < |s| ==> !EscapeAt(s, i)
  }

  /** Writing each newline as the escape `\n`. */
  function Escape(t: seq<byte>): seq<byte>
  {
    if t == [] then []
    else (if t[0] == Newline then [Backslash, LetterN] else [t[0]]) + Escape(t[1..])
  }

  /** Unescaping starts with 'n' only when the text does. */
  lemma UnescapeHead(s: seq<byte>)
    requires |Unescape(s)| > 0 && Unescape(s)[0] == LetterN
    ensures |s| > 0 && s[0] == LetterN
  {
  }

  /** No escape survives the replacement. */
  lemma {:induction false} UnescapeLeavesNoEscape(s: seq<byte>)
    ensures NoEscape(Unescape(s))
  {
    if |s| >= 2 && s[0] == Backslash && s[1] == LetterN {
      UnescapeLeavesNoEscape(s[2..]);
      var r := Unescape(s);
      assert forall i :: 1 <= i < |r| ==> r[i] == Unescape(s[2..])[i - 1];
      assert forall i :: 1 <= i < |r| ==> (EscapeAt(r, i) <==> EscapeAt(Unescape(s[2..]), i - 1));
    } else if s != [] {
      UnescapeLeavesNoEscape(s[1..]);
      var r := Unescape(s);
      var t := Unescape(s[1..]);
      assert forall i :: 1 <= i < |r| ==> r[i] == t[i - 1];
      assert forall i :: 1 <= i < |r| ==> (EscapeAt(r, i) <==> EscapeAt(t, i - 1));
      if EscapeAt(r, 0) {
        UnescapeHead(s[1..]);
      }
    }
  }

  /** A text without the escape is sent unchanged. */
  lemma {:induction false} UnescapeWithoutEscape(s: seq<byte>)
    requires NoEscape(s)
    ensures Unescape(s) == s
  {
    if s != [] {
      assert !EscapeAt(s, 0);
      forall i | 0 <= i < |s[1..]| ensures !EscapeAt(s[1..], i) {
        assert !EscapeAt(s, i + 1);
      }
      UnescapeWithoutEscape(s[1..]);
    }
  }

  /** Escaping the newlines of a text with no literal `\n` is undone by the replacement. */
  lemma {:induction false} UnescapeEscape(t: seq<byte>)
    requires NoEscape(t)
    ensures Unescape(Escape(t)) == t
  {
    if t != [] {
      forall i | 0 <= i < |t[1..]| ensures !EscapeAt(t[1..], i) {
        assert !EscapeAt(t, i + 1);
      }
      UnescapeEscape(t[1..]);
      var e := Escape(t[1..]);
      if t[0] == Newline {
        assert Escape(t) == [Backslash, LetterN] + e;
        assert Escape(t)[2..] == e;
      } else {
        assert Escape(t) == [t[0]] + e;
        assert Escape(t)[1..] == e;
        if t[0] == Backslash && |e| > 0 {
          assert !EscapeAt(t, 0);
          EscapeHead(t[1..]);
        }
      }
    }
  }

  /** The escaped text starts with 'n' only when the text does. */
  lemma EscapeHead(t: seq<byte>)
    requires |Escape(t)| > 0
    ensures Escape(t)[0] == LetterN ==> |t| > 0 && t[0] == LetterN
  {
  }

  // ---------------------------------------------------------------------
  // main.

  /** The command-line flags. */
  datatype Flags = Flags(
    cmd: seq<byte>,
    reset: bool,
    layer: int,
    text: seq<byte>,
    device: seq<byte>,
    oled: seq<byte>,
    hi: bool,
    echo: seq<byte>)

  /** What main does. */
  datatype Action =
    | ResetOled
    | InvalidOled
    | ToggleOled(on: bool)
    | SayHello
    | Ping(txt: seq<byte>)
    | LayerAndTextRequired
    | LayerOutOfRange
    | ProgramLayer(layer: byte, text: seq<byte>)
    | List
    | ShowDeviceInfo
    | SendRawData
    | ShowUsage

  /** main: the first flag that applies, in the order reset, oled, hi, echo, layer and text, cmd. */
  function Dispatch(f: Flags): (r: Action)
    ensures r == ResetOled <==> f.reset
    ensures r.ToggleOled? ==> !f.reset && (f.oled == Ascii("on") || f.oled == Ascii("off")) && r.on == (f.oled == Ascii("on"))
    ensures r.ProgramLayer? ==> 0 <= f.layer <= 3 && r.layer == f.layer && r.text == f.text != []
    ensures r in {List, ShowDeviceInfo, SendRawData, ShowUsage} <==>
              !f.reset && f.oled == [] && !f.hi && f.echo == [] && f.layer == -1 && f.text == []
  {
    if f.reset then ResetOled
    else if f.oled != [] && !(f.oled == Ascii("on") || f.oled == Ascii("off")) then InvalidOled
    else if f.oled != [] then ToggleOled(f.oled != Ascii("off"))
    else if f.hi then SayHello
    else if f.echo != [] then Ping(f.echo)
    else if f.layer != -1 || f.text != [] then
      if f.layer == -1 || f.text == [] then LayerAndTextRequired
      else if f.layer < 0 || f.layer > 3 then LayerOutOfRange
      else ProgramLayer(f.layer, f.text)
    else if f.cmd == Ascii("ls") then List
    else if f.cmd == Ascii("deviceinfo") then ShowDeviceInfo
    else if f.cmd == Ascii("raw") then SendRawData
    else ShowUsage
  }

  /** -reset wins over every other flag. */
  lemma ResetFirst(f: Flags)
    requires f.reset
    ensures Dispatch(f) == ResetOled
  {
  }

  /** -oled accepts "on" and "off" only, and wins over everything but -reset. */
  lemma OledSecond(f: Flags)
    requires !f.reset && f.oled != []
    ensures Dispatch(f) == if f.oled == Ascii("on") then ToggleOled(true)
                           else if f.oled == Ascii("off") then ToggleOled(false)
                           else InvalidOled
  {
  }

  /**
   * A layer is programmed exactly when no earlier flag applies, both -layer
   * and -text are given, and the layer is 0 to 3.
   */
  lemma ProgramIff(f: Flags)
    ensures Dispatch(f).ProgramLayer? <==>
            !f.reset && f.oled == [] && !f.hi && f.echo == [] && f.text != [] && 0 <= f.layer <= 3
    ensures Dispatch(f).ProgramLayer? ==> Dispatch(f).layer == f.layer && Dispatch(f).text == f.text
  {
  }

  /** Only one of -layer and -text, with no earlier flag, is refused. */
  lemma LayerNeedsText(f: Flags)
    requires !f.reset && f.oled == [] && !f.hi && f.echo == []
    requires (f.layer == -1) != (f.text == [])
    ensures Dispatch(f) == LayerAndTextRequired
  {
  }

  /** -cmd is consulted only when no other flag applies. */
  lemma ToolsLast(f: Flags)
    requires Dispatch(f) in {List, ShowDeviceInfo, SendRawData}
    ensures !f.reset && f.oled == [] && !f.hi && f.echo == [] && f.layer == -1 && f.text == []
  {
  }

  /** program: find the device, unescape the text and send it to the layer. */
  method Program(devString: seq<byte>, bus: Bus, dev: Device, layer: byte, text: seq<byte>) returns (err: Option<KbpError>)
    modifies dev
    ensures var r := GetDevSpec(devString, bus.enumerated);
            (r.err.Some? ==> err == r.err && dev.State() == old(dev.State())) &&
            (r.err.None? ==>
              var open := OpenOutcome(r.device, bus.enumerated, bus.openOk);
              (open.OpenFailed? ==> err == Some(open.err) && dev.State() == old(dev.State())) &&
              (open.Opened? ==> Outcome(dev.State(), err) == Segmented(old(dev.State()), layer, Unescape(text))))
  {
    var r := GetDev(devString, bus.enumerated);
    if r.err.Some? {
      return r.err;
    }
    var t := Unescape(text);
    err := SendLayerUpdate(r.device, bus, dev, layer, t);
  }
}
