/**
 * ScannerActivity: what a decoded camera frame leads to. A barcode that is not
 * a QR code goes back to the caller as `scanned_barcode`; a QR code is read as
 * the JSON payload `ShareIdQrCode` and, when it carries a share id, opens the
 * accept screen. `BarcodeAnalyzer` reports at most one code per scanner.
 *
 * The payload is written by Gson's default writer (HTML-safe escaping) as
 * `{"shareId":"<escaped id>"}`; the reader below accepts that canonical shape,
 * the empty document, `null`, `{}` and a null `shareId`.
 */
module Scanner {
  import opened Entities
  import opened FirstHit

  /** Lower-case hexadecimal digit, as Gson writes `\u` escapes. */
  function HexDigit(n: nat): (c: char)
    requires n < 16
  {
    if n < 10 then (48 + n) as char else (87 + n) as char
  }

  function HexValue(c: char): (v: Option<nat>)
    ensures v.Some? ==> v.value < 16
  {
    if '0' <= c <= '9' then Some(c as nat - 48)
    else if 'a' <= c <= 'f' then Some(c as nat - 87)
    else if 'A' <= c <= 'F' then Some(c as nat - 55)
    else None
  }

  lemma HexDigitValue(n: nat)
    requires n < 16
    ensures HexValue(HexDigit(n)) == Some(n)
  {
  }

  /** Characters Gson writes as `\u` followed by four hex digits. */
  predicate UnicodeEscaped(c: char)
  {
    || (c < ' ' && c != '\t' && c != '\U{8}' && c != '\n' && c != '\r' && c != '\U{C}')
    || c == '<' || c == '>' || c == '&' || c == '=' || c == '\''
    || c == '\U{2028}' || c == '\U{2029}'
  }

  function UnicodeEscape(c: char): string
    requires c as int < 0x10000
  {
    var n := c as int;
    "\\u" + [HexDigit(n / 4096), HexDigit(n / 256 % 16), HexDigit(n / 16 % 16), HexDigit(n % 16)]
  }

  /** How Gson's writer spells one character inside a string literal. */
  function EscapeChar(c: char): (e: string)
    ensures |e| >= 1
  {
    if c == '"' then "\\\""
    else if c == '\\' then "\\\\"
    else if c == '\t' then "\\t"
    else if c == '\U{8}' then "\\b"
    else if c == '\n' then "\\n"
    else if c == '\r' then "\\r"
    else if c == '\U{C}' then "\\f"
    else if UnicodeEscaped(c) then UnicodeEscape(c)
    else [c]
  }

  function Escape(s: string): (e: string)
    ensures |e| >= |s|
  {
    if |s| == 0 then "" else EscapeChar(s[0]) + Escape(s[1..])
  }

  /** The value of four hex digits, or None. */
  function Hex4(t: string): (v: Option<nat>)
    requires |t| >= 4
  {
    match (HexValue(t[0]), HexValue(t[1]), HexValue(t[2]), HexValue(t[3]))
    case (Some(a), Some(b), Some(c), Some(d)) => Some(((a * 16 + b) * 16 + c) * 16 + d)
    case _ => None
  }

  /**
   * The character an escape stands for, `t` starting just after the
   * backslash, and how many characters of `t` it used. Unknown escapes, bad
   * hex digits and any escaped UTF-16 surrogate, lone or paired, fail.
   */
  function ReadEscape(t: string): (r: Option<(char, nat)>)
    ensures r.Some? ==> 1 <= r.value.1 <= |t|
  {
    if |t| == 0 then None
    else if t[0] == 'u' then
      if |t| < 5 then None
      else match Hex4(t[1..5])
        case None => None
        case Some(code) =>
          if code < 0xD800 || 0xE000 <= code then Some((code as char, 5)) else None
    else if t[0] == 't' then Some(('\t', 1))
    else if t[0] == 'b' then Some(('\U{8}', 1))
    else if t[0] == 'n' then Some(('\n', 1))
    else if t[0] == 'r' then Some(('\r', 1))
    else if t[0] == 'f' then Some(('\U{C}', 1))
    else if t[0] == '\n' || t[0] == '\'' || t[0] == '"' || t[0] == '\\' || t[0] == '/' then Some((t[0], 1))
    else None
  }

  /** Reads a string literal's body up to its closing quote: the value and what follows the quote. */
  function ReadString(t: string): (r: Option<(string, string)>)
    decreases |t|
  {
    if |t| == 0 then None
    else if t[0] == '"' then Some(("", t[1..]))
    else if t[0] == '\\' then
      match ReadEscape(t[1..])
      case None => None
      case Some((c, used)) =>
        match ReadString(t[1 + used..])
        case None => None
        case Some((value, rest)) => Some(([c] + value, rest))
    else
      match ReadString(t[1..])
      case None => None
      case Some((value, rest)) => Some(([t[0]] + value, rest))
  }

  /** What follows the closing quote is a proper suffix of the input. */
  lemma {:induction false} ReadStringLeavesSuffix(t: string)
    ensures var r := ReadString(t); r.Some? ==> |r.value.1| < |t| && t[|t| - |r.value.1|..] == r.value.1
    decreases |t|
  {
    if |t| > 0 && t[0] != '"' {
      if t[0] == '\\' {
        match ReadEscape(t[1..])
        case None =>
        case Some((c, used)) =>
          ReadStringLeavesSuffix(t[1 + used..]);
      } else {
        ReadStringLeavesSuffix(t[1..]);
      }
    }
  }

  const FIELD_PREFIX: string := "{\"shareId\":"

  /** `Gson().toJson(ShareIdQrCode(shareId))`, the payload the initiator shows as a QR code. */
  function Encode(shareId: string): (payload: string)
    ensures |payload| >= |FIELD_PREFIX| + |shareId| + 3
    ensures payload[..|FIELD_PREFIX| + 1] == FIELD_PREFIX + "\""
    ensures payload[|payload| - 2..] == "\"}"
  {
    FIELD_PREFIX + "\"" + Escape(shareId) + "\"}"
  }

  /**
   * `gson.fromJson(content, ShareIdQrCode::class.java)`: Ok(Some(id)) for a
   * payload with a share id, Ok(None) where Gson yields a null object or a
   * null `shareId`, Err where it throws.
   */
  function Decode(payload: string): (r: Result<Option<string>>)
    ensures r == Ok(None) <==> payload == "" || payload == "null" || payload == "{}" || payload == FIELD_PREFIX + "null}"
    ensures r.Ok? && r.value.Some? ==>
      && |payload| >= |FIELD_PREFIX| + 3
      && payload[..|FIELD_PREFIX| + 1] == FIELD_PREFIX + "\""
      && payload[|payload| - 1] == '}'
  {
    if payload == "" || payload == "null" || payload == "{}" || payload == FIELD_PREFIX + "null}" then Ok(None)
    else if |payload| > |FIELD_PREFIX| && payload[..|FIELD_PREFIX|] == FIELD_PREFIX && payload[|FIELD_PREFIX|] == '"' then
      ReadStringLeavesSuffix(payload[|FIELD_PREFIX| + 1..]);
      match ReadString(payload[|FIELD_PREFIX| + 1..])
      case Some((value, rest)) => if rest == "}" then Ok(Some(value)) else Err
      case None => Err
    else Err
  }

  /** Reading one escaped character back yields that character, whatever follows it. */
  lemma ReadEscapedChar(c: char, t: string)
    ensures ReadString(EscapeChar(c) + t) ==
      match ReadString(t)
      case None => None
      case Some((value, rest)) => Some(([c] + value, rest))
  {
    var e := EscapeChar(c);
    if UnicodeEscaped(c) && !(c == '"' || c == '\\' || c == '\t' || c == '\U{8}' || c == '\n' || c == '\r' || c == '\U{C}') {
      var n := c as int;
      var digits := [HexDigit(n / 4096), HexDigit(n / 256 % 16), HexDigit(n / 16 % 16), HexDigit(n % 16)];
      HexDigitValue(n / 4096);
      HexDigitValue(n / 256 % 16);
      HexDigitValue(n / 16 % 16);
      HexDigitValue(n % 16);
      assert ((n / 4096 * 16 + n / 256 % 16) * 16 + n / 16 % 16) * 16 + n % 16 == n;
      assert Hex4(digits) == Some(n);
      assert e == "\\u" + digits;
      var u := (e + t)[1..];
      assert u == ['u'] + digits + t;
      assert u[1..5] == digits;
      assert ReadEscape(u) == Some((c, 5));
      assert (e + t)[1 + 5..] == t;
    } else if |e| == 2 {
      assert (e + t)[1..][0] == e[1];
      assert (e + t)[2..] == t;
    } else {
      assert (e + t)[1..] == t;
    }
  }

  /** The body Gson writes for `s`, followed by the closing quote, reads back as `s`. */
  lemma {:induction false} ReadEscapedString(s: string, rest: string)
    ensures ReadString(Escape(s) + "\"" + rest) == Some((s, rest))
  {
    if |s| == 0 {
      assert Escape(s) + "\"" + rest == "\"" + rest;
    } else {
      ReadEscapedString(s[1..], rest);
      assert Escape(s) + "\"" + rest == EscapeChar(s[0]) + (Escape(s[1..]) + "\"" + rest);
      ReadEscapedChar(s[0], Escape(s[1..]) + "\"" + rest);
      assert [s[0]] + s[1..] == s;
    }
  }

  /** Round trip: the payload written for a share id reads back as that share id. */
  lemma DecodeEncode(shareId: string)
    ensures Decode(Encode(shareId)) == Ok(Some(shareId))
  {
    var payload := Encode(shareId);
    var body := payload[|FIELD_PREFIX| + 1..];
    assert payload[..|FIELD_PREFIX|] == FIELD_PREFIX;
    assert payload[|FIELD_PREFIX|] == '"';
    assert body == Escape(shareId) + "\"" + "}";
    ReadEscapedString(shareId, "}");
    assert payload != FIELD_PREFIX + "null}" by {
      assert (FIELD_PREFIX + "null}")[|FIELD_PREFIX|] == 'n';
    }
  }

  /** What the activity does with a scan. */
  datatype ScanOutcome =
    | BarcodeResult(scannedBarcode: string)   // RESULT_OK with "scanned_barcode"
    | OpenAccept(shareId: string)             // starts the accept screen with "shareId"
    | NotRecognized                           // toast, RESULT_CANCELED

  const MSG_QR_NOT_RECOGNIZED: string := "QR Code non reconnu ou format invalide."

  /** `handleQrCodeScan`: a share id opens the accept screen; a null one or a parse failure is not recognised. */
  function HandleQrCodeScan(content: string): (o: ScanOutcome)
    ensures o.OpenAccept? <==> Decode(content).Ok? && Decode(content).value.Some?
    ensures o.OpenAccept? ==> o.shareId == Decode(content).value.value
    ensures !o.BarcodeResult?
  {
    match Decode(content)
    case Ok(Some(id)) => OpenAccept(id)
    case _ => NotRecognized
  }

  /** The callback given to `CameraPreview`: QR codes are parsed, anything else is returned as read. */
  function OnBarcodeScanned(raw: string, isQrCode: bool): (o: ScanOutcome)
    ensures !isQrCode ==> o == BarcodeResult(raw)
    ensures isQrCode ==> o == HandleQrCodeScan(raw)
  {
    if isQrCode then HandleQrCodeScan(raw) else BarcodeResult(raw)
  }

  /** The QR code the initiator shows is dispatched to the accept screen with the very share id it encodes. */
  lemma ShownCodeOpensAccept(shareId: string)
    ensures OnBarcodeScanned(Encode(shareId), true) == OpenAccept(shareId)
  {
    DecodeEncode(shareId);
  }

  /** Distinct share ids are shown as distinct QR payloads. */
  lemma EncodeInjective(id1: string, id2: string)
    requires Encode(id1) == Encode(id2)
    ensures id1 == id2
  {
    DecodeEncode(id1);
    DecodeEncode(id2);
  }

  /** The activity result the caller receives: only a plain barcode comes back as RESULT_OK with an extra. */
  function ActivityResult(o: ScanOutcome): (r: (bool, Option<string>))
    ensures r.0 <==> o.BarcodeResult?
    ensures r.1.Some? <==> o.BarcodeResult?
    ensures o.BarcodeResult? ==> r.1 == Some(o.scannedBarcode)
  {
    match o
    case BarcodeResult(raw) => (true, Some(raw))
    case _ => (false, None)   // `finish()` without a result, or RESULT_CANCELED
  }

  datatype BarcodeFormat = QrCode | Ean13

  /** One detected code: ML Kit's raw value may be null. */
  datatype Barcode = Barcode(rawValue: Option<string>, format: BarcodeFormat)

  function Readable(barcodes: seq<Barcode>): (hits: seq<bool>)
    ensures |hits| == |barcodes|
    ensures forall i :: 0 <= i < |hits| ==> hits[i] == barcodes[i].rawValue.Some?
  {
    seq(|barcodes|, i requires 0 <= i < |barcodes| => barcodes[i].rawValue.Some?)
  }

  /** The position of the code the analyzer reports from a batch: the first with a raw value. */
  function FirstReadable(barcodes: seq<Barcode>): Option<nat>
  {
    FirstTrue(Readable(barcodes), 0)
  }

  /** The reported code has a raw value and every code before it has none; no report means no raw value at all. */
  lemma FirstReadableIsFirst(barcodes: seq<Barcode>)
    ensures FirstReadable(barcodes).Some? ==>
      var i := FirstReadable(barcodes).value;
      i < |barcodes| && barcodes[i].rawValue.Some? && forall j :: 0 <= j < i ==> barcodes[j].rawValue.None?
    ensures FirstReadable(barcodes).None? <==> forall j :: 0 <= j < |barcodes| ==> barcodes[j].rawValue.None?
  {
    FirstTrueIsLeast(Readable(barcodes), 0);
  }

  /** One call of `onBarcodeScanned`: the raw value and whether it is a QR code. */
  datatype Report = Report(raw: string, isQrCode: bool)

  /** The report a batch yields, if any. */
  function BatchReport(barcodes: seq<Barcode>): Option<Report>
  {
    match FirstReadable(barcodes)
    case None => None
    case Some(i) =>
      if i < |barcodes| && barcodes[i].rawValue.Some? then
        Some(Report(barcodes[i].rawValue.value, barcodes[i].format == QrCode))
      else None
  }

  class BarcodeAnalyzer {
    var isScanning: bool
    /** Every `onBarcodeScanned` call made so far. */
    var reported: seq<Report>

    /** At most one report, and none while still scanning. */
    ghost predicate Valid()
      reads this
    {
      |reported| <= 1 && (isScanning ==> reported == [])
    }

    constructor ()
      ensures isScanning && reported == [] && Valid()
    {
      isScanning := true;
      reported := [];
    }

    /**
     * `analyze`: a frame goes to the scanner only when it has an image and
     * scanning is on; any other frame is closed at once. The latch means no
     * frame is submitted once a code was reported.
     */
    method Analyze(hasImage: bool) returns (submitted: bool)
      requires Valid()
      ensures submitted <==> hasImage && isScanning
      ensures submitted ==> reported == []
    {
      submitted := hasImage && isScanning;
    }

    /** The success listener: the first code with a raw value is reported, and scanning stops. */
    method OnSuccess(barcodes: seq<Barcode>)
      requires Valid()
      modifies this
      ensures Valid()
      ensures old(isScanning) && BatchReport(barcodes).Some? ==>
        !isScanning && reported == old(reported) + [BatchReport(barcodes).value]
      ensures !(old(isScanning) && BatchReport(barcodes).Some?) ==>
        isScanning == old(isScanning) && reported == old(reported)
    {
      FirstReadableIsFirst(barcodes);
      if isScanning && |barcodes| > 0 {
        for i := 0 to |barcodes|
          invariant forall j :: 0 <= j < i ==> barcodes[j].rawValue.None?
          invariant isScanning && reported == old(reported)
        {
          var rawValue := barcodes[i].rawValue;
          if rawValue.Some? {
            FirstTrueOfLeast(Readable(barcodes), 0, i);
            isScanning := false;
            reported := reported + [Report(rawValue.value, barcodes[i].format == QrCode)];
            return;
          }
        }
      }
    }

    /** `close`: scanning stops for good. */
    method Close()
      requires Valid()
      modifies this`isScanning
      ensures !isScanning && Valid()
    {
      isScanning := false;
    }
  }

  /**
   * Once a batch with a readable code was reported, the next frame of the same
   * analyzer is not submitted, whatever it holds.
   */
  method NoFrameAfterReport(barcodes: seq<Barcode>, hasImage: bool) returns (submitted: bool)
    ensures BatchReport(barcodes).Some? ==> !submitted
    ensures BatchReport(barcodes).None? ==> submitted == hasImage
  {
    var analyzer := new BarcodeAnalyzer();
    analyzer.OnSuccess(barcodes);
    submitted := analyzer.Analyze(hasImage);
  }

  /** After `close`, no frame is submitted. */
  method NoFrameAfterClose(hasImage: bool) returns (submitted: bool)
    ensures !submitted
  {
    var analyzer := new BarcodeAnalyzer();
    analyzer.Close();
    submitted := analyzer.Analyze(hasImage);
  }

  /** A batch with a readable code always yields a report, carrying the first readable raw value. */
  lemma BatchReportIsFirstReadable(barcodes: seq<Barcode>, i: nat)
    requires i < |barcodes| && barcodes[i].rawValue.Some?
    requires forall j :: 0 <= j < i ==> barcodes[j].rawValue.None?
    ensures BatchReport(barcodes) == Some(Report(barcodes[i].rawValue.value, barcodes[i].format == QrCode))
  {
    FirstTrueOfLeast(Readable(barcodes), 0, i);
  }
}
