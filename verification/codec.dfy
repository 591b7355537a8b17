/** The Solarmax wire codec: the additive checksum, frame validation, request
    framing and the typed decoding of a response into a snapshot. */
module Codec {
  import opened Text
  import opened Hex
  import opened Catalog
  import opened Timestamp
  import opened Folds

  /** A decoded value. `Scaled` keeps the hex integer and its factor instead of
      the rounded float; `Number` is a plain number the logger writes itself
      (a value forced to zero, the modification marker). */
  datatype FieldValue =
    | Raw(text: string)
    | Scaled(raw: nat, factor: Factor)
    | Time(stamp: DateTime)
    | Number(x: real)

  /** One entry of a snapshot: `{'value': ..., 'description': ...}`. */
  datatype Field = Field(value: FieldValue, description: string)

  /** Code to decoded entry. */
  type Snapshot = map<string, Field>

  /** The exact number behind `round(float(int(val, 16)) * factor, 3)`. */
  function Magnitude(raw: nat, f: Factor): real {
    raw as real * f.Real()
  }

  lemma MagnitudeExample()
    ensures Magnitude(0x41, Tenth) == 6.5
  {
  }

  // ---------------------------------------------------------------- checksum

  /** Sum of the character codes. */
  function CharSum(s: string): (sum: nat)
    ensures forall i :: 0 <= i < |s| ==> s[i] as int <= sum
  {
    if |s| == 0 then 0
    else
      var init := s[..|s| - 1];
      assert forall i :: 0 <= i < |init| ==> init[i] == s[i];
      CharSum(init) + (s[|s| - 1] as int)
  }

  lemma {:induction false} CharSumAppend(a: string, b: string)
    ensures CharSum(a + b) == CharSum(a) + CharSum(b)
    decreases |b|
  {
    if |b| > 0 {
      var ab := a + b;
      assert ab[..|ab| - 1] == a + b[..|b| - 1];
      CharSumAppend(a, b[..|b| - 1]);
    } else {
      assert a + b == a;
    }
  }

  /** Four hex digits never exceed 0xFFFF. */
  lemma {:induction false} ValueBelowPow16(t: string)
    requires AllHex(t)
    ensures Value(t) < Pow16(|t|)
    decreases |t|
  {
    if |t| > 0 {
      ValueBelowPow16(t[..|t| - 1]);
    }
  }

  /** `_calcChecksum`: the character sum in upper-case hex, left-padded with
      zeros to at least four digits and never truncated. */
  function Checksum(s: string): (cs: string)
    ensures |cs| >= 4 && AllUpperHex(cs)
    ensures ParseHex(cs) == Some(CharSum(s))
    ensures |cs| == 4 <==> CharSum(s) < 0x10000
    ensures |cs| > 4 ==> cs[0] != '0'
  {
    var h := ToHex(CharSum(s));
    ValueOfToHex(CharSum(s));
    ValueOfPadZeros(h, 4);
    ToHexWidth(CharSum(s), 4);
    assert Pow16(4) == 0x10000;
    PadZeros(h, 4)
  }

  lemma ChecksumExample()
    ensures Checksum("AB") == "0083"
  {
    assert CharSum("AB") == 131 by { assert "AB"[..1] == "A" && "A"[..0] == ""; }
    assert ToHex(131) == "83";
  }

  /** The four characters before the last: where a frame carries its checksum. */
  function ChecksumField(s: string): string { Slice(s, -5, -1) }

  /** Everything between the first character and the checksum field. */
  function CheckedBody(s: string): string { Slice(s, 1, -5) }

  /** `_validateChecksum`. A frame of five characters or more is valid exactly
      when its checksum field is four upper-case hex digits whose value is the
      character sum of the checked body. */
  function Validate(s: string): (ok: bool)
    ensures ok ==> |s| >= 5
    ensures ok ==> CharSum(CheckedBody(s)) < 0x10000
    ensures ok <==>
      && |s| >= 5
      && AllUpperHex(ChecksumField(s))
      && ParseHex(ChecksumField(s)) == Some(CharSum(CheckedBody(s)))
  {
    if |s| < 5 then false
    else
      var field, body := ChecksumField(s), CheckedBody(s);
      ChecksumFieldIsChecksum(field, body);
      field == Checksum(body)
  }

  /** Four upper-case hex digits denoting the character sum of `body` are
      exactly its checksum. */
  lemma ChecksumFieldIsChecksum(field: string, body: string)
    requires |field| == 4
    ensures AllUpperHex(field) && ParseHex(field) == Some(CharSum(body)) ==> field == Checksum(body)
  {
    if AllUpperHex(field) && ParseHex(field) == Some(CharSum(body)) {
      ValueBelowPow16(field);
      assert Pow16(4) == 0x10000;
      ValueInjective(field, Checksum(body));
    }
  }

  /** A frame built as start marker, body, checksum of the body and end
      marker validates exactly when the body's character sum fits four hex
      digits; beyond that the checksum grows and the validator reads the
      wrong characters. */
  lemma FrameValidates(b: string)
    ensures Validate("{" + b + Checksum(b) + "}") <==> CharSum(b) < 0x10000
  {
    var cs := Checksum(b);
    var f := "{" + b + cs + "}";
    assert ChecksumField(f) == cs[|cs| - 4..];
    assert CheckedBody(f) == b + cs[..|cs| - 4];
    if CharSum(b) >= 0x10000 {
      CharSumAppend(b, cs[..|cs| - 4]);
      assert |Checksum(CheckedBody(f))| != |ChecksumField(f)|;
    } else {
      assert cs[..|cs| - 4] == "" && b + "" == b;
    }
  }

  /** A five-character frame has no room for a start marker: its first four
      characters are the checksum of the empty body, so `0000}` validates. */
  lemma ShortFrameValidates()
    ensures Validate("0000}")
  {
    assert CheckedBody("0000}") == "";
    assert ChecksumField("0000}") == "0000";
    assert Checksum("") == "0000";
  }

  // ---------------------------------------------------------------- framing

  const SourceAddress: string := "FB"
  const DestinationAddress: string := "01"

  /** `sum([len(i) for i in x])`. */
  function TotalLength(items: seq<string>): nat {
    if |items| == 0 then 0 else |items[0]| + TotalLength(items[1..])
  }

  /** The length field's value: `sum(len) + (n - 1) + 19`. */
  function LengthValue(items: seq<string>): nat {
    TotalLength(items) + |items| + 18
  }

  /** The data loop: every item followed by `;`. */
  function Terminated(items: seq<string>): string {
    if |items| == 0 then "" else items[0] + ";" + Terminated(items[1..])
  }

  /** The request header: start marker, addresses, length field, port `64`. */
  function Header(cmds: seq<string>): string {
    "{" + SourceAddress + ";" + DestinationAddress + ";" + ToHex(LengthValue(cmds)) + "|64:"
  }

  /** The request before its checksum: the header and the data loop, with
      the last character replaced by `|`. */
  function Closed(cmds: seq<string>): string {
    var data := Header(cmds) + Terminated(cmds);
    Slice(data, 0, |data| - 1) + "|"
  }

  /** `_encodeRequest`: the checksum covers everything after the start marker;
      then the end marker. The device address argument of the source is not
      used. A non-empty command list is encoded as the frame from `FB` to
      `01`: the commands joined by `;` with no trailing separator. */
  function Encode(cmds: seq<string>): (req: string)
    ensures |cmds| > 0 ==> req == Frame(SourceAddress, DestinationAddress, cmds)
  {
    var closed := Closed(cmds);
    var req := closed + Checksum(Slice(closed, 1, |closed|)) + "}";
    assert |cmds| > 0 ==> req == Frame(SourceAddress, DestinationAddress, cmds) by {
      if |cmds| > 0 {
        ClosedIsBody(cmds);
        var body := FrameBody(SourceAddress, DestinationAddress, cmds);
        assert closed[1..] == body;
        assert Slice(closed, 1, |closed|) == body;
      }
    }
    req
  }

  /** The checked body of a frame from `src` to `dst` carrying `items`. */
  function FrameBody(src: string, dst: string, items: seq<string>): string {
    src + ";" + dst + ";" + ToHex(LengthValue(items)) + "|64:" + Join(items, ';') + "|"
  }

  /** A complete frame in the layout shared by requests and responses. */
  function Frame(src: string, dst: string, items: seq<string>): string {
    "{" + FrameBody(src, dst, items) + Checksum(FrameBody(src, dst, items)) + "}"
  }

  lemma {:induction false} TerminatedIsJoin(items: seq<string>)
    requires |items| > 0
    ensures Terminated(items) == Join(items, ';') + ";"
    decreases |items|
  {
    if |items| > 1 {
      TerminatedIsJoin(items[1..]);
    }
  }

  lemma {:induction false} JoinLength(items: seq<string>)
    requires |items| > 0
    ensures |Join(items, ';')| == TotalLength(items) + |items| - 1
    decreases |items|
  {
    if |items| > 1 {
      JoinLength(items[1..]);
    }
  }

  lemma ClosedIsBody(cmds: seq<string>)
    requires |cmds| > 0
    ensures Closed(cmds) == "{" + FrameBody(SourceAddress, DestinationAddress, cmds)
  {
    TerminatedIsJoin(cmds);
    var data := Header(cmds) + Terminated(cmds);
    var joined := Header(cmds) + Join(cmds, ';');
    assert data == joined + ";";
    assert Slice(data, 0, |data| - 1) == joined;
  }

  /** The empty command list loses the `:` of the header instead of a `;`. */
  lemma EncodeEmpty()
    ensures Encode([]) == "{FB;01;12|64|" + Checksum("FB;01;12|64|") + "}"
  {
    ClosedEmpty();
    var closed, body := Closed([]), "FB;01;12|64|";
    assert closed[1..] == body;
    assert Slice(closed, 1, |closed|) == body;
  }

  lemma ClosedEmpty()
    ensures Closed([]) == "{FB;01;12|64|"
  {
    var open := "{FB;01;12|64";
    assert ToHex(18) == "12";
    var data := Header([]) + Terminated([]);
    assert data == open + ":";
    assert Slice(data, 0, |data| - 1) == open;
  }

  /** The encoder checksums exactly what the validator re-sums, so a request
      validates exactly when its body's character sum fits four hex digits. */
  lemma EncodeValidates(cmds: seq<string>)
    requires |cmds| > 0
    ensures Validate(Encode(cmds)) <==> CharSum(FrameBody(SourceAddress, DestinationAddress, cmds)) < 0x10000
  {
    FrameValidates(FrameBody(SourceAddress, DestinationAddress, cmds));
  }

  /** With a two-digit length field and a four-digit checksum, the length
      field states the length of the whole frame. */
  lemma EncodeLength(cmds: seq<string>)
    requires |cmds| > 0
    requires LengthValue(cmds) < 0x100
    requires CharSum(FrameBody(SourceAddress, DestinationAddress, cmds)) < 0x10000
    ensures |ToHex(LengthValue(cmds))| == 2
    ensures |Encode(cmds)| == LengthValue(cmds)
  {
    JoinLength(cmds);
    ToHexWidth(LengthValue(cmds), 1);
    ToHexWidth(LengthValue(cmds), 2);
    assert Pow16(1) == 16 && Pow16(2) == 0x100;
  }

  // ---------------------------------------------------------------- decoding

  /** A query table: code to name and decoding rule. The poller decodes with
      `QueryMap`; the decoding lemmas hold for any table. */
  type Table = map<string, FieldSpec>

  /** `data[:-6].split(':')[1].split(';')`, or `None` where indexing `[1]`
      raises because there is no `:`. */
  function Items(data: string): (r: Option<seq<string>>)
    ensures r.Some? <==> ':' in Slice(data, 0, -6)
    ensures r.Some? ==>
      var segment := Split(Slice(data, 0, -6), ':')[1];
      && ':' !in segment
      && Join(r.value, ';') == segment
      && forall i :: 0 <= i < |r.value| ==> ';' !in r.value[i]
  {
    var stripped := Slice(data, 0, -6);
    var parts := Split(stripped, ':');
    if |parts| < 2 then
      assert stripped == parts[0];
      None
    else
      assert ':' in stripped by { SeparatorInJoin(parts, ':'); }
      Some(Split(parts[1], ';'))
  }

  /** Joining two or more parts puts the separator in. */
  lemma SeparatorInJoin(parts: seq<string>, sep: char)
    requires |parts| >= 2
    ensures sep in Join(parts, sep)
  {
    var j := Join(parts, sep);
    assert j == parts[0] + [sep] + Join(parts[1..], sep);
    assert j[|parts[0]|] == sep;
  }

  /** A value of the right variant for a decoding rule. */
  predicate Conforms(v: FieldValue, kind: Kind) {
    match kind
    case RawText => v.Raw?
    case Scale(f) => v.Scaled? && v.factor == f
    case Stamp => v.Time? && Valid(v.stamp)
  }

  /** Every entry is a code of the table with its table name and a value of
      the variant its rule produces. */
  predicate WellFormed(table: Table, snap: Snapshot) {
    forall k :: k in snap ==>
      k in table && snap[k].description == table[k].name && Conforms(snap[k].value, table[k].kind)
  }

  /** The value rules of `_decode`; `None` where the source raises. */
  function DecodeValue(kind: Kind, val: string): (r: Option<FieldValue>)
    ensures r.Some? ==> Conforms(r.value, kind)
    ensures kind == RawText ==> r == Some(Raw(val))
    ensures kind.Scale? ==> (r.Some? <==> ParseHex(val).Some?)
    ensures kind.Scale? && r.Some? ==> r.value.raw == ParseHex(val).value
    ensures kind == Stamp ==> (r.Some? <==> DecodeDateTime(val).Some?)
    ensures kind == Stamp && r.Some? ==> r.value.stamp == DecodeDateTime(val).value
  {
    match kind
    case RawText => Some(Raw(val))
    case Scale(f) =>
      (match ParseHex(val) case Some(n) => Some(Scaled(n, f)) case None => None)
    case Stamp =>
      (match DecodeDateTime(val) case Some(d) => Some(Time(d)) case None => None)
  }

  /** One `code=value` item: the code is the text before the first `=`, the
      value the text between the first and the second `=`. `None` for a
      missing `=`, a code outside the table or a value its rule rejects. */
  function DecodePair(table: Table, item: string): (r: Option<(string, Field)>)
    ensures r.Some? ==> '=' in item && r.value.0 == item[..IndexOf(item, '=')]
    ensures r.Some? ==>
      && r.value.0 in table
      && r.value.1.description == table[r.value.0].name
      && Conforms(r.value.1.value, table[r.value.0].kind)
    ensures r.Some? ==>
      && |Split(item, '=')| >= 2 && r.value.0 == Split(item, '=')[0]
      && DecodeValue(table[r.value.0].kind, Split(item, '=')[1]) == Some(r.value.1.value)
    ensures r.None? && |Split(item, '=')| >= 2 && Split(item, '=')[0] in table ==>
      DecodeValue(table[Split(item, '=')[0]].kind, Split(item, '=')[1]).None?
  {
    var kv := Split(item, '=');
    SplitHead(item, '=');
    if |kv| < 2 || kv[0] !in table then None
    else
      var spec := table[kv[0]];
      match DecodeValue(spec.kind, kv[1])
      case None => None
      case Some(v) => Some((kv[0], Field(v, spec.name)))
  }

  /** `item` decodes to an entry for `k`. */
  predicate Yields(table: Table, item: string, k: string) {
    Writes(DecodePair(table, item), k)
  }

  /** `asDict[key] = ...` for one item, when it decodes. */
  function Store(table: Table, acc: Snapshot, item: string): (r: Snapshot)
    ensures WellFormed(table, acc) ==> WellFormed(table, r)
  {
    match DecodePair(table, item)
    case None => acc
    case Some(e) => acc[e.0 := e.1]
  }

  /** The item loop of `_decode`. */
  function DecodeItems(table: Table, acc: Snapshot, items: seq<string>): (r: Snapshot)
    ensures WellFormed(table, acc) ==> WellFormed(table, r)
    decreases |items|
  {
    if |items| == 0 then acc else DecodeItems(table, Store(table, acc, items[0]), items[1..])
  }

  /** The decoded form of every item, in order. */
  function Pairs(table: Table, items: seq<string>): seq<Option<(string, Field)>> {
    MapSeq(PairDecoder(table), items)
  }

  function PairDecoder(table: Table): string -> Option<(string, Field)> {
    item => DecodePair(table, item)
  }

  /** The item loop is the generic write-by-write fold over the decoded items. */
  lemma {:induction false} DecodeItemsIsStoreAll(table: Table, acc: Snapshot, items: seq<string>)
    ensures DecodeItems(table, acc, items) == StoreAll(acc, Pairs(table, items))
    decreases |items|
  {
    if |items| > 0 {
      DecodeItemsIsStoreAll(table, Store(table, acc, items[0]), items[1..]);
      assert Pairs(table, items)[0] == DecodePair(table, items[0]);
      assert Pairs(table, items)[1..] == Pairs(table, items[1..]);
    }
  }

  /** A code is in the result exactly when it was already there or some item
      decodes to it. */
  lemma DecodeItemsKeys(table: Table, acc: Snapshot, items: seq<string>, k: string)
    ensures k in DecodeItems(table, acc, items) <==>
      k in acc || exists i :: 0 <= i < |items| && Yields(table, items[i], k)
  {
    DecodeItemsIsStoreAll(table, acc, items);
    var ps := Pairs(table, items);
    assert forall i :: 0 <= i < |items| ==> ps[i] == DecodePair(table, items[i]);
    StoreAllKeys(acc, ps, k);
  }

  /** The entry for a code no item decodes to is left as it was. */
  lemma DecodeItemsKeeps(table: Table, acc: Snapshot, items: seq<string>, k: string)
    requires k in acc
    requires forall i :: 0 <= i < |items| ==> !Yields(table, items[i], k)
    ensures k in DecodeItems(table, acc, items) && DecodeItems(table, acc, items)[k] == acc[k]
  {
    DecodeItemsIsStoreAll(table, acc, items);
    var ps := Pairs(table, items);
    assert forall i :: 0 <= i < |items| ==> ps[i] == DecodePair(table, items[i]);
    StoreAllKeeps(acc, ps, k);
  }

  /** The last item that decodes to a code decides its entry. */
  lemma DecodeItemsLastWins(table: Table, acc: Snapshot, items: seq<string>, i: nat, k: string)
    requires i < |items| && Yields(table, items[i], k)
    requires forall j :: i < j < |items| ==> !Yields(table, items[j], k)
    ensures k in DecodeItems(table, acc, items)
    ensures DecodeItems(table, acc, items)[k] == DecodePair(table, items[i]).value.1
  {
    DecodeItemsIsStoreAll(table, acc, items);
    var ps := Pairs(table, items);
    assert forall j :: 0 <= j < |items| ==> ps[j] == DecodePair(table, items[j]);
    StoreAllLastWins(acc, ps, i, k);
  }

  /** Dropping an item that does not decode changes nothing: a malformed or
      unknown pair never affects the others. */
  lemma DecodeSkipsUndecodable(table: Table, acc: Snapshot, items: seq<string>, i: nat)
    requires i < |items| && DecodePair(table, items[i]).None?
    ensures DecodeItems(table, acc, items[..i] + items[i + 1..]) == DecodeItems(table, acc, items)
  {
    var ps := Pairs(table, items);
    var shorter := items[..i] + items[i + 1..];
    DecodeItemsIsStoreAll(table, acc, items);
    DecodeItemsIsStoreAll(table, acc, shorter);
    MapSeqRemove(PairDecoder(table), items, i);
    StoreAllSkipsNone(acc, ps, i);
  }

  /** `_decode`: never fails; a frame without `:` in its stripped part decodes
      to the empty snapshot. */
  function Decode(table: Table, data: string): (r: Snapshot)
    ensures WellFormed(table, r)
    ensures ':' !in Slice(data, 0, -6) ==> r == map[]
  {
    match Items(data)
    case None => map[]
    case Some(items) => DecodeItems(table, map[], items)
  }

  /** A code of a raw-text rule decodes to its value text unchanged. */
  lemma DecodeRawPair(table: Table, code: string, val: string)
    requires code in table && table[code].kind == RawText
    requires '=' !in code && '=' !in val
    ensures DecodePair(table, code + "=" + val) == Some((code, Field(Raw(val), table[code].name)))
  {
    SplitAt(code, '=', val);
    assert Split(val, '=') == [val];
    assert code + "=" + val == code + ['='] + val;
  }

  /** A code of a numeric rule decodes any hex digits, padded or not, to
      their value with the table's factor. */
  lemma DecodeScaledPair(table: Table, code: string, v: string, n: nat)
    requires code in table && table[code].kind.Scale?
    requires '=' !in code && '=' !in v && ParseHex(v) == Some(n)
    ensures DecodePair(table, code + "=" + v)
      == Some((code, Field(Scaled(n, table[code].kind.factor), table[code].name)))
  {
    SplitAt(code, '=', v);
    assert Split(v, '=') == [v];
    assert code + "=" + v == code + ['='] + v;
  }

  /** The inverter's zero-padded `UL1=0041` with factor 0.1 is 6.5 volts. */
  lemma DecodePaddedValue(table: Table)
    requires "UL1" in table && table["UL1"].kind == Scale(Tenth)
    ensures DecodePair(table, "UL1=0041") == Some(("UL1", Field(Scaled(0x41, Tenth), table["UL1"].name)))
  {
    assert ParseHex("0041") == Some(0x41) by {
      ValueOfPadZeros("41", 4);
      assert PadZeros("41", 4) == "0041";
      assert ToHex(0x41) == "41";
      ParseToHex(0x41);
    }
    DecodeScaledPair(table, "UL1", "0041", 0x41);
    assert "UL1" + "=" + "0041" == "UL1=0041";
  }

  /** A numeric code whose value is not hex is dropped. */
  lemma DecodeBadNumber(table: Table, code: string, val: string)
    requires code in table && table[code].kind.Scale?
    requires '=' !in code && '=' !in val && !AllHex(val)
    ensures DecodePair(table, code + "=" + val) == None
  {
    SplitAt(code, '=', val);
    assert Split(val, '=') == [val];
    assert code + "=" + val == code + ['='] + val;
  }

  /** A timestamp code whose value `_decodeDateTime` rejects is dropped. */
  lemma DecodeBadStamp(table: Table, code: string, val: string)
    requires code in table && table[code].kind == Stamp
    requires '=' !in code && '=' !in val && DecodeDateTime(val).None?
    ensures DecodePair(table, code + "=" + val) == None
  {
    SplitAt(code, '=', val);
    assert Split(val, '=') == [val];
    assert code + "=" + val == code + ['='] + val;
  }

  /** A code of the timestamp rule decodes the stamp the inverter wrote. */
  lemma DecodeStampPair(table: Table, code: string, d: DateTime)
    requires code in table && table[code].kind == Stamp
    requires '=' !in code && Valid(d) && d.year < 0x1000
    ensures DecodePair(table, code + "=" + EncodeDateTime(d)) == Some((code, Field(Time(d), table[code].name)))
  {
    var v := EncodeDateTime(d);
    EncodedStampHasNoEquals(d);
    SplitAt(code, '=', v);
    assert Split(v, '=') == [v];
    assert code + "=" + v == code + ['='] + v;
    DecodeEncodeDateTime(d);
  }

  lemma EncodedStampHasNoEquals(d: DateTime)
    requires Valid(d) && d.year < 0x1000
    ensures '=' !in EncodeDateTime(d)
  {
    var v := EncodeDateTime(d);
    var date := EncodeDate(d);
    assert Pow16(3) == 0x1000 && Pow16(2) == 0x100;
    FixedWidthHex(d.year, 3);
    FixedWidthHex(d.month, 2);
    FixedWidthHex(d.day, 2);
    var t := ToHex(SecondsOfDay(d));
    assert AllHex(t);
    assert v == date + "," + t;
    forall i | 0 <= i < |v| ensures v[i] != '=' {
      if i < |PadZeros(ToHex(d.year), 3)| {
      } else if i < |PadZeros(ToHex(d.year), 3)| + |PadZeros(ToHex(d.month), 2)| {
      } else if i < |date| {
      } else if i > |date| {
        assert v[i] == t[i - |date| - 1];
      }
    }
  }

  /** One well-formed pair and one with a value that is not hex: only the
      well-formed entry survives, and nothing fails. */
  lemma {:induction false} DecodeToleratesMalformed(table: Table, n: nat, bad: string)
    requires "PAC" in table && table["PAC"] == FieldSpec("AC Power (W)", Scale(Half))
    requires "UL1" in table && table["UL1"].kind.Scale?
    requires '=' !in bad && !AllHex(bad)
    ensures DecodeItems(table, map[], ["PAC=" + ToHex(n), "UL1=" + bad])
      == map["PAC" := Field(Scaled(n, Half), "AC Power (W)")]
  {
    var good := "PAC" + "=" + ToHex(n);
    var wrong := "UL1" + "=" + bad;
    var h := ToHex(n);
    assert '=' !in h by { assert AllUpperHex(h); }
    ParseToHex(n);
    DecodeScaledPair(table, "PAC", h, n);
    DecodeBadNumber(table, "UL1", bad);
    assert good == "PAC=" + ToHex(n) && wrong == "UL1=" + bad;
    var items := [good, wrong];
    DecodeSkipsUndecodable(table, map[], items, 1);
    assert items[..1] + items[2..] == [good];
    assert DecodeItems(table, map[], [good]) == Store(table, map[], good);
    assert Store(table, map[], good) == map["PAC" := Field(Scaled(n, Half), "AC Power (W)")];
  }

  lemma QueryMapPowerAndVoltage()
    ensures "PAC" in QueryMap && QueryMap["PAC"] == FieldSpec("AC Power (W)", Scale(Half))
    ensures "UL1" in QueryMap && QueryMap["UL1"].kind.Scale?
  {
  }

  /** The header up to the port has no `:` when the addresses have none. */
  lemma HeaderHasNoColon(src: string, dst: string, h: string)
    requires ':' !in src && ':' !in dst && AllUpperHex(h)
    ensures ':' !in "{" + src + ";" + dst + ";" + h + "|64"
  {
    var head := "{" + src + ";" + dst + ";" + h + "|64";
    forall i | 0 <= i < |head| ensures head[i] != ':' {
      if i == 0 {
      } else if i < 1 + |src| {
        assert head[i] == src[i - 1];
      } else if i == 1 + |src| {
      } else if i < 2 + |src| + |dst| {
        assert head[i] == dst[i - 2 - |src|];
      } else if i == 2 + |src| + |dst| {
      } else if i < 3 + |src| + |dst| + |h| {
        assert head[i] == h[i - 3 - |src| - |dst|];
      }
    }
  }

  /** The items of a frame are recovered by the decoder's segment split when
      no item holds `:` or `;` and the checksum fits four digits. */
  lemma FrameItems(src: string, dst: string, items: seq<string>)
    requires |items| > 0
    requires ':' !in src && ':' !in dst
    requires forall i :: 0 <= i < |items| ==> ':' !in items[i] && ';' !in items[i]
    requires CharSum(FrameBody(src, dst, items)) < 0x10000
    ensures Items(Frame(src, dst, items)) == Some(items)
  {
    var head := "{" + src + ";" + dst + ";" + ToHex(LengthValue(items)) + "|64";
    var joined := Join(items, ';');
    var body := FrameBody(src, dst, items);
    var cs := Checksum(body);
    var f := Frame(src, dst, items);
    assert f == head + [':'] + joined + "|" + cs + "}";
    assert Slice(f, 0, -6) == head + [':'] + joined;
    HeaderHasNoColon(src, dst, ToHex(LengthValue(items)));
    NoSeparatorInJoin(items, ';', ':');
    SplitAt(head, ':', joined);
    assert Split(joined, ':') == [joined];
    SplitJoin(items, ';');
  }

  /** Joining items that lack a character with another separator does not
      introduce the character. */
  lemma {:induction false} NoSeparatorInJoin(items: seq<string>, sep: char, c: char)
    requires sep != c
    requires forall i :: 0 <= i < |items| ==> c !in items[i]
    ensures c !in Join(items, sep)
    decreases |items|
  {
    if |items| > 1 {
      NoSeparatorInJoin(items[1..], sep, c);
    }
  }

  /** A request frame's items are its command codes again. */
  lemma EncodeItems(cmds: seq<string>)
    requires |cmds| > 0
    requires forall i :: 0 <= i < |cmds| ==> ':' !in cmds[i] && ';' !in cmds[i]
    requires CharSum(FrameBody(SourceAddress, DestinationAddress, cmds)) < 0x10000
    ensures Items(Encode(cmds)) == Some(cmds)
  {
    FrameItems(SourceAddress, DestinationAddress, cmds);
  }

  /** A response frame decodes to the fold of its items. */
  lemma DecodeFrame(table: Table, src: string, dst: string, items: seq<string>)
    requires |items| > 0
    requires ':' !in src && ':' !in dst
    requires forall i :: 0 <= i < |items| ==> ':' !in items[i] && ';' !in items[i]
    requires CharSum(FrameBody(src, dst, items)) < 0x10000
    ensures Decode(table, Frame(src, dst, items)) == DecodeItems(table, map[], items)
  {
    FrameItems(src, dst, items);
    DecodeOfItems(table, Frame(src, dst, items), items);
  }

  lemma DecodeOfItems(table: Table, data: string, items: seq<string>)
    requires Items(data) == Some(items)
    ensures Decode(table, data) == DecodeItems(table, map[], items)
  {
  }

  /** `getResponsePayload`: the text between the start marker and the
      `|checksum}` suffix, or empty for a reply of five characters or fewer. */
  function ResponsePayload(resp: string): (p: string)
    ensures |resp| >= 7 ==> resp == resp[..1] + p + resp[|resp| - 6..]
    ensures |resp| < 7 ==> p == ""
  {
    if |resp| > 5 then Slice(resp, 1, -6) else ""
  }

  /** For a frame with a four-digit checksum the payload is the body without
      its closing `|`. */
  lemma ResponsePayloadOfFrame(src: string, dst: string, items: seq<string>)
    requires CharSum(FrameBody(src, dst, items)) < 0x10000
    ensures ResponsePayload(Frame(src, dst, items))
      == src + ";" + dst + ";" + ToHex(LengthValue(items)) + "|64:" + Join(items, ';')
  {
    var body := FrameBody(src, dst, items);
    var f := Frame(src, dst, items);
    assert f[1..|f| - 6] == body[..|body| - 1];
  }
}
