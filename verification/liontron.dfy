/**
 * liontron_battery.py: the decoder of `Battery.__getBMSData` (unsigned cycle count and cell
 * voltages, `payload[19]` for the state of charge, first-match protection label) and the
 * `Battery` object whose `getBatteryload` runs one session and returns the decoded dict.
 */
module Liontron {
  import opened Wrappers
  import opened Wire
  import opened Dict
  import opened Protection
  import opened Frames
  import opened Session

  // ---------------------------------------------------------------- field reads

  /**
   * The status fields of `payload = frame[4:]`, each a slice read big-endian; the state of
   * charge is the single byte `payload[19]`, which raises IndexError on a shorter payload.
   */
  function ReadStatus(payload: seq<byte>): (r: Result<Status, PyError>)
    ensures r.Err? <==> |payload| < 20
    ensures r.Err? ==> r.error == IndexError
  {
    if |payload| < 20 then Err(IndexError)
    else
      var word := Slice(payload, 16, 18);
      assert |word| == 2 && Pow256(2) == 0x10000;
      Ok(Status(
        vmain := Signed(Slice(payload, 0, 2)),
        imain := Signed(Slice(payload, 2, 4)),
        remainAh := Signed(Slice(payload, 4, 6)),
        nominalAh := Signed(Slice(payload, 6, 8)),
        cycles := Unsigned(Slice(payload, 8, 10)),
        protect := Unsigned(word),
        soc := payload[19],
        temp1 := Signed(Slice(payload, 23, 25)),
        temp2 := Signed(Slice(payload, 25, 27))))
  }

  /** The cell readings of `payload = frame[4:-3]`: one unsigned word per whole byte pair. */
  function ReadCells(payload: seq<byte>): (raws: seq<int>)
    ensures |raws| == |payload| / 2
    ensures forall i :: 0 <= i < |raws| ==> 0 <= raws[i] < 0x10000
  {
    seq(|payload| / 2, i requires 0 <= i < |payload| / 2 =>
      var w := payload[2 * i..2 * i + 2];
      assert Pow256(|w|) == 0x10000;
      Unsigned(w))
  }

  /** `ReadStatus` recovers every field of a frame whose cycle count is non-negative. */
  lemma StatusRoundTrip(st: Status)
    requires StatusInRange(st) && st.cycles >= 0
    ensures ReadStatus(StatusFrame(st)[4..]) == Ok(st)
  {
    var p := StatusFrame(st)[4..];
    var b0, b1, b2, b3, b4 := Be16(st.vmain), Be16(st.imain), Be16(st.remainAh), Be16(st.nominalAh), Be16(st.cycles);
    var b5, b6, b7 := Be16(st.protect), Be16(st.temp1), Be16(st.temp2);
    assert p == b0 + b1 + b2 + b3 + b4 + [0, 0, 0, 0, 0, 0] + b5 + [0, st.soc, 0, 0, 0] + b6 + b7 + [0, 0, EndByte];
    assert p[0..2] == b0 && p[2..4] == b1 && p[4..6] == b2 && p[6..8] == b3 && p[8..10] == b4;
    assert p[16..18] == b5 && p[19] == st.soc && p[23..25] == b6 && p[25..27] == b7;
    Be16RoundTrip(st.vmain);
    Be16RoundTrip(st.imain);
    Be16RoundTrip(st.remainAh);
    Be16RoundTrip(st.nominalAh);
    Be16RoundTrip(st.cycles);
    Be16RoundTrip(st.protect);
    Be16RoundTrip(st.temp1);
    Be16RoundTrip(st.temp2);
  }

  /** `ReadCells` recovers the readings of a cell frame, in order. */
  lemma CellsRoundTrip(raws: seq<int>)
    requires forall i :: 0 <= i < |raws| ==> 0 <= raws[i] < 0x10000
    ensures ReadCells(Slice(CellFrame(raws), 4, -3)) == raws
  {
    FrameBody([StartByte, CellsCode, 0, (2 * |raws|) % 256], CellWords(raws), [0, 0, EndByte]);
    var r := ReadCells(CellWords(raws));
    forall i | 0 <= i < |raws|
      ensures r[i] == raws[i]
    {
      CellWordsAt(raws, i);
      Be16RoundTrip(raws[i]);
    }
  }

  /** A trailing odd byte of the cell payload is ignored. */
  lemma OddByteIgnored(payload: seq<byte>, extra: byte)
    requires |payload| % 2 == 0
    ensures ReadCells(payload + [extra]) == ReadCells(payload)
  {
    var p := payload + [extra];
    forall i | 0 <= i < |payload| / 2
      ensures p[2 * i..2 * i + 2] == payload[2 * i..2 * i + 2]
    {
    }
  }

  // ---------------------------------------------------------------- decoding the three frames

  /** The protection label of liontron_battery.py: the first set flag wins. */
  function Label(w: Word): ProtectionState {
    ClassifyFirst(Format016b(w))
  }

  /** The status part: absent unless the frame is accepted, IndexError for a short payload. */
  function StatusOf(response: seq<byte>): Result<Option<(Status, ProtectionState)>, PyError> {
    if !Accepted(response, StatusCode) then Ok(None)
    else
      match ReadStatus(Slice(response, 4, |response|))
      case Err(e) => Err(e)
      case Ok(st) => Ok(Some((st, Label(st.protect))))
  }

  /** The cell part: no readings unless the frame is accepted. */
  function CellsOf(response2: seq<byte>): seq<int> {
    if Accepted(response2, CellsCode) then ReadCells(Slice(response2, 4, -3)) else []
  }

  /** The name part: absent unless the frame is accepted, UnicodeDecodeError for a non-ASCII byte. */
  function NameOf(response3: seq<byte>): Result<Option<string>, PyError> {
    if !Accepted(response3, NameCode) then Ok(None)
    else
      match AsciiDecode(Slice(response3, 4, -3))
      case None => Err(UnicodeDecodeError)
      case Some(n) => Ok(Some(n))
  }

  /** The decoded `rawdat` of three byte buffers, or the exception that escapes, status first. */
  function DecodeFrames(response: seq<byte>, response2: seq<byte>, response3: seq<byte>): Result<Dict, PyError> {
    match StatusOf(response)
    case Err(e) => Err(e)
    case Ok(status) =>
      match NameOf(response3)
      case Err(e) => Err(e)
      case Ok(name) => Ok(Rawdat(status, CellsOf(response2), name))
  }

  /** From the three text buffers: the trailing character is dropped and the hex parsed first. */
  function Decode(b: Buffers): Result<Dict, PyError> {
    match (FromHex(DropLast(b.status)), FromHex(DropLast(b.cells)), FromHex(DropLast(b.name)))
    case (Some(response), Some(response2), Some(response3)) => DecodeFrames(response, response2, response3)
    case _ => Err(ValueError)
  }

  /**
   * The status block of `__getBMSData`, on an empty `rawdat`: nothing for a frame without the
   * status header and terminator, IndexError for a payload too short to hold the state of
   * charge, and otherwise the eleven status keys.
   */
  method DecodeStatusBlock(response: seq<byte>) returns (r: Result<Dict, PyError>)
    ensures r == match StatusOf(response)
      case Err(e) => Err(e)
      case Ok(status) => Ok(StatusPart(status))
  {
    if !Accepted(response, StatusCode) {
      return Ok([]);
    }
    var read := ReadStatus(Slice(response, 4, |response|));
    if read.Err? {
      return Err(read.error);
    }
    var st := read.value;
    var psb := Format016b(st.protect);
    var state := ClassifyFirst(psb);
    var rawdat := FillReadings(st, state);
    rawdat := FillDerived(st, psb, state, rawdat);
    StatusStep(st, state, 10, rawdat, "ProtectStateText", Str(state.Text()));
    rawdat := Assign(rawdat, "ProtectStateText", Str(state.Text()));
    assert StatusEntries(st, state)[..11] == StatusEntries(st, state);
    r := Ok(rawdat);
  }

  /**
   * The status block's assignments of the six fields read straight from the payload, in order,
   * on an empty `rawdat`.
   */
  method FillReadings(st: Status, ghost state: ProtectionState) returns (rawdat: Dict)
    ensures rawdat == StatusEntries(st, state)[..6]
  {
    rawdat := [];
    assert rawdat == StatusEntries(st, state)[..0];
    StatusStep(st, state, 0, rawdat, "Vmain", Float(Centi(st.vmain)));
    rawdat := Assign(rawdat, "Vmain", Float(Centi(st.vmain)));
    StatusStep(st, state, 1, rawdat, "Imain", Float(Centi(st.imain)));
    rawdat := Assign(rawdat, "Imain", Float(Centi(st.imain)));
    StatusStep(st, state, 2, rawdat, "RemainAh", Float(Centi(st.remainAh)));
    rawdat := Assign(rawdat, "RemainAh", Float(Centi(st.remainAh)));
    StatusStep(st, state, 3, rawdat, "NominalAh", Float(Centi(st.nominalAh)));
    rawdat := Assign(rawdat, "NominalAh", Float(Centi(st.nominalAh)));
    StatusStep(st, state, 4, rawdat, "NumberCycles", Int(st.cycles));
    rawdat := Assign(rawdat, "NumberCycles", Int(st.cycles));
    StatusStep(st, state, 5, rawdat, "ProtectState", Int(st.protect));
    rawdat := Assign(rawdat, "ProtectState", Int(st.protect));
  }

  /**
   * The status block's assignments after the protection word: its binary string, the state
   * of charge and the two temperatures.
   */
  method FillDerived(st: Status, psb: string, ghost state: ProtectionState, rawdat0: Dict) returns (rawdat: Dict)
    requires psb == Format016b(st.protect) && rawdat0 == StatusEntries(st, state)[..6]
    ensures rawdat == StatusEntries(st, state)[..10]
  {
    rawdat := rawdat0;
    StatusStep(st, state, 6, rawdat, "ProtectStateBin", Str(psb));
    rawdat := Assign(rawdat, "ProtectStateBin", Str(psb));
    StatusStep(st, state, 7, rawdat, "SoC", Int(st.soc));
    rawdat := Assign(rawdat, "SoC", Int(st.soc));
    StatusStep(st, state, 8, rawdat, "TempC1", Float(Celsius(st.temp1)));
    rawdat := Assign(rawdat, "TempC1", Float(Celsius(st.temp1)));
    StatusStep(st, state, 9, rawdat, "TempC2", Float(Celsius(st.temp2)));
    rawdat := Assign(rawdat, "TempC2", Float(Celsius(st.temp2)));
  }

  /** One turn of the cell loop appends the entry of the next reading. */
  lemma CellStep(pre: Dict, payload: seq<byte>, cell: nat)
    requires StatusKeyed(pre) && cell < |payload| / 2
    ensures Assign(pre + CellEntries(ReadCells(payload)[..cell]), CellKey(cell + 1),
                   Float(Milli(Unsigned(payload[cell * 2..cell * 2 + 2]))))
      == pre + CellEntries(ReadCells(payload)[..cell + 1])
  {
    var raws := ReadCells(payload);
    var x := Unsigned(payload[cell * 2..cell * 2 + 2]);
    assert raws[cell] == x;
    var before := raws[..cell];
    assert |before| == cell;
    AppendCell(pre, before, x);
    assert before + [x] == raws[..cell + 1];
  }

  /** The cell block: one `Vcell` key per whole byte pair of `frame[4:-3]`, appended in order. */
  method DecodeCellBlock(rawdat: Dict, response2: seq<byte>) returns (d: Dict)
    requires StatusKeyed(rawdat)
    ensures d == rawdat + CellEntries(CellsOf(response2))
  {
    d := rawdat;
    if !Accepted(response2, CellsCode) {
      assert CellEntries([]) == [];
      return;
    }
    var payload := Slice(response2, 4, -3);
    assert CellEntries([]) == [];
    for cell := 0 to |payload| / 2
      invariant d == rawdat + CellEntries(ReadCells(payload)[..cell])
    {
      CellStep(rawdat, payload, cell);
      d := Assign(d, CellKey(cell + 1), Float(Milli(Unsigned(payload[cell * 2..cell * 2 + 2]))));
    }
    assert ReadCells(payload)[..|payload| / 2] == ReadCells(payload);
  }

  /** The name block: `frame[4:-3]` decoded as ASCII under `Name`, or UnicodeDecodeError. */
  method DecodeNameBlock(rawdat: Dict, response3: seq<byte>, ghost pre: Dict, ghost cells: seq<int>)
    returns (r: Result<Dict, PyError>)
    requires StatusKeyed(pre) && rawdat == pre + CellEntries(cells)
    ensures r == match NameOf(response3)
      case Err(e) => Err(e)
      case Ok(name) => Ok(rawdat + NameEntries(name))
  {
    if !Accepted(response3, NameCode) {
      assert rawdat + [] == rawdat;
      return Ok(rawdat);
    }
    var name := AsciiDecode(Slice(response3, 4, -3));
    if name.None? {
      return Err(UnicodeDecodeError);
    }
    AppendName(pre, cells, name.value);
    r := Ok(Assign(rawdat, "Name", Str(name.value)));
  }

  /**
   * The processing half of `__getBMSData`: strip the last character of each buffer, parse
   * the hex (ValueError otherwise), then fill `rawdat` from the status, cell and name frames.
   */
  method DecodeResponses(b: Buffers) returns (r: Result<Dict, PyError>)
    ensures r == Decode(b)
  {
    var resp, resp2, resp3 := DropLast(b.status), DropLast(b.cells), DropLast(b.name);
    var h1, h2, h3 := FromHex(resp), FromHex(resp2), FromHex(resp3);
    if h1.None? || h2.None? || h3.None? {
      return Err(ValueError);
    }
    var response, response2, response3 := h1.value, h2.value, h3.value;
    var rawdat := DecodeStatusBlock(response);
    if rawdat.Err? {
      return Err(rawdat.error);
    }
    ghost var status := StatusOf(response).value;
    StatusPartKeys(status);
    var filled := DecodeCellBlock(rawdat.value, response2);
    r := DecodeNameBlock(filled, response3, rawdat.value, CellsOf(response2));
  }

  // ---------------------------------------------------------------- the Battery object

  /** What `getBatteryload` returns when the connect loop gives up. */
  const ErrorDict: Dict := [Entry("error", Str("Failed to retrieve data from BMS"))]

  /** `getBatteryload` over a channel: the error dict on a connect timeout, else the decode. */
  function Load(link: Transport): Result<Dict, PyError> {
    if !Connects(link) then Ok(ErrorDict) else Decode(SessionBuffers(link))
  }

  /** How `__getBMSData` ends: `-1`, `_raw_data` stored, or an exception raised while decoding. */
  datatype Fetch = MinusOne | Stored | Raised(error: PyError)

  class Battery {
    /** The Bluetooth address gatttool is started with. */
    const mac: string
    /** `self._raw_data`: `None` until a session has been decoded. */
    var rawData: Option<Dict>

    constructor(mac: string)
      ensures this.mac == mac && rawData == None
    {
      this.mac := mac;
      rawData := None;
    }

    /**
     * `__getBMSData`: one session over `link`, then the decode, whose dict replaces
     * `_raw_data`; on a connect timeout or an exception `_raw_data` keeps its old value.
     */
    method GetBMSData(link: Transport) returns (sent: seq<string>, outcome: Fetch)
      modifies this
      ensures sent == SessionLines(link)
      ensures outcome == MinusOne <==> !Connects(link)
      ensures !Connects(link) ==> rawData == old(rawData)
      ensures Connects(link) ==>
        match Decode(SessionBuffers(link))
        case Ok(d) => outcome == Stored && rawData == Some(d)
        case Err(e) => outcome == Raised(e) && rawData == old(rawData)
    {
      var buffers: Option<Buffers>;
      sent, buffers := RunSession(link);
      if buffers.None? {
        return sent, MinusOne;
      }
      var r := DecodeResponses(buffers.value);
      if r.Err? {
        return sent, Raised(r.error);
      }
      rawData := Some(r.value);
      outcome := Stored;
    }

    /**
     * `getBatteryload`: the error dict when the session returns `-1`, otherwise the dict
     * just stored; a decoding exception escapes to the caller.
     */
    method GetBatteryload(link: Transport) returns (sent: seq<string>, r: Result<Dict, PyError>)
      modifies this
      ensures sent == SessionLines(link)
      ensures r == Load(link)
      ensures Connects(link) && r.Ok? ==> rawData == Some(r.value)
      ensures !(Connects(link) && r.Ok?) ==> rawData == old(rawData)
    {
      var outcome;
      sent, outcome := GetBMSData(link);
      if outcome == MinusOne {
        return sent, Ok(ErrorDict);
      }
      if outcome.Raised? {
        return sent, Err(outcome.error);
      }
      r := Ok(rawData.value);
    }
  }

  // ---------------------------------------------------------------- what the decoded dict holds

  /** The decoded dict is one of the `Rawdat` shapes, so its keys never repeat and never include `error`. */
  lemma DecodeFramesShape(response: seq<byte>, response2: seq<byte>, response3: seq<byte>)
    requires DecodeFrames(response, response2, response3).Ok?
    ensures DistinctKeys(DecodeFrames(response, response2, response3).value)
    ensures "error" !in Keys(DecodeFrames(response, response2, response3).value)
  {
    var status, name := StatusOf(response).value, NameOf(response3).value;
    RawdatKeys(status, CellsOf(response2), name);
  }

  /** `getBatteryload` returns the error dict exactly when the connect loop gave up. */
  lemma LoadErrorIffNoConnection(link: Transport)
    ensures Load(link) == Ok(ErrorDict) <==> !Connects(link)
  {
    if Connects(link) && Load(link).Ok? {
      var b := SessionBuffers(link);
      var r1, r2, r3 := FromHex(DropLast(b.status)).value, FromHex(DropLast(b.cells)).value, FromHex(DropLast(b.name)).value;
      DecodeFramesShape(r1, r2, r3);
      assert Keys(ErrorDict)[0] == "error";
    }
  }

  /** A decoded dict is the `Rawdat` of the three decoded parts. */
  lemma DecodedParts(response: seq<byte>, response2: seq<byte>, response3: seq<byte>)
    requires DecodeFrames(response, response2, response3).Ok?
    ensures StatusOf(response).Ok? && NameOf(response3).Ok?
    ensures DecodeFrames(response, response2, response3).value
      == Rawdat(StatusOf(response).value, CellsOf(response2), NameOf(response3).value)
  {
  }

  /**
   * Each status key is present exactly when the status frame was accepted, and then holds the
   * field read from `payload = frame[4:]`.
   */
  lemma StatusKeysIffAccepted(response: seq<byte>, response2: seq<byte>, response3: seq<byte>, i: nat)
    requires DecodeFrames(response, response2, response3).Ok? && i < |StatusKeys|
    ensures Get(DecodeFrames(response, response2, response3).value, StatusKeys[i]).Some?
      <==> Accepted(response, StatusCode)
    ensures Accepted(response, StatusCode) ==>
      var st := ReadStatus(response[4..]).value;
      Get(DecodeFrames(response, response2, response3).value, StatusKeys[i])
        == Some(StatusValues(st, Label(st.protect))[i])
  {
    DecodedParts(response, response2, response3);
    RawdatStatusLookup(StatusOf(response).value, CellsOf(response2), NameOf(response3).value, i);
    if Accepted(response, StatusCode) {
      StatusOfAccepted(response);
    }
  }

  /** An accepted status frame that decodes carries the fields read from `frame[4:]` and their label. */
  lemma StatusOfAccepted(response: seq<byte>)
    requires StatusOf(response).Ok? && Accepted(response, StatusCode)
    ensures ReadStatus(response[4..]).Ok?
    ensures StatusOf(response).value
      == Some((ReadStatus(response[4..]).value, Label(ReadStatus(response[4..]).value.protect)))
  {
    assert Slice(response, 4, |response|) == response[4..];
  }

  /** How many cells an accepted cell frame of `n` bytes carries: `max(0, n - 7) // 2`. */
  function CellCount(n: nat): nat {
    if n >= 7 then (n - 7) / 2 else 0
  }

  /**
   * `Vcell<n>` is present exactly for n from one to the cell count of an accepted cell frame,
   * and holds the unsigned big-endian word at bytes `2 + 2n .. 4 + 2n` of the frame, in volts.
   */
  lemma CellKeysIffAccepted(response: seq<byte>, response2: seq<byte>, response3: seq<byte>, n: nat)
    requires DecodeFrames(response, response2, response3).Ok?
    ensures Get(DecodeFrames(response, response2, response3).value, CellKey(n)).Some?
      <==> Accepted(response2, CellsCode) && 1 <= n <= CellCount(|response2|)
    ensures Accepted(response2, CellsCode) && 1 <= n <= CellCount(|response2|) ==>
      Get(DecodeFrames(response, response2, response3).value, CellKey(n))
        == Some(Float(Milli(Unsigned(response2[2 + 2 * n..4 + 2 * n]))))
  {
    DecodedParts(response, response2, response3);
    var cells := CellsOf(response2);
    RawdatCellLookup(StatusOf(response).value, cells, NameOf(response3).value, n);
    CellsOfAccepted(response2, n);
  }

  /** The readings of a cell frame, counted and located in the frame itself. */
  lemma CellsOfAccepted(response2: seq<byte>, n: nat)
    ensures |CellsOf(response2)| == if Accepted(response2, CellsCode) then CellCount(|response2|) else 0
    ensures Accepted(response2, CellsCode) && 1 <= n <= CellCount(|response2|) ==>
      CellsOf(response2)[n - 1] == Unsigned(response2[2 + 2 * n..4 + 2 * n])
  {
    if Accepted(response2, CellsCode) {
      TrimmedLength(response2);
      if 1 <= n <= CellCount(|response2|) {
        var payload := Slice(response2, 4, -3);
        assert payload == response2[4..|response2| - 3];
        var w := payload[2 * (n - 1)..2 * (n - 1) + 2];
        assert w[0] == response2[2 + 2 * n] && w[1] == response2[3 + 2 * n];
        assert w == response2[2 + 2 * n..4 + 2 * n];
      }
    }
  }

  /** `Name` is present exactly when the name frame was accepted, and holds its body as text. */
  lemma NameIffAccepted(response: seq<byte>, response2: seq<byte>, response3: seq<byte>)
    requires DecodeFrames(response, response2, response3).Ok?
    ensures Get(DecodeFrames(response, response2, response3).value, "Name").Some?
      <==> Accepted(response3, NameCode)
    ensures Accepted(response3, NameCode) ==>
      Get(DecodeFrames(response, response2, response3).value, "Name")
        == Some(Str(AsciiDecode(Slice(response3, 4, -3)).value))
  {
    DecodedParts(response, response2, response3);
    RawdatNameLookup(StatusOf(response).value, CellsOf(response2), NameOf(response3).value);
  }

  /**
   * Decoding raises exactly for an accepted status frame too short to hold the state of
   * charge (IndexError, checked first) or an accepted name frame with a non-ASCII byte.
   */
  lemma DecodeFramesErrors(response: seq<byte>, response2: seq<byte>, response3: seq<byte>)
    ensures DecodeFrames(response, response2, response3).Err? <==>
      (Accepted(response, StatusCode) && |response| < 24)
      || (Accepted(response3, NameCode) && exists i :: 4 <= i < |response3| - 3 && response3[i] >= 128)
    ensures Accepted(response, StatusCode) && |response| < 24 ==>
      DecodeFrames(response, response2, response3) == Err(IndexError)
  {
    NameErrIff(response3);
  }

  /** The name frame raises exactly when it was accepted and holds a byte outside ASCII. */
  lemma NameErrIff(response3: seq<byte>)
    ensures NameOf(response3).Err? <==>
      Accepted(response3, NameCode) && exists i :: 4 <= i < |response3| - 3 && response3[i] >= 128
  {
    if Accepted(response3, NameCode) {
      TrimmedLength(response3);
      var body := Slice(response3, 4, -3);
      if exists i :: 4 <= i < |response3| - 3 && response3[i] >= 128 {
        var i :| 4 <= i < |response3| - 3 && response3[i] >= 128;
        assert body[i - 4] == response3[i];
      } else {
        forall j | 0 <= j < |body|
          ensures body[j] < 128
        {
          assert body[j] == response3[j + 4];
        }
      }
    }
  }

  // ---------------------------------------------------------------- the replies quoted in battery.py

  /** The status fields of the quoted status reply. */
  const SampleFields := Status(1320, 0, 7090, 10991, 2, 0, 65, 2932, 2923)

  /** The two status notifications, printed and read back to back, parse to their concatenation. */
  lemma SampleStatusText()
    ensures FromHex(DropLast(NotificationText(SampleStatus1) + NotificationText(SampleStatus2)))
      == Some(SampleStatus1 + SampleStatus2)
  {
    NotificationTextAppend(SampleStatus1, SampleStatus2);
    NotificationRoundTrip(SampleStatus1 + SampleStatus2);
  }

  /**
   * The quoted status reply decodes to 13.20 V, 0.00 A, 70.90 Ah of 109.91 Ah, 2 cycles,
   * protection word 0 labelled `ok`, 65 % and 2932 / 2923 decikelvin.
   */
  lemma SampleStatusDecodes()
    ensures StatusOf(SampleStatus1 + SampleStatus2) == Ok(Some((SampleFields, Normal)))
  {
    SampleStatusFrame(SampleStatus1 + SampleStatus2);
  }

  lemma SampleStatusFrame(f: seq<byte>)
    requires f == SampleStatus1 + SampleStatus2
    ensures StatusOf(f) == Ok(Some((SampleFields, Normal)))
  {
    assert |f| == 34 && f[..2] == [StartByte, StatusCode] && f[33] == EndByte;
    var p := Slice(f, 4, |f|);
    assert p == f[4..];
    SampleStatusBytes(f, p);
    SamplePayload(p);
    NormalIffOnlyReservedBits(0);
  }

  lemma SampleStatusBytes(f: seq<byte>, p: seq<byte>)
    requires f == SampleStatus1 + SampleStatus2 && p == f[4..]
    ensures |p| == 30
    ensures p[0] == 0x05 && p[1] == 0x28 && p[2] == 0x00 && p[3] == 0x00
    ensures p[4] == 0x1b && p[5] == 0xb2 && p[6] == 0x2a && p[7] == 0xef
    ensures p[8] == 0x00 && p[9] == 0x02 && p[16] == 0x00 && p[17] == 0x00 && p[19] == 0x41
    ensures p[23] == 0x0b && p[24] == 0x74 && p[25] == 0x0b && p[26] == 0x6b
  {
    assert forall i :: 0 <= i < 16 ==> p[i] == SampleStatus1[i + 4];
    assert forall i :: 16 <= i < 30 ==> p[i] == SampleStatus2[i - 16];
  }

  /** The fields of a status payload holding the bytes of the quoted one. */
  lemma SamplePayload(p: seq<byte>)
    requires |p| >= 27
    requires p[0] == 0x05 && p[1] == 0x28 && p[2] == 0x00 && p[3] == 0x00
    requires p[4] == 0x1b && p[5] == 0xb2 && p[6] == 0x2a && p[7] == 0xef
    requires p[8] == 0x00 && p[9] == 0x02 && p[16] == 0x00 && p[17] == 0x00 && p[19] == 0x41
    requires p[23] == 0x0b && p[24] == 0x74 && p[25] == 0x0b && p[26] == 0x6b
    ensures ReadStatus(p) == Ok(SampleFields)
  {
    SampleWord(p, 0, 1320);
    SampleWord(p, 2, 0);
    SampleWord(p, 4, 7090);
    SampleWord(p, 6, 10991);
    SampleWord(p, 8, 2);
    SampleWord(p, 16, 0);
    SampleWord(p, 23, 2932);
    SampleWord(p, 25, 2923);
  }

  /** A two-byte field below 0x8000 reads the same signed and unsigned. */
  lemma SampleWord(p: seq<byte>, at: nat, v: nat)
    requires at + 2 <= |p| && v < 0x8000 && p[at] as int * 256 + p[at + 1] == v
    ensures Signed(Slice(p, at, at + 2)) == v && Unsigned(Slice(p, at, at + 2)) == v
  {
    TwoBytes(p[at..at + 2]);
  }

  /** The quoted cell reply carries four cells: 3.301, 3.299, 3.301 and 3.304 V. */
  lemma SampleCellsDecode()
    ensures CellsOf(SampleCells) == [3301, 3299, 3301, 3304]
  {
    var s := SampleCells;
    assert s[..2] == [StartByte, CellsCode] && s[|s| - 1..] == [EndByte];
    TrimmedLength(s);
    var p := Slice(s, 4, -3);
    assert p == [0x0c, 0xe5, 0x0c, 0xe3, 0x0c, 0xe5, 0x0c, 0xe8];
    var raws := ReadCells(p);
    TwoBytes(p[0..2]);
    TwoBytes(p[2..4]);
    TwoBytes(p[4..6]);
    TwoBytes(p[6..8]);
    assert raws[0] == 3301 && raws[1] == 3299 && raws[2] == 3301 && raws[3] == 3304;
  }
}
