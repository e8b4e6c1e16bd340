/**
 * battery.py: the older copy of `Battery.__getBMSData`. It runs the same session and accepts
 * the same frames as liontron_battery.py, but reads the cycle count and the cell voltages
 * signed, reads the state of charge as the slice `payload[19:20]` (so a short status frame
 * never raises), and labels the protection word with thirteen independent `if`s, so the
 * highest set position wins. `getBatteryload` writes the dict to `data.json`, reads it back
 * and returns its `SoC`.
 */
module Legacy {
  import opened Wrappers
  import opened Wire
  import opened Dict
  import opened Protection
  import opened Frames
  import opened Session
  import Liontron

  // ---------------------------------------------------------------- field reads

  /**
   * The status fields of `payload = frame[4:]`. Every field is a slice, so nothing raises: a
   * slice that runs past the end is shorter, and an empty one reads as 0.
   */
  function ReadStatus(payload: seq<byte>): (st: Status)
    ensures |payload| < 20 ==> st.soc == 0
    ensures |payload| >= 20 ==> st.soc == payload[19]
    ensures |payload| <= 16 ==> st.protect == 0
    ensures 0 <= st.soc < 256
  {
    var word, soc := Slice(payload, 16, 18), Slice(payload, 19, 20);
    assert |word| <= 2 && |soc| <= 1 && Pow256(0) == 1 && Pow256(1) == 256 && Pow256(2) == 0x10000;
    Status(
      vmain := Signed(Slice(payload, 0, 2)),
      imain := Signed(Slice(payload, 2, 4)),
      remainAh := Signed(Slice(payload, 4, 6)),
      nominalAh := Signed(Slice(payload, 6, 8)),
      cycles := Signed(Slice(payload, 8, 10)),
      protect := Unsigned(word),
      soc := Unsigned(soc),
      temp1 := Signed(Slice(payload, 23, 25)),
      temp2 := Signed(Slice(payload, 25, 27)))
  }

  /** The cell readings of `payload = frame[4:-3]`: one signed word per whole byte pair. */
  function ReadCells(payload: seq<byte>): (raws: seq<int>)
    ensures |raws| == |payload| / 2
    ensures forall i :: 0 <= i < |raws| ==> -0x8000 <= raws[i] < 0x8000
  {
    seq(|payload| / 2, i requires 0 <= i < |payload| / 2 =>
      var w := payload[2 * i..2 * i + 2];
      assert Pow256(|w|) == 0x10000;
      Signed(w))
  }

  // ---------------------------------------------------------------- decoding the three frames

  /** The protection label of battery.py: the last set flag wins. */
  function Label(w: Word): ProtectionState {
    ClassifyLast(Format016b(w))
  }

  /** The status part: absent unless the frame is accepted; an accepted frame always decodes. */
  function StatusOf(response: seq<byte>): Option<(Status, ProtectionState)> {
    if !Accepted(response, StatusCode) then None
    else
      var st := ReadStatus(Slice(response, 4, |response|));
      Some((st, Label(st.protect)))
  }

  /** The cell part: no readings unless the frame is accepted. */
  function CellsOf(response2: seq<byte>): seq<int> {
    if Accepted(response2, CellsCode) then ReadCells(Slice(response2, 4, -3)) else []
  }

  /** The decoded `rawdat`; only the name can raise, the name block being the same as in liontron_battery.py. */
  function DecodeFrames(response: seq<byte>, response2: seq<byte>, response3: seq<byte>): Result<Dict, PyError> {
    match Liontron.NameOf(response3)
    case Err(e) => Err(e)
    case Ok(name) => Ok(Rawdat(StatusOf(response), CellsOf(response2), name))
  }

  /** From the three text buffers: the trailing character is dropped and the hex parsed first. */
  function Decode(b: Buffers): Result<Dict, PyError> {
    match (FromHex(DropLast(b.status)), FromHex(DropLast(b.cells)), FromHex(DropLast(b.name)))
    case (Some(response), Some(response2), Some(response3)) => DecodeFrames(response, response2, response3)
    case _ => Err(ValueError)
  }

  // ---------------------------------------------------------------- filling rawdat in place

  /** The `ProtectStateText` entry, when one has been assigned. */
  function TextEntry(state: Option<ProtectionState>): Dict {
    match state
    case None => []
    case Some(s) => [Entry("ProtectStateText", Str(s.Text()))]
  }

  /**
   * The label stored after the `ok` test and the tests of positions `0..n-1`: the label of the
   * highest set position below `n`, else `ok` when no examined position is set, else none yet.
   */
  function LabelSoFar(psb: string, n: nat): Option<ProtectionState>
    requires n <= Examined && |psb| == 16
  {
    match HighestSetBelow(psb, n)
    case Some(p) => Some(FaultAt(p))
    case None => if psb[..13] == "0000000000000" then Some(Normal) else None
  }

  /** After all thirteen tests the stored label is the one `ClassifyLast` picks. */
  lemma LabelSoFarComplete(psb: string)
    requires |psb| == 16 && IsBinary(psb)
    ensures LabelSoFar(psb, Examined) == Some(ClassifyLast(psb))
  {
    if HighestSetBelow(psb, Examined).None? {
      assert forall i :: 0 <= i < 13 ==> psb[..13][i] == '0';
      assert psb[..13] == "0000000000000";
    }
  }

  /** Assigning `ProtectStateText` after the first ten status keys appends it, or replaces it in place. */
  lemma TextStep(base: Dict, st: Status, state: ProtectionState, old_: Option<ProtectionState>, next: ProtectionState)
    requires base == StatusEntries(st, state)[..10]
    ensures Assign(base + TextEntry(old_), "ProtectStateText", Str(next.Text())) == base + TextEntry(Some(next))
  {
    StatusKeysDistinct();
    assert forall i :: 0 <= i < |base| ==> base[i].key == StatusKeys[i];
    if old_.None? {
      assert base + TextEntry(old_) == base;
      AssignNew(base, "ProtectStateText", Str(next.Text()));
    } else {
      AssignLast(base, "ProtectStateText", Str(old_.value.Text()), Str(next.Text()));
    }
  }

  /**
   * The thirteen sequential `if`s of battery.py: `ok` when the first thirteen characters are
   * zeros, then one overwrite of `ProtectStateText` per set position, in order.
   */
  method LabelInPlace(rawdat0: Dict, psb: string, ghost st: Status) returns (rawdat: Dict)
    requires psb == Format016b(st.protect) && rawdat0 == StatusEntries(st, Label(st.protect))[..10]
    ensures rawdat == StatusEntries(st, Label(st.protect))
  {
    ghost var state := Label(st.protect);
    rawdat := rawdat0;
    assert rawdat == rawdat0 + TextEntry(None);
    if psb[..13] == "0000000000000" {
      TextStep(rawdat0, st, state, None, Normal);
      rawdat := Assign(rawdat, "ProtectStateText", Str("ok"));
    }
    for p := 0 to Examined
      invariant rawdat == rawdat0 + TextEntry(LabelSoFar(psb, p))
    {
      if psb[p] == '1' {
        TextStep(rawdat0, st, state, LabelSoFar(psb, p), FaultAt(p));
        rawdat := Assign(rawdat, "ProtectStateText", Str(FaultAt(p).Text()));
      }
    }
    LabelSoFarComplete(psb);
    assert StatusEntries(st, state)[..10] + [StatusEntries(st, state)[10]] == StatusEntries(st, state);
  }

  /** The status block on an empty `rawdat`: nothing for a frame that is not accepted, otherwise the eleven keys. */
  method DecodeStatusBlock(response: seq<byte>) returns (rawdat: Dict)
    ensures rawdat == StatusPart(StatusOf(response))
  {
    if !Accepted(response, StatusCode) {
      return [];
    }
    var st := ReadStatus(Slice(response, 4, |response|));
    var psb := Format016b(st.protect);
    ghost var state := Label(st.protect);
    rawdat := Liontron.FillReadings(st, state);
    rawdat := Liontron.FillDerived(st, psb, state, rawdat);
    rawdat := LabelInPlace(rawdat, psb, st);
  }

  /** One turn of the cell loop appends the entry of the next signed reading. */
  lemma CellStep(pre: Dict, payload: seq<byte>, cell: nat)
    requires StatusKeyed(pre) && cell < |payload| / 2
    ensures Assign(pre + CellEntries(ReadCells(payload)[..cell]), CellKey(cell + 1),
                   Float(Milli(Signed(payload[cell * 2..cell * 2 + 2]))))
      == pre + CellEntries(ReadCells(payload)[..cell + 1])
  {
    var raws := ReadCells(payload);
    var x := Signed(payload[cell * 2..cell * 2 + 2]);
    assert raws[cell] == x;
    var before := raws[..cell];
    assert |before| == cell;
    AppendCell(pre, before, x);
    assert before + [x] == raws[..cell + 1];
  }

  /** The cell block: one `Vcell` key per whole byte pair of `frame[4:-3]`, read signed, in order. */
  method DecodeCellBlock(rawdat: Dict, response2: seq<byte>) returns (d: Dict)
    requires StatusKeyed(rawdat)
    ensures d == rawdat + CellEntries(CellsOf(response2))
  {
    d := rawdat;
    if !Accepted(response2, CellsCode) {
      assert CellEntries([]) == [];
      return;
    }
    var payload := Slice(response2, 4, -3);
    assert CellEntries([]) == [];
    for cell := 0 to |payload| / 2
      invariant d == rawdat + CellEntries(ReadCells(payload)[..cell])
    {
      CellStep(rawdat, payload, cell);
      d := Assign(d, CellKey(cell + 1), Float(Milli(Signed(payload[cell * 2..cell * 2 + 2]))));
    }
    assert ReadCells(payload)[..|payload| / 2] == ReadCells(payload);
  }

  /** The processing half of `__getBMSData` in battery.py, up to the dict it writes to `data.json`. */
  method DecodeResponses(b: Buffers) returns (r: Result<Dict, PyError>)
    ensures r == Decode(b)
  {
    var resp, resp2, resp3 := DropLast(b.status), DropLast(b.cells), DropLast(b.name);
    var h1, h2, h3 := FromHex(resp), FromHex(resp2), FromHex(resp3);
    if h1.None? || h2.None? || h3.None? {
      return Err(ValueError);
    }
    var response, response2, response3 := h1.value, h2.value, h3.value;
    var rawdat := DecodeStatusBlock(response);
    StatusPartKeys(StatusOf(response));
    var filled := DecodeCellBlock(rawdat, response2);
    r := Liontron.DecodeNameBlock(filled, response3, rawdat, CellsOf(response2));
  }

  // ---------------------------------------------------------------- the Battery object

  /** What `getBatteryload` of battery.py returns: `-1`, the stored `SoC`, or an escaping exception. */
  datatype Reading = MinusOne | Soc(value: Value) | Raised(error: PyError)

  /** `getBatteryload` over a channel, the dict surviving its trip through `data.json` unchanged. */
  function Load(link: Transport): Reading {
    if !Connects(link) then MinusOne
    else
      match Decode(SessionBuffers(link))
      case Err(e) => Raised(e)
      case Ok(d) =>
        match Get(d, "SoC")
        case None => Raised(KeyError)
        case Some(v) => Soc(v)
  }

  class Battery {
    /** The contents of `data.json`; `None` while the file does not exist. */
    var dataFile: Option<Dict>

    constructor(dataFile: Option<Dict>)
      ensures this.dataFile == dataFile
    {
      this.dataFile := dataFile;
    }

    /**
     * `__getBMSData`: one session over `link`, then the decode, whose dict is written to
     * `data.json`; on a connect timeout or an exception the file is left as it was.
     */
    method GetBMSData(link: Transport) returns (sent: seq<string>, outcome: Liontron.Fetch)
      modifies this
      ensures sent == SessionLines(link)
      ensures outcome == Liontron.MinusOne <==> !Connects(link)
      ensures !Connects(link) ==> dataFile == old(dataFile)
      ensures Connects(link) ==>
        match Decode(SessionBuffers(link))
        case Ok(d) => outcome == Liontron.Stored && dataFile == Some(d)
        case Err(e) => outcome == Liontron.Raised(e) && dataFile == old(dataFile)
    {
      var buffers: Option<Buffers>;
      sent, buffers := RunSession(link);
      if buffers.None? {
        return sent, Liontron.MinusOne;
      }
      var r := DecodeResponses(buffers.value);
      if r.Err? {
        return sent, Liontron.Raised(r.error);
      }
      dataFile := Some(r.value);
      outcome := Liontron.Stored;
    }

    /**
     * `getBatteryload`: `-1` when the session returns `-1`, otherwise `SoC` of the dict read back
     * from `data.json`, which now holds the decoded dict; the file is untouched on `-1` or an exception.
     */
    method GetBatteryload(link: Transport) returns (sent: seq<string>, r: Reading)
      modifies this
      ensures sent == SessionLines(link)
      ensures r == Load(link)
      ensures !Connects(link) ==> dataFile == old(dataFile)
      ensures Connects(link) ==>
        match Decode(SessionBuffers(link))
        case Ok(d) => dataFile == Some(d)
        case Err(_) => dataFile == old(dataFile)
    {
      var outcome;
      sent, outcome := GetBMSData(link);
      if outcome == Liontron.MinusOne {
        return sent, MinusOne;
      }
      if outcome.Raised? {
        return sent, Raised(outcome.error);
      }
      var dataRaw := dataFile.value;
      var soc := Get(dataRaw, "SoC");
      if soc.None? {
        return sent, Raised(KeyError);
      }
      r := Soc(soc.value);
    }
  }

  // ---------------------------------------------------------------- against liontron_battery.py

  /**
   * On a payload long enough for `payload[19]`, the two files read the same status fields
   * except the cycle count, which battery.py reads signed: the two counts agree exactly when
   * the raw word is below 0x8000.
   */
  lemma StatusReadsAgree(payload: seq<byte>)
    requires |payload| >= 20
    ensures Liontron.ReadStatus(payload).Ok?
    ensures ReadStatus(payload) == Liontron.ReadStatus(payload).value.(cycles := Signed(payload[8..10]))
    ensures ReadStatus(payload).cycles == Liontron.ReadStatus(payload).value.cycles
      <==> Unsigned(payload[8..10]) < 0x8000
  {
    var s := Slice(payload, 19, 20);
    assert s == [payload[19]] && s[..0] == [];
    assert Slice(payload, 8, 10) == payload[8..10];
    SignedDiffersFromUnsigned(payload[8..10]);
  }

  /**
   * Both files find the same number of cells; a reading differs exactly when its raw word is
   * 0x8000 or more, and then battery.py reports it 0x10000 lower.
   */
  lemma CellsSignedness(response2: seq<byte>)
    ensures |CellsOf(response2)| == |Liontron.CellsOf(response2)|
    ensures forall i :: 0 <= i < |CellsOf(response2)| ==>
      (CellsOf(response2)[i] != Liontron.CellsOf(response2)[i] <==> Liontron.CellsOf(response2)[i] >= 0x8000)
    ensures forall i :: 0 <= i < |CellsOf(response2)| && Liontron.CellsOf(response2)[i] >= 0x8000 ==>
      CellsOf(response2)[i] == Liontron.CellsOf(response2)[i] - 0x10000
  {
    if Accepted(response2, CellsCode) {
      var p := Slice(response2, 4, -3);
      forall i | 0 <= i < |p| / 2
        ensures ReadCells(p)[i] == Signed(p[2 * i..2 * i + 2])
        ensures Liontron.ReadCells(p)[i] == Unsigned(p[2 * i..2 * i + 2])
        ensures Signed(p[2 * i..2 * i + 2]) != Unsigned(p[2 * i..2 * i + 2]) <==> Unsigned(p[2 * i..2 * i + 2]) >= 0x8000
        ensures Unsigned(p[2 * i..2 * i + 2]) >= 0x8000 ==> Signed(p[2 * i..2 * i + 2]) == Unsigned(p[2 * i..2 * i + 2]) - 0x10000
      {
        SignedDiffersFromUnsigned(p[2 * i..2 * i + 2]);
      }
    }
  }

  /** The decoded dict is the `Rawdat` of the three parts; only the name can raise. */
  lemma DecodedParts(response: seq<byte>, response2: seq<byte>, response3: seq<byte>)
    ensures DecodeFrames(response, response2, response3).Ok? <==> Liontron.NameOf(response3).Ok?
    ensures DecodeFrames(response, response2, response3).Ok? ==>
      DecodeFrames(response, response2, response3).value
        == Rawdat(StatusOf(response), CellsOf(response2), Liontron.NameOf(response3).value)
  {
  }

  /**
   * Each status key is present exactly when the status frame was accepted, whatever its
   * length, and then holds the field read from `payload = frame[4:]`.
   */
  lemma StatusKeysIffAccepted(response: seq<byte>, response2: seq<byte>, response3: seq<byte>, i: nat)
    requires DecodeFrames(response, response2, response3).Ok? && i < |StatusKeys|
    ensures Get(DecodeFrames(response, response2, response3).value, StatusKeys[i]).Some?
      <==> Accepted(response, StatusCode)
    ensures Accepted(response, StatusCode) ==>
      var st := ReadStatus(Slice(response, 4, |response|));
      Get(DecodeFrames(response, response2, response3).value, StatusKeys[i])
        == Some(StatusValues(st, Label(st.protect))[i])
  {
    RawdatStatusLookup(StatusOf(response), CellsOf(response2), Liontron.NameOf(response3).value, i);
  }

  /** `SoC` is present exactly when the status frame was accepted, and is then a byte: 0 for a payload without byte 19. */
  lemma SocIffAccepted(response: seq<byte>, response2: seq<byte>, response3: seq<byte>)
    requires DecodeFrames(response, response2, response3).Ok?
    ensures Get(DecodeFrames(response, response2, response3).value, "SoC")
      == if Accepted(response, StatusCode) then Some(Int(ReadStatus(Slice(response, 4, |response|)).soc)) else None
    ensures Accepted(response, StatusCode) ==>
      var soc := ReadStatus(Slice(response, 4, |response|)).soc;
      0 <= soc < 256 && (|response| < 24 ==> soc == 0)
  {
    var d := DecodeFrames(response, response2, response3).value;
    assert StatusKeys[7] == "SoC";
    StatusKeysIffAccepted(response, response2, response3, 7);
    var st := ReadStatus(Slice(response, 4, |response|));
    assert StatusValues(st, Label(st.protect))[7] == Int(st.soc);
    assert Get(d, "SoC").Some? <==> Accepted(response, StatusCode);
  }

  /**
   * A status frame too short for `payload[19]` raises IndexError in liontron_battery.py; in
   * battery.py it decodes, with a state of charge of 0.
   */
  lemma ShortStatusTolerated(response: seq<byte>, response2: seq<byte>, response3: seq<byte>)
    requires Accepted(response, StatusCode) && |response| < 24 && Liontron.NameOf(response3).Ok?
    ensures Liontron.DecodeFrames(response, response2, response3) == Err(IndexError)
    ensures DecodeFrames(response, response2, response3).Ok?
    ensures Get(DecodeFrames(response, response2, response3).value, "SoC") == Some(Int(0))
  {
    SocIffAccepted(response, response2, response3);
  }

  /**
   * On frames that liontron_battery.py decodes, the two files produce the same dict when the
   * cycle count and every cell word are below 0x8000 and at most one flag among positions
   * 0..12 of the protection word is set.
   */
  lemma DecodersAgree(response: seq<byte>, response2: seq<byte>, response3: seq<byte>)
    requires Liontron.StatusOf(response).Ok?
    requires Liontron.StatusOf(response).value.Some? ==>
      var st := Liontron.StatusOf(response).value.value.0;
      st.cycles < 0x8000 && CountSetBelow(Format016b(st.protect), Examined) <= 1
    requires forall i :: 0 <= i < |Liontron.CellsOf(response2)| ==> Liontron.CellsOf(response2)[i] < 0x8000
    ensures DecodeFrames(response, response2, response3) == Liontron.DecodeFrames(response, response2, response3)
  {
    if Accepted(response, StatusCode) {
      var p := Slice(response, 4, |response|);
      StatusReadsAgree(p);
      assert Slice(p, 8, 10) == p[8..10];
      var st := ReadStatus(p);
      ClassifiersAgreeIffAtMostOneFault(Format016b(st.protect));
    }
    CellsSignedness(response2);
    assert CellsOf(response2) == Liontron.CellsOf(response2);
  }

  /**
   * On an accepted status frame that both files decode, the two `ProtectStateText` values
   * agree exactly when at most one flag among positions 0..12 is set.
   */
  lemma LabelsAgreeIffAtMostOneFault(response: seq<byte>, response2: seq<byte>, response3: seq<byte>)
    requires Accepted(response, StatusCode) && |response| >= 24 && Liontron.NameOf(response3).Ok?
    ensures Liontron.DecodeFrames(response, response2, response3).Ok?
    ensures DecodeFrames(response, response2, response3).Ok?
    ensures
      var w := Liontron.ReadStatus(response[4..]).value.protect;
      Get(DecodeFrames(response, response2, response3).value, "ProtectStateText")
        == Get(Liontron.DecodeFrames(response, response2, response3).value, "ProtectStateText")
      <==> CountSetBelow(Format016b(w), Examined) <= 1
  {
    var p := response[4..];
    assert Slice(response, 4, |response|) == p;
    StatusReadsAgree(p);
    Liontron.StatusOfAccepted(response);
    var w := ReadStatus(p).protect;
    StatusKeysIffAccepted(response, response2, response3, 10);
    Liontron.StatusKeysIffAccepted(response, response2, response3, 10);
    ClassifiersAgreeIffAtMostOneFault(Format016b(w));
    TextInjective(ClassifyFirst(Format016b(w)), ClassifyLast(Format016b(w)));
  }

  /** `getBatteryload` returns `-1` exactly when the connect loop gave up, and otherwise a `SoC` of 0..255 or an exception. */
  lemma LoadCases(link: Transport)
    ensures Load(link) == MinusOne <==> !Connects(link)
    ensures Load(link).Soc? ==> Load(link).value.Int? && 0 <= Load(link).value.n < 256
    ensures Load(link) == Raised(KeyError) <==>
      Connects(link) && Decode(SessionBuffers(link)).Ok?
      && !Accepted(FromHex(DropLast(SessionBuffers(link).status)).value, StatusCode)
  {
    if Connects(link) && Decode(SessionBuffers(link)).Ok? {
      var b := SessionBuffers(link);
      SocIffAccepted(FromHex(DropLast(b.status)).value, FromHex(DropLast(b.cells)).value, FromHex(DropLast(b.name)).value);
    }
  }

  // ---------------------------------------------------------------- the replies quoted in battery.py

  /** battery.py decodes the quoted status reply to the same fields as liontron_battery.py. */
  lemma SampleStatusDecodes()
    ensures StatusOf(SampleStatus1 + SampleStatus2) == Some((Liontron.SampleFields, Normal))
  {
    SampleStatusFrame(SampleStatus1 + SampleStatus2);
  }

  lemma SampleStatusFrame(f: seq<byte>)
    requires f == SampleStatus1 + SampleStatus2
    ensures StatusOf(f) == Some((Liontron.SampleFields, Normal))
  {
    Liontron.SampleStatusFrame(f);
    var p := Slice(f, 4, |f|);
    assert p == f[4..];
    Liontron.SampleStatusBytes(f, p);
    StatusReadsAgree(p);
    TwoBytes(p[8..10]);
    NormalIffOnlyReservedBits(0);
  }

  /** The quoted cell reply decodes to the same four readings: none reaches 0x8000. */
  lemma SampleCellsDecode()
    ensures CellsOf(SampleCells) == [3301, 3299, 3301, 3304]
  {
    Liontron.SampleCellsDecode();
    CellsSignedness(SampleCells);
  }
}
