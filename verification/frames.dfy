/**
 * What both decoders share: the three reply frames of the BMS (`DD 03` status, `DD 04`
 * cell voltages, `DD 05` name, each closed by `0x77`), the exceptions decoding can raise,
 * and the `rawdat` entries a decoded frame contributes, in insertion order.
 */
module Frames {
  import opened Wrappers
  import opened Strings
  import opened Wire
  import opened Dict
  import opened Protection

  const StartByte: byte := 0xDD
  const StatusCode: byte := 0x03
  const CellsCode: byte := 0x04
  const NameCode: byte := 0x05
  /** The last byte of every frame, `b'w'`. */
  const EndByte: byte := 0x77

  /** `buf.endswith(b'w') and buf.startswith(b'\xdd' + code)`. */
  predicate Accepted(buf: seq<byte>, code: byte) {
    EndsWith(buf, [EndByte]) && StartsWith(buf, [StartByte, code])
  }

  /** The Python exceptions the decoders let escape. */
  datatype PyError =
    | ValueError          // `bytearray.fromhex` on text that is not hex pairs
    | IndexError          // `payload[19]` on a short status payload
    | UnicodeDecodeError  // a name byte of 0x80 or above
    | KeyError            // battery.py: `dataRaw['SoC']` when no status frame was accepted

  // ---------------------------------------------------------------- decoded fields, unscaled

  /** The status fields as raw integers, before the scales of `Centi` and `Celsius`. */
  datatype Status = Status(
    vmain: int, imain: int, remainAh: int, nominalAh: int, cycles: int,
    protect: Word, soc: int, temp1: int, temp2: int)

  /** Hundredths: volts, amperes and ampere-hours. */
  function Centi(raw: int): (x: real)
    ensures x * 100.0 == raw as real
  {
    raw as real / 100.0
  }

  /** Thousandths: cell volts. */
  function Milli(raw: int): (x: real)
    ensures x * 1000.0 == raw as real
  {
    raw as real / 1000.0
  }

  /** Decikelvin to degrees Celsius, with 273.1 K as zero. */
  function Celsius(raw: int): (x: real)
    ensures x + 273.1 == raw as real / 10.0
  {
    (raw - 2731) as real / 10.0
  }

  // ---------------------------------------------------------------- rawdat keys

  /** The status keys in the order the decoder first assigns them. */
  const StatusKeys: seq<string> := [
    "Vmain", "Imain", "RemainAh", "NominalAh", "NumberCycles", "ProtectState",
    "ProtectStateBin", "SoC", "TempC1", "TempC2", "ProtectStateText"]

  /** `f'Vcell{cell+1}'` for the cell numbered `n` from one. */
  function CellKey(n: nat): (k: string)
    ensures |k| >= 6 && k[0] == 'V' && k[1] == 'c'
  {
    "Vcell" + NatToString(n)
  }

  lemma CellKeyInjective(a: nat, b: nat)
    requires CellKey(a) == CellKey(b)
    ensures a == b
  {
    assert CellKey(a)[5..] == NatToString(a);
    assert CellKey(b)[5..] == NatToString(b);
    NatToStringInjective(a, b);
  }

  /** No cell key is a status key, `Name` or `error`. */
  lemma CellKeyFresh(n: nat)
    ensures CellKey(n) !in StatusKeys && CellKey(n) != "Name" && CellKey(n) != "error"
  {
  }

  // ---------------------------------------------------------------- rawdat entries

  /** The values stored under the eleven status keys, in the same order. */
  function StatusValues(st: Status, state: ProtectionState): (vs: seq<Value>)
    ensures |vs| == |StatusKeys|
  {
    [ Float(Centi(st.vmain)), Float(Centi(st.imain)), Float(Centi(st.remainAh)),
      Float(Centi(st.nominalAh)), Int(st.cycles), Int(st.protect), Str(Format016b(st.protect)),
      Int(st.soc), Float(Celsius(st.temp1)), Float(Celsius(st.temp2)), Str(state.Text()) ]
  }

  /** The eleven status entries, `state` being the label chosen for the protection word. */
  function StatusEntries(st: Status, state: ProtectionState): (d: Dict)
    ensures |d| == |StatusKeys|
    ensures forall i :: 0 <= i < |d| ==> d[i] == Entry(StatusKeys[i], StatusValues(st, state)[i])
  {
    seq(|StatusKeys|, i requires 0 <= i < |StatusKeys| => Entry(StatusKeys[i], StatusValues(st, state)[i]))
  }

  /** One `Vcell` entry per raw cell reading, numbered from one, in order. */
  function CellEntries(raws: seq<int>): (d: Dict)
    ensures |d| == |raws|
    ensures forall i :: 0 <= i < |raws| ==> d[i] == Entry(CellKey(i + 1), Float(Milli(raws[i])))
  {
    seq(|raws|, i requires 0 <= i < |raws| => Entry(CellKey(i + 1), Float(Milli(raws[i]))))
  }

  lemma CellEntriesAppend(raws: seq<int>, x: int)
    ensures CellEntries(raws + [x]) == CellEntries(raws) + [Entry(CellKey(|raws| + 1), Float(Milli(x)))]
  {
    var l, r := CellEntries(raws + [x]), CellEntries(raws) + [Entry(CellKey(|raws| + 1), Float(Milli(x)))];
    assert |l| == |r|;
    forall i | 0 <= i < |l|
      ensures l[i] == r[i]
    {
      if i < |raws| {
        assert (raws + [x])[i] == raws[i];
      }
    }
  }

  function NameEntries(name: Option<string>): Dict {
    match name
    case Some(n) => [Entry("Name", Str(n))]
    case None => []
  }

  /** What the status part of a decode contributes: nothing when its frame was not accepted. */
  function StatusPart(status: Option<(Status, ProtectionState)>): Dict {
    match status
    case Some((st, state)) => StatusEntries(st, state)
    case None => []
  }

  /**
   * The whole `rawdat`: the status entries if the status frame was accepted, then the cell
   * entries, then the name if the name frame was accepted.
   */
  function Rawdat(status: Option<(Status, ProtectionState)>, cells: seq<int>, name: Option<string>): Dict {
    StatusPart(status) + CellEntries(cells) + NameEntries(name)
  }

  /** The eleven status keys are pairwise different. */
  lemma StatusKeysDistinct()
    ensures forall i, j :: 0 <= i < j < |StatusKeys| ==> StatusKeys[i] != StatusKeys[j]
  {
  }

  lemma StatusEntriesDistinct(st: Status, state: ProtectionState)
    ensures DistinctKeys(StatusEntries(st, state))
  {
    StatusKeysDistinct();
  }

  lemma CellKeysDistinct(raws: seq<int>)
    ensures DistinctKeys(CellEntries(raws))
  {
    var d := CellEntries(raws);
    forall i, j | 0 <= i < j < |d|
      ensures d[i].key != d[j].key
    {
      if d[i].key == d[j].key {
        CellKeyInjective(i + 1, j + 1);
      }
    }
  }

  /** With no cells and no name, `rawdat` is just the status part. */
  lemma StatusOnly(status: Option<(Status, ProtectionState)>)
    ensures Rawdat(status, [], None) == StatusPart(status)
  {
    assert CellEntries([]) == [];
  }

  /**
   * Filling the status entries in order: assigning the next status key its value appends the
   * next entry.
   */
  lemma StatusStep(st: Status, state: ProtectionState, k: nat, d: Dict, key: string, v: Value)
    requires k < |StatusKeys| && d == StatusEntries(st, state)[..k]
    requires key == StatusKeys[k] && v == StatusValues(st, state)[k]
    ensures Assign(d, key, v) == StatusEntries(st, state)[..k + 1]
  {
    var e := StatusEntries(st, state);
    StatusKeysDistinct();
    AssignNew(d, key, v);
    assert e[..k] + [e[k]] == e[..k + 1];
  }

  /** The status part has distinct keys, all of them status keys. */
  lemma StatusPartKeys(status: Option<(Status, ProtectionState)>)
    ensures DistinctKeys(StatusPart(status))
    ensures forall i :: 0 <= i < |StatusPart(status)| ==> StatusPart(status)[i].key in StatusKeys
  {
    if status.Some? {
      StatusEntriesDistinct(status.value.0, status.value.1);
    }
  }

  /** The keys of a decoded `rawdat` never repeat, and none of them is `error`. */
  lemma RawdatKeys(status: Option<(Status, ProtectionState)>, cells: seq<int>, name: Option<string>)
    ensures DistinctKeys(Rawdat(status, cells, name))
    ensures "error" !in Keys(Rawdat(status, cells, name))
  {
    var a, b, c := StatusPart(status), CellEntries(cells), NameEntries(name);
    StatusPartKeys(status);
    CellKeysDistinct(cells);
    forall i, j | 0 <= i < |a| && 0 <= j < |b|
      ensures a[i].key != b[j].key
    {
      CellKeyFresh(j + 1);
    }
    DistinctAppend(a, b);
    ReservedKeysNotStatus();
    StatusPartLacks(status, "Name");
    StatusPartLacks(status, "error");
    CellEntriesLackReserved(cells);
    KeysAppend(a, b);
    KeysAppend(a + b, c);
    assert forall i :: 0 <= i < |a + b| ==> (a + b)[i].key == Keys(a + b)[i];
    DistinctAppend(a + b, c);
  }

  /** A key that is not a status key is not in the status part. */
  lemma StatusPartLacks(status: Option<(Status, ProtectionState)>, k: string)
    requires k !in StatusKeys
    ensures k !in Keys(StatusPart(status))
  {
    StatusPartKeys(status);
  }

  /** No cell key is `Name` or `error`. */
  lemma CellEntriesLackReserved(cells: seq<int>)
    ensures "Name" !in Keys(CellEntries(cells)) && "error" !in Keys(CellEntries(cells))
  {
    var b := CellEntries(cells);
    forall j | 0 <= j < |b|
      ensures b[j].key != "Name" && b[j].key != "error"
    {
      CellKeyFresh(j + 1);
    }
  }

  /** A status key holds its status value exactly when the status frame was accepted. */
  lemma RawdatStatusLookup(status: Option<(Status, ProtectionState)>, cells: seq<int>, name: Option<string>, i: nat)
    requires i < |StatusKeys|
    ensures Get(Rawdat(status, cells, name), StatusKeys[i])
      == if status.Some? then Some(StatusEntries(status.value.0, status.value.1)[i].value) else None
  {
    var a, b, c := StatusPart(status), CellEntries(cells), NameEntries(name);
    var k := StatusKeys[i];
    GetAppend(a + b, c, k);
    GetAppend(a, b, k);
    StatusKeyNotCell(cells, i);
    ReservedKeysNotStatus();
    assert Get(c, k) == None;
    StatusPartKeys(status);
    if status.Some? {
      assert a[i].key == k;
    }
  }

  /** `Name` and `error` are not status keys. */
  lemma ReservedKeysNotStatus()
    ensures "Name" !in StatusKeys && "error" !in StatusKeys
  {
  }

  lemma StatusKeyNotCell(cells: seq<int>, i: nat)
    requires i < |StatusKeys|
    ensures StatusKeys[i] !in Keys(CellEntries(cells))
  {
    var b := CellEntries(cells);
    forall j | 0 <= j < |b|
      ensures b[j].key != StatusKeys[i]
    {
      CellKeyFresh(j + 1);
    }
  }

  /** Cell keys numbered past the cell count, or zero, are not in `rawdat`. */
  lemma CellKeyAbsent(status: Option<(Status, ProtectionState)>, cells: seq<int>, name: Option<string>, n: nat)
    requires n == 0 || n > |cells|
    ensures CellKey(n) !in Keys(Rawdat(status, cells, name))
  {
    var a, b, c := StatusPart(status), CellEntries(cells), NameEntries(name);
    KeysAppend(a + b, c);
    KeysAppend(a, b);
    CellKeyFresh(n);
    StatusPartLacks(status, CellKey(n));
    CellKeyNotCell(cells, n);
  }

  lemma CellKeyNotCell(cells: seq<int>, n: nat)
    requires n == 0 || n > |cells|
    ensures CellKey(n) !in Keys(CellEntries(cells))
  {
    var b := CellEntries(cells);
    forall j | 0 <= j < |b|
      ensures b[j].key != CellKey(n)
    {
      if b[j].key == CellKey(n) {
        CellKeyInjective(j + 1, n);
      }
    }
  }

  /** `Vcell<n>` holds the n-th cell reading for n from one to the cell count, and is absent otherwise. */
  lemma RawdatCellLookup(status: Option<(Status, ProtectionState)>, cells: seq<int>, name: Option<string>, n: nat)
    ensures Get(Rawdat(status, cells, name), CellKey(n))
      == if 1 <= n <= |cells| then Some(Float(Milli(cells[n - 1]))) else None
  {
    if 1 <= n <= |cells| {
      var a, b := StatusPart(status), CellEntries(cells);
      var d := Rawdat(status, cells, name);
      assert d == a + b + NameEntries(name);
      RawdatKeys(status, cells, name);
      assert d[|a| + n - 1] == b[n - 1];
    } else {
      CellKeyAbsent(status, cells, name, n);
    }
  }

  /** `Name` is present exactly when the name frame was accepted, and holds the decoded text. */
  lemma RawdatNameLookup(status: Option<(Status, ProtectionState)>, cells: seq<int>, name: Option<string>)
    ensures Get(Rawdat(status, cells, name), "Name") == if name.Some? then Some(Str(name.value)) else None
  {
    var a, b, c := StatusPart(status), CellEntries(cells), NameEntries(name);
    GetAppend(a + b, c, "Name");
    GetAppend(a, b, "Name");
    ReservedKeysNotStatus();
    StatusPartLacks(status, "Name");
    CellEntriesLackReserved(cells);
  }

  // ---------------------------------------------------------------- frames as the BMS builds them

  /** Signed 16-bit fields hold -0x8000..0x7FFF; the cycle count is also allowed the unsigned range. */
  predicate StatusInRange(st: Status) {
    && -0x8000 <= st.vmain < 0x8000 && -0x8000 <= st.imain < 0x8000
    && -0x8000 <= st.remainAh < 0x8000 && -0x8000 <= st.nominalAh < 0x8000
    && -0x8000 <= st.cycles < 0x10000
    && 0 <= st.soc < 256
    && -0x8000 <= st.temp1 < 0x8000 && -0x8000 <= st.temp2 < 0x8000
  }

  /**
   * The 27 payload bytes of a status frame: the nine read fields at their offsets, and zero
   * for the bytes neither decoder reads (date, balance flags, version, FET, counts).
   */
  function StatusPayload(st: Status): (p: seq<byte>)
    requires StatusInRange(st)
    ensures |p| == 27
  {
    Be16(st.vmain) + Be16(st.imain) + Be16(st.remainAh) + Be16(st.nominalAh) + Be16(st.cycles)
    + [0, 0, 0, 0, 0, 0] + Be16(st.protect) + [0, st.soc, 0, 0, 0] + Be16(st.temp1) + Be16(st.temp2)
  }

  /** A whole status frame: header, length, payload, a checksum neither decoder checks, `0x77`. */
  function StatusFrame(st: Status): (f: seq<byte>)
    requires StatusInRange(st)
    ensures Accepted(f, StatusCode) && |f| == 34
  {
    [StartByte, StatusCode, 0, 27] + StatusPayload(st) + [0, 0, EndByte]
  }

  /** The cell readings as consecutive big-endian 16-bit words. */
  function CellWords(raws: seq<int>): (p: seq<byte>)
    requires forall i :: 0 <= i < |raws| ==> -0x8000 <= raws[i] < 0x10000
    ensures |p| == 2 * |raws|
  {
    if raws == [] then [] else Be16(raws[0]) + CellWords(raws[1..])
  }

  lemma {:induction false} CellWordsAt(raws: seq<int>, i: nat)
    requires forall j :: 0 <= j < |raws| ==> -0x8000 <= raws[j] < 0x10000
    requires i < |raws|
    ensures CellWords(raws)[2 * i..2 * i + 2] == Be16(raws[i])
  {
    if i > 0 {
      CellWordsAt(raws[1..], i - 1);
      assert CellWords(raws)[2..] == CellWords(raws[1..]);
    }
  }

  function CellFrame(raws: seq<int>): (f: seq<byte>)
    requires forall i :: 0 <= i < |raws| ==> -0x8000 <= raws[i] < 0x10000
    ensures Accepted(f, CellsCode) && |f| == 2 * |raws| + 7
  {
    [StartByte, CellsCode, 0, (2 * |raws|) % 256] + CellWords(raws) + [0, 0, EndByte]
  }

  function NameFrame(text: seq<byte>): (f: seq<byte>)
    ensures Accepted(f, NameCode) && |f| == |text| + 7
  {
    [StartByte, NameCode, 0, |text| % 256] + text + [0, 0, EndByte]
  }

  /** `buf[4:-3]` of a frame built by the functions above is exactly its body. */
  lemma FrameBody(head: seq<byte>, body: seq<byte>, tail: seq<byte>)
    requires |head| == 4 && |tail| == 3
    ensures Slice(head + body + tail, 4, -3) == body
  {
    var f := head + body + tail;
    TrimmedLength(f);
    assert f[4..|f| - 3] == body;
  }

  // ---------------------------------------------------------------- the replies quoted in battery.py

  /** The two status notifications quoted at battery.py:101-102. */
  const SampleStatus1: seq<byte> := [
    0xdd, 0x03, 0x00, 0x1b, 0x05, 0x28, 0x00, 0x00, 0x1b, 0xb2,
    0x2a, 0xef, 0x00, 0x02, 0x29, 0x0a, 0x00, 0x00, 0x00, 0x00]
  const SampleStatus2: seq<byte> := [
    0x00, 0x00, 0x25, 0x41, 0x03, 0x04, 0x02, 0x0b, 0x74, 0x0b, 0x6b, 0xfc, 0x39, 0x77]
  /** The cell notification quoted at battery.py:103. */
  const SampleCells: seq<byte> := [
    0xdd, 0x04, 0x00, 0x08, 0x0c, 0xe5, 0x0c, 0xe3, 0x0c, 0xe5, 0x0c, 0xe8, 0xfc, 0x33, 0x77]

  // ---------------------------------------------------------------- filling rawdat in place

  /** Every key of `pre` is a status key, as in `rawdat` before the cell block runs. */
  predicate StatusKeyed(pre: Dict) {
    forall i :: 0 <= i < |pre| ==> pre[i].key in StatusKeys
  }

  /** A cell key numbered past the readings is none of their keys. */
  lemma CellKeyBeyond(raws: seq<int>, n: nat)
    requires n > |raws|
    ensures forall i :: 0 <= i < |raws| ==> CellEntries(raws)[i].key != CellKey(n)
  {
    forall i | 0 <= i < |raws|
      ensures CellEntries(raws)[i].key != CellKey(n)
    {
      if CellEntries(raws)[i].key == CellKey(n) {
        CellKeyInjective(i + 1, n);
      }
    }
  }

  /** Assigning the next `Vcell` key appends one entry: the key is new. */
  lemma AppendCell(pre: Dict, raws: seq<int>, x: int)
    requires StatusKeyed(pre)
    ensures Assign(pre + CellEntries(raws), CellKey(|raws| + 1), Float(Milli(x))) == pre + CellEntries(raws + [x])
  {
    var c := CellEntries(raws);
    var d := pre + c;
    var k := CellKey(|raws| + 1);
    CellKeyFresh(|raws| + 1);
    CellKeyBeyond(raws, |raws| + 1);
    forall i | 0 <= i < |d|
      ensures d[i].key != k
    {
      if i < |pre| {
        assert d[i] == pre[i];
      } else {
        assert d[i] == c[i - |pre|];
      }
    }
    AssignNew(d, k, Float(Milli(x)));
    CellEntriesAppend(raws, x);
  }

  /** Assigning `Name` after the status and cell keys appends it. */
  lemma AppendName(pre: Dict, raws: seq<int>, n: string)
    requires StatusKeyed(pre)
    ensures Assign(pre + CellEntries(raws), "Name", Str(n)) == pre + CellEntries(raws) + [Entry("Name", Str(n))]
  {
    var d := pre + CellEntries(raws);
    forall i | 0 <= i < |d|
      ensures d[i].key != "Name"
    {
      if i < |pre| {
        assert d[i] == pre[i];
      } else {
        assert d[i] == CellEntries(raws)[i - |pre|];
        CellKeyFresh(i - |pre| + 1);
      }
    }
    AssignNew(d, "Name", Str(n));
  }
}
