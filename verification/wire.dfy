/**
 * The byte level of the BMS reply path: gatttool's hex text, `bytearray.fromhex`,
 * Python slicing, `int.from_bytes(..., 'big')` and `bytes.decode("ASCII")`.
 */
module Wire {
  import opened Wrappers

  type byte = b: int | 0 <= b < 256

  // ---------------------------------------------------------------- Python slicing

  /** Where a Python slice bound `i` lands in a sequence of length `n`. */
  function SliceBound(n: nat, i: int): (k: nat)
    ensures k <= n
  {
    if i < 0 then (if n + i < 0 then 0 else n + i) else if i > n then n else i
  }

  /** Python's `s[start:stop]`: bounds are clamped, a negative bound counts from the end. */
  function Slice<T>(s: seq<T>, start: int, stop: int): (r: seq<T>)
    ensures 0 <= start <= stop <= |s| ==> r == s[start..stop]
    ensures |r| <= |s|
  {
    var a, b := SliceBound(|s|, start), SliceBound(|s|, stop);
    if a <= b then s[a..b] else []
  }

  /** `s[4:-3]` keeps `|s| - 7` elements, or none when `s` is shorter than 7. */
  lemma TrimmedLength<T>(s: seq<T>)
    ensures |Slice(s, 4, -3)| == if |s| >= 7 then |s| - 7 else 0
    ensures |s| >= 7 ==> Slice(s, 4, -3) == s[4..|s| - 3]
  {
  }

  /** Python's `s.startswith(prefix)`. */
  predicate StartsWith<T(==)>(s: seq<T>, prefix: seq<T>) {
    |prefix| <= |s| && s[..|prefix|] == prefix
  }

  /** Python's `s.endswith(suffix)`. */
  predicate EndsWith<T(==)>(s: seq<T>, suffix: seq<T>) {
    |suffix| <= |s| && s[|s| - |suffix|..] == suffix
  }

  /** Python's `s[:-1]`: the last element removed; the empty sequence stays empty. */
  function DropLast<T>(s: seq<T>): (r: seq<T>)
    ensures |s| > 0 ==> r == s[..|s| - 1]
    ensures |s| == 0 ==> r == []
  {
    if s == [] then [] else s[..|s| - 1]
  }

  // ---------------------------------------------------------------- big-endian integers

  function Pow256(n: nat): (p: nat)
    ensures p >= 1
  {
    if n == 0 then 1 else 256 * Pow256(n - 1)
  }

  /** `int.from_bytes(s, 'big')`: the empty slice reads as 0. */
  function Unsigned(s: seq<byte>): (v: nat)
    ensures v < Pow256(|s|)
  {
    if s == [] then 0 else Unsigned(s[..|s| - 1]) * 256 + s[|s| - 1]
  }

  /** `int.from_bytes(s, 'big', signed=True)`: two's complement over `|s|` bytes. */
  function Signed(s: seq<byte>): (v: int)
    ensures s == [] ==> v == 0
    ensures s != [] ==> -(Pow256(|s|) as int) / 2 <= v < Pow256(|s|) / 2
    ensures v == Unsigned(s) <==> s == [] || s[0] < 128
  {
    SignBit(s);
    if s != [] && s[0] >= 128 then Unsigned(s) - Pow256(|s|) else Unsigned(s)
  }

  /** The leading byte decides whether the unsigned reading is in the lower half of its range. */
  lemma SignBit(s: seq<byte>)
    ensures s != [] ==> Pow256(|s|) == 2 * (Pow256(|s|) / 2)
    ensures s != [] ==> (s[0] < 128 <==> Unsigned(s) < Pow256(|s|) / 2)
  {
    if s != [] {
      LeadingByte(s);
      var p := Pow256(|s| - 1);
      assert Pow256(|s|) == 256 * p;
      if s[0] < 128 {
        MulLe(s[0], 127, p);
      } else {
        MulLe(128, s[0], p);
      }
    }
  }

  lemma MulLe(a: nat, b: nat, p: nat)
    requires a <= b
    ensures a * p <= b * p
  {
  }

  /** `Unsigned(s) == s[0] * 256^(|s|-1) + Unsigned(s[1..])`. */
  lemma {:induction false} LeadingByte(s: seq<byte>)
    requires s != []
    ensures Unsigned(s) == s[0] * Pow256(|s| - 1) + Unsigned(s[1..])
  {
    if |s| > 1 {
      var init, tail, p := s[..|s| - 1], s[1..], Pow256(|s| - 2);
      LeadingByte(init);
      assert init[1..] == tail[..|tail| - 1];
      assert Unsigned(tail) == Unsigned(init[1..]) * 256 + s[|s| - 1];
      assert Unsigned(s) == Unsigned(init) * 256 + s[|s| - 1];
      assert Unsigned(init) == s[0] * p + Unsigned(init[1..]);
      assert Pow256(|s| - 1) == 256 * p;
      Regroup(s[0], p, Unsigned(init[1..]), s[|s| - 1]);
    }
  }

  lemma Regroup(a: int, p: int, b: int, c: int)
    ensures (a * p + b) * 256 + c == a * (256 * p) + (b * 256 + c)
  {
  }

  /** The two-byte reads the frame decoder makes. */
  lemma TwoBytes(s: seq<byte>)
    requires |s| == 2
    ensures Unsigned(s) == s[0] as int * 256 + s[1]
    ensures Signed(s) == if s[0] < 128 then Unsigned(s) else Unsigned(s) - 0x10000
  {
    assert s[..1][..0] == [];
  }

  /** A signed and an unsigned two-byte read differ exactly when the raw value is 0x8000 or more. */
  lemma SignedDiffersFromUnsigned(s: seq<byte>)
    requires |s| == 2
    ensures Signed(s) != Unsigned(s) <==> Unsigned(s) >= 0x8000
    ensures Unsigned(s) >= 0x8000 ==> Signed(s) == Unsigned(s) - 0x10000
  {
    TwoBytes(s);
  }

  /** The two bytes of a 16-bit field, most significant first; negative values in two's complement. */
  function Be16(v: int): (s: seq<byte>)
    requires -0x8000 <= v < 0x10000
    ensures |s| == 2
  {
    var u := if v < 0 then v + 0x10000 else v;
    [u / 256, u % 256]
  }

  /** `Be16` is the inverse of the unsigned read on 0..0xFFFF and of the signed read on -0x8000..0x7FFF. */
  lemma Be16RoundTrip(v: int)
    requires -0x8000 <= v < 0x10000
    ensures 0 <= v ==> Unsigned(Be16(v)) == v
    ensures v < 0x8000 ==> Signed(Be16(v)) == v
  {
    TwoBytes(Be16(v));
  }

  // ---------------------------------------------------------------- hex text

  predicate IsHexDigit(c: char) {
    '0' <= c <= '9' || 'a' <= c <= 'f' || 'A' <= c <= 'F'
  }

  function HexValue(c: char): (v: nat)
    requires IsHexDigit(c)
    ensures v < 16
  {
    if '0' <= c <= '9' then c as int - '0' as int
    else if 'a' <= c <= 'f' then c as int - 'a' as int + 10
    else c as int - 'A' as int + 10
  }

  /** The ASCII whitespace `bytearray.fromhex` skips between byte pairs. */
  predicate IsAsciiSpace(c: char) {
    c == ' ' || c == '\t' || c == '\n' || c == '\r' || c == '\U{0B}' || c == '\U{0C}'
  }

  /**
   * `bytearray.fromhex(t)`: whitespace is skipped, every byte is exactly two hex digits, and
   * anything else (a lone digit, a stray character) raises ValueError, here `None`.
   */
  function FromHex(t: string): (r: Option<seq<byte>>)
    ensures r.Some? ==> 2 * |r.value| <= |t|
    ensures t == [] ==> r == Some([])
    decreases |t|
  {
    if t == [] then Some([])
    else if IsAsciiSpace(t[0]) then FromHex(t[1..])
    else if |t| >= 2 && IsHexDigit(t[0]) && IsHexDigit(t[1]) then
      match FromHex(t[2..])
      case Some(rest) => Some([HexValue(t[0]) * 16 + HexValue(t[1])] + rest)
      case None => None
    else None
  }

  /** The lower-case hex digit gatttool prints for `v`. */
  function HexDigit(v: nat): (c: char)
    requires v < 16
    ensures IsHexDigit(c) && HexValue(c) == v && !IsAsciiSpace(c)
  {
    "0123456789abcdef"[v]
  }

  /**
   * The text gatttool prints after `Notification handle = 0x0011 value: ` for a notification
   * carrying `bs`: each byte as two hex digits followed by one space.
   */
  function NotificationText(bs: seq<byte>): (t: string)
    ensures |t| == 3 * |bs|
    ensures bs != [] ==> t[|t| - 1] == ' '
  {
    if bs == [] then "" else [HexDigit(bs[0] / 16), HexDigit(bs[0] % 16), ' '] + NotificationText(bs[1..])
  }

  /** Two notifications read back to back print as the notification of their concatenation. */
  lemma {:induction false} NotificationTextAppend(a: seq<byte>, b: seq<byte>)
    ensures NotificationText(a + b) == NotificationText(a) + NotificationText(b)
  {
    if a != [] {
      var x := a[0];
      var head := [HexDigit(x / 16), HexDigit(x % 16), ' '];
      assert (a + b)[0] == x;
      assert (a + b)[1..] == a[1..] + b;
      NotificationTextAppend(a[1..], b);
      calc {
        NotificationText(a + b);
        head + NotificationText(a[1..] + b);
        head + (NotificationText(a[1..]) + NotificationText(b));
        (head + NotificationText(a[1..])) + NotificationText(b);
        NotificationText(a) + NotificationText(b);
      }
    } else {
      assert a + b == b;
    }
  }

  /** Stripping the trailing space and parsing the hex gives back the notified bytes. */
  lemma {:induction false} NotificationRoundTrip(bs: seq<byte>)
    ensures FromHex(DropLast(NotificationText(bs))) == Some(bs)
  {
    if bs != [] {
      var t := DropLast(NotificationText(bs));
      var d0, d1 := HexDigit(bs[0] / 16), HexDigit(bs[0] % 16);
      assert t[0] == d0 && t[1] == d1;
      if |bs| == 1 {
        assert t[2..] == [];
      } else {
        NotificationRoundTrip(bs[1..]);
        assert t[2..] == [' '] + DropLast(NotificationText(bs[1..]));
        assert t[2..][1..] == DropLast(NotificationText(bs[1..]));
      }
      assert [HexValue(d0) * 16 + HexValue(d1)] + bs[1..] == bs;
    }
  }

  // ---------------------------------------------------------------- ASCII text

  /** `bytes.decode("ASCII")`: `None` (UnicodeDecodeError) as soon as one byte is 0x80 or above. */
  function AsciiDecode(bs: seq<byte>): (r: Option<string>)
    ensures r.Some? <==> forall i :: 0 <= i < |bs| ==> bs[i] < 128
    ensures r.Some? ==> |r.value| == |bs| && forall i :: 0 <= i < |bs| ==> r.value[i] as int == bs[i]
  {
    if bs == [] then Some("")
    else if bs[0] >= 128 then None
    else
      match AsciiDecode(bs[1..])
      case None => None
      case Some(rest) => Some([bs[0] as char] + rest)
  }
}
