/** The few Python string operations the BMS code and its publisher rely on. */
module Strings {

  /** The character of one decimal digit. */
  function DigitChar(d: nat): (c: char)
    requires d < 10
    ensures '0' <= c <= '9' && DigitValue(c) == d
  {
    "0123456789"[d]
  }

  /** The value of a decimal digit character. */
  function DigitValue(c: char): nat
    requires '0' <= c <= '9'
  {
    c as int - '0' as int
  }

  predicate IsDigitString(s: string) {
    forall i :: 0 <= i < |s| ==> '0' <= s[i] <= '9'
  }

  /** Python's `str(n)` for a non-negative integer: its decimal digits, no leading zeros. */
  function NatToString(n: nat): (s: string)
    ensures |s| >= 1 && IsDigitString(s)
    ensures n < 10 <==> |s| == 1
  {
    if n < 10 then [DigitChar(n)] else NatToString(n / 10) + [DigitChar(n % 10)]
  }

  /** The number a string of decimal digits denotes, read left to right. */
  function DecimalValue(s: string): nat
    requires IsDigitString(s)
  {
    if s == [] then 0 else DecimalValue(s[..|s| - 1]) * 10 + DigitValue(s[|s| - 1])
  }

  /** `str(n)` is the decimal numeral of `n`: reading it back gives `n`. */
  lemma {:induction false} NatToStringValue(n: nat)
    ensures DecimalValue(NatToString(n)) == n
  {
    var s := NatToString(n);
    if n >= 10 {
      assert s[..|s| - 1] == NatToString(n / 10);
      NatToStringValue(n / 10);
    }
  }

  /** `str(n)` has no leading zero: only `0` itself starts with `0`. */
  lemma {:induction false} NatToStringLeading(n: nat)
    ensures NatToString(n)[0] == '0' <==> n == 0
  {
    if n >= 10 {
      var s := NatToString(n);
      assert s[0] == NatToString(n / 10)[0];
      NatToStringLeading(n / 10);
    }
  }

  /** `str(12)` is `"12"`, so the twelfth cell is `Vcell12`. */
  lemma NatToStringTwelve()
    ensures NatToString(12) == "12"
  {
    assert NatToString(1) == "1";
  }

  /** Two numbers with the same decimal rendering are equal, so `Vcell1`, `Vcell2`, ... never collide. */
  lemma {:induction false} NatToStringInjective(a: nat, b: nat)
    requires NatToString(a) == NatToString(b)
    ensures a == b
  {
    if a >= 10 && b >= 10 {
      var sa, sb := NatToString(a), NatToString(b);
      assert sa[..|sa| - 1] == NatToString(a / 10);
      assert sb[..|sb| - 1] == NatToString(b / 10);
      NatToStringInjective(a / 10, b / 10);
      assert "0123456789"[a % 10] == sa[|sa| - 1] == sb[|sb| - 1] == "0123456789"[b % 10];
    }
  }

  /** `sub` occurs in `s` starting at index `i`. */
  predicate OccursAt(s: string, sub: string, i: nat) {
    i + |sub| <= |s| && s[i..i + |sub|] == sub
  }

  /** Python's `sub in s` for strings: `sub` occurs at the start of `s` or further on. */
  predicate Contains(s: string, sub: string)
    decreases |s|
  {
    OccursAt(s, sub, 0) || (s != [] && Contains(s[1..], sub))
  }

  /** An occurrence anywhere makes `sub in s` true. */
  lemma {:induction false} ContainsAt(s: string, sub: string, i: nat)
    requires OccursAt(s, sub, i)
    ensures Contains(s, sub)
  {
    if i > 0 {
      assert s[1..][i - 1..i - 1 + |sub|] == s[i..i + |sub|];
      ContainsAt(s[1..], sub, i - 1);
    }
  }

  /** A string cannot contain a substring one of whose characters it lacks. */
  lemma {:induction false} MissingCharNotContained(s: string, sub: string, c: char)
    requires c in sub && c !in s
    ensures !Contains(s, sub)
  {
    if s != [] {
      assert c !in s[1..] by {
        forall j | 0 <= j < |s| - 1
          ensures s[1..][j] != c
        {
          assert s[1..][j] == s[j + 1];
        }
      }
      MissingCharNotContained(s[1..], sub, c);
    }
  }

  /** `str.lower()` on one character, for the ASCII letters a MAC address is written with. */
  function LowerChar(c: char): (r: char)
    ensures !('A' <= r <= 'Z')
    ensures 'A' <= c <= 'Z' ==> 'a' <= r <= 'z' && r as int - 'a' as int == c as int - 'A' as int
    ensures !('A' <= c <= 'Z') ==> r == c
  {
    if 'A' <= c <= 'Z' then (c as int + 32) as char else c
  }

  /** Python's `s.replace(":", "").lower()` on an ASCII string. */
  function StripColonsLower(s: string): (r: string)
    ensures ':' !in r
    ensures forall i :: 0 <= i < |r| ==> !('A' <= r[i] <= 'Z')
    ensures |r| <= |s|
  {
    if s == [] then []
    else if s[0] == ':' then StripColonsLower(s[1..])
    else [LowerChar(s[0])] + StripColonsLower(s[1..])
  }

  /** One character: a colon is dropped, anything else is lower-cased. */
  lemma StripColonsLowerChar(c: char)
    ensures StripColonsLower([c]) == if c == ':' then [] else [LowerChar(c)]
  {
    assert [c][1..] == [];
  }

  /** Stripping and lower-casing works character by character, so it keeps the order of the rest. */
  lemma {:induction false} StripColonsLowerAppend(a: string, b: string)
    ensures StripColonsLower(a + b) == StripColonsLower(a) + StripColonsLower(b)
  {
    if a == [] {
      assert a + b == b;
    } else {
      assert (a + b)[0] == a[0] && (a + b)[1..] == a[1..] + b;
      StripColonsLowerAppend(a[1..], b);
    }
  }

  /** Two characters that are not colons are both kept, lower-cased. */
  lemma StripPair(x: char, y: char)
    requires x != ':' && y != ':'
    ensures StripColonsLower([x, y]) == [LowerChar(x), LowerChar(y)]
  {
    assert [x, y][1..] == [y];
    StripColonsLowerChar(y);
  }

  /** A colon followed by two other characters leaves those two, lower-cased. */
  lemma StripGroup(x: char, y: char)
    requires x != ':' && y != ':'
    ensures StripColonsLower([':', x, y]) == [LowerChar(x), LowerChar(y)]
  {
    assert [':', x, y][1..] == [x, y];
    StripPair(x, y);
  }

  /** The first half of the MAC written in liontron_battery.py. */
  lemma StripMacHead(p: string)
    requires p == "A4:AA:BB"
    ensures StripColonsLower(p) == "a4aabb"
  {
    var g0, g1, g2 := ['A', '4'], [':', 'A', 'A'], [':', 'B', 'B'];
    assert p == g0 + g1 + g2;
    StripPair('A', '4');
    StripGroup('A', 'A');
    StripGroup('B', 'B');
    StripColonsLowerAppend(g0, g1);
    StripColonsLowerAppend(g0 + g1, g2);
  }

  /** The second half of the MAC written in liontron_battery.py. */
  lemma StripMacTail(p: string)
    requires p == ":CC:DD:EE"
    ensures StripColonsLower(p) == "ccddee"
  {
    var g3, g4, g5 := [':', 'C', 'C'], [':', 'D', 'D'], [':', 'E', 'E'];
    assert p == g3 + g4 + g5;
    StripGroup('C', 'C');
    StripGroup('D', 'D');
    StripGroup('E', 'E');
    StripColonsLowerAppend(g3, g4);
    StripColonsLowerAppend(g3 + g4, g5);
  }

  /** The MAC written in liontron_battery.py becomes `a4aabbccddee`. */
  lemma StripColonsLowerMac(mac: string)
    requires mac == "A4:AA:BB:CC:DD:EE"
    ensures StripColonsLower(mac) == "a4aabbccddee"
  {
    var head, tail := mac[..8], mac[8..];
    assert mac == head + tail;
    StripMacHead(head);
    StripMacTail(tail);
    StripColonsLowerAppend(head, tail);
  }
}
