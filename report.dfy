/** The result collector and the text line each match is printed as:
    the checksum as `0x` and eight lower-case hexadecimal digits, a tab,
    the matched bytes, a tab, the elapsed time, a newline. The rendering
    of the elapsed time is supplied as bytes; the parser beside the
    formatter shows that a line determines the record it was printed for. */
module Report {
  import opened Types
  import opened Enumeration
  import opened Search

  datatype Option<T> = None | Some(value: T)

  const Tab: byte := 0x09
  const Newline: byte := 0x0a

  /** The lower-case hexadecimal digit for d. */
  function HexDigit(d: nat): (b: byte)
    requires d < 16
    ensures IsHexDigit(b) && DigitValue(b) == d
  {
    if d < 10 then (0x30 + d) as byte else (0x61 + d - 10) as byte
  }

  /** b is one of `0`-`9`, `a`-`f`. */
  predicate IsHexDigit(b: byte)
  {
    0x30 <= b <= 0x39 || 0x61 <= b <= 0x66
  }

  function DigitValue(b: byte): (d: nat)
    requires IsHexDigit(b)
    ensures d < 16
  {
    if b <= 0x39 then b as int - 0x30 else b as int - 0x61 + 10
  }

  predicate AllHex(s: seq<byte>)
  {
    forall i :: 0 <= i < |s| ==> IsHexDigit(s[i])
  }

  /** The n lowest hexadecimal digits of v, most significant first,
      zero-padded. */
  function HexDigits(v: nat, n: nat): (s: seq<byte>)
    ensures |s| == n && AllHex(s)
  {
    if n == 0 then [] else HexDigits(v / 16, n - 1) + [HexDigit(v % 16)]
  }

  /** The number a string of hexadecimal digits stands for. */
  function HexValue(s: seq<byte>): nat
    requires AllHex(s)
  {
    if s == [] then 0 else HexValue(s[..|s| - 1]) * 16 + DigitValue(s[|s| - 1])
  }

  /** Reading back the n digits of a value below 16^n gives the value. */
  lemma {:induction false} HexValueOfDigits(v: nat, n: nat)
    requires v < Pow(16, n)
    ensures HexValue(HexDigits(v, n)) == v
  {
    if n > 0 {
      var s := HexDigits(v, n);
      assert s[..n - 1] == HexDigits(v / 16, n - 1);
      HexValueOfDigits(v / 16, n - 1);
    }
  }

  /** Printing a digit string's value with as many digits gives it back. */
  lemma {:induction false} HexDigitsOfValue(s: seq<byte>)
    requires AllHex(s)
    ensures HexValue(s) < Pow(16, |s|)
    ensures HexDigits(HexValue(s), |s|) == s
  {
    if s != [] {
      var front, last := s[..|s| - 1], s[|s| - 1];
      HexDigitsOfValue(front);
      var v := HexValue(s);
      assert v / 16 == HexValue(front) && v % 16 == DigitValue(last);
      assert DigitValue(HexDigit(DigitValue(last))) == DigitValue(last);
      assert s == front + [last];
    }
  }

  lemma Pow16To8()
    ensures Pow(16, 8) == 0x1_0000_0000
  {
    assert Pow(16, 8) == 0x1_0000_0000;
  }

  /** The `0x%08x` rendering of a checksum. */
  function Hex8(h: uint32): (s: seq<byte>)
    ensures |s| == 10 && s[0] == 0x30 && s[1] == 0x78 && AllHex(s[2..])
  {
    [0x30, 0x78] + HexDigits(h as nat, 8)
  }

  /** Reads a checksum back from its `0x%08x` rendering. */
  function ParseHex8(s: seq<byte>): Option<uint32>
  {
    if |s| == 10 && s[0] == 0x30 && s[1] == 0x78 && AllHex(s[2..]) then
      HexDigitsOfValue(s[2..]);
      Pow16To8();
      Some(HexValue(s[2..]) as uint32)
    else None
  }

  /** The rendering and the reading are inverse: every checksum reads
      back as itself, and only renderings of checksums are read. */
  lemma Hex8RoundTrip(h: uint32, s: seq<byte>)
    ensures ParseHex8(Hex8(h)) == Some(h)
    ensures ParseHex8(s) == Some(h) ==> Hex8(h) == s
  {
    var r := Hex8(h);
    assert r[2..] == HexDigits(h as nat, 8);
    HexValueOfDigits(h as nat, 8);
    Pow16To8();
    if ParseHex8(s) == Some(h) {
      HexDigitsOfValue(s[2..]);
      assert s == [0x30, 0x78] + s[2..];
    }
  }

  /** The line printed (and saved) for one match. */
  function FormatLine(m: Match, elapsed: seq<byte>): seq<byte>
  {
    Hex8(m.hash) + [Tab] + m.str + [Tab] + elapsed + [Newline]
  }

  /** The position of the first tab in s, if any. */
  function FirstTab(s: seq<byte>): (r: Option<nat>)
    ensures r.Some? ==> r.value < |s| && s[r.value] == Tab && Tab !in s[..r.value]
    ensures r.None? ==> Tab !in s
  {
    if s == [] then None
    else if s[0] == Tab then Some(0)
    else match FirstTab(s[1..])
      case None => None
      case Some(k) =>
        assert s[..k + 1] == [s[0]] + s[1..][..k];
        Some(k + 1)
  }

  /** Reads a printed line back into the match and the elapsed-time text. */
  function ParseLine(line: seq<byte>): Option<(Match, seq<byte>)>
  {
    if |line| < 12 || line[10] != Tab || line[|line| - 1] != Newline then None
    else match ParseHex8(line[..10])
      case None => None
      case Some(h) =>
        var body := line[11..|line| - 1];
        match FirstTab(body)
        case None => None
        case Some(k) => Some((Match(h, body[..k]), body[k + 1..]))
  }

  /** A line reads back as the record it was printed for, provided the
      matched bytes hold no tab; and when neither the matched bytes nor the
      elapsed text hold a newline, the line's only newline is its last
      byte, so a results file has one line per match. */
  lemma FormatLineRoundTrip(m: Match, elapsed: seq<byte>)
    requires Tab !in m.str
    ensures ParseLine(FormatLine(m, elapsed)) == Some((m, elapsed))
    ensures Newline !in m.str && Newline !in elapsed ==>
      Newline !in FormatLine(m, elapsed)[..|FormatLine(m, elapsed)| - 1]
  {
    var line := FormatLine(m, elapsed);
    var hex := Hex8(m.hash);
    Hex8RoundTrip(m.hash, hex);
    assert line[..10] == hex;
    var body := line[11..|line| - 1];
    assert body == m.str + [Tab] + elapsed;
    assert FirstTab(body) == Some(|m.str|) by {
      assert body == m.str + ([Tab] + elapsed);
      FirstTabAfter(m.str, [Tab] + elapsed);
    }
    assert body[..|m.str|] == m.str;
    assert body[|m.str| + 1..] == elapsed;
    assert line[..|line| - 1] == hex + [Tab] + m.str + [Tab] + elapsed;
    assert forall i :: 0 <= i < 10 ==> hex[i] != Newline;
  }

  lemma {:induction false} FirstTabAfter(front: seq<byte>, back: seq<byte>)
    requires Tab !in front && back != [] && back[0] == Tab
    ensures FirstTab(front + back) == Some(|front|)
  {
    if front != [] {
      assert (front + back)[1..] == front[1..] + back;
      FirstTabAfter(front[1..], back);
    }
  }

  /** Collects matches in the order they arrive; `results` is what the
      interrupt handler saves. */
  class Collector {
    var results: seq<Match>

    constructor ()
      ensures results == []
    {
      results := [];
    }

    /** Records one arriving match and returns the line printed for it. */
    method Collect(m: Match, elapsed: seq<byte>) returns (printed: seq<byte>)
      modifies this
      ensures results == old(results) + [m]
      ensures printed == FormatLine(m, elapsed)
    {
      results := results + [m];
      printed := FormatLine(m, elapsed);
    }
  }
}
