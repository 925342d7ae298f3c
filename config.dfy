/** The run configuration of the collision search and the corrections
    applied to the values read at start-up: an unknown checksum table
    falls back to IEEE, the worker count is brought into range, and an
    empty alphabet is replaced by the default one. */
module Config {
  import opened Types

  /** The three CRC-32 polynomial tables the search can use. */
  datatype Table = IEEE | Castagnoli | Koopman

  /** The table chosen by the selector typed at start-up: 1 is IEEE, 2 is
      Castagnoli, 3 is Koopman; any other number silently means IEEE. */
  function SelectTable(selector: int): (t: Table)
    ensures t == Castagnoli <==> selector == 2
    ensures t == Koopman <==> selector == 3
    ensures t == IEEE <==> selector != 2 && selector != 3
  {
    match selector
    case 1 => IEEE
    case 2 => Castagnoli
    case 3 => Koopman
    case _ => IEEE
  }

  /** The number of workers actually run for the requested count `multi`
      on a host with `numCPU` processors: a count of zero or less means one
      worker per processor, a count above ten per processor is cut to ten
      per processor, and any other count is kept. */
  function ClampWorkers(multi: int, numCPU: int): (r: int)
    ensures numCPU >= 1 ==> 1 <= r <= 10 * numCPU
    ensures 1 <= multi <= 10 * numCPU ==> r == multi
    ensures multi <= 0 ==> r == numCPU
    ensures multi > 0 && multi > 10 * numCPU ==> r == 10 * numCPU
  {
    if multi <= 0 then numCPU
    else if multi > numCPU * 10 then numCPU * 10
    else multi
  }

  /** Clamping a clamped count changes nothing. */
  lemma ClampIdempotent(multi: int, numCPU: int)
    requires numCPU >= 1
    ensures ClampWorkers(ClampWorkers(multi, numCPU), numCPU) == ClampWorkers(multi, numCPU)
  {
    var r := ClampWorkers(multi, numCPU);
    assert 1 <= r <= 10 * numCPU;
  }

  /** The default alphabet: the printable ASCII characters other than the
      space, written as the source writes them, here in seven pieces. */
  const PunctuationA: string := "!\"#$%&'()*+,-./"
  const Digits: string := "0123456789"
  const PunctuationB: string := ":;<=>?@"
  const Capitals: string := "ABCDEFGHIJKLMNOPQRSTUVWXYZ"
  const PunctuationC: string := "[\\]^_`"
  const Lowercase: string := "abcdefghijklmnopqrstuvwxyz"
  const PunctuationD: string := "{|}~"

  /** The bytes of an ASCII text. */
  function AsciiBytes(s: string): (b: seq<byte>)
    requires forall i :: 0 <= i < |s| ==> s[i] as int < 128
    ensures |b| == |s|
    ensures forall i :: 0 <= i < |s| ==> b[i] as int == s[i] as int
  {
    seq(|s|, i requires 0 <= i < |s| => s[i] as int as byte)
  }

  /** The default alphabet as the bytes the search enumerates. */
  const DefaultAlphabet: seq<byte> :=
    AsciiBytes(PunctuationA) + AsciiBytes(Digits) + AsciiBytes(PunctuationB) + AsciiBytes(Capitals) +
    AsciiBytes(PunctuationC) + AsciiBytes(Lowercase) + AsciiBytes(PunctuationD)

  /** b is the run of consecutive byte values starting at `from`. */
  predicate IsRun(b: seq<byte>, from: int)
  {
    forall i :: 0 <= i < |b| ==> b[i] as int == from + i
  }

  lemma RunConcat(a: seq<byte>, b: seq<byte>, from: int)
    requires IsRun(a, from) && IsRun(b, from + |a|)
    ensures IsRun(a + b, from)
  {
    forall i | 0 <= i < |a + b| ensures (a + b)[i] as int == from + i
    {
      if i >= |a| {
        assert (a + b)[i] == b[i - |a|];
      }
    }
  }

  /** The pieces up to the capitals are runs of consecutive codes. */
  lemma PiecesAreRunsLow()
    ensures IsRun(AsciiBytes(PunctuationA), 0x21) && |PunctuationA| == 15
    ensures IsRun(AsciiBytes(Digits), 0x30) && |Digits| == 10
    ensures IsRun(AsciiBytes(PunctuationB), 0x3a) && |PunctuationB| == 7
    ensures IsRun(AsciiBytes(Capitals), 0x41) && |Capitals| == 26
  {
  }

  /** The pieces from the capitals on are runs of consecutive codes. */
  lemma PiecesAreRunsHigh()
    ensures IsRun(AsciiBytes(PunctuationC), 0x5b) && |PunctuationC| == 6
    ensures IsRun(AsciiBytes(Lowercase), 0x61) && |Lowercase| == 26
    ensures IsRun(AsciiBytes(PunctuationD), 0x7b) && |PunctuationD| == 4
  {
  }

  /** The default alphabet is exactly the 94 bytes 0x21 ('!') to 0x7e ('~'),
      in increasing order; in particular no symbol is repeated and none is
      whitespace. */
  lemma DefaultAlphabetIsPrintableAscii()
    ensures |DefaultAlphabet| == 94
    ensures forall i :: 0 <= i < 94 ==> DefaultAlphabet[i] as int == 0x21 + i
    ensures forall i, j :: 0 <= i < j < 94 ==> DefaultAlphabet[i] < DefaultAlphabet[j]
  {
    var a, d, b := AsciiBytes(PunctuationA), AsciiBytes(Digits), AsciiBytes(PunctuationB);
    var c, p, l, e := AsciiBytes(Capitals), AsciiBytes(PunctuationC), AsciiBytes(Lowercase), AsciiBytes(PunctuationD);
    PiecesAreRunsLow();
    PiecesAreRunsHigh();
    RunConcat(a, d, 0x21);
    RunConcat(a + d, b, 0x21);
    RunConcat(a + d + b, c, 0x21);
    RunConcat(a + d + b + c, p, 0x21);
    RunConcat(a + d + b + c + p, l, 0x21);
    RunConcat(a + d + b + c + p + l, e, 0x21);
  }

  /** The settings every worker reads: the target checksum, the table,
      the alphabet and the number of workers kept running. */
  datatype RunConfig = RunConfig(target: uint32, table: Table, alphabet: seq<byte>, workers: int)

  /** The configuration the search runs with, from the values read at
      start-up and the host's processor count. */
  function Configure(target: uint32, selector: int, multi: int, numCPU: int, alphabet: seq<byte>): (c: RunConfig)
    ensures c.target == target
    ensures c.table == SelectTable(selector)
    ensures c.workers == ClampWorkers(multi, numCPU)
    ensures c.alphabet != []
    ensures alphabet == [] ==> c.alphabet == DefaultAlphabet
    ensures alphabet != [] ==> c.alphabet == alphabet
  {
    DefaultAlphabetIsPrintableAscii();
    RunConfig(target, SelectTable(selector), if |alphabet| == 0 then DefaultAlphabet else alphabet,
              ClampWorkers(multi, numCPU))
  }
}
