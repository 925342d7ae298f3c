/** The backtracking search: `combo` walks every candidate of one length
    over the alphabet in a shared line buffer, checksums each one and
    emits a copy of every candidate whose checksum is the target; `worker`
    runs one such pass from an empty buffer and then signals completion. */
module Search {
  import opened Types
  import opened Enumeration

  /** A found collision: the checksum and the matched bytes (the elapsed
      time of the source's record is not modelled). */
  datatype Match = Match(hash: uint32, str: seq<byte>)

  /** What a worker sends: a match on the result stream, or its single
      completion signal on the job stream. */
  datatype Event = Found(m: Match) | Done

  /** The number of symbols a call to `combo` appends: a call with a
      length of 1 or less still appends (and checksums) one symbol. */
  function Depth(length: int): (d: nat)
    ensures d >= 1
    ensures length >= 1 ==> d == length
  {
    if length <= 1 then 1 else length
  }

  /** The bytes a word of alphabet positions stands for. */
  function Spell(alphabet: seq<byte>, t: seq<nat>): (w: seq<byte>)
    requires Below(|alphabet|, t)
    ensures |w| == |t|
    ensures forall i :: 0 <= i < |t| ==> w[i] == alphabet[t[i]]
  {
    seq(|t|, i requires 0 <= i < |t| => alphabet[t[i]])
  }

  /** prefix followed by the spelling of each word of ts, in order. */
  function SpellAll(alphabet: seq<byte>, prefix: seq<byte>, ts: seq<seq<nat>>): (r: seq<seq<byte>>)
    requires forall t :: t in ts ==> Below(|alphabet|, t)
    ensures |r| == |ts|
  {
    seq(|ts|, j requires 0 <= j < |ts| => prefix + Spell(alphabet, ts[j]))
  }

  /** The candidates `combo(alphabet, length, prefix)` checksums, in the
      order it checksums them: the prefix followed by each word of
      Depth(length) alphabet positions, in lexicographic order. */
  function Candidates(alphabet: seq<byte>, length: int, prefix: seq<byte>): seq<seq<byte>>
  {
    SpellAll(alphabet, prefix, Tuples(|alphabet|, Depth(length)))
  }

  /** The matches emitted for a run over the candidates cs: one record per
      candidate whose checksum is the target, in candidate order. */
  function Hits(cs: seq<seq<byte>>, checksum: seq<byte> -> uint32, target: uint32): seq<Match>
  {
    if cs == [] then []
    else
      var last := cs[|cs| - 1];
      Hits(cs[..|cs| - 1], checksum, target)
        + (if checksum(last) == target then [Match(target, last)] else [])
  }

  /** The shared line buffer of the search. */
  class Line {
    var bytes: seq<byte>

    constructor ()
      ensures bytes == []
    {
      bytes := [];
    }
  }

  /** Checksums, in order, every candidate of Depth(length) more symbols
      appended to the line, emits a match for each one whose checksum is
      the target, and restores the line. `examined` records the checksummed
      candidates. */
  method Combo(alphabet: seq<byte>, length: int, line: Line, checksum: seq<byte> -> uint32, target: uint32)
    returns (emitted: seq<Match>, ghost examined: seq<seq<byte>>)
    modifies line
    ensures line.bytes == old(line.bytes)
    ensures examined == Candidates(alphabet, length, old(line.bytes))
    ensures emitted == Hits(examined, checksum, target)
    decreases Depth(length)
  {
    ghost var entry := line.bytes;
    ghost var rest := Tuples(|alphabet|, Depth(length) - 1);
    emitted, examined := [], [];
    var i := 0;
    while i < |alphabet|
      invariant 0 <= i <= |alphabet|
      invariant line.bytes == entry
      invariant examined == Explored(alphabet, entry, i, rest)
      invariant emitted == Hits(examined, checksum, target)
    {
      var c := alphabet[i];
      line.bytes := line.bytes + [c];
      ghost var extended := line.bytes;
      ghost var block: seq<seq<byte>>;
      var found: seq<Match>;
      if length <= 1 {
        found := [];
        var hash := checksum(line.bytes);
        if hash == target {
          var temp := line.bytes;
          found := [Match(hash, temp)];
        }
        block := [line.bytes];
        SingleBlock(alphabet, entry, i, checksum, target);
      } else {
        found, block := Combo(alphabet, length - 1, line, checksum, target);
        assert Depth(length - 1) == Depth(length) - 1;
      }
      assert block == SpellAll(alphabet, extended, rest);
      line.bytes := line.bytes[..|line.bytes| - 1];
      DropLast(entry, c);
      NextBlock(alphabet, entry, i, rest, examined, block, found, checksum, target);
      emitted := emitted + found;
      examined := examined + block;
      i := i + 1;
    }
  }

  lemma DropLast(s: seq<byte>, b: byte)
    ensures (s + [b])[..|s|] == s
  {
  }

  /** The candidates a call has checksummed once the loop of Combo has
      tried the first i symbols: the entry line followed by a word of `rest`
      led by one of those symbols. */
  function Explored(alphabet: seq<byte>, entry: seq<byte>, i: nat, rest: seq<seq<nat>>): seq<seq<byte>>
    requires i <= |alphabet|
    requires forall t :: t in rest ==> Below(|alphabet|, t)
  {
    LeadBelow(alphabet, i, rest);
    SpellAll(alphabet, entry, Lead(i, rest))
  }

  lemma {:induction false} LeadBelow(alphabet: seq<byte>, m: nat, rest: seq<seq<nat>>)
    requires m <= |alphabet|
    requires forall t :: t in rest ==> Below(|alphabet|, t)
    ensures forall t :: t in Lead(m, rest) ==> Below(|alphabet|, t)
  {
    if m > 0 {
      LeadBelow(alphabet, m - 1, rest);
      SpellAllPrefixed(alphabet, [], m - 1, rest);
    }
  }

  /** Runs one pass of the search at the given length from an empty
      line, then signals completion exactly once. */
  method Worker(alphabet: seq<byte>, length: int, checksum: seq<byte> -> uint32, target: uint32)
    returns (events: seq<Event>)
    ensures |events| >= 1 && events[|events| - 1] == Done
    ensures forall j :: 0 <= j < |events| - 1 ==> events[j].Found?
    ensures events[..|events| - 1] == Announce(Hits(Candidates(alphabet, length, []), checksum, target))
  {
    var line := new Line();
    var emitted, examined := Combo(alphabet, length, line, checksum, target);
    events := Announce(emitted) + [Done];
    assert events[..|events| - 1] == Announce(emitted);
  }

  /** The result-stream events for a sequence of matches. */
  function Announce(ms: seq<Match>): (r: seq<Event>)
    ensures |r| == |ms|
    ensures forall j :: 0 <= j < |ms| ==> r[j] == Found(ms[j])
  {
    seq(|ms|, j requires 0 <= j < |ms| => Found(ms[j]))
  }

  lemma {:induction false} HitsAppend(xs: seq<seq<byte>>, ys: seq<seq<byte>>, checksum: seq<byte> -> uint32, target: uint32)
    ensures Hits(xs + ys, checksum, target) == Hits(xs, checksum, target) + Hits(ys, checksum, target)
    decreases |ys|
  {
    if ys != [] {
      var zs := xs + ys;
      assert zs[..|zs| - 1] == xs + ys[..|ys| - 1];
      assert zs[|zs| - 1] == ys[|ys| - 1];
      HitsAppend(xs, ys[..|ys| - 1], checksum, target);
    } else {
      assert xs + ys == xs;
    }
  }

  /** The block a call with length 1 or less checksums for the i-th symbol,
      and what it emits. */
  lemma SingleBlock(alphabet: seq<byte>, entry: seq<byte>, i: nat, checksum: seq<byte> -> uint32, target: uint32)
    requires i < |alphabet|
    ensures [entry + [alphabet[i]]] == SpellAll(alphabet, entry + [alphabet[i]], Tuples(|alphabet|, 0))
    ensures Hits([entry + [alphabet[i]]], checksum, target)
         == if checksum(entry + [alphabet[i]]) == target then [Match(target, entry + [alphabet[i]])] else []
  {
    var one, cand := Tuples(|alphabet|, 0), entry + [alphabet[i]];
    assert one == [[]];
    assert Spell(alphabet, one[0]) == [];
    assert SpellAll(alphabet, cand, one)[0] == cand + [] == cand;
    assert [entry + [alphabet[i]]][..0] == [];
  }

  /** One iteration of the loop of Combo appends the block of the i-th
      symbol to what was examined and emitted so far. */
  lemma NextBlock(alphabet: seq<byte>, entry: seq<byte>, i: nat, rest: seq<seq<nat>>,
                  examined: seq<seq<byte>>, block: seq<seq<byte>>, found: seq<Match>,
                  checksum: seq<byte> -> uint32, target: uint32)
    requires i < |alphabet|
    requires forall t :: t in rest ==> Below(|alphabet|, t)
    requires examined == Explored(alphabet, entry, i, rest)
    requires block == SpellAll(alphabet, entry + [alphabet[i]], rest)
    requires found == Hits(block, checksum, target)
    ensures examined + block == Explored(alphabet, entry, i + 1, rest)
    ensures Hits(examined + block, checksum, target) == Hits(examined, checksum, target) + found
  {
    LeadBelow(alphabet, i, rest);
    SpellAllPrefixed(alphabet, entry, i, rest);
    SpellAllConcat(alphabet, entry, Lead(i, rest), Prefixed(i, rest));
    HitsAppend(examined, block, checksum, target);
  }

  /** Spelling distributes over concatenation. */
  lemma SpellAllConcat(alphabet: seq<byte>, prefix: seq<byte>, xs: seq<seq<nat>>, ys: seq<seq<nat>>)
    requires forall t :: t in xs ==> Below(|alphabet|, t)
    requires forall t :: t in ys ==> Below(|alphabet|, t)
    ensures SpellAll(alphabet, prefix, xs + ys) == SpellAll(alphabet, prefix, xs) + SpellAll(alphabet, prefix, ys)
  {
    var l, r := SpellAll(alphabet, prefix, xs + ys), SpellAll(alphabet, prefix, xs) + SpellAll(alphabet, prefix, ys);
    forall j | 0 <= j < |l| ensures l[j] == r[j]
    {
      if j < |xs| {
        assert (xs + ys)[j] == xs[j];
      } else {
        assert (xs + ys)[j] == ys[j - |xs|];
      }
    }
  }

  /** Spelling the words of ts with position d in front is spelling ts
      after the d-th symbol. */
  lemma SpellAllPrefixed(alphabet: seq<byte>, prefix: seq<byte>, d: nat, ts: seq<seq<nat>>)
    requires d < |alphabet|
    requires forall t :: t in ts ==> Below(|alphabet|, t)
    ensures forall t :: t in Prefixed(d, ts) ==> Below(|alphabet|, t)
    ensures SpellAll(alphabet, prefix, Prefixed(d, ts)) == SpellAll(alphabet, prefix + [alphabet[d]], ts)
  {
    forall t | t in Prefixed(d, ts) ensures Below(|alphabet|, t)
    {
      var j :| 0 <= j < |ts| && Prefixed(d, ts)[j] == t;
      assert ts[j] in ts;
    }
    var l, r := SpellAll(alphabet, prefix, Prefixed(d, ts)), SpellAll(alphabet, prefix + [alphabet[d]], ts);
    forall j | 0 <= j < |l| ensures l[j] == r[j]
    {
      assert ts[j] in ts;
      assert Spell(alphabet, [d] + ts[j]) == [alphabet[d]] + Spell(alphabet, ts[j]);
    }
  }

  // Properties of the candidates and of the matches

  /** The alphabet has no repeated symbol (true of the default alphabet). */
  predicate Distinct(alphabet: seq<byte>)
  {
    forall i, j :: 0 <= i < j < |alphabet| ==> alphabet[i] != alphabet[j]
  }

  /** Every byte of w is a symbol of the alphabet. */
  predicate Over(alphabet: seq<byte>, w: seq<byte>)
  {
    forall n :: 0 <= n < |w| ==> w[n] in alphabet
  }

  /** The first position of the symbol b in the alphabet. */
  function PositionOf(alphabet: seq<byte>, b: byte): (j: nat)
    requires b in alphabet
    ensures j < |alphabet| && alphabet[j] == b
    ensures forall n :: 0 <= n < j ==> alphabet[n] != b
  {
    if alphabet[0] == b then 0 else 1 + PositionOf(alphabet[1..], b)
  }

  /** The alphabet positions a word over the alphabet is spelled with. */
  function Positions(alphabet: seq<byte>, w: seq<byte>): (t: seq<nat>)
    requires Over(alphabet, w)
    ensures IsTuple(|alphabet|, |w|, t)
    ensures Spell(alphabet, t) == w
  {
    seq(|w|, n requires 0 <= n < |w| => PositionOf(alphabet, w[n]))
  }

  /** With no repeated symbol, the positions of a spelled word are the
      word of positions it was spelled from. */
  lemma PositionsOfSpell(alphabet: seq<byte>, t: seq<nat>)
    requires Distinct(alphabet) && Below(|alphabet|, t)
    ensures Over(alphabet, Spell(alphabet, t))
    ensures Positions(alphabet, Spell(alphabet, t)) == t
  {
    var w := Spell(alphabet, t);
    assert forall n :: 0 <= n < |w| ==> w[n] in alphabet && PositionOf(alphabet, w[n]) == t[n];
  }

  /** A call checksums |alphabet|^Depth(length) candidates; none at all
      when the alphabet is empty. */
  lemma CandidatesCount(alphabet: seq<byte>, length: int, prefix: seq<byte>)
    ensures |Candidates(alphabet, length, prefix)| == Pow(|alphabet|, Depth(length))
    ensures alphabet == [] ==> Candidates(alphabet, length, prefix) == []
  {
    TuplesCount(|alphabet|, Depth(length));
    if alphabet == [] {
      assert Pow(0, Depth(length)) == 0 * Pow(0, Depth(length) - 1) == 0;
    }
  }

  /** Each candidate is the line as it was on entry followed by exactly
      Depth(length) symbols of the alphabet; so the empty string is never
      checksummed. */
  lemma CandidateShape(alphabet: seq<byte>, length: int, prefix: seq<byte>, j: nat)
    requires j < |Candidates(alphabet, length, prefix)|
    ensures var c := Candidates(alphabet, length, prefix)[j];
      |c| == |prefix| + Depth(length) && c[..|prefix|] == prefix && Over(alphabet, c[|prefix|..])
  {
    var ts := Tuples(|alphabet|, Depth(length));
    assert ts[j] in ts;
    var c := Candidates(alphabet, length, prefix)[j];
    assert c == prefix + Spell(alphabet, ts[j]);
    assert c[|prefix|..] == Spell(alphabet, ts[j]);
  }

  /** No candidate is skipped: every word of Depth(length) symbols of the
      alphabet is checksummed after the entry line. */
  lemma CandidatesComplete(alphabet: seq<byte>, length: int, prefix: seq<byte>, w: seq<byte>)
    requires |w| == Depth(length) && Over(alphabet, w)
    ensures prefix + w in Candidates(alphabet, length, prefix)
  {
    var t := Positions(alphabet, w);
    var ts := Tuples(|alphabet|, Depth(length));
    TuplesComplete(|alphabet|, Depth(length), t);
    var j :| 0 <= j < |ts| && ts[j] == t;
    assert Candidates(alphabet, length, prefix)[j] == prefix + w;
  }

  /** With no repeated symbol, the candidates are checksummed in strictly
      increasing lexicographic order of alphabet positions, so none is
      checksummed twice. */
  lemma CandidatesInOrder(alphabet: seq<byte>, length: int, prefix: seq<byte>, i: nat, j: nat)
    requires Distinct(alphabet)
    requires i < j < |Candidates(alphabet, length, prefix)|
    ensures var cs := Candidates(alphabet, length, prefix);
      Over(alphabet, cs[i][|prefix|..]) && Over(alphabet, cs[j][|prefix|..]) &&
      LexLess(Positions(alphabet, cs[i][|prefix|..]), Positions(alphabet, cs[j][|prefix|..])) &&
      cs[i] != cs[j]
  {
    var cs := Candidates(alphabet, length, prefix);
    var ts := Tuples(|alphabet|, Depth(length));
    assert ts[i] in ts && ts[j] in ts;
    assert cs[i][|prefix|..] == Spell(alphabet, ts[i]);
    assert cs[j][|prefix|..] == Spell(alphabet, ts[j]);
    PositionsOfSpell(alphabet, ts[i]);
    PositionsOfSpell(alphabet, ts[j]);
    TuplesSorted(|alphabet|, Depth(length));
    LexLessIrreflexive(ts[i]);
  }

  /** The test is `length <= 1`, so a call with length 0 checksums the
      one-symbol strings in alphabet order, exactly as a call with length 1
      does, and never the line itself. */
  lemma LengthZeroAsOne(alphabet: seq<byte>, prefix: seq<byte>)
    ensures Candidates(alphabet, 0, prefix) == Candidates(alphabet, 1, prefix)
    ensures Candidates(alphabet, 0, prefix) == seq(|alphabet|, i requires 0 <= i < |alphabet| => prefix + [alphabet[i]])
  {
    var ts := Tuples(|alphabet|, 1);
    var cs := Candidates(alphabet, 0, prefix);
    TuplesCount(|alphabet|, 1);
    TuplesSorted(|alphabet|, 1);
    forall i | 0 <= i < |alphabet| ensures cs[i] == prefix + [alphabet[i]]
    {
      assert ts[i] == [i] by {
        var all := Tuples(|alphabet|, 0);
        assert all == [[]];
        LeadElement(i, |alphabet|, all);
      }
    }
  }

  lemma {:induction false} LeadElement(i: nat, m: nat, ts: seq<seq<nat>>)
    requires i < m && ts == [[]]
    ensures |Lead(m, ts)| == m && Lead(m, ts)[i] == [i]
  {
    if i < m - 1 {
      LeadElement(i, m - 1, ts);
    } else if m > 1 {
      LeadElement(0, m - 1, ts);
    }
  }

  /** A match is recorded exactly for the candidates whose checksum is the
      target, carrying the target and the candidate's bytes. */
  lemma {:induction false} HitsMembership(cs: seq<seq<byte>>, checksum: seq<byte> -> uint32, target: uint32, m: Match)
    ensures m in Hits(cs, checksum, target) <==> m.str in cs && m.hash == target && checksum(m.str) == target
  {
    if cs != [] {
      var front := cs[..|cs| - 1];
      HitsMembership(front, checksum, target, m);
      assert cs == front + [cs[|cs| - 1]];
    }
  }

  /** End to end for one worker: it reports exactly the strings of
      Depth(length) alphabet symbols whose checksum is the target. */
  lemma WorkerReportsExactly(alphabet: seq<byte>, length: int, checksum: seq<byte> -> uint32, target: uint32, m: Match)
    ensures m in Hits(Candidates(alphabet, length, []), checksum, target)
        <==> |m.str| == Depth(length) && Over(alphabet, m.str) && m.hash == target && checksum(m.str) == target
  {
    var cs := Candidates(alphabet, length, []);
    HitsMembership(cs, checksum, target, m);
    if m.str in cs {
      var j :| 0 <= j < |cs| && cs[j] == m.str;
      CandidateShape(alphabet, length, [], j);
      assert m.str[0..] == m.str;
    }
    if |m.str| == Depth(length) && Over(alphabet, m.str) {
      CandidatesComplete(alphabet, length, [], m.str);
      assert [] + m.str == m.str;
    }
  }

  /** The workers started at lengths 0 and 1 checksum the same strings
      and so report every one-symbol collision twice. */
  lemma LengthsZeroAndOneReportAlike(alphabet: seq<byte>, checksum: seq<byte> -> uint32, target: uint32)
    ensures Hits(Candidates(alphabet, 0, []), checksum, target) == Hits(Candidates(alphabet, 1, []), checksum, target)
    ensures forall m :: m in Hits(Candidates(alphabet, 0, []), checksum, target) ==> |m.str| == 1
  {
    LengthZeroAsOne(alphabet, []);
    forall m | m in Hits(Candidates(alphabet, 0, []), checksum, target) ensures |m.str| == 1
    {
      WorkerReportsExactly(alphabet, 0, checksum, target, m);
    }
  }

  lemma {:induction false} PowOne(n: nat)
    ensures Pow(1, n) == 1
  {
    if n > 0 {
      PowOne(n - 1);
    }
  }

  /** With a one-symbol alphabet a call checksums a single candidate: the
      line followed by Depth(length) copies of the symbol. */
  lemma SingleSymbol(s: byte, length: int, prefix: seq<byte>)
    ensures Candidates([s], length, prefix) == [prefix + seq(Depth(length), _ => s)]
  {
    var cs := Candidates([s], length, prefix);
    CandidatesCount([s], length, prefix);
    PowOne(Depth(length));
    CandidateShape([s], length, prefix, 0);
    var tail := cs[0][|prefix|..];
    assert forall n :: 0 <= n < |tail| ==> tail[n] == s;
    assert tail == seq(Depth(length), _ => s);
    assert cs[0] == cs[0][..|prefix|] + tail;
    assert cs == [cs[0]];
  }

  /** With the alphabet "ab" and the checksum of "b" as target, the
      workers at lengths 0 and 1 each report "b" and nothing else, provided
      "a" has a different checksum. */
  lemma TwoSymbolScenario(checksum: seq<byte> -> uint32)
    requires checksum([0x61]) != checksum([0x62])
    ensures Hits(Candidates([0x61, 0x62], 0, []), checksum, checksum([0x62])) == [Match(checksum([0x62]), [0x62])]
    ensures Hits(Candidates([0x61, 0x62], 1, []), checksum, checksum([0x62])) == [Match(checksum([0x62]), [0x62])]
  {
    var cs := Candidates([0x61, 0x62], 0, []);
    LengthZeroAsOne([0x61, 0x62], []);
    assert |cs| == 2;
    assert cs[0] == [] + [0x61] == [0x61];
    assert cs[1] == [] + [0x62] == [0x62];
    assert cs[..1] == [[0x61]] && cs[..1][..0] == [];
    assert Hits(cs[..1], checksum, checksum([0x62])) == [];
  }
}
