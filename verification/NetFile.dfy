/**
 The networks file: its lines, the rows they become, and what looking an
 address up means in terms of the lines alone.
 */
module NetFile {
  import opened Options
  import opened Selection
  import opened NetPrefix
  import opened NetFlatten
  import opened NetMatch

  type Address = x: nat | x < 0x1_0000_0000

  /** A line of the networks file whose network and mask are numbers. */
  datatype Line = Line(addr: Address, masknum: nat, peerAs: nat, asn: nat, nextHop: nat)

  // ----- byte order

  /** Network to host byte order of a little-endian machine. */
  function Ntohl(x: Address): Address {
    x % 256 * 0x100_0000 + x / 256 % 256 * 0x1_0000 + x / 0x1_0000 % 256 * 256 + x / 0x100_0000
  }

  /** The first byte in memory is the most significant one of the address. */
  lemma NtohlReversesBytes(a: nat, b: nat, c: nat, d: nat)
    requires a < 256 && b < 256 && c < 256 && d < 256
    ensures Ntohl(a + 256 * b + 65536 * c + 16777216 * d) == 16777216 * a + 65536 * b + 256 * c + d
  {
    var x, y, z := a + 256 * b + 65536 * c + 16777216 * d, b + 256 * c + 65536 * d, c + 256 * d;
    LowByte(x, y, a);
    LowByte(y, z, b);
    LowByte(z, d, c);
    assert x / 65536 == z && x / 16777216 == d;
  }

  lemma LowByte(x: nat, rest: nat, low: nat)
    requires x == 256 * rest + low && low < 256
    ensures x / 256 == rest && x % 256 == low
  {
  }

  // ----- the rows of the file

  function RowOf(line: Line): (r: Row)
    requires line.masknum <= ADDRESS_BITS
    ensures ValidRow(r) && r.masknum == line.masknum && Covers(r, line.addr)
  {
    var mask := MaskOf(line.masknum);
    var r := Row(BitAnd(line.addr, mask), mask, line.masknum, line.peerAs, line.asn, line.nextHop);
    LineMasked(line.addr, line.masknum);
    r
  }

  lemma LineMasked(addr: Address, masknum: nat)
    requires masknum <= ADDRESS_BITS
    ensures var net := BitAnd(addr, MaskOf(masknum)); net < ADDRESS_LIMIT && BitAnd(net, MaskOf(masknum)) == net
  {
    hide BitAnd, RoundDown, Pow2;
    AddressSpace();
    AndRoundsDown(addr, ADDRESS_BITS, ADDRESS_BITS - masknum);
    RoundDownAligned(addr, ADDRESS_BITS - masknum);
    AndRoundsDown(BitAnd(addr, MaskOf(masknum)), ADDRESS_BITS, ADDRESS_BITS - masknum);
  }

  lemma {:induction false} RoundDownAligned(x: nat, zeros: nat)
    ensures var r := RoundDown(x, zeros); RoundDown(r, zeros) == r
  {
    if zeros > 0 {
      RoundDownAligned(x / 2, zeros - 1);
    }
  }

  /** Lines with a mask beyond 32 are skipped. */
  function RowsOf(lines: seq<Line>): (rows: seq<Row>)
    ensures ValidRows(rows)
  {
    if lines == [] then []
    else
      var before := RowsOf(lines[..|lines| - 1]);
      var last := lines[|lines| - 1];
      if last.masknum <= ADDRESS_BITS then before + [RowOf(last)] else before
  }

  /** Without any valid row the table holds a single zeroed row, which
      covers every address. */
  function EffectiveRows(lines: seq<Line>): (rows: seq<Row>)
    ensures ValidRows(rows) && |rows| > 0
  {
    AddressSpace();
    var rows := RowsOf(lines);
    if rows == [] then [ZERO_ROW] else rows
  }

  /** The loader's first pass over the file: valid lines become rows. */
  method ReadRows(lines: seq<Line>) returns (tmp: array<Row>)
    ensures fresh(tmp) && tmp[..] == EffectiveRows(lines)
    ensures FileRows(lines, tmp[..])
  {
    var rows := [];
    for k := 0 to |lines|
      invariant rows == RowsOf(lines[..k])
    {
      assert lines[..k + 1][..k] == lines[..k];
      if lines[k].masknum <= ADDRESS_BITS {
        rows := rows + [RowOf(lines[k])];
      }
    }
    assert lines[..|lines|] == lines;
    if rows == [] {
      rows := [ZERO_ROW];
    }
    tmp := new Row[|rows|](i requires 0 <= i < |rows| => rows[i]);
    EffectiveAreFileRows(lines);
  }

  // ----- what the rows are, in terms of the lines

  predicate Usable(line: Line) {
    line.masknum <= 32
  }

  /** A row with the network and the data of a line. */
  ghost predicate Stands(r: Row, line: Line) {
    && line.masknum <= 32
    && var span := Pow2(32 - line.masknum);
       && r.net == line.addr / span * span && r.mask == 0x1_0000_0000 - span
       && r.masknum == line.masknum
       && r.peerAs == line.peerAs && r.asn == line.asn && r.nextHop == line.nextHop
  }

  ghost predicate StandFor(rows: seq<Row>, lines: seq<Line>) {
    && |rows| == |lines|
    && forall k :: 0 <= k < |rows| ==> Stands(rows[k], lines[k])
  }

  /** The rows stand for exactly the lines with a mask up to 32, in the order
      of the file; if there is none, for the single zero row. */
  ghost predicate FileRows(lines: seq<Line>, rows: seq<Row>) {
    exists valid ::
      && Selects(lines, Usable, valid)
      && if valid == [] then rows == [Row(0, 0, 0, 0, 0, 0)] else StandFor(rows, valid)
  }

  lemma {:induction false} RoundDownIsQuotient(x: nat, zeros: nat)
    ensures RoundDown(x, zeros) == x / Pow2(zeros) * Pow2(zeros)
  {
    if zeros > 0 {
      RoundDownIsQuotient(x / 2, zeros - 1);
      DoubleQuotient(x, Pow2(zeros - 1));
    }
  }

  lemma DoubleQuotient(x: nat, h: nat)
    requires h > 0
    ensures 2 * (x / 2 / h * h) == x / (2 * h) * (2 * h)
  {
    HalvesQuotient(x, h);
    Doubled(x / 2 / h, h);
  }

  lemma Doubled(q: nat, h: nat)
    ensures 2 * (q * h) == q * (2 * h)
  {
  }

  lemma HalvesQuotient(x: nat, h: nat)
    requires h > 0
    ensures x / 2 / h == x / (2 * h)
  {
    var y := x / 2;
    var q, r := y / h, y % h;
    assert y == q * h + r;
    assert x == q * (2 * h) + (2 * r + x % 2);
    QuotientIs(x, 2 * h, q, 2 * r + x % 2);
  }

  lemma QuotientIs(x: nat, d: nat, q: nat, r: nat)
    requires x == q * d + r && r < d
    ensures x / d == q && x % d == r
  {
    var q', r' := x / d, x % d;
    assert x == q' * d + r';
    if q' > q {
      assert (q' - q) * d == r - r';
      TimesAtLeast(q' - q, d);
    } else if q > q' {
      assert (q - q') * d == r' - r;
      TimesAtLeast(q - q', d);
    }
  }

  lemma TimesAtLeast(n: nat, d: nat)
    requires n > 0
    ensures n * d >= d
  {
    assert n * d == (n - 1) * d + d;
  }

  lemma RowStands(line: Line)
    requires line.masknum <= 32
    ensures Stands(RowOf(line), line)
  {
    hide BitAnd, RoundDown, Pow2;
    AddressSpace();
    AndRoundsDown(line.addr, ADDRESS_BITS, ADDRESS_BITS - line.masknum);
    RoundDownIsQuotient(line.addr, ADDRESS_BITS - line.masknum);
  }

  lemma MoreStand(rows: seq<Row>, valid: seq<Line>, r: Row, line: Line)
    requires StandFor(rows, valid) && Stands(r, line)
    ensures StandFor(rows + [r], valid + [line])
  {
    hide Stands;
  }

  lemma {:induction false} RowsStand(lines: seq<Line>) returns (valid: seq<Line>)
    ensures Selects(lines, Usable, valid) && StandFor(RowsOf(lines), valid)
  {
    hide Selects, RowOf, Stands, ValidRow;
    if lines == [] {
      valid := [];
      SelectNone(Usable);
    } else {
      var before, last := lines[..|lines| - 1], lines[|lines| - 1];
      valid := RowsStand(before);
      SelectMore(before, Usable, valid, last);
      assert lines == before + [last];
      if last.masknum <= 32 {
        RowStands(last);
        MoreStand(RowsOf(before), valid, RowOf(last), last);
        valid := valid + [last];
      }
    }
  }

  lemma EffectiveAreFileRows(lines: seq<Line>)
    ensures FileRows(lines, EffectiveRows(lines))
  {
    var valid := RowsStand(lines);
  }

  // ----- longest match, in terms of the lines

  /** Two addresses agree on their first `bits` bits. */
  ghost predicate SamePrefix(a: nat, b: nat, bits: nat)
    requires bits <= 32
  {
    a / Pow2(32 - bits) == b / Pow2(32 - bits)
  }

  ghost predicate Contains(line: Line, addr: Address) {
    line.masknum <= 32 && SamePrefix(addr, line.addr, line.masknum)
  }

  /** Line `j` is the longest that holds the address, and the last such. */
  ghost predicate Best(lines: seq<Line>, addr: Address, j: nat) {
    && j < |lines| && Contains(lines[j], addr)
    && forall i :: 0 <= i < |lines| && Contains(lines[i], addr) ==>
         lines[i].masknum < lines[j].masknum || (lines[i].masknum == lines[j].masknum && i <= j)
  }

  /** The answer the file gives for an address. */
  ghost predicate FileAnswer(lines: seq<Line>, addr: Address, answer: Option<Row>) {
    if forall i :: 0 <= i < |lines| ==> lines[i].masknum > 32 then
      answer == Some(Row(0, 0, 0, 0, 0, 0))
    else
      RightAnswer(lines, addr, answer)
  }

  lemma CoversIsHolds(line: Line, addr: Address)
    requires line.masknum <= 32
    ensures Covers(RowOf(line), addr) <==> Contains(line, addr)
  {
    hide BitAnd, RoundDown, Pow2, RowOf;
    var zeros := 32 - line.masknum;
    RowStands(line);
    MaskedAddress(RowOf(line), addr);
    RoundDownIsQuotient(addr, zeros);
    SameMultiple(addr / Pow2(zeros), line.addr / Pow2(zeros), Pow2(zeros));
  }

  lemma SameMultiple(p: nat, q: nat, span: nat)
    requires span > 0
    ensures p * span == q * span <==> p == q
  {
    if p < q {
      TimesAtLeast(q - p, span);
      assert q * span == p * span + (q - p) * span;
    } else if q < p {
      TimesAtLeast(p - q, span);
      assert p * span == q * span + (p - q) * span;
    }
  }

  /** One more row. */
  lemma {:induction false} SameUpTo(rows: seq<Row>, more: seq<Row>, addr: nat, m: nat)
    requires m <= |rows|
    ensures LongestMatchUpTo(rows + more, addr, m) == LongestMatchUpTo(rows, addr, m)
  {
    if m > 0 {
      SameUpTo(rows, more, addr, m - 1);
    }
  }

  /** The answer of the rows is the best line. */
  ghost predicate RightAnswer(lines: seq<Line>, addr: Address, answer: Option<Row>) {
    match answer
    case None => forall i :: 0 <= i < |lines| ==> !Contains(lines[i], addr)
    case Some(r) => exists j: nat :: Best(lines, addr, j) && Stands(r, lines[j])
  }

  lemma {:induction false} RowsAnswer(lines: seq<Line>, addr: Address)
    ensures RightAnswer(lines, addr, LongestMatch(RowsOf(lines), addr))
  {
    hide Contains, Best, Stands, RowOf;
    if lines != [] {
      RowsAnswer(lines[..|lines| - 1], addr);
      LastLine(lines, addr);
    }
  }

  lemma {:induction false} NoRows(lines: seq<Line>)
    ensures RowsOf(lines) == [] <==> forall i :: 0 <= i < |lines| ==> lines[i].masknum > 32
  {
    hide RowOf;
    if lines != [] {
      NoRows(lines[..|lines| - 1]);
    }
  }

  lemma StaysBest(lines: seq<Line>, addr: Address, j: nat)
    requires lines != [] && Best(lines[..|lines| - 1], addr, j)
    requires var last := lines[|lines| - 1]; Contains(last, addr) ==> last.masknum < lines[j].masknum
    ensures Best(lines, addr, j)
  {
    hide Contains;
    var before := lines[..|lines| - 1];
    forall i | 0 <= i < |lines| && Contains(lines[i], addr)
      ensures lines[i].masknum < lines[j].masknum || (lines[i].masknum == lines[j].masknum && i <= j)
    {
      if i < |before| {
        assert before[i] == lines[i];
      }
    }
  }

  /** The last line is best if what was best before is no longer. */
  lemma BecomesBest(lines: seq<Line>, addr: Address, best: Option<Row>)
    requires lines != [] && Contains(lines[|lines| - 1], addr)
    requires RightAnswer(lines[..|lines| - 1], addr, best)
    requires best.Some? ==> best.value.masknum <= lines[|lines| - 1].masknum
    ensures Best(lines, addr, |lines| - 1)
  {
    hide Contains;
    var before, last := lines[..|lines| - 1], lines[|lines| - 1];
    forall i | 0 <= i < |before| && Contains(lines[i], addr) ensures lines[i].masknum <= last.masknum {
      assert before[i] == lines[i];
      var j: nat :| Best(before, addr, j) && Stands(best.value, before[j]);
    }
  }

  /** What the last line changes. */
  lemma LastLine(lines: seq<Line>, addr: Address)
    requires lines != [] && RightAnswer(lines[..|lines| - 1], addr, LongestMatch(RowsOf(lines[..|lines| - 1]), addr))
    ensures RightAnswer(lines, addr, LongestMatch(RowsOf(lines), addr))
  {
    hide Covers, SamePrefix, Best, RowOf, RightAnswer, Contains, LongestMatchUpTo;
    var before, last := lines[..|lines| - 1], lines[|lines| - 1];
    var rows := RowsOf(before);
    var best := LongestMatch(rows, addr);
    if last.masknum <= 32 {
      var x := RowOf(last);
      OneMoreRow(rows, x, addr);
      CoversIsHolds(last, addr);
      RowStands(last);
      if Covers(x, addr) && (best.None? || best.value.masknum <= x.masknum) {
        BecomesBest(lines, addr, best);
        IsRight(lines, addr, x, |lines| - 1);
        return;
      }
    } else {
      Unusable(last, addr);
    }
    StaysRight(lines, addr, best);
  }

  lemma OneMoreRow(rows: seq<Row>, x: Row, addr: nat)
    ensures LongestMatch(rows + [x], addr) ==
            var best := LongestMatch(rows, addr);
            if Covers(x, addr) && (best.None? || best.value.masknum <= x.masknum) then Some(x) else best
  {
    SameUpTo(rows, [x], addr, |rows|);
  }

  lemma Unusable(line: Line, addr: Address)
    requires line.masknum > 32
    ensures !Contains(line, addr)
  {
  }

  lemma IsRight(lines: seq<Line>, addr: Address, r: Row, j: nat)
    requires Best(lines, addr, j) && Stands(r, lines[j])
    ensures RightAnswer(lines, addr, Some(r))
  {
  }

  lemma StaysRight(lines: seq<Line>, addr: Address, best: Option<Row>)
    requires lines != [] && RightAnswer(lines[..|lines| - 1], addr, best)
    requires var last := lines[|lines| - 1];
             Contains(last, addr) ==> best.Some? && last.masknum < best.value.masknum
    ensures RightAnswer(lines, addr, best)
  {
    hide Contains;
    var before := lines[..|lines| - 1];
    if best.Some? {
      var j: nat :| Best(before, addr, j) && Stands(best.value, before[j]);
      StaysBest(lines, addr, j);
    } else {
      assert forall i :: 0 <= i < |before| ==> before[i] == lines[i];
    }
  }

  /** The longest match over the rows is the answer of the file. */
  lemma MatchIsFileAnswer(lines: seq<Line>, addr: Address)
    ensures FileAnswer(lines, addr, LongestMatch(EffectiveRows(lines), addr))
  {
    hide RightAnswer;
    RowsAnswer(lines, addr);
    NoRows(lines);
    AddressSpace();
    MaskedAddress(ZERO_ROW, addr);
    EverywhereCovered(addr);
    OneMoreRow([], ZERO_ROW, addr);
    assert [] + [ZERO_ROW] == [ZERO_ROW];
  }

  lemma EverywhereCovered(addr: Address)
    ensures RoundDown(addr, 32) == 0
  {
    AddressSpace();
    RoundDownIsQuotient(addr, 32);
    QuotientIs(addr, Pow2(32), 0, addr);
  }
}
