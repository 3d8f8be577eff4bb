/**
 IPv4 prefixes as the networks file holds them: a network address, the mask
 that goes with a prefix length, and the data attached to the prefix.

 Addresses and masks are the 32-bit unsigned integers of the source, in host
 byte order. The bitwise AND of the source is defined on its bits; that a
 prefix is an interval of addresses is a consequence, proved here.
 */
module NetPrefix {

  const ADDRESS_BITS: nat := 32
  const ADDRESS_LIMIT: nat := 0x1_0000_0000

  /** A row of the networks table, without its table of children. */
  datatype Row = Row(net: nat, mask: nat, masknum: nat, peerAs: nat, asn: nat, nextHop: nat)

  function Pow2(n: nat): (r: nat)
    ensures r >= 1
  {
    if n == 0 then 1 else 2 * Pow2(n - 1)
  }

  /** Bitwise AND of two naturals. */
  function BitAnd(x: nat, y: nat): nat
    decreases x
  {
    if x == 0 then 0 else 2 * BitAnd(x / 2, y / 2) + (x % 2) * (y % 2)
  }

  /** The 32-bit mask with `n` leading ones. */
  function MaskOf(n: nat): nat
    requires n <= ADDRESS_BITS
    ensures MaskOf(n) < ADDRESS_LIMIT
  {
    AddressSpace();
    Pow2AtMost(ADDRESS_BITS - n, ADDRESS_BITS);
    ADDRESS_LIMIT - Pow2(ADDRESS_BITS - n)
  }

  /** The number of addresses behind a prefix of length `n`. */
  function SpanOf(n: nat): nat
    requires n <= ADDRESS_BITS
  {
    Pow2(ADDRESS_BITS - n)
  }

  predicate ValidRow(r: Row) {
    && r.masknum <= ADDRESS_BITS
    && r.mask == MaskOf(r.masknum)
    && r.net < ADDRESS_LIMIT
    && BitAnd(r.net, r.mask) == r.net
  }

  predicate ValidRows(rows: seq<Row>) {
    forall i :: 0 <= i < |rows| ==> ValidRow(rows[i])
  }

  /** The test the source makes wherever it asks whether a row matches. */
  predicate Covers(r: Row, addr: nat) {
    BitAnd(addr, r.mask) == r.net
  }

  // The order the table is sorted by: network first, mask second.
  predicate RowLe(e: Row, f: Row) {
    e.net < f.net || (e.net == f.net && e.mask <= f.mask)
  }

  ghost predicate SortedRows(s: seq<Row>) {
    forall i, j :: 0 <= i < j < |s| ==> RowLe(s[i], s[j])
  }

  // ----- powers of two and masking

  lemma {:induction false} Pow2AtMost(m: nat, n: nat)
    requires m <= n
    ensures Pow2(m) <= Pow2(n)
  {
    if m < n {
      Pow2AtMost(m, n - 1);
    }
  }

  lemma AddressSpace()
    ensures Pow2(ADDRESS_BITS) == ADDRESS_LIMIT
  {
    assert Pow2(8) == 256;
    assert Pow2(16) == 65536;
    assert Pow2(24) == 16777216;
  }

  /** `x` with its lowest `zeros` bits cleared. */
  function RoundDown(x: nat, zeros: nat): (r: nat)
    ensures r <= x < r + Pow2(zeros)
  {
    if zeros == 0 then x else 2 * RoundDown(x / 2, zeros - 1)
  }

  lemma {:induction false} AndOnes(x: nat, width: nat)
    requires x < Pow2(width)
    ensures BitAnd(x, Pow2(width) - 1) == x
  {
    if width > 0 && x > 0 {
      assert (Pow2(width) - 1) / 2 == Pow2(width - 1) - 1;
      assert (Pow2(width) - 1) % 2 == 1;
      AndOnes(x / 2, width - 1);
    }
  }

  lemma AndEven(x: nat, m: nat)
    ensures BitAnd(x, 2 * m) == 2 * BitAnd(x / 2, m)
  {
    assert 2 * m / 2 == m && 2 * m % 2 == 0;
  }

  lemma HalfOfSpan(x: nat, width: nat, zeros: nat)
    requires 0 < zeros <= width && x < Pow2(width)
    ensures x / 2 < Pow2(width - 1) && Pow2(zeros - 1) <= Pow2(width - 1)
    ensures Pow2(width) - Pow2(zeros) == 2 * (Pow2(width - 1) - Pow2(zeros - 1))
  {
    Pow2AtMost(zeros - 1, width - 1);
  }

  /** Masking with leading ones rounds down. */
  lemma {:induction false} AndRoundsDown(x: nat, width: nat, zeros: nat)
    requires zeros <= width && x < Pow2(width)
    ensures Pow2(zeros) <= Pow2(width)
    ensures BitAnd(x, Pow2(width) - Pow2(zeros)) == RoundDown(x, zeros)
  {
    hide BitAnd;
    Pow2AtMost(zeros, width);
    if zeros == 0 {
      AndOnes(x, width);
    } else {
      hide Pow2;
      HalfOfSpan(x, width, zeros);
      AndRoundsDown(x / 2, width - 1, zeros - 1);
      AndEven(x, Pow2(width - 1) - Pow2(zeros - 1));
    }
  }

  lemma {:induction false} RoundDownWithin(n: nat, x: nat, zeros: nat)
    requires RoundDown(n, zeros) == n && n <= x < n + Pow2(zeros)
    ensures RoundDown(x, zeros) == n
  {
    if zeros > 0 {
      RoundDownWithin(n / 2, x / 2, zeros - 1);
    }
  }

  /** Two aligned blocks are nested or disjoint. */
  lemma {:induction false} AlignedBlocks(big: nat, bigZeros: nat, small: nat, smallZeros: nat)
    requires smallZeros <= bigZeros
    requires RoundDown(big, bigZeros) == big && RoundDown(small, smallZeros) == small
    ensures || (big <= small && small + Pow2(smallZeros) <= big + Pow2(bigZeros))
            || small + Pow2(smallZeros) <= big
            || big + Pow2(bigZeros) <= small
  {
    if smallZeros > 0 {
      AlignedBlocks(big / 2, bigZeros - 1, small / 2, smallZeros - 1);
    }
  }

  // ----- a row is an interval of addresses

  lemma MaskedAddress(r: Row, addr: nat)
    requires ValidRow(r) && addr < ADDRESS_LIMIT
    ensures BitAnd(addr, r.mask) == RoundDown(addr, ADDRESS_BITS - r.masknum)
  {
    hide BitAnd, RoundDown, Pow2;
    AddressSpace();
    AndRoundsDown(addr, ADDRESS_BITS, ADDRESS_BITS - r.masknum);
  }

  /** Masked address below, at or above the network: address before, in or
      after the interval. */
  lemma RowInterval(r: Row, addr: nat)
    requires ValidRow(r) && addr < ADDRESS_LIMIT
    ensures BitAnd(addr, r.mask) < r.net <==> addr < r.net
    ensures Covers(r, addr) <==> r.net <= addr < r.net + SpanOf(r.masknum)
    ensures BitAnd(addr, r.mask) > r.net <==> r.net + SpanOf(r.masknum) <= addr
  {
    MaskedAddress(r, addr);
    MaskedAddress(r, r.net);
    if r.net <= addr < r.net + SpanOf(r.masknum) {
      RoundDownWithin(r.net, addr, ADDRESS_BITS - r.masknum);
    }
  }

  /** Two prefixes are nested or disjoint. */
  lemma Laminar(e: Row, f: Row)
    requires ValidRow(e) && ValidRow(f) && e.masknum <= f.masknum
    ensures || (e.net <= f.net && f.net + SpanOf(f.masknum) <= e.net + SpanOf(e.masknum))
            || f.net + SpanOf(f.masknum) <= e.net
            || e.net + SpanOf(e.masknum) <= f.net
  {
    MaskedAddress(e, e.net);
    MaskedAddress(f, f.net);
    AlignedBlocks(e.net, ADDRESS_BITS - e.masknum, f.net, ADDRESS_BITS - f.masknum);
  }

  lemma MaskOrder(e: Row, f: Row)
    requires ValidRow(e) && ValidRow(f)
    ensures e.mask <= f.mask <==> e.masknum <= f.masknum
  {
    if e.masknum <= f.masknum {
      Pow2AtMost(ADDRESS_BITS - f.masknum, ADDRESS_BITS - e.masknum);
    } else {
      Pow2AtMost(ADDRESS_BITS - e.masknum, ADDRESS_BITS - f.masknum - 1);
    }
  }

  // ----- what the order means for coverage

  /** If an earlier row covers a later one, the later one lies inside it. */
  lemma CoveredLiesInside(e: Row, f: Row)
    requires ValidRow(e) && ValidRow(f) && RowLe(e, f) && Covers(e, f.net)
    ensures e.masknum <= f.masknum
    ensures f.net + SpanOf(f.masknum) <= e.net + SpanOf(e.masknum)
  {
    RowInterval(e, f.net);
    MaskOrder(e, f);
    if e.masknum <= f.masknum {
      Laminar(e, f);
    } else {
      Laminar(f, e);
    }
  }

  lemma CoverTransitive(e: Row, f: Row, addr: nat)
    requires ValidRow(e) && ValidRow(f) && addr < ADDRESS_LIMIT
    requires RowLe(e, f) && Covers(e, f.net) && Covers(f, addr)
    ensures Covers(e, addr)
  {
    CoveredLiesInside(e, f);
    RowInterval(e, f.net);
    RowInterval(e, addr);
    RowInterval(f, addr);
  }

  /** What covers an address beyond a later row covers that row. */
  lemma CoverConvex(e: Row, f: Row, addr: nat)
    requires ValidRow(e) && ValidRow(f) && addr < ADDRESS_LIMIT
    requires RowLe(e, f) && f.net <= addr && Covers(e, addr)
    ensures Covers(e, f.net)
  {
    RowInterval(e, f.net);
    RowInterval(e, addr);
  }

  /** Rows of one length covering one address have one network. */
  lemma SameLengthSameNet(e: Row, f: Row, addr: nat)
    requires ValidRow(e) && ValidRow(f) && e.masknum == f.masknum
    requires Covers(e, addr) && Covers(f, addr)
    ensures e.net == f.net && e.mask == f.mask
  {
  }
}
