/** The group pair-setup runs over, and why its generator keeps an honest client's
    public value from ever being zero. */
module SrpGroup {
  import opened Basics
  import opened Modular
  import opened Numbers
  import opened Srp

  lemma Regroup(a: int, b: int, c: int, d: int)
    ensures (a * b) * (c * d) == (a * c) * (b * d)
  {
    calc {
      (a * b) * (c * d);
      a * (b * (c * d));
      a * ((b * c) * d);
      a * ((c * b) * d);
      a * (c * (b * d));
      (a * c) * (b * d);
    }
  }

  lemma {:induction false} PowOfProduct(g: nat, h: nat, a: nat)
    ensures Pow(g * h, a) == Pow(g, a) * Pow(h, a)
  {
    if a > 0 {
      PowOfProduct(g, h, a - 1);
      Regroup(g, h, Pow(g, a - 1), Pow(h, a - 1));
    }
  }

  lemma {:induction false} PowOfOne(a: nat)
    ensures Pow(1, a) == 1
  {
    if a > 0 { PowOfOne(a - 1); }
  }

  /** No power of an invertible residue is zero. */
  lemma InvertibleNeverZero(g: nat, h: nat, a: nat, n: nat)
    requires n > 1 && Congruent(g * h, 1, n)
    ensures ModExp(g, a, n) != 0
  {
    var p, q := Pow(g, a), Pow(h, a);
    PowOfProduct(g, h, a);
    PowOfOne(a);
    CongruentPow(g * h, 1, a, n);
    ModUnique(1, n, 0, 1);
    if p % n == 0 {
      ModUnique(0, n, 0, 0);
      CongruentMul(p, 0, q, q, n);
    }
  }

  // ------------------------------------------------- the modulus modulo five

  function RowSum(rows: seq<nat>): nat {
    if rows == [] then 0 else RowSum(rows[..|rows| - 1]) + rows[|rows| - 1]
  }

  /** A row shifts by a power of sixteen, which five leaves alone. */
  lemma RowShift(n: nat, row: nat)
    ensures (n * ROW + row) % 5 == (n + row) % 5
  {
    var q := ROW / 5;
    assert ROW == 5 * q + 1;
    assert n * ROW == 5 * (n * q) + n;
    assert (n * ROW + row) == (n * q) * 5 + (n + row);
    CongruentIff(n * ROW + row, n + row, 5, n * q);
  }

  lemma {:induction false} FromRowsModFive(rows: seq<nat>)
    ensures FromRows(rows) % 5 == RowSum(rows) % 5
  {
    if rows != [] {
      var front, last := rows[..|rows| - 1], rows[|rows| - 1];
      FromRowsModFive(front);
      RowShift(FromRows(front), last);
      CongruentAdd(FromRows(front), RowSum(front), last, last, 5);
    }
  }

  lemma {:induction false} RowSumFrom(rows: seq<nat>, k: nat)
    requires k < |rows|
    ensures RowSum(rows[..k + 1]) == RowSum(rows[..k]) + rows[k]
  {
    assert rows[..k + 1][..k] == rows[..k];
  }

  lemma ModulusModFive()
    ensures RFC5054_GROUP.N % 5 == 2
  {
    FromRowsModFive(MODULUS_ROWS);
    assert MODULUS_ROWS[..0] == [] && MODULUS_ROWS[..12] == MODULUS_ROWS;
    RowSumFrom(MODULUS_ROWS, 0);
    RowSumFrom(MODULUS_ROWS, 1);
    RowSumFrom(MODULUS_ROWS, 2);
    RowSumFrom(MODULUS_ROWS, 3);
    RowSumFrom(MODULUS_ROWS, 4);
    RowSumFrom(MODULUS_ROWS, 5);
    RowSumFrom(MODULUS_ROWS, 6);
    RowSumFrom(MODULUS_ROWS, 7);
    RowSumFrom(MODULUS_ROWS, 8);
    RowSumFrom(MODULUS_ROWS, 9);
    RowSumFrom(MODULUS_ROWS, 10);
    RowSumFrom(MODULUS_ROWS, 11);
    assert RowSum(MODULUS_ROWS[..4]) == 0x24025600F02EEFD0DAD7EBCA38E4665BFF1D0257AE132A895272D31E61231579D;
    assert RowSum(MODULUS_ROWS[..8]) == 0x4950891F5927F57FE2E9ADB565B2974C431E1DAF281E58E9F017F6685FA9609DE;
    assert RowSum(MODULUS_ROWS[..12]) == 0x6CAABB44200535BCFD01D7C4FF6A2F607931406E81D5AB9C01D4FF8D335DB3DEA;
  }

  /** With a modulus of two modulo five, five is invertible, and no power of it zero. */
  lemma FiveNeverZero(grp: Group, privateA: Bytes)
    requires Fits(grp) && grp.g == 5 && grp.N % 5 == 2 && privateA != []
    ensures PublicA(grp, privateA) != [] && FromBytes(PublicA(grp, privateA)) % grp.N != 0
  {
    var A, h := ModExp(5, FromBytes(privateA), grp.N), (2 * grp.N + 1) / 5;
    CongruentIff(5 * h, 1, grp.N, 2);
    InvertibleNeverZero(5, h, FromBytes(privateA), grp.N);
    PadIsExact(A);
    ModUnique(A, grp.N, 0, A);
  }

  /** In the group in use an honest client's public value is never zero modulo N, so
      only the other end's value can make the exchange refuse. */
  lemma HonestClientNeverZero(privateA: Bytes)
    requires privateA != []
    ensures PublicA(RFC5054_GROUP, privateA) != []
    ensures FromBytes(PublicA(RFC5054_GROUP, privateA)) % RFC5054_GROUP.N != 0
  {
    Rfc5054GroupFits();
    ModulusModFive();
    FiveNeverZero(RFC5054_GROUP, privateA);
  }
}
