/** contracts/dependencies/LiquityMath.sol and the constants of contracts/dependencies/Base.sol, over unbounded naturals. */
module LiquityMath {
  import opened Arithmetic

  const DECIMAL_PRECISION: nat := 1_000_000_000_000_000_000
  const NICR_PRECISION: nat := 100_000_000_000_000_000_000
  const MCR: nat := 1_100_000_000_000_000_000
  const MIN_NET_DEBT: nat := 1_000_000_000_000_000_000
  const MAX_UINT: nat := 0xFFFF_FFFF_FFFF_FFFF_FFFF_FFFF_FFFF_FFFF_FFFF_FFFF_FFFF_FFFF_FFFF_FFFF_FFFF_FFFF

  function Min(a: nat, b: nat): nat {
    if a < b then a else b
  }

  function AbsoluteDifference(a: nat, b: nat): nat {
    if a >= b then a - b else b - a
  }

  function ComputeNominalCR(coll: nat, debt: nat): nat {
    if debt > 0 then coll * NICR_PRECISION / debt else MAX_UINT
  }

  function ComputeCR(coll: nat, debt: nat, price: nat): nat {
    if debt > 0 then coll * price / debt else MAX_UINT
  }

  /** Without debt both ratios are the greatest number of 256 bits. */
  lemma WithoutDebt(coll: nat, price: nat)
    ensures ComputeNominalCR(coll, 0) == ComputeCR(coll, 0, price)
         == 0x1_0000_0000_0000_0000_0000_0000_0000_0000_0000_0000_0000_0000_0000_0000_0000_0000 - 1
  {
  }

  /** A collateral ratio is at least `r` exactly when the collateral's value covers `r` times the debt. */
  lemma CRAtLeast(coll: nat, debt: nat, price: nat, r: nat)
    requires debt > 0
    ensures ComputeCR(coll, debt, price) >= r <==> coll * price >= r * debt
  {
    DivGe(coll * price, debt, r);
  }

  lemma NominalCRAtLeast(coll: nat, debt: nat, r: nat)
    requires debt > 0
    ensures ComputeNominalCR(coll, debt) >= r <==> coll * NICR_PRECISION >= r * debt
  {
    DivGe(coll * NICR_PRECISION, debt, r);
  }
}
