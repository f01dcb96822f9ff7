/**
  The cell-local physics of the solver stated over exact reals: the
  second-order equilibrium distribution, the density and momentum sums, the
  BGK relaxation in its two spellings, and the collision of one cell as the
  stand-alone solver performs it.  Float rounding is not modelled; these are
  the identities the float code approximates.
*/
module Physics {
  import opened Lattice

  /** Prescribed x velocity of the moving face (`CELL_INITIAL_VELOCITY`). */
  const WallVelocity: real := 0.05

  /** e_i . u */
  function Dot(i: int, ux: real, uy: real, uz: real): real
  {
    ux * (Ex(i) as real) + uy * (Ey(i) as real) + uz * (Ez(i) as real)
  }

  /** |u|^2 */
  function Speed2(ux: real, uy: real, uz: real): real
  {
    ux * ux + uy * uy + uz * uz
  }

  /** The second-order polynomial of the equilibrium for weight w * rho,
      e.u and |u|^2. */
  function Poly(wr: real, eu: real, u2: real): real
  {
    wr * (1.0 + 3.0 * eu + 4.5 * eu * eu - 1.5 * u2)
  }

  /** The equilibrium population of direction i:
      (rho w_i) (1 + 3 e.u + 4.5 (e.u)^2 - 1.5 |u|^2), lattice units. */
  function Feq(i: int, rho: real, ux: real, uy: real, uz: real): real
  {
    Poly(rho * W(i), Dot(i, ux, uy, uz), Speed2(ux, uy, uz))
  }

  /** All nineteen equilibrium populations of a cell. */
  function Equilibrium(rho: real, ux: real, uy: real, uz: real): (c: seq<real>)
    ensures |c| == Q
    ensures forall i :: 0 <= i < Q ==> c[i] == Feq(i, rho, ux, uy, uz)
  {
    seq(Q, i => Feq(i, rho, ux, uy, uz))
  }

  /** Density: the populations summed in the order of the unrolled loop. */
  function Density(c: seq<real>): real
    requires |c| == Q
  {
    c[0] + c[1] + c[2] + c[3] + c[4] + c[5] + c[6] + c[7] + c[8] + c[9]
    + c[10] + c[11] + c[12] + c[13] + c[14] + c[15] + c[16] + c[17] + c[18]
  }

  /** x momentum: sum of E_X * f. */
  function MomentumX(c: seq<real>): real
    requires |c| == Q
  {
    c[1] - c[3] + c[7] - c[8] - c[9] + c[10] + c[11] - c[13] + c[15] - c[17]
  }

  /** y momentum: sum of E_Y * f. */
  function MomentumY(c: seq<real>): real
    requires |c| == Q
  {
    c[2] - c[4] + c[7] + c[8] - c[9] - c[10] + c[12] - c[14] + c[16] - c[18]
  }

  /** z momentum: sum of E_Z * f. */
  function MomentumZ(c: seq<real>): real
    requires |c| == Q
  {
    - c[5] + c[6] - c[11] - c[12] - c[13] - c[14] + c[15] + c[16] + c[17] + c[18]
  }

  /** The equilibrium carries exactly the density and momentum it was built
      from: sum f_eq = rho and sum e f_eq = rho u. */
  lemma EquilibriumMoments(rho: real, ux: real, uy: real, uz: real)
    ensures Density(Equilibrium(rho, ux, uy, uz)) == rho
    ensures MomentumX(Equilibrium(rho, ux, uy, uz)) == rho * ux
    ensures MomentumY(Equilibrium(rho, ux, uy, uz)) == rho * uy
    ensures MomentumZ(Equilibrium(rho, ux, uy, uz)) == rho * uz
  {
    EquilibriumEntries(rho, ux, uy, uz);
    EquilibriumDensity(rho, ux, uy, uz);
    EquilibriumMomentum(rho, ux, uy, uz);
  }

  lemma EquilibriumDensity(rho: real, ux: real, uy: real, uz: real)
    requires EntriesArePolys(Equilibrium(rho, ux, uy, uz), rho, ux, uy, uz)
    ensures Density(Equilibrium(rho, ux, uy, uz)) == rho
  {
    var c := Equilibrium(rho, ux, uy, uz);
    var u2 := Speed2(ux, uy, uz);
    var a := rho * (1.0 / 18.0);
    var b := rho * (1.0 / 36.0);
    AxisPair(a, ux, u2);
    AxisPair(a, uy, u2);
    AxisPair(a, uz, u2);
    DiagonalPair(b, ux, uy, u2);
    DiagonalPair(b, ux, -uz, u2);
    DiagonalPair(b, uy, -uz, u2);
    RestAndShells(rho, ux, uy, uz);
  }

  lemma EquilibriumMomentum(rho: real, ux: real, uy: real, uz: real)
    requires EntriesArePolys(Equilibrium(rho, ux, uy, uz), rho, ux, uy, uz)
    ensures MomentumX(Equilibrium(rho, ux, uy, uz)) == rho * ux
    ensures MomentumY(Equilibrium(rho, ux, uy, uz)) == rho * uy
    ensures MomentumZ(Equilibrium(rho, ux, uy, uz)) == rho * uz
  {
    var u2 := Speed2(ux, uy, uz);
    var a := rho * (1.0 / 18.0);
    var b := rho * (1.0 / 36.0);
    AxisPair(a, ux, u2);
    AxisPair(a, uy, u2);
    AxisPair(a, uz, u2);
    DiagonalPair(b, ux, uy, u2);
    DiagonalPair(b, ux, -uz, u2);
    DiagonalPair(b, uy, -uz, u2);
  }

  /** Each population of c is the equilibrium polynomial of its weight and
      its e_i . u. */
  predicate EntriesArePolys(c: seq<real>, rho: real, ux: real, uy: real, uz: real)
    requires |c| == Q
  {
    AxisEntriesArePolys(c, rho, ux, uy, uz) && DiagonalEntriesArePolys(c, rho, ux, uy, uz)
  }

  /** The rest population and the six axis populations. */
  predicate AxisEntriesArePolys(c: seq<real>, rho: real, ux: real, uy: real, uz: real)
    requires |c| == Q
  {
    var u2 := Speed2(ux, uy, uz);
    var a := rho * (1.0 / 18.0);
    && c[0] == Poly(rho * (1.0 / 3.0), 0.0, u2)
    && c[1] == Poly(a, ux, u2) && c[3] == Poly(a, -ux, u2)
    && c[2] == Poly(a, uy, u2) && c[4] == Poly(a, -uy, u2)
    && c[6] == Poly(a, uz, u2) && c[5] == Poly(a, -uz, u2)
  }

  /** The twelve diagonal populations. */
  predicate DiagonalEntriesArePolys(c: seq<real>, rho: real, ux: real, uy: real, uz: real)
    requires |c| == Q
  {
    var u2 := Speed2(ux, uy, uz);
    var b := rho * (1.0 / 36.0);
    && c[7] == Poly(b, ux + uy, u2) && c[9] == Poly(b, -ux - uy, u2)
    && c[8] == Poly(b, -ux + uy, u2) && c[10] == Poly(b, ux - uy, u2)
    && c[11] == Poly(b, ux + -uz, u2) && c[17] == Poly(b, -ux - -uz, u2)
    && c[13] == Poly(b, -ux + -uz, u2) && c[15] == Poly(b, ux - -uz, u2)
    && c[12] == Poly(b, uy + -uz, u2) && c[18] == Poly(b, -uy - -uz, u2)
    && c[14] == Poly(b, -uy + -uz, u2) && c[16] == Poly(b, uy - -uz, u2)
  }

  /** Each equilibrium population as the polynomial of its weight and its
      e_i . u. */
  lemma EquilibriumEntries(rho: real, ux: real, uy: real, uz: real)
    ensures EntriesArePolys(Equilibrium(rho, ux, uy, uz), rho, ux, uy, uz)
  {
    EquilibriumAxisEntries(rho, ux, uy, uz);
    EquilibriumDiagonalEntries(rho, ux, uy, uz);
  }

  lemma EquilibriumAxisEntries(rho: real, ux: real, uy: real, uz: real)
    ensures AxisEntriesArePolys(Equilibrium(rho, ux, uy, uz), rho, ux, uy, uz)
  {
  }

  lemma EquilibriumDiagonalEntries(rho: real, ux: real, uy: real, uz: real)
    ensures DiagonalEntriesArePolys(Equilibrium(rho, ux, uy, uz), rho, ux, uy, uz)
  {
  }

  /** The rest population and the shell sums add up to rho. */
  lemma RestAndShells(rho: real, ux: real, uy: real, uz: real)
    ensures var u2 := Speed2(ux, uy, uz);
            Poly(rho * (1.0 / 3.0), 0.0, u2)
            + rho * (1.0 / 18.0) * (6.0 + 9.0 * (ux * ux + uy * uy + uz * uz) - 9.0 * u2)
            + rho * (1.0 / 36.0) * (12.0 + 36.0 * (ux * ux + uy * uy + uz * uz) - 18.0 * u2)
            == rho
  {
  }

  /** The two axis vectors +-e along one axis, with weight rho/18. */
  lemma AxisPair(a: real, p: real, u2: real)
    ensures Poly(a, p, u2) + Poly(a, -p, u2) == a * (2.0 + 9.0 * (p * p) - 3.0 * u2)
    ensures Poly(a, p, u2) - Poly(a, -p, u2) == a * 6.0 * p
  {
  }

  /** The four diagonal vectors (+-1, +-1) in one coordinate plane, with
      weight rho/36: their contributions to the density and to the two
      in-plane momenta. */
  lemma DiagonalPair(b: real, p: real, q: real, u2: real)
    ensures Poly(b, p + q, u2) + Poly(b, -p - q, u2) + Poly(b, -p + q, u2) + Poly(b, p - q, u2)
            == b * (4.0 + 18.0 * (p * p) + 18.0 * (q * q) - 6.0 * u2)
    ensures Poly(b, p + q, u2) - Poly(b, -p - q, u2) - Poly(b, -p + q, u2) + Poly(b, p - q, u2)
            == b * 12.0 * p
    ensures Poly(b, p + q, u2) - Poly(b, -p - q, u2) + Poly(b, -p + q, u2) - Poly(b, p - q, u2)
            == b * 12.0 * q
  {
  }

  // ---------------------------------------------------------------------
  // BGK relaxation
  // ---------------------------------------------------------------------

  /** `compute_bgk` of constants.h: f + (1/tau) (f_eq - f). */
  function BgkHeader(f: real, fEq: real, invTau: real): real
  {
    f + invTau * (fEq - f)
  }

  /** `compute_bgk` of lbmcpp.cpp: f - (f - f_eq) (1/tau). */
  function BgkLocal(f: real, fEq: real, invTau: real): real
  {
    f - (f - fEq) * invTau
  }

  /** The two spellings agree, relax the distance to equilibrium by the factor
      (1 - 1/tau), and so leave an equilibrium population unchanged. */
  lemma BgkRelaxes(f: real, fEq: real, invTau: real)
    ensures BgkHeader(f, fEq, invTau) == BgkLocal(f, fEq, invTau)
    ensures BgkLocal(f, fEq, invTau) - fEq == (1.0 - invTau) * (f - fEq)
    ensures f == fEq ==> BgkHeader(f, fEq, invTau) == f
  {
  }

  /** Relaxation rate 1/tau with tau = 3 nu + 1/2 (lattice units). */
  function InvTau(viscosity: real): real
    requires viscosity >= 0.0
  {
    1.0 / (3.0 * viscosity + 0.5)
  }

  /** A positive viscosity gives 0 < 1/tau < 2, so |1 - 1/tau| < 1 and each
      BGK step brings a population strictly closer to its equilibrium. */
  lemma InvTauBounds(viscosity: real)
    requires viscosity > 0.0
    ensures 0.0 < InvTau(viscosity) < 2.0
    ensures -1.0 < 1.0 - InvTau(viscosity) < 1.0
  {
    var d := 3.0 * viscosity + 0.5;
    assert d > 0.5;
    assert InvTau(viscosity) * d == 1.0;
  }

  /** The macroscopic state (rho, ux, uy, uz) that the stand-alone solver's
      collision relaxes towards: the moments of the cell, except that the
      moving face forces rho = 1 and u = (u_wall, 0, 0). */
  function CollisionTarget(c: seq<real>, moving: bool): (t: (real, real, real, real))
    requires |c| == Q && (moving || Density(c) != 0.0)
    ensures moving ==> t == (1.0, WallVelocity, 0.0, 0.0)
    ensures !moving ==> t.0 == Density(c) && t.0 * t.1 == MomentumX(c)
                        && t.0 * t.2 == MomentumY(c) && t.0 * t.3 == MomentumZ(c)
  {
    if moving then (1.0, WallVelocity, 0.0, 0.0)
    else
      var rho := Density(c);
      (rho, MomentumX(c) / rho, MomentumY(c) / rho, MomentumZ(c) / rho)
  }

  /** The collision of one cell: every population relaxed towards the
      equilibrium of the collision target. */
  function CollideCell(c: seq<real>, moving: bool, invTau: real): (r: seq<real>)
    requires |c| == Q && (moving || Density(c) != 0.0)
    ensures |r| == Q
  {
    var t := CollisionTarget(c, moving);
    seq(Q, i requires 0 <= i < Q => BgkLocal(c[i], Feq(i, t.0, t.1, t.2, t.3), invTau))
  }

  /** Equilibrium is a fixed point of the collision of a fluid cell, whatever
      the relaxation rate: a cell in equilibrium stays unchanged. */
  lemma EquilibriumIsCollisionFixedPoint(rho: real, ux: real, uy: real, uz: real, invTau: real)
    requires rho != 0.0
    ensures Density(Equilibrium(rho, ux, uy, uz)) != 0.0
    ensures CollideCell(Equilibrium(rho, ux, uy, uz), false, invTau) == Equilibrium(rho, ux, uy, uz)
  {
    var c := Equilibrium(rho, ux, uy, uz);
    EquilibriumTarget(rho, ux, uy, uz);
    var r := CollideCell(c, false, invTau);
    forall i | 0 <= i < Q ensures r[i] == c[i] {
      BgkRelaxes(c[i], c[i], invTau);
    }
  }

  /** The collision target of an equilibrium cell is the state it was built
      from. */
  lemma EquilibriumTarget(rho: real, ux: real, uy: real, uz: real)
    requires rho != 0.0
    ensures Density(Equilibrium(rho, ux, uy, uz)) != 0.0
    ensures CollisionTarget(Equilibrium(rho, ux, uy, uz), false) == (rho, ux, uy, uz)
  {
    EquilibriumMoments(rho, ux, uy, uz);
    TargetFromMoments(Equilibrium(rho, ux, uy, uz), rho, ux, uy, uz);
  }

  /** A fluid cell whose moments are rho and rho u relaxes towards (rho, u). */
  lemma TargetFromMoments(c: seq<real>, rho: real, ux: real, uy: real, uz: real)
    requires |c| == Q && rho != 0.0 && Density(c) == rho
    requires MomentumX(c) == rho * ux && MomentumY(c) == rho * uy && MomentumZ(c) == rho * uz
    ensures CollisionTarget(c, false) == (rho, ux, uy, uz)
  {
    var t := CollisionTarget(c, false);
    MulCancel(rho, t.1, ux);
    MulCancel(rho, t.2, uy);
    MulCancel(rho, t.3, uz);
  }

  /** Cancellation of a non-zero factor. */
  lemma MulCancel(a: real, x: real, y: real)
    requires a != 0.0 && a * x == a * y
    ensures x == y
  {
    assert (a * x) / a == x && (a * y) / a == y;
  }

  /** The moving-face rebuild of the boundary handler: all nineteen
      populations replaced by the equilibrium at the cell's own density and the
      wall velocity. */
  function MovingRebuild(c: seq<real>): (r: seq<real>)
    requires |c| == Q
    ensures |r| == Q
  {
    Equilibrium(Density(c), WallVelocity, 0.0, 0.0)
  }

  /** The rebuild keeps the cell's density and imposes the wall velocity:
      recomputing rho and u from the written populations gives back rho and
      (u_wall, 0, 0). */
  lemma MovingWallImposed(c: seq<real>)
    requires |c| == Q
    ensures Density(MovingRebuild(c)) == Density(c)
    ensures MomentumX(MovingRebuild(c)) == Density(c) * WallVelocity
    ensures MomentumY(MovingRebuild(c)) == 0.0 && MomentumZ(MovingRebuild(c)) == 0.0
  {
    RebuildMoments(Density(c), WallVelocity);
  }

  /** The moments of the equilibrium at density rho and velocity (ux, 0, 0). */
  lemma RebuildMoments(rho: real, ux: real)
    ensures Density(Equilibrium(rho, ux, 0.0, 0.0)) == rho
    ensures MomentumX(Equilibrium(rho, ux, 0.0, 0.0)) == rho * ux
    ensures MomentumY(Equilibrium(rho, ux, 0.0, 0.0)) == 0.0
    ensures MomentumZ(Equilibrium(rho, ux, 0.0, 0.0)) == 0.0
  {
    EquilibriumMoments(rho, ux, 0.0, 0.0);
  }
}