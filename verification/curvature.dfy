/**
 * Vertex curvature selection of the parameterisation mesh: the principal
 * curvatures derived from the mean curvature H and the angle defect K, and
 * the named curvature a caller asks for.
 *
 * H, K and the square root are floating-point computations outside this
 * model; they enter as inputs (`root` is the square root of H*H - K when
 * that is positive).
 */
module Curvature {
  import opened Wrappers

  /**
   * principalCurvature: with d = H*H - K, d is replaced by its square root
   * when positive and by 0 otherwise; the pair is (H - d, H + d).
   */
  function PrincipalCurvature(h: real, k: real, root: real): (kk: (real, real))
    requires root >= 0.0
    ensures kk.0 <= kk.1
    ensures kk.0 + kk.1 == 2.0 * h
    ensures h * h - k <= 0.0 ==> kk.0 == h && kk.1 == h
    ensures h * h - k > 0.0 ==> kk.1 - kk.0 == 2.0 * root
  {
    var d := h * h - k;
    var dd := if d > 0.0 then root else 0.0;
    (h - dd, h + dd)
  }

  /** curvature: 'Mean', 'Gaussian', 'Kmin', 'Kmax', and 0 for any other name. */
  function CurvatureByName(name: string, h: real, k: real, root: real): (r: real)
    requires root >= 0.0
    ensures name == "Mean" ==> r == h
    ensures name == "Kmin" ==> r <= h
    ensures name == "Kmax" ==> r >= h
    ensures name != "Mean" && name != "Gaussian" && name != "Kmin" && name != "Kmax" ==> r == 0.0
  {
    var kk := PrincipalCurvature(h, k, root);
    if name == "Mean" then (kk.0 + kk.1) * 0.5
    else if name == "Gaussian" then kk.0 * kk.1
    else if name == "Kmin" then kk.0
    else if name == "Kmax" then kk.1
    else 0.0
  }

  /** curvature(method = 'Mean'): a call without a name (None) asks for the mean curvature. */
  function VertexCurvature(name: Option<string>, h: real, k: real, root: real): (r: real)
    requires root >= 0.0
    ensures name.None? ==> r == h
    ensures name.Some? ==> r == CurvatureByName(name.value, h, k, root)
  {
    CurvatureByName(if name.Some? then name.value else "Mean", h, k, root)
  }

  /** The mean curvature option returns H itself, whatever the angle defect. */
  lemma MeanIsH(h: real, k: real, root: real)
    requires root >= 0.0
    ensures CurvatureByName("Mean", h, k, root) == h
  {
  }

  /** Kmin never exceeds Kmax. */
  lemma KminAtMostKmax(h: real, k: real, root: real)
    requires root >= 0.0
    ensures CurvatureByName("Kmin", h, k, root) <= CurvatureByName("Kmax", h, k, root)
  {
  }

  /**
   * With an exact square root the Gaussian option returns the angle defect K
   * when H*H > K; otherwise (the clamped case) it returns H*H, which is at
   * most K.
   */
  lemma GaussianRecoversDefect(h: real, k: real, root: real)
    requires root >= 0.0
    requires h * h - k > 0.0 ==> root * root == h * h - k
    ensures h * h - k > 0.0 ==> CurvatureByName("Gaussian", h, k, root) == k
    ensures h * h - k <= 0.0 ==> CurvatureByName("Gaussian", h, k, root) == h * h <= k
  {
    var kk := PrincipalCurvature(h, k, root);
    if h * h - k > 0.0 {
      assert kk == (h - root, h + root);
      assert (h - root) * (h + root) == h * h - root * root;
    } else {
      assert kk == (h, h);
    }
  }

  /** Any other name selects 0. */
  lemma OtherNamesGiveZero(name: string, h: real, k: real, root: real)
    requires root >= 0.0
    requires name != "Mean" && name != "Gaussian" && name != "Kmin" && name != "Kmax"
    ensures CurvatureByName(name, h, k, root) == 0.0
  {
  }
}
