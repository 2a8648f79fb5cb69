/**
 * The label arithmetic of the drawing code in graph_visualization.py: the length and the
 * mod-7 sublabel written on each edge, and the label and sublabel written beside each node.
 * A node may be `math.inf`, drawn as "∞".
 */
module DisplayLabels {
  import opened Wrappers

  /** A node as the drawing code sees it: an integer or `math.inf`. */
  datatype Label = Inf | Fin(n: int)

  /** An edge sublabel: a residue mod 7, or the NaN that `math.inf % 7` yields when both ends
      are infinite. */
  datatype Sublabel = Residue(r: int) | NotANumber

  function Abs(x: int): nat {
    if x < 0 then -x else x
  }

  /** `min(abs(x - y), mod - abs(x - y))`. */
  function CyclicDistance(mod: int, x: int, y: int): int {
    var d := Abs(x - y);
    if mod - d < d then mod - d else d
  }

  /** `a % 7` is a residue in [0, 7) that differs from `a` by a multiple of 7. */
  lemma Mod7(a: int)
    ensures 0 <= a % 7 < 7 && (a - a % 7) % 7 == 0
  {
    var q := a / 7;
    assert a - a % 7 == 7 * q;
  }

  /** The edge length `l_e`: "∞" when either end is infinite, else the shorter of the two ways
      between the ends around a cycle of `mod` positions. */
  function EdgeLength(mod: int, x: Label, y: Label): (r: Label)
    ensures r.Inf? <==> x.Inf? || y.Inf?
    ensures r.Fin? ==> r.n <= Abs(x.n - y.n) && r.n <= mod - Abs(x.n - y.n)
    ensures r.Fin? ==> r.n == Abs(x.n - y.n) || r.n == mod - Abs(x.n - y.n)
  {
    if x.Inf? || y.Inf? then Inf else Fin(CyclicDistance(mod, x.n, y.n))
  }

  /** The finite ends of an edge added up; an infinite end adds nothing. */
  function FiniteSum(x: Label, y: Label): int {
    (if x.Fin? then x.n else 0) + (if y.Fin? then y.n else 0)
  }

  /** The edge sublabel `l_mod_7`: the other end mod 7 when one end is infinite, the sum of
      the ends mod 7 otherwise. Python's `%` by 7 agrees with Dafny's. */
  function EdgeSublabel(x: Label, y: Label): (r: Sublabel)
    ensures r == NotANumber <==> x.Inf? && y.Inf?
    ensures r.Residue? ==> 0 <= r.r < 7 && (FiniteSum(x, y) - r.r) % 7 == 0
  {
    Mod7(FiniteSum(x, y));
    if x.Inf? then (if y.Inf? then NotANumber else Residue(y.n % 7))
    else if y.Inf? then Residue(x.n % 7)
    else Residue((x.n + y.n) % 7)
  }

  /** Python's `a % n`, whose result takes the sign of `n`. */
  function FloorMod(a: int, n: int): int
    requires n != 0
  {
    if n > 0 then a % n else -((-a) % (-n))
  }

  /** A multiple of `n` leaves no remainder, whatever the sign of `n`. */
  lemma MulMod(n: int, q: int)
    requires n != 0
    ensures (n * q) % n == 0
  {
    var x := n * q;
    var d := q - x / n;
    assert x % n == n * d;
    assert n > 0 && d > 0 ==> n * d >= n;
    assert n < 0 && d > 0 ==> n * d <= n;
    assert n > 0 && d < 0 ==> n * d <= -n;
    assert n < 0 && d < 0 ==> n * d >= -n;
  }

  /** Python's remainder differs from the dividend by a multiple of the divisor. */
  lemma FloorModCongruent(a: int, n: int)
    requires n != 0
    ensures (a - FloorMod(a, n)) % n == 0
  {
    var q := FloorModSpec(a, n);
    MulMod(n, q);
  }

  /** `node % mod` (`None` for `mod == 0`, where Python raises), or "∞". */
  function VertexLabel(mod: int, v: Label): (r: Option<Label>)
    ensures r == Some(Inf) <==> v.Inf?
    ensures r.None? <==> v.Fin? && mod == 0
    ensures r.Some? && r.value.Fin? && mod > 0 ==> 0 <= r.value.n < mod
    ensures r.Some? && r.value.Fin? && mod < 0 ==> mod < r.value.n <= 0
    ensures r.Some? && r.value.Fin? ==> (v.n - r.value.n) % mod == 0
  {
    if v.Inf? then Some(Inf)
    else if mod == 0 then None
    else FloorModCongruent(v.n, mod); Some(Fin(FloorMod(v.n, mod)))
  }

  /** `sub_label`: `node % 7`, or the empty string (`None`) for an infinite node. */
  function VertexSublabel(v: Label): (r: Option<int>)
    ensures r.None? <==> v.Inf?
    ensures r.Some? ==> 0 <= r.value < 7 && (v.n - r.value) % 7 == 0
  {
    if v.Inf? then None else Mod7(v.n); Some(v.n % 7)
  }

  /** The subscript is drawn only for a non-empty sublabel. */
  predicate ShowsSubscript(v: Label) {
    VertexSublabel(v).Some?
  }

  /** Python's `%` leaves a remainder with the sign of the divisor, smaller than it in size,
      that differs from `a` by a multiple of `n`. */
  lemma FloorModSpec(a: int, n: int) returns (q: int)
    requires n != 0
    ensures n > 0 ==> 0 <= FloorMod(a, n) < n
    ensures n < 0 ==> n < FloorMod(a, n) <= 0
    ensures a == n * q + FloorMod(a, n)
  {
    if n > 0 {
      q := a / n;
    } else {
      q := (-a) / (-n);
      assert -a == -n * q + (-a) % (-n);
    }
  }

  /** The edge length does not depend on the order of the ends. */
  lemma EdgeLengthSymmetric(mod: int, x: Label, y: Label)
    ensures EdgeLength(mod, x, y) == EdgeLength(mod, y, x)
  {
    if x.Fin? && y.Fin? {
      assert Abs(x.n - y.n) == Abs(y.n - x.n);
    }
  }

  /** For finite ends in [0, mod) the length lies in [0, mod / 2] and is 0 exactly when the
      ends coincide; either end infinite gives "∞". */
  lemma EdgeLengthRange(mod: int, x: Label, y: Label)
    requires x.Fin? && y.Fin? && 0 <= x.n < mod && 0 <= y.n < mod
    ensures EdgeLength(mod, x, y).Fin?
    ensures 0 <= EdgeLength(mod, x, y).n && 2 * EdgeLength(mod, x, y).n <= mod
    ensures EdgeLength(mod, x, y).n == 0 <==> x == y
  {
  }

  /** The edge sublabel does not depend on the order of the ends. */
  lemma EdgeSublabelSymmetric(x: Label, y: Label)
    ensures EdgeSublabel(x, y) == EdgeSublabel(y, x)
  {
    if x.Fin? && y.Fin? {
      assert x.n + y.n == y.n + x.n;
    }
  }
}
