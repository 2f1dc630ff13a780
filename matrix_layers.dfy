/**
 * Square matrices are handled layer by layer: layer k of an n-by-n matrix is the ring of
 * cells at distance k from the nearest edge. Both the spiral fill and the in-place rotation
 * walk the layers from the outside in.
 */
module MatrixLayers {

  /** The layer of cell (r, c) in an n-by-n matrix: its distance to the nearest edge. */
  function Ring(n: int, r: int, c: int): int
  {
    var nearTopLeft := if r <= c then r else c;
    var nearBottomRight := if n - 1 - r <= n - 1 - c then n - 1 - r else n - 1 - c;
    if nearTopLeft <= nearBottomRight then nearTopLeft else nearBottomRight
  }

  /** A cell of an n-by-n matrix lies in a layer k with 0 <= k and 2k < n, on one of its four sides. */
  lemma RingBounds(n: int, r: int, c: int)
    requires 0 <= r < n && 0 <= c < n
    ensures var k := Ring(n, r, c);
      0 <= k && 2 * k < n && k <= r <= n - 1 - k && k <= c <= n - 1 - k &&
      (r == k || c == k || r == n - 1 - k || c == n - 1 - k)
  {
  }
}
