/** A run of same-key commands gathered from one pipeline (f1srv/list.go, f1srv/delcoalesce.go). */
module Pipeline {
  /** bnd[k] counts the arguments of the first k + 1 commands of the run; each command has some. */
  predicate Boundaries(bnd: seq<int>, n: int)
  {
    && bnd != [] && bnd[0] > 0 && bnd[|bnd| - 1] == n
    && (forall i, j :: 0 <= i < j < |bnd| ==> bnd[i] < bnd[j])
  }

  /** Where command k's arguments start. */
  function Start(bnd: seq<int>, k: int): (b: int)
    requires 0 <= k < |bnd|
  {
    if k == 0 then 0 else bnd[k - 1]
  }
}
