/** Engine-side values the outfit editor works with: optional references,
    material references, renderers, and the effect of System.Array.Resize. */
module Engine {

  /** A nullable engine reference: None stands for null. */
  datatype Option<+T> = None | Some(value: T) {
    /** The referenced value, or `default` when the reference is null. */
    function GetOr(default: T): T {
      match this
      case Some(v) => v
      case None => default
    }
  }

  /** A reference to a Material asset; only its identity matters here. */
  datatype MatRef = MatRef(id: nat)

  /** A SkinnedMeshRenderer as the outfit editor sees it: the material of each
      of its sub-mesh slots (`sharedMaterials`), any of which may be empty. */
  datatype Renderer = Renderer(sharedMaterials: seq<Option<MatRef>>)

  function Min(a: nat, b: nat): nat {
    if a <= b then a else b
  }

  /** The contents of an array after `Array.Resize(ref a, n)`: the first
      min(|s|, n) entries are kept and every new slot holds the element type's
      default value `d`. */
  function Resized<T>(s: seq<T>, n: nat, d: T): (r: seq<T>)
    ensures |r| == n
    ensures r[..Min(|s|, n)] == s[..Min(|s|, n)]
    ensures forall i | |s| <= i < n :: r[i] == d
  {
    if n <= |s| then s[..n] else s + seq(n - |s|, _ => d)
  }

  /** Entry j of a resized sequence: the old entry where there was one,
      otherwise the default. */
  lemma ResizedAt<T>(s: seq<T>, n: nat, d: T, j: nat)
    requires j < n
    ensures Resized(s, n, d)[j] == if j < |s| then s[j] else d
  {
    if j < |s| {
      assert Resized(s, n, d)[..Min(|s|, n)][j] == s[..Min(|s|, n)][j];
    }
  }

  /** Resizing to the current length changes nothing. */
  lemma ResizedToOwnLength<T>(s: seq<T>, d: T)
    ensures Resized(s, |s|, d) == s
  {
  }

  /** The entries of `s` at index `keep` and above, in the order a descending
      loop `for (i = |s| - 1; i > keep - 1; i--)` visits them. */
  function Surplus<T>(s: seq<T>, keep: nat): (r: seq<T>)
    ensures |r| == if |s| <= keep then 0 else |s| - keep
    ensures forall k | 0 <= k < |r| :: r[k] == s[|s| - 1 - k]
    decreases |s|
  {
    if |s| <= keep then [] else [s[|s| - 1]] + Surplus(s[..|s| - 1], keep)
  }

  /** Surplus of a nullable array: nothing when it is null. */
  function SurplusOf<T>(s: Option<seq<T>>, keep: nat): seq<T> {
    if s.None? then [] else Surplus(s.value, keep)
  }

  /** Releasing the entry at `keep` after those above it. */
  lemma SurplusStep<T>(s: seq<T>, keep: nat)
    requires keep < |s|
    ensures Surplus(s, keep) == Surplus(s, keep + 1) + [s[keep]]
  {
  }

  /** System.Array.Resize: the same array when the length already matches,
      otherwise a new array holding the kept prefix and default values. */
  method ArrayResize<T>(a: array<T>, n: nat, d: T) returns (b: array<T>)
    ensures b[..] == Resized(a[..], n, d)
    ensures a.Length == n ==> b == a
    ensures a.Length != n ==> fresh(b)
  {
    if a.Length == n {
      ResizedToOwnLength(a[..], d);
      return a;
    }
    b := new T[n](_ => d);
    var k := Min(a.Length, n);
    for i := 0 to k
      invariant forall j | 0 <= j < i :: b[j] == a[j]
      invariant forall j | i <= j < n :: b[j] == d
    {
      b[i] := a[i];
    }
    assert forall j | 0 <= j < n :: b[j] == Resized(a[..], n, d)[j] by {
      forall j | 0 <= j < n
        ensures b[j] == Resized(a[..], n, d)[j]
      {
        if j < k {
          assert Resized(a[..], n, d)[..k][j] == a[..][..k][j];
        }
      }
    }
  }

  /** The shrink-or-grow step used for component arrays: when the length
      differs, the entries at index `n` and above are released from the top
      index down (DestroyImmediate), then the array is resized. The released
      entries are returned in release order. */
  method ReleaseSurplusAndResize<T>(a: array<T>, n: nat, d: T) returns (b: array<T>, ghost released: seq<T>)
    requires a.Length != n
    ensures b[..] == Resized(a[..], n, d)
    ensures released == Surplus(a[..], n)
    ensures fresh(b)
  {
    released := [];
    var i := a.Length - 1;
    while i > n - 1
      invariant -1 <= i < a.Length
      invariant i >= n - 1 || i == a.Length - 1
      invariant released == Surplus(a[..], i + 1)
    {
      SurplusStep(a[..], i);
      released := released + [a[i]];
      i := i - 1;
    }
    b := ArrayResize(a, n, d);
  }
}
