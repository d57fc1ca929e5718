/**
 * The error classes of Miasma as a closed tree:
 *
 *   Error
 *   +-- ApiError
 *   |   +-- RequestError
 *   |   +-- AuthenticationError
 *   +-- OrchestrationError
 *   |   +-- InvalidTemplate
 *   +-- ImmutableError
 *
 * A `rescue K` clause catches an error of class C exactly when C is-a K.
 */
module ErrorHierarchy {
  import opened Wrappers

  datatype ErrorKind =
    | Error
    | ApiError
    | RequestError
    | AuthenticationError
    | OrchestrationError
    | InvalidTemplate
    | ImmutableError

  /** The superclass inside the tree; Error's own superclass, StandardError, lies outside it. */
  function Parent(k: ErrorKind): (p: Option<ErrorKind>)
    ensures p.None? <==> Depth(k) == 0
    ensures p.Some? ==> Depth(p.value) + 1 == Depth(k)
  {
    match k
    case Error => None
    case ApiError => Some(Error)
    case RequestError => Some(ApiError)
    case AuthenticationError => Some(ApiError)
    case OrchestrationError => Some(Error)
    case InvalidTemplate => Some(OrchestrationError)
    case ImmutableError => Some(Error)
  }

  /** Number of superclass steps from `k` up to Error. */
  function Depth(k: ErrorKind): nat
  {
    match k
    case Error => 0
    case ApiError => 1
    case OrchestrationError => 1
    case ImmutableError => 1
    case RequestError => 2
    case AuthenticationError => 2
    case InvalidTemplate => 2
  }

  /**
   * `k` is-a `a`: `a` is `k` itself or, recursively, an ancestor of k's parent.
   * A proper ancestor sits strictly higher in the tree, and every class is-a Error.
   */
  predicate IsA(k: ErrorKind, a: ErrorKind)
    ensures IsA(k, a) ==> k == a || Depth(a) < Depth(k)
    ensures a == Error ==> IsA(k, a)
    decreases Depth(k)
  {
    k == a || (Parent(k).Some? && IsA(Parent(k).value, a))
  }

  /** Ruby's `ancestors` restricted to the tree: `k` first, Error last. */
  function Ancestors(k: ErrorKind): (chain: seq<ErrorKind>)
    ensures |chain| == Depth(k) + 1
    ensures chain[0] == k && chain[|chain| - 1] == Error
    ensures forall i :: 0 <= i < |chain| - 1 ==> Parent(chain[i]) == Some(chain[i + 1])
    decreases Depth(k)
  {
    match Parent(k)
    case None => [k]
    case Some(p) => [k] + Ancestors(p)
  }

  /** The ancestor chain lists exactly the classes that `k` is-a. */
  lemma {:induction false} AncestorsAreIsA(k: ErrorKind, a: ErrorKind)
    ensures a in Ancestors(k) <==> IsA(k, a)
    decreases Depth(k)
  {
    if Parent(k).Some? {
      AncestorsAreIsA(Parent(k).value, a);
    }
  }

  lemma IsAReflexive(k: ErrorKind)
    ensures IsA(k, k)
  {
  }

  lemma {:induction false} IsATransitive(k: ErrorKind, b: ErrorKind, a: ErrorKind)
    requires IsA(k, b) && IsA(b, a)
    ensures IsA(k, a)
    decreases Depth(k)
  {
    if k != b {
      IsATransitive(Parent(k).value, b, a);
    }
  }

  /** Two distinct classes are never each other's ancestor. */
  lemma IsAAntisymmetric(k: ErrorKind, a: ErrorKind)
    requires IsA(k, a) && IsA(a, k)
    ensures k == a
  {
  }

  /** `rescue ApiError` catches ApiError, RequestError and AuthenticationError, and nothing else. */
  lemma ApiFamily(k: ErrorKind)
    ensures IsA(k, ApiError) <==> k in {ApiError, RequestError, AuthenticationError}
  {
  }

  /** `rescue OrchestrationError` catches OrchestrationError and InvalidTemplate only. */
  lemma OrchestrationFamily(k: ErrorKind)
    ensures IsA(k, OrchestrationError) <==> k in {OrchestrationError, InvalidTemplate}
  {
  }

  /**
   * A `rescue` of a leaf class (RequestError, AuthenticationError,
   * InvalidTemplate, ImmutableError) catches that class only.
   */
  lemma LeafFamilies(k: ErrorKind, a: ErrorKind)
    requires a in {RequestError, AuthenticationError, InvalidTemplate, ImmutableError}
    ensures IsA(k, a) <==> k == a
  {
  }

  /** The catch-site facts the classes are declared for. */
  lemma CatchSites()
    ensures IsA(RequestError, ApiError) && IsA(RequestError, Error)
    ensures IsA(AuthenticationError, ApiError) && IsA(AuthenticationError, Error)
    ensures IsA(InvalidTemplate, OrchestrationError) && IsA(InvalidTemplate, Error)
    ensures !IsA(InvalidTemplate, ApiError)
    ensures forall a :: IsA(ImmutableError, a) <==> a in {ImmutableError, Error}
  {
  }
}
