// Shared vocabulary: bytes, optional values, results and a few facts about
// finite sets that several components of the model need.
module Prelude {
  type byte = x: int | 0 <= x < 256
  type bytes = seq<byte>

  // A content address. It is the raw digest; hexadecimal text is only its spelling.
  type Hash = bytes

  // SHA-256 is some function of bytes; nothing about it is assumed.
  type Digest = bytes -> Hash

  // No two byte strings in play share a digest.
  ghost predicate CollisionFree(digest: Digest, seen: set<bytes>) {
    forall a, b :: a in seen && b in seen && digest(a) == digest(b) ==> a == b
  }

  // Number.MAX_SAFE_INTEGER
  const MAX_SAFE_INTEGER: nat := 9007199254740991

  datatype Option<+T> = None | Some(value: T) {
    function GetOr(default: T): T {
      match this
      case Some(v) => v
      case None => default
    }
  }

  datatype Result<+T, +E> = Ok(value: T) | Err(error: E) {
    predicate IsFailure() {
      Err?
    }

    function PropagateFailure<U>(): Result<U, E>
      requires Err?
    {
      Err(error)
    }

    function Extract(): T
      requires Ok?
    {
      value
    }
  }

  function Min(a: int, b: int): int {
    if a <= b then a else b
  }

  function Max(a: int, b: int): int {
    if a >= b then a else b
  }

  /** Concatenation of a list of byte strings. */
  function Flatten(parts: seq<bytes>): bytes {
    if parts == [] then [] else parts[0] + Flatten(parts[1..])
  }

  lemma {:induction false} FlattenAppend(parts: seq<bytes>, last: bytes)
    ensures Flatten(parts + [last]) == Flatten(parts) + last
  {
    if parts == [] {
      assert parts + [last] == [last];
      assert Flatten([last]) == last + Flatten([]);
    } else {
      assert (parts + [last])[1..] == parts[1..] + [last];
      FlattenAppend(parts[1..], last);
    }
  }

  lemma {:induction false} FlattenConcat(a: seq<bytes>, b: seq<bytes>)
    ensures Flatten(a + b) == Flatten(a) + Flatten(b)
  {
    if a == [] {
      assert a + b == b;
    } else {
      assert (a + b)[1..] == a[1..] + b;
      FlattenConcat(a[1..], b);
    }
  }

  // A proper subset has fewer members.
  lemma {:induction false} SmallerSet<T>(small: set<T>, large: set<T>)
    requires small < large
    ensures |small| < |large|
    decreases small
  {
    if small != {} {
      var x :| x in small;
      SmallerSet(small - {x}, large - {x});
    }
  }
}
