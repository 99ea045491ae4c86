/** Shared vocabulary: optional values, identifiers and the duplicate-free
    sequence operations the handlers perform on id arrays. */
module Common {

  /** A value that may be absent (`undefined`/`null` in the source). */
  datatype Option<+T> = None | Some(value: T)

  /** Identifiers are opaque; the source compares them via `toString()`. */
  type UserId = string
  type SocketId = string

  /** Timestamps (`new Date()`, `Date.now`) are abstract, ordered values. */
  type Time = int

  /** No value occurs twice in `xs`. */
  predicate NoDup<T(==)>(xs: seq<T>) {
    forall i, j :: 0 <= i < j < |xs| ==> xs[i] != xs[j]
  }

  /** The number of times `x` occurs in `xs`. */
  function Occurrences<T(==)>(xs: seq<T>, x: T): nat {
    if xs == [] then 0
    else (if xs[0] == x then 1 else 0) + Occurrences(xs[1..], x)
  }

  lemma {:induction false} OccurrencesPositive<T>(xs: seq<T>, x: T)
    ensures Occurrences(xs, x) > 0 <==> x in xs
  {
    if xs != [] {
      OccurrencesPositive(xs[1..], x);
    }
  }

  /** In a duplicate-free sequence every member occurs exactly once. */
  lemma {:induction false} NoDupOccursOnce<T>(xs: seq<T>, x: T)
    requires NoDup(xs) && x in xs
    ensures Occurrences(xs, x) == 1
  {
    if xs[0] == x {
      OccurrencesPositive(xs[1..], x);
      assert x !in xs[1..] by {
        forall k | 0 <= k < |xs[1..]| ensures xs[1..][k] != x {
          assert xs[1..][k] == xs[k + 1];
        }
      }
    } else {
      assert NoDup(xs[1..]) by {
        forall i, j | 0 <= i < j < |xs[1..]| ensures xs[1..][i] != xs[1..][j] {
          assert xs[1..][i] == xs[i + 1] && xs[1..][j] == xs[j + 1];
        }
      }
      NoDupOccursOnce(xs[1..], x);
    }
  }

  /** The source's guarded push, `if (!xs.some(id => id === x)) xs.push(x)`. */
  function PushUnique<T(==,!new)>(xs: seq<T>, x: T): (r: seq<T>)
    ensures x in r
    ensures forall y :: y in r <==> y in xs || y == x
    ensures |xs| <= |r| <= |xs| + 1 && r[..|xs|] == xs
    ensures NoDup(xs) ==> NoDup(r)
  {
    if x in xs then xs else xs + [x]
  }

  /** Pushing the same value a second time changes nothing: the guarded
      push is safe to replay. */
  lemma PushUniqueIdempotent<T(!new)>(xs: seq<T>, x: T)
    ensures PushUnique(PushUnique(xs, x), x) == PushUnique(xs, x)
  {
  }

  /** After a guarded push into a duplicate-free sequence, the pushed value
      occurs exactly once. */
  lemma PushUniqueOnce<T(!new)>(xs: seq<T>, x: T)
    requires NoDup(xs)
    ensures Occurrences(PushUnique(xs, x), x) == 1
  {
    NoDupOccursOnce(PushUnique(xs, x), x);
  }

  /** JavaScript's template rendering of a possibly missing string. */
  function JsText(s: Option<string>): string {
    match s
    case Some(t) => t
    case None => "undefined"
  }

  /** JavaScript truthiness of a possibly missing string id, as in
      `if (!userId) return`: a missing value and the empty string are
      falsy. */
  predicate Truthy(userId: Option<string>) {
    userId.Some? && userId.value != ""
  }
}
