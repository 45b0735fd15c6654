/** Types shared by every part of the model. */
module Base {


  /** One octet on a wire. */
  type Byte = x: int | 0 <= x < 256

  datatype Option<+T> = None | Some(value: T)

  datatype Result<+T, +E> = Success(value: T) | Failure(error: E) {
    predicate IsFailure() { Failure? }

    function PropagateFailure<U>(): Result<U, E>
      requires Failure?
    {
      Failure(error)
    }

    function Extract(): T
      requires Success?
    {
      value
    }
  }

  /** Instants and durations are whole nanoseconds, as in the standard library of the source. */
  type Time = nat

  const MILLISECOND: Time := 1_000_000

  function Min(a: int, b: int): int {
    if a <= b then a else b
  }

  function Max(a: int, b: int): int {
    if a <= b then b else a
  }

  /** All parts laid end to end. */
  function Concat<T>(parts: seq<seq<T>>): seq<T> {
    if parts == [] then [] else parts[0] + Concat(parts[1..])
  }

  lemma ConcatFirst<T>(first: seq<T>, others: seq<seq<T>>)
    ensures Concat([first] + others) == first + Concat(others)
  {
    assert ([first] + others)[1..] == others;
  }

  lemma {:induction false} ConcatAppend<T>(a: seq<seq<T>>, b: seq<seq<T>>)
    ensures Concat(a + b) == Concat(a) + Concat(b)
  {
    if a == [] {
      assert a + b == b;
    } else {
      var first, others := a[0], a[1..];
      assert a == [first] + others && a + b == [first] + (others + b);
      ConcatAppend(others, b);
      ConcatFirst(first, others + b);
      ConcatFirst(first, others);
      hide Concat;
      assert first + (Concat(others) + Concat(b)) == first + Concat(others) + Concat(b);
    }
  }

  type Bytes = seq<Byte>

  function IndexFrom(s: Bytes, b: Byte, start: nat): (r: Option<nat>)
    requires start <= |s|
    ensures r.Some? ==> start <= r.value < |s| && s[r.value] == b
    ensures r.Some? ==> forall i | start <= i < r.value :: s[i] != b
    ensures r.None? ==> forall i | start <= i < |s| :: s[i] != b
    decreases |s| - start
  {
    if start == |s| then None
    else if s[start] == b then Some(start)
    else IndexFrom(s, b, start + 1)
  }

  /** Where the first `b` is. */
  function Index(s: Bytes, b: Byte): (r: Option<nat>)
    ensures r.Some? ==> r.value < |s| && s[r.value] == b
    ensures r.Some? ==> forall i | 0 <= i < r.value :: s[i] != b
    ensures r.None? ==> forall i | 0 <= i < |s| :: s[i] != b
  {
    IndexFrom(s, b, 0)
  }

  lemma IndexAt(s: Bytes, b: Byte, n: nat)
    requires n < |s| && s[n] == b && forall i | 0 <= i < n :: s[i] != b
    ensures Index(s, b) == Some(n)
  {
  }

  /** What is before and after the first `b`. */
  function SplitAt(s: Bytes, b: Byte): Option<(Bytes, Bytes)> {
    match Index(s, b)
    case None => None
    case Some(n) => Some((s[..n], s[n + 1..]))
  }

  lemma SplitAtInvertsJoin(before: Bytes, b: Byte, after: Bytes)
    requires b !in before
    ensures SplitAt(before + [b] + after, b) == Some((before, after))
  {
    var s := before + [b] + after;
    assert s[|before|] == b;
    assert forall i | 0 <= i < |before| :: s[i] == before[i];
    IndexAt(s, b, |before|);
    assert s[..|before|] == before && s[|before| + 1..] == after;
  }

  /** One of two words starts the other. */
  ghost predicate Comparable<T>(a: seq<T>, b: seq<T>) {
    a <= b || b <= a
  }

  lemma SharedStart<T>(a: seq<T>, b: seq<T>, s: seq<T>)
    requires a <= s && b <= s
    ensures Comparable(a, b)
  {
  }

  /** Decoding is unique for words none of which starts another: words that lie at the start of a
      stream of such words are its first words. */
  lemma {:induction false} FirstWords<T>(a: seq<seq<T>>, b: seq<seq<T>>)
    requires Concat(a) <= Concat(b)
    requires forall w | w in a :: w != []
    requires forall i, j | 0 <= i < |a| && 0 <= j < |b| :: Comparable(a[i], b[j]) ==> a[i] == b[j]
    ensures a <= b
  {
    if a != [] {
      assert a[0] in a && Concat(a)[0] == a[0][0];
      assert b != [];
      assert Concat(a)[..|a[0]|] == a[0];
      SharedStart(a[0], b[0], Concat(b));
      assert Concat(a)[|a[0]|..] == Concat(a[1..]) && Concat(b)[|a[0]|..] == Concat(b[1..]);
      FirstWords(a[1..], b[1..]);
      assert a == [a[0]] + a[1..] && b == [b[0]] + b[1..];
    }
  }
}
