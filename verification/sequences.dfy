/** Small facts about concatenating short sequences. */
module Sequences {

  /** Two singletons concatenate to a pair. */
  lemma ConcatSingletons<T>(a: seq<T>, b: seq<T>, x: T, y: T)
    requires a == [x] && b == [y]
    ensures a + b == [x, y]
  {
  }

  /** Three pieces of total length one that hold `x` make the singleton
      `[x]`. */
  lemma SingleElement<T>(a: seq<T>, b: seq<T>, c: seq<T>, x: T)
    requires |a| + |b| + |c| == 1 && x in a + b + c
    ensures a + b + c == [x]
  {
  }

  /** Up to three optional elements followed by a final one: the result is
      at most four long, everything before the last element is one of the
      optional ones, and the first optional element, when present, comes
      first. */
  lemma OptionalsThenLast<T>(a: seq<T>, b: seq<T>, c: seq<T>, last: T, x: T, y: T, z: T)
    requires a == [] || a == [x]
    requires b == [] || b == [y]
    requires c == [] || c == [z]
    ensures var s := a + b + c + [last];
      && |s| <= 4
      && s[|s| - 1] == last
      && (forall i :: 0 <= i < |s| - 1 ==> s[i] == x || s[i] == y || s[i] == z)
      && (a == [x] ==> s[0] == x)
  {
  }
}
