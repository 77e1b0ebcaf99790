/** What a transducer call did, shared by the encoder and the decoder. */
module Outcomes {
  import opened Alphabet

  /** `consumed` items were read, `out` was written, and the call ended in `state`. */
  datatype Outcome<S, T> = Outcome(status: Status, state: S, consumed: nat, out: seq<T>)

  /** The text of an input without regard to room, and the state it leads to. */
  datatype Text<S, T> = Text(out: seq<T>, state: S)

  /** The work of `first`, followed by that of `second`. */
  function Then<S, T>(first: Outcome<S, T>, second: Outcome<S, T>): Outcome<S, T> {
    Outcome(second.status, second.state, first.consumed + second.consumed, first.out + second.out)
  }

  lemma ThenAssociative<S, T>(a: Outcome<S, T>, b: Outcome<S, T>, c: Outcome<S, T>)
    ensures Then(Then(a, b), c) == Then(a, Then(b, c))
    ensures Then(a, b).status == b.status && Then(a, b).state == b.state
    ensures |Then(a, b).out| == |a.out| + |b.out|
  {}

  lemma NothingThen<S, T>(s: S, r: Outcome<S, T>)
    ensures Then(Outcome(OK, s, 0, []), r) == r
  {}

  lemma ThenIs<S, T>(a: Outcome<S, T>, b: Outcome<S, T>)
    ensures Then(a, b) == Outcome(b.status, b.state, a.consumed + b.consumed, a.out + b.out)
  {}

  lemma ThenStop<S, T>(done: Outcome<S, T>, stop: Outcome<S, T>)
    requires stop.consumed == 0 && stop.out == []
    ensures Then(done, stop) == done.(status := stop.status, state := stop.state)
  {}

  // ---- Writing into a caller's buffer ----

  /** The buffer `before` once `out` has been written from index `at` on. */
  function Overwrite<T>(before: seq<T>, at: nat, out: seq<T>): (after: seq<T>)
    requires at + |out| <= |before|
    ensures |after| == |before|
  {
    before[..at] + out + before[at + |out|..]
  }

  lemma OverwriteTwice<T>(before: seq<T>, at: nat, a: seq<T>, b: seq<T>)
    requires at + |a + b| <= |before|
    ensures Overwrite(Overwrite(before, at, a), at + |a|, b) == Overwrite(before, at, a + b)
  {}

  lemma OverwriteNothing<T>(before: seq<T>, at: nat)
    requires at <= |before|
    ensures Overwrite(before, at, []) == before
  {}

  lemma OverwrittenPart<T>(before: seq<T>, at: nat, out: seq<T>)
    requires at + |out| <= |before|
    ensures Overwrite(before, at, out)[at..at + |out|] == out
  {}

  /** `*dest = item`. */
  method Store<T>(dest: array<T>, at: nat, item: T)
    requires at < dest.Length
    modifies dest
    ensures dest[..] == Overwrite(old(dest[..]), at, [item])
  {
    dest[at] := item;
  }
}
