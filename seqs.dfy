/** Concatenating per-element results, the shape shared by "for each line, for each
    match, append" in the parser and "for each chunk, for each triple" in ingestion. */
module Seqs {

  /** `f(xs[0]) + f(xs[1]) + ...`, built from the back as a loop appending to a list does. */
  function FlatMap<A, B>(f: A -> seq<B>, xs: seq<A>): seq<B> {
    if xs == [] then [] else FlatMap(f, xs[..|xs| - 1]) + f(xs[|xs| - 1])
  }

  /** One more element appends its results. */
  lemma FlatMapSnoc<A, B>(f: A -> seq<B>, xs: seq<A>, x: A)
    ensures FlatMap(f, xs + [x]) == FlatMap(f, xs) + f(x)
  {
    assert (xs + [x])[..|xs|] == xs;
  }

  /** FlatMap distributes over concatenation. */
  lemma {:induction false} FlatMapAppend<A, B>(f: A -> seq<B>, xs: seq<A>, ys: seq<A>)
    ensures FlatMap(f, xs + ys) == FlatMap(f, xs) + FlatMap(f, ys)
  {
    if ys == [] {
      assert xs + ys == xs;
    } else {
      var init, last := ys[..|ys| - 1], ys[|ys| - 1];
      assert ys == init + [last];
      assert xs + ys == (xs + init) + [last];
      FlatMapAppend(f, xs, init);
      FlatMapSnoc(f, init, last);
      FlatMapSnoc(f, xs + init, last);
    }
  }

  /** Every element of the result comes from some element of the input, and every
      result of every input element is in the result. */
  lemma {:induction false} FlatMapMembers<A, B>(f: A -> seq<B>, xs: seq<A>, y: B)
    ensures y in FlatMap(f, xs) <==> exists x :: x in xs && y in f(x)
  {
    if xs != [] {
      var init, last := xs[..|xs| - 1], xs[|xs| - 1];
      FlatMapMembers(f, init, y);
      assert xs == init + [last];
      if y in FlatMap(f, xs) && y !in FlatMap(f, init) {
        assert last in xs && y in f(last);
      }
      if exists x :: x in xs && y in f(x) {
        var x :| x in xs && y in f(x);
        if x != last {
          assert x in init;
        }
      }
    }
  }

  /** One loop step over `xs`: having appended the results of `xs[..j]` to `done`,
      appending those of `xs[j]` gives the results of `xs[..j + 1]`. */
  lemma FlatMapStep<A, B>(f: A -> seq<B>, done: seq<B>, xs: seq<A>, j: nat)
    requires j < |xs|
    ensures done + FlatMap(f, xs[..j]) + f(xs[j]) == done + FlatMap(f, xs[..j + 1])
  {
    assert xs[..j + 1] == xs[..j] + [xs[j]];
    FlatMapSnoc(f, xs[..j], xs[j]);
  }
}
