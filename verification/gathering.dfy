/** The shape of a loop that walks a list, skips some items, turns each
    other item into a value and stops at the first item it cannot turn:
    `step(x)` is None for a skipped item, `Some(Err(e))` for one that raises
    `e`, and `Some(Ok(b))` for one that contributes `b`. */
module Gathering {
  import opened Base

  /** The items the loop does not skip, in order. */
  function Keep<T(!new), B>(xs: seq<T>, step: T -> Option<B>): (r: seq<T>)
    ensures |r| <= |xs|
    ensures forall x :: x in r <==> x in xs && step(x).Some?
    ensures forall i :: 0 <= i < |r| ==> step(r[i]).Some?
  {
    if |xs| == 0 then []
    else
      assert forall x :: x in xs <==> x == xs[0] || x in xs[1..];
      (if step(xs[0]).Some? then [xs[0]] else []) + Keep(xs[1..], step)
  }

  /** Keeping distributes over concatenation: what is kept from `a + b` is
      what is kept from `a`, then what is kept from `b`. */
  lemma {:induction false} KeepAppend<T(!new), B>(a: seq<T>, b: seq<T>, step: T -> Option<B>)
    ensures Keep(a + b, step) == Keep(a, step) + Keep(b, step)
    decreases |a|
  {
    if |a| == 0 {
      assert a + b == b;
    } else {
      var h := if step(a[0]).Some? then [a[0]] else [];
      assert (a + b)[0] == a[0] && (a + b)[1..] == a[1..] + b;
      assert Keep(a + b, step) == h + Keep(a[1..] + b, step);
      assert Keep(a, step) == h + Keep(a[1..], step);
      KeepAppend(a[1..], b, step);
      ConcatAssoc(h, Keep(a[1..], step), Keep(b, step));
    }
  }

  /** A single item is kept exactly when the step does not skip it. */
  lemma KeepOne<T(!new), B>(x: T, step: T -> Option<B>)
    ensures Keep([x], step) == if step(x).Some? then [x] else []
  {
    assert [x][1..] == [];
  }

  /** A kept item sits in the result right after everything kept before
      it: its position is the number of kept items that precede it. */
  lemma KeepAt<T(!new), B>(xs: seq<T>, step: T -> Option<B>, i: nat)
    requires i < |xs| && step(xs[i]).Some?
    ensures |Keep(xs[..i], step)| < |Keep(xs, step)|
    ensures Keep(xs, step)[|Keep(xs[..i], step)|] == xs[i]
  {
    assert xs == xs[..i] + ([xs[i]] + xs[i + 1..]);
    KeepAppend(xs[..i], [xs[i]] + xs[i + 1..], step);
    KeepAppend([xs[i]], xs[i + 1..], step);
    KeepOne(xs[i], step);
  }

  /** Kept items come out in the order they come in: an earlier kept item
      has a smaller position than any later one. */
  lemma KeepInOrder<T(!new), B>(xs: seq<T>, step: T -> Option<B>, i: nat, j: nat)
    requires i < j <= |xs| && step(xs[i]).Some?
    ensures |Keep(xs[..i], step)| < |Keep(xs[..j], step)|
  {
    assert xs[..j] == xs[..i] + ([xs[i]] + xs[i + 1..j]);
    KeepAppend(xs[..i], [xs[i]] + xs[i + 1..j], step);
    KeepAppend([xs[i]], xs[i + 1..j], step);
    KeepOne(xs[i], step);
  }

  /** The loop: the values of the kept items, or the first error. */
  function Run<T(!new), B>(xs: seq<T>, step: T -> Option<Result<B, string>>): (r: Result<seq<B>, string>)
    ensures r.Ok? ==> |r.value| == |Keep(xs, step)|
  {
    if |xs| == 0 then Ok([])
    else
      match step(xs[0])
      case None => Run(xs[1..], step)
      case Some(Err(e)) => Err(e)
      case Some(Ok(b)) =>
        match Run(xs[1..], step)
        case Err(e) => Err(e)
        case Ok(bs) => Ok([b] + bs)
  }

  /** No kept item raises. */
  predicate AllOk<T, B>(kept: seq<T>, step: T -> Option<Result<B, string>>)
    requires forall i :: 0 <= i < |kept| ==> step(kept[i]).Some?
  {
    forall i :: 0 <= i < |kept| ==> step(kept[i]).value.Ok?
  }

  /** The loop fails exactly when some kept item raises. */
  lemma {:induction false} RunOk<T(!new), B>(xs: seq<T>, step: T -> Option<Result<B, string>>)
    ensures Run(xs, step).Ok? <==> AllOk(Keep(xs, step), step)
  {
    if |xs| > 0 {
      RunOk(xs[1..], step);
      var kept := Keep(xs, step);
      var rest := Keep(xs[1..], step);
      var h := step(xs[0]);
      if h.None? {
        assert kept == rest;
      } else if h.value.Err? {
        assert Run(xs, step).Err?;
        assert kept[0] == xs[0];
      } else {
        assert kept == [xs[0]] + rest;
        assert Run(xs, step).Ok? <==> Run(xs[1..], step).Ok?;
        assert AllOk(kept, step) <==> AllOk(rest, step) by {
          assert forall i :: 0 < i < |kept| ==> kept[i] == rest[i - 1];
        }
      }
    }
  }

  /** The `i`-th value comes from the `i`-th kept item. */
  lemma {:induction false} RunAt<T(!new), B>(xs: seq<T>, step: T -> Option<Result<B, string>>, i: nat)
    requires Run(xs, step).Ok? && i < |Keep(xs, step)|
    ensures step(Keep(xs, step)[i]) == Some(Ok(Run(xs, step).value[i]))
  {
    if step(xs[0]).None? {
      assert Keep(xs, step) == Keep(xs[1..], step);
      RunAt(xs[1..], step, i);
    } else if i > 0 {
      assert Keep(xs, step)[i] == Keep(xs[1..], step)[i - 1];
      RunAt(xs[1..], step, i - 1);
    }
  }

  /** Two lists whose items the step treats alike run alike. */
  lemma {:induction false} RunSame<T(!new), B>(a: seq<T>, b: seq<T>, step: T -> Option<Result<B, string>>)
    requires |a| == |b| && forall i :: 0 <= i < |a| ==> step(a[i]) == step(b[i])
    ensures Run(a, step) == Run(b, step)
  {
    if |a| > 0 {
      assert forall i :: 0 <= i < |a[1..]| ==> step(a[1..][i]) == step(b[1..][i]) by {
        forall i | 0 <= i < |a[1..]| ensures step(a[1..][i]) == step(b[1..][i]) {
          assert a[1..][i] == a[i + 1] && b[1..][i] == b[i + 1];
        }
      }
      RunSame(a[1..], b[1..], step);
      assert step(a[0]) == step(b[0]);
    }
  }
}
