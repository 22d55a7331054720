/**
 * First-match selection over a sequence: the vocabulary in which the row
 * parsers' slot filling is described independently of their loops. A slot
 * takes the first element that qualifies for it, and the remaining elements
 * are offered to the next slot.
 */
module Selection {
  import opened Wrappers

  /**
   * Cuts `xs` at its first element satisfying `p`: what comes before it, the
   * element itself, and what follows it. When no element qualifies, all of
   * `xs` comes before and nothing is chosen.
   */
  function SplitAtFirst<T>(xs: seq<T>, p: T -> bool): (r: (seq<T>, Option<T>, seq<T>))
    ensures forall i :: 0 <= i < |r.0| ==> !p(r.0[i])
    ensures r.1.None? ==> r.0 == xs && r.2 == []
    ensures r.1.Some? ==> p(r.1.value) && xs == r.0 + [r.1.value] + r.2
  {
    if xs == [] then ([], None, [])
    else if p(xs[0]) then
      assert xs == [] + [xs[0]] + xs[1..];
      ([], Some(xs[0]), xs[1..])
    else
      var (before, chosen, after) := SplitAtFirst(xs[1..], p);
      assert chosen.Some? ==> xs == [xs[0]] + before + [chosen.value] + after;
      ([xs[0]] + before, chosen, after)
  }

  /** Appending an element either leaves the cut alone or, when nothing was chosen yet, offers it the choice. */
  lemma {:induction false} SplitAtFirstAppend<T>(xs: seq<T>, x: T, p: T -> bool)
    ensures SplitAtFirst(xs + [x], p) ==
      (var (before, chosen, after) := SplitAtFirst(xs, p);
       if chosen.Some? then (before, chosen, after + [x])
       else if p(x) then (xs, Some(x), [])
       else (xs + [x], None, []))
  {
    if xs == [] {
      assert xs + [x] == [x];
    } else {
      assert (xs + [x])[1..] == xs[1..] + [x];
      assert [xs[0]] + xs[1..] == xs;
      if !p(xs[0]) {
        SplitAtFirstAppend(xs[1..], x, p);
        var (before, chosen, after) := SplitAtFirst(xs[1..], p);
        assert SplitAtFirst(xs, p) == ([xs[0]] + before, chosen, after);
        if chosen.None? && !p(x) {
          assert [xs[0]] + (xs[1..] + [x]) == xs + [x];
        }
      }
    }
  }

  /**
   * What gets past a slot that takes the first element satisfying `p` and
   * swallows, until then, every element not satisfying `keep`: the `keep`
   * elements before the chosen one, then everything after it.
   */
  function PassFirst<T>(xs: seq<T>, p: T -> bool, keep: T -> bool): seq<T> {
    var cut := SplitAtFirst(xs, p);
    Filter(cut.0, keep) + cut.2
  }

  lemma PassFirstAppend<T>(xs: seq<T>, x: T, p: T -> bool, keep: T -> bool)
    ensures PassFirst(xs + [x], p, keep) ==
      (if SplitAtFirst(xs, p).1.Some? then PassFirst(xs, p, keep) + [x]
       else if p(x) then PassFirst(xs, p, keep)
       else PassFirst(xs, p, keep) + (if keep(x) then [x] else []))
  {
    if SplitAtFirst(xs, p).1.Some? {
      PassFirstAppendChosen(xs, x, p, keep);
    } else if p(x) {
      PassFirstAppendChoosing(xs, x, p, keep);
    } else {
      PassFirstAppendUnchosen(xs, x, p, keep);
    }
  }

  lemma PassFirstAppendChosen<T>(xs: seq<T>, x: T, p: T -> bool, keep: T -> bool)
    requires SplitAtFirst(xs, p).1.Some?
    ensures PassFirst(xs + [x], p, keep) == PassFirst(xs, p, keep) + [x]
  {
    SplitAtFirstAppend(xs, x, p);
    var (before, chosen, after) := SplitAtFirst(xs, p);
    assert SplitAtFirst(xs + [x], p) == (before, chosen, after + [x]);
    assert Filter(before, keep) + (after + [x]) == Filter(before, keep) + after + [x];
  }

  lemma PassFirstAppendChoosing<T>(xs: seq<T>, x: T, p: T -> bool, keep: T -> bool)
    requires SplitAtFirst(xs, p).1.None? && p(x)
    ensures PassFirst(xs + [x], p, keep) == PassFirst(xs, p, keep)
  {
    SplitAtFirstAppend(xs, x, p);
    assert SplitAtFirst(xs + [x], p) == (xs, Some(x), []);
    assert PassFirst(xs, p, keep) == Filter(xs, keep) + [];
  }

  lemma PassFirstAppendUnchosen<T>(xs: seq<T>, x: T, p: T -> bool, keep: T -> bool)
    requires SplitAtFirst(xs, p).1.None? && !p(x)
    ensures PassFirst(xs + [x], p, keep) == PassFirst(xs, p, keep) + (if keep(x) then [x] else [])
  {
    var r := SplitAtFirst(xs, p);
    assert r.0 == xs && r.2 == [];
    assert PassFirst(xs, p, keep) == Filter(xs, keep);
    SplitAtFirstAppend(xs, x, p);
    var r' := SplitAtFirst(xs + [x], p);
    assert r'.0 == xs + [x] && r'.2 == [];
    assert PassFirst(xs + [x], p, keep) == Filter(xs + [x], keep);
    FilterAppend(xs, [x], keep);
    assert Filter([x], keep) == if keep(x) then [x] else [];
  }

  /** When no kept element satisfies `q`, only the elements after the chosen one can. */
  lemma PassFirstAny<T>(xs: seq<T>, p: T -> bool, keep: T -> bool, q: T -> bool)
    requires forall x :: keep(x) ==> !q(x)
    ensures Any(PassFirst(xs, p, keep), q) <==> Any(SplitAtFirst(xs, p).2, q)
  {
    var (before, _, after) := SplitAtFirst(xs, p);
    var kept := Filter(before, keep);
    FilterAvoids(before, keep, q);
    AnyAppendSeq(kept, after, q);
  }

  /** No kept element satisfies `q` when `keep` excludes `q`. */
  lemma FilterAvoids<T>(xs: seq<T>, keep: T -> bool, q: T -> bool)
    requires forall x :: keep(x) ==> !q(x)
    ensures !Any(Filter(xs, keep), q)
  {
    var kept := Filter(xs, keep);
    forall i | 0 <= i < |kept| ensures !q(kept[i]) {
      assert keep(kept[i]);
    }
  }

  lemma AnyAppendSeq<T>(xs: seq<T>, ys: seq<T>, q: T -> bool)
    ensures Any(xs + ys, q) <==> Any(xs, q) || Any(ys, q)
  {
    if Any(xs + ys, q) {
      var i :| 0 <= i < |xs + ys| && q((xs + ys)[i]);
      if i >= |xs| {
        assert ys[i - |xs|] == (xs + ys)[i];
      }
    }
    if Any(xs, q) {
      var i :| 0 <= i < |xs| && q(xs[i]);
      assert (xs + ys)[i] == xs[i];
    }
    if Any(ys, q) {
      var i :| 0 <= i < |ys| && q(ys[i]);
      assert (xs + ys)[|xs| + i] == ys[i];
    }
  }

  /**
   * The first element satisfying `p`, and the sequence without it. When no
   * element qualifies the result is `None` and nothing is removed.
   */
  function TakeFirst<T>(xs: seq<T>, p: T -> bool): (r: (Option<T>, seq<T>))
    ensures r.0.None? <==> forall i :: 0 <= i < |xs| ==> !p(xs[i])
    ensures r.0.None? ==> r.1 == xs
    ensures r.0.Some? ==> p(r.0.value) && |r.1| == |xs| - 1
  {
    var (before, chosen, after) := SplitAtFirst(xs, p);
    if chosen.Some? then
      assert xs[|before|] == chosen.value;
      (chosen, before + after)
    else (None, xs)
  }

  /** Where the chosen element sits: everything before it fails `p`, and exactly it is removed. */
  lemma TakeFirstAt<T>(xs: seq<T>, p: T -> bool) returns (k: nat)
    requires TakeFirst(xs, p).0.Some?
    ensures k < |xs| && xs[k] == TakeFirst(xs, p).0.value
    ensures forall i :: 0 <= i < k ==> !p(xs[i])
    ensures TakeFirst(xs, p).1 == xs[..k] + xs[k + 1..]
  {
    var (before, chosen, after) := SplitAtFirst(xs, p);
    k := |before|;
    assert xs[..k] == before;
    assert xs[k + 1..] == after;
  }

  /** Appending an element either leaves the choice alone or, when nothing was chosen yet, offers it the slot. */
  lemma TakeFirstAppend<T>(xs: seq<T>, x: T, p: T -> bool)
    ensures TakeFirst(xs + [x], p) ==
      (if TakeFirst(xs, p).0.Some? then (TakeFirst(xs, p).0, TakeFirst(xs, p).1 + [x])
       else if p(x) then (Some(x), xs)
       else (None, xs + [x]))
  {
    SplitAtFirstAppend(xs, x, p);
    var (before, chosen, after) := SplitAtFirst(xs, p);
    if chosen.Some? {
      assert before + (after + [x]) == before + after + [x];
    } else if p(x) {
      assert xs + [] == xs;
    }
  }

  /** Taking the chosen element out keeps a property no element had: every remaining one still lacks it. */
  lemma TakeFirstKeeps<T>(xs: seq<T>, p: T -> bool, q: T -> bool)
    requires forall i :: 0 <= i < |xs| ==> !q(xs[i])
    ensures forall i :: 0 <= i < |TakeFirst(xs, p).1| ==> !q(TakeFirst(xs, p).1[i])
  {
    if TakeFirst(xs, p).0.Some? {
      var k := TakeFirstAt(xs, p);
      var rest := TakeFirst(xs, p).1;
      forall i | 0 <= i < |rest| ensures !q(rest[i]) {
        if i < k { assert rest[i] == xs[i]; } else { assert rest[i] == xs[i + 1]; }
      }
    }
  }

  /** Python's `[x for x in xs if p(x)]`. */
  function Filter<T>(xs: seq<T>, p: T -> bool): (r: seq<T>)
    ensures |r| <= |xs|
    ensures forall i :: 0 <= i < |r| ==> p(r[i])
    ensures multiset(r) <= multiset(xs)
  {
    if xs == [] then []
    else
      assert xs == [xs[0]] + xs[1..];
      (if p(xs[0]) then [xs[0]] else []) + Filter(xs[1..], p)
  }

  lemma {:induction false} FilterAppend<T>(xs: seq<T>, ys: seq<T>, p: T -> bool)
    ensures Filter(xs + ys, p) == Filter(xs, p) + Filter(ys, p)
  {
    if xs == [] {
      assert xs + ys == ys;
    } else {
      assert (xs + ys)[1..] == xs[1..] + ys;
      FilterAppend(xs[1..], ys, p);
    }
  }

  /** Whether some element satisfies `p` (Python's `any`). */
  predicate Any<T>(xs: seq<T>, p: T -> bool) {
    exists i :: 0 <= i < |xs| && p(xs[i])
  }

  lemma AnyAppend<T>(xs: seq<T>, x: T, p: T -> bool)
    ensures Any(xs + [x], p) <==> Any(xs, p) || p(x)
  {
    if Any(xs, p) {
      var i :| 0 <= i < |xs| && p(xs[i]);
      assert (xs + [x])[i] == xs[i];
    }
    if p(x) {
      assert (xs + [x])[|xs|] == x;
    }
  }

  /** `f` applied to every element (Python's `[f(x) for x in xs]`). */
  function Map<T, U>(xs: seq<T>, f: T -> U): (r: seq<U>)
    ensures |r| == |xs| && forall i :: 0 <= i < |xs| ==> r[i] == f(xs[i])
  {
    seq(|xs|, i requires 0 <= i < |xs| => f(xs[i]))
  }

  lemma MapAppend<T, U>(xs: seq<T>, ys: seq<T>, f: T -> U)
    ensures Map(xs + ys, f) == Map(xs, f) + Map(ys, f)
  {
  }

  /**
   * The records a loop over `rows` appends: `f` turns one row into a record or
   * into nothing, and the records keep the order of their rows.
   */
  function Collect<R, T>(f: R -> Option<T>, rows: seq<R>): (r: seq<T>)
    ensures |r| <= |rows|
  {
    if rows == [] then []
    else
      var last := f(rows[|rows| - 1]);
      Collect(f, rows[..|rows| - 1]) + (if last.Some? then [last.value] else [])
  }

  /** Collecting over two stretches of rows is collecting over each in turn: the order is the rows' order. */
  lemma {:induction false} CollectAppend<R, T>(f: R -> Option<T>, xs: seq<R>, ys: seq<R>)
    ensures Collect(f, xs + ys) == Collect(f, xs) + Collect(f, ys)
  {
    if ys == [] {
      assert xs + ys == xs;
    } else {
      assert (xs + ys)[..|xs + ys| - 1] == xs + ys[..|ys| - 1];
      CollectAppend(f, xs, ys[..|ys| - 1]);
    }
  }

  /** Every collected record is the record of one of the rows. */
  lemma {:induction false} CollectFrom<R, T>(f: R -> Option<T>, rows: seq<R>)
    ensures forall j :: 0 <= j < |Collect(f, rows)| ==>
      exists i :: 0 <= i < |rows| && f(rows[i]) == Some(Collect(f, rows)[j])
  {
    if rows != [] {
      var init := rows[..|rows| - 1];
      CollectFrom(f, init);
      forall j | 0 <= j < |Collect(f, rows)|
        ensures exists i :: 0 <= i < |rows| && f(rows[i]) == Some(Collect(f, rows)[j])
      {
        if j < |Collect(f, init)| {
          var i :| 0 <= i < |init| && f(init[i]) == Some(Collect(f, init)[j]);
          assert rows[i] == init[i];
          assert Collect(f, rows)[j] == Collect(f, init)[j];
        } else {
          var i := |rows| - 1;
          assert f(rows[i]) == Some(Collect(f, rows)[j]);
        }
      }
    } else {
      assert Collect(f, rows) == [];
    }
  }

  /** A property every produced record has is a property of every collected record. */
  lemma CollectAll<R, T>(f: R -> Option<T>, rows: seq<R>, p: T -> bool)
    requires forall row :: f(row).Some? ==> p(f(row).value)
    ensures forall j :: 0 <= j < |Collect(f, rows)| ==> p(Collect(f, rows)[j])
  {
    CollectFrom(f, rows);
  }

  /** Rows that produce nothing do not change the result. */
  lemma {:induction false} CollectNone<R, T>(f: R -> Option<T>, rows: seq<R>)
    requires forall i :: 0 <= i < |rows| ==> f(rows[i]).None?
    ensures Collect(f, rows) == []
  {
    if rows != [] {
      CollectNone(f, rows[..|rows| - 1]);
    }
  }
}
