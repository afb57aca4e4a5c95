/** Boolean-mask row selection, as a table library performs it for `df[mask]`:
    the rows whose mask entry is true are kept, in their original order and
    unchanged. `Select` is the same selection driven by a row predicate. */
module Masks {

  /** The elements of `s` for which `keep` holds, in their original order. */
  function Select<T>(s: seq<T>, keep: T -> bool): (r: seq<T>)
    ensures |r| <= |s|
    ensures forall x :: x in r ==> x in s && keep(x)
    ensures forall x :: x in s && keep(x) ==> x in r
    decreases |s|
  {
    if s == [] then []
    else (if keep(s[0]) then [s[0]] else []) + Select(s[1..], keep)
  }

  /** `df[mask]`: keep the element at position i exactly when mask[i] is true. */
  function ApplyMask<T>(s: seq<T>, mask: seq<bool>): (r: seq<T>)
    requires |mask| == |s|
    ensures |r| <= |s|
    ensures forall x :: x in r ==> x in s
    decreases |s|
  {
    if s == [] then []
    else (if mask[0] then [s[0]] else []) + ApplyMask(s[1..], mask[1..])
  }

  /** The mask a row predicate computes over `s`, one entry per element. */
  function MaskOf<T>(s: seq<T>, keep: T -> bool): (mask: seq<bool>)
    ensures |mask| == |s|
    ensures forall i :: 0 <= i < |s| ==> mask[i] == keep(s[i])
  {
    seq(|s|, i requires 0 <= i < |s| => keep(s[i]))
  }

  ghost predicate StrictlyIncreasing(idx: seq<int>) {
    forall j, k :: 0 <= j < k < |idx| ==> idx[j] < idx[k]
  }

  function Shifted(idx: seq<int>): (r: seq<int>)
    ensures |r| == |idx|
    ensures forall k :: 0 <= k < |idx| ==> r[k] == idx[k] + 1
  {
    seq(|idx|, k requires 0 <= k < |idx| => idx[k] + 1)
  }

  /** The positions of `s` whose element satisfies `keep`, in increasing
      order. */
  function Kept<T>(s: seq<T>, keep: T -> bool): (idx: seq<int>)
    ensures forall k :: 0 <= k < |idx| ==> 0 <= idx[k] < |s|
    ensures StrictlyIncreasing(idx)
    decreases |s|
  {
    if s == [] then []
    else
      var tail := Shifted(Kept(s[1..], keep));
      (if keep(s[0]) then [0] else []) + tail
  }

  /** A position is kept exactly when its element satisfies `keep`. */
  lemma {:induction false} KeptMembership<T>(s: seq<T>, keep: T -> bool)
    ensures forall i :: i in Kept(s, keep) <==> 0 <= i < |s| && keep(s[i])
    decreases |s|
  {
    if s != [] {
      var rest := Kept(s[1..], keep);
      var tail := Shifted(rest);
      KeptMembership(s[1..], keep);
      forall i ensures i in tail <==> 1 <= i < |s| && keep(s[i]) {
        if i in tail {
          var k :| 0 <= k < |tail| && tail[k] == i;
          assert rest[k] in rest;
        }
        if 1 <= i < |s| && keep(s[i]) {
          assert s[1..][i - 1] == s[i];
          var k :| 0 <= k < |rest| && rest[k] == i - 1;
          assert tail[k] == i;
        }
      }
    }
  }

  /** The k-th selected element is the element at the k-th kept position:
      with `KeptMembership` this says that `Select` returns a stable
      subsequence of `s` whose elements are not altered, and that it misses no
      element that satisfies `keep`. */
  lemma {:induction false} SelectAtKept<T>(s: seq<T>, keep: T -> bool)
    ensures |Kept(s, keep)| == |Select(s, keep)|
    ensures forall k :: 0 <= k < |Kept(s, keep)| ==> Select(s, keep)[k] == s[Kept(s, keep)[k]]
    decreases |s|
  {
    if s != [] {
      var rest := Kept(s[1..], keep);
      var sel := Select(s[1..], keep);
      var tail := Shifted(rest);
      SelectAtKept(s[1..], keep);
      forall k | 0 <= k < |rest| ensures sel[k] == s[tail[k]] {
        assert s[1..][rest[k]] == s[rest[k] + 1];
      }
      if keep(s[0]) {
        assert Kept(s, keep) == [0] + tail;
        assert Select(s, keep) == [s[0]] + sel;
      } else {
        assert Kept(s, keep) == tail;
        assert Select(s, keep) == sel;
      }
    }
  }

  /** Applying the mask a predicate computes is selecting by that predicate. */
  lemma {:induction false} ApplyMaskOfPredicate<T>(s: seq<T>, keep: T -> bool)
    ensures ApplyMask(s, MaskOf(s, keep)) == Select(s, keep)
    decreases |s|
  {
    if s != [] {
      assert MaskOf(s, keep)[1..] == MaskOf(s[1..], keep);
      ApplyMaskOfPredicate(s[1..], keep);
    }
  }

  /** Selecting twice by the same predicate changes nothing more. */
  lemma {:induction false} SelectIdempotent<T>(s: seq<T>, keep: T -> bool)
    ensures Select(Select(s, keep), keep) == Select(s, keep)
    decreases |s|
  {
    if s != [] {
      var head := if keep(s[0]) then [s[0]] else [];
      var rest := Select(s[1..], keep);
      SelectIdempotent(s[1..], keep);
      SelectAppend(head, rest, keep);
      assert Select(head, keep) == head by {
        if keep(s[0]) {
          assert head[1..] == [];
        }
      }
    }
  }

  /** Selection distributes over concatenation. */
  lemma {:induction false} SelectAppend<T>(a: seq<T>, b: seq<T>, keep: T -> bool)
    ensures Select(a + b, keep) == Select(a, keep) + Select(b, keep)
    decreases |a|
  {
    if a != [] {
      var head := if keep(a[0]) then [a[0]] else [];
      assert (a + b)[0] == a[0];
      assert (a + b)[1..] == a[1..] + b;
      SelectAppend(a[1..], b, keep);
      calc {
        Select(a + b, keep);
        head + Select(a[1..] + b, keep);
        head + (Select(a[1..], keep) + Select(b, keep));
        (head + Select(a[1..], keep)) + Select(b, keep);
      }
    } else {
      assert a + b == b;
    }
  }

  /** Selecting by two predicates in either order gives the same sequence. */
  lemma {:induction false} SelectCommutes<T>(s: seq<T>, p: T -> bool, q: T -> bool)
    ensures Select(Select(s, p), q) == Select(Select(s, q), p)
    decreases |s|
  {
    if s != [] {
      var h := [s[0]];
      SelectCommutes(s[1..], p, q);
      SelectAppend(if p(s[0]) then h else [], Select(s[1..], p), q);
      SelectAppend(if q(s[0]) then h else [], Select(s[1..], q), p);
    }
  }

  /** Two successive selections are one selection by the conjunction, given
      as a predicate `both` that agrees with `p && q` on every element. */
  lemma {:induction false} SelectFuse<T>(s: seq<T>, p: T -> bool, q: T -> bool, both: T -> bool)
    requires forall x :: x in s ==> both(x) == (p(x) && q(x))
    ensures Select(Select(s, p), q) == Select(s, both)
    decreases |s|
  {
    if s != [] {
      assert s[0] in s;
      assert forall x :: x in s[1..] ==> x in s;
      SelectFuse(s[1..], p, q, both);
      SelectAppend(if p(s[0]) then [s[0]] else [], Select(s[1..], p), q);
    }
  }

  /** A predicate that holds of every element keeps the sequence unchanged. */
  lemma {:induction false} SelectAll<T>(s: seq<T>, keep: T -> bool)
    requires forall x :: x in s ==> keep(x)
    ensures Select(s, keep) == s
    decreases |s|
  {
    if s != [] {
      assert s[0] in s;
      assert forall x :: x in s[1..] ==> x in s;
      SelectAll(s[1..], keep);
    }
  }
}
