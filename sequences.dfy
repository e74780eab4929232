/** Generic facts about Python lists used as sequences and stacks, and the
    in-place unary-minus rewrite shared by both `get_tokens` functions. */
module Sequences {
  import opened Outcomes

  predicate Increasing(xs: seq<nat>) {
    forall a, b :: 0 <= a < b < |xs| ==> xs[a] < xs[b]
  }

  /** The elements of `s` that `keep` accepts, in their order. */
  function Filter<T>(s: seq<T>, keep: T -> bool): seq<T> {
    if s == [] then [] else Filter(s[..|s| - 1], keep) + (if keep(s[|s| - 1]) then [s[|s| - 1]] else [])
  }

  lemma {:induction false} FilterAppend<T>(a: seq<T>, b: seq<T>, keep: T -> bool)
    ensures Filter(a + b, keep) == Filter(a, keep) + Filter(b, keep)
    decreases |b|
  {
    if b == [] {
      assert a + b == a;
    } else {
      var b' := b[..|b| - 1];
      assert (a + b)[..|a + b| - 1] == a + b';
      FilterAppend(a, b', keep);
    }
  }

  /** `s` read from its end: the order in which `while ops: out.append(ops.pop())` emits a stack. */
  lemma SplitAt<T>(s: seq<T>, j: nat)
    requires j < |s|
    ensures s == s[..j] + ([s[j]] + s[j + 1..])
  {
  }

  function Reversed<T>(s: seq<T>): (r: seq<T>)
    ensures |r| == |s|
    ensures forall k :: 0 <= k < |s| ==> r[k] == s[|s| - 1 - k]
  {
    if s == [] then [] else [s[|s| - 1]] + Reversed(s[..|s| - 1])
  }

  lemma ReversedSnoc<T>(s: seq<T>, x: T)
    ensures Reversed(s + [x]) == [x] + Reversed(s)
  {
    assert (s + [x])[..|s|] == s;
  }

  lemma ReversedCons<T>(x: T, s: seq<T>)
    ensures Reversed([x] + s) == Reversed(s) + [x]
  {
    var r := Reversed([x] + s);
    assert |r| == |Reversed(s) + [x]|;
    forall k | 0 <= k < |r|
      ensures r[k] == (Reversed(s) + [x])[k]
    {
      if k < |s| {
        assert ([x] + s)[|s| - k] == s[|s| - 1 - k];
      }
    }
  }

  /** The list after the rewrite loop `for index in swaps: ts[index] = ts[index + 1];
      ts[index + 1] = neg`, stated slot by slot: a swap index takes the token that
      followed it, the slot after a swap index becomes `neg`, every other slot is
      untouched. Some index with no slot after it makes the loop raise IndexError. */
  function Swapped<T>(ts: seq<T>, swaps: seq<nat>, neg: T): Result<seq<T>> {
    if exists x :: x in swaps && |ts| <= x + 1 then
      Err(IndexError)
    else
      Ok(seq(|ts|, k requires 0 <= k < |ts| => SwappedAt(ts, swaps, neg, k)))
  }

  lemma NoSwaps<T>(ts: seq<T>, neg: T)
    ensures Swapped(ts, [], neg) == Ok(ts)
  {
    var none: seq<nat> := [];
    assert !exists x :: x in none && |ts| <= x + 1;
    var r := seq(|ts|, k requires 0 <= k < |ts| => SwappedAt(ts, none, neg, k));
    assert forall k :: 0 <= k < |ts| ==> r[k] == ts[k];
    assert r == ts;
  }

  /** The second loop of `get_tokens`, on a local copy of `final_tokens`. */
  method ApplySwaps<T>(tokens: seq<T>, swaps: seq<nat>, neg: T) returns (r: Result<seq<T>>)
    requires Increasing(swaps)
    ensures r == Swapped(tokens, swaps, neg)
  {
    var finalTokens := tokens;
    for j := 0 to |swaps|
      invariant |finalTokens| == |tokens|
      invariant forall x :: x in swaps[..j] ==> x + 1 < |tokens|
      invariant forall k :: 0 <= k < |tokens| ==> finalTokens[k] == SwappedAt(tokens, swaps[..j], neg, k)
    {
      var index := swaps[j];
      if |finalTokens| <= index + 1 {
        assert index in swaps && |tokens| <= index + 1;
        return Err(IndexError);
      }
      ghost var done := swaps[..j];
      assert forall x :: x in done ==> x < index;
      assert swaps[..j + 1] == done + [index];
      ghost var before := finalTokens;
      finalTokens := finalTokens[index := finalTokens[index + 1]];
      finalTokens := finalTokens[index + 1 := neg];
      forall k | 0 <= k < |tokens|
        ensures finalTokens[k] == SwappedAt(tokens, done + [index], neg, k)
      {
        if k == index {
          assert before[index + 1] == tokens[index + 1];
        }
      }
    }
    assert swaps[..|swaps|] == swaps;
    assert !exists x :: x in swaps && |tokens| <= x + 1;
    assert finalTokens == seq(|tokens|, k requires 0 <= k < |tokens| => SwappedAt(tokens, swaps, neg, k));
    r := Ok(finalTokens);
  }

  /** Slot `k` after the rewrite at the indexes in `done`. */
  function SwappedAt<T>(ts: seq<T>, done: seq<nat>, neg: T, k: nat): T
    requires k < |ts|
    requires forall x :: x in done ==> x + 1 < |ts|
  {
    if k in done then ts[k + 1] else if 0 < k && k - 1 in done then neg else ts[k]
  }

  /** The rewrite only moves tokens and writes `neg`: it makes up nothing else. */
  lemma SwappedElements<T>(ts: seq<T>, swaps: seq<nat>, neg: T)
    requires Swapped(ts, swaps, neg).Ok?
    ensures |Swapped(ts, swaps, neg).value| == |ts|
    ensures forall t :: t in Swapped(ts, swaps, neg).value ==> t == neg || t in ts
  {
    var out := Swapped(ts, swaps, neg).value;
    forall t | t in out ensures t == neg || t in ts {
      var k :| 0 <= k < |out| && out[k] == t;
      assert out[k] == SwappedAt(ts, swaps, neg, k);
      if k in swaps {
        assert out[k] == ts[k + 1];
      }
    }
  }

  /** The rewrite moves no token that `keep` accepts past another: provided the
      rewritten slots and `neg` are not kept, the kept tokens come out in order. */
  lemma SwappedKeepsOrder<T>(ts: seq<T>, swaps: seq<nat>, neg: T, keep: T -> bool)
    requires Swapped(ts, swaps, neg).Ok?
    requires !keep(neg)
    requires forall x :: x in swaps && x < |ts| ==> !keep(ts[x])
    ensures Filter(Swapped(ts, swaps, neg).value, keep) == Filter(ts, keep)
  {
    var out := Swapped(ts, swaps, neg).value;
    SwappedPrefix(ts, swaps, neg, keep, |ts|);
    assert out[..|ts|] == out && ts[..|ts|] == ts;
  }

  lemma {:induction false} SwappedPrefix<T>(ts: seq<T>, swaps: seq<nat>, neg: T, keep: T -> bool, k: nat)
    requires Swapped(ts, swaps, neg).Ok?
    requires !keep(neg)
    requires forall x :: x in swaps && x < |ts| ==> !keep(ts[x])
    requires k <= |ts|
    ensures 0 < k && k - 1 in swaps ==> k < |ts|
    ensures Filter(Swapped(ts, swaps, neg).value[..k], keep) ==
      if 0 < k && k - 1 in swaps then Filter(ts[..k + 1], keep) else Filter(ts[..k], keep)
  {
    var out := Swapped(ts, swaps, neg).value;
    if 0 < k && k - 1 in swaps {
      assert !(|ts| <= k - 1 + 1);
    }
    if k == 0 {
      return;
    }
    var j := k - 1;
    SwappedPrefix(ts, swaps, neg, keep, j);
    assert out[..k][..j] == out[..j];
    assert ts[..k][..j] == ts[..j];
    if j in swaps {
      assert ts[..k + 1][..k] == ts[..k];
      assert ts[..k + 1][..j] == ts[..j];
      if 0 < j && j - 1 in swaps {
        assert ts[..k][..j] == ts[..j];
      }
    } else if 0 < j && j - 1 in swaps {
      assert out[j] == neg;
    } else {
      assert out[j] == ts[j];
    }
  }
}
