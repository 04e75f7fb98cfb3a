/**
 * The registry's list of live tokens as a value. Index 0 is the front of the
 * Java LinkedList: `push` inserts there and `removeFirst` removes there, and
 * the iterator in `verify` walks from index 0 upwards.
 */
module TokenList {

  /**
   * The list after `generate` registers token t: when the list already holds
   * `maximum` tokens its front (the token generated last) is dropped, then t
   * is pushed on the front. The capacity test is equality, so a negative
   * maximum never evicts. A full empty list (maximum == 0) is the case in
   * which `removeFirst` throws; it is excluded here and handled by the caller.
   */
  function Admit(s: seq<string>, t: string, maximum: int): (r: seq<string>)
    requires |s| == maximum ==> s != []
    ensures r != [] && r[0] == t
    ensures 0 <= maximum && |s| <= maximum ==> |r| <= maximum
    ensures |r| == if |s| == maximum then |s| else |s| + 1
  {
    if |s| == maximum then [t] + s[1..] else [t] + s
  }

  /**
   * Generating loses at most one registered token, and only on a full list,
   * where the one lost is the front.
   */
  lemma AdmitKeeps(s: seq<string>, t: string, maximum: int)
    requires |s| == maximum ==> s != []
    ensures |s| != maximum ==> multiset(Admit(s, t, maximum)) == multiset(s) + multiset{t}
    ensures |s| == maximum ==>
      multiset(Admit(s, t, maximum)) == multiset(s) - multiset{s[0]} + multiset{t}
  {
    if |s| == maximum {
      assert s == [s[0]] + s[1..];
    }
  }

  /**
   * The list after an iterator positioned on the first occurrence of t calls
   * `remove`: that one occurrence goes, everything else keeps its order.
   */
  function RemoveFirst(s: seq<string>, t: string): (r: seq<string>)
    ensures |r| == if t in s then |s| - 1 else |s|
    ensures t !in s ==> r == s
  {
    if s == [] then []
    else if s[0] == t then s[1..]
    else
      assert t in s <==> t in s[1..] by { assert s == [s[0]] + s[1..]; }
      [s[0]] + RemoveFirst(s[1..], t)
  }

  /** RemoveFirst takes out exactly one copy of t when there is one, nothing else. */
  lemma {:induction false} RemoveFirstCount(s: seq<string>, t: string)
    ensures multiset(RemoveFirst(s, t)) == multiset(s) - multiset{t}
  {
    if s != [] {
      assert s == [s[0]] + s[1..];
      if s[0] != t {
        RemoveFirstCount(s[1..], t);
      }
    }
  }

  /**
   * Cutting out the element at the first index holding t is RemoveFirst:
   * the order-preserving removal a linear scan performs.
   */
  lemma {:induction false} RemoveFirstAt(s: seq<string>, t: string, i: nat)
    requires i < |s| && s[i] == t
    requires forall j | 0 <= j < i :: s[j] != t
    ensures RemoveFirst(s, t) == s[..i] + s[i + 1..]
  {
    if i == 0 {
      assert s[..0] + s[1..] == s[1..];
    } else {
      var tail := s[1..];
      assert s[0] != t;
      assert RemoveFirst(s, t) == [s[0]] + RemoveFirst(tail, t);
      RemoveFirstAt(tail, t, i - 1);
      assert tail[..i - 1] == s[1..i];
      assert tail[i..] == s[i + 1..];
      assert s[..i] == [s[0]] + s[1..i];
    }
  }

  /**
   * Single use: a token registered exactly once is gone after one removal,
   * so a second verification of it fails.
   */
  lemma SingleUse(s: seq<string>, t: string)
    requires multiset(s)[t] == 1
    ensures t in s
    ensures t !in RemoveFirst(s, t)
  {
    assert t in multiset(s);
    RemoveFirstCount(s, t);
    assert multiset(RemoveFirst(s, t))[t] == 0;
  }

  /** s reversed, defined from its last element. */
  function Reversed(s: seq<string>): (r: seq<string>)
    ensures |r| == |s|
  {
    if s == [] then [] else [s[|s| - 1]] + Reversed(s[..|s| - 1])
  }

  /** Position i of the reversal holds the element i places from the end. */
  lemma {:induction false} ReversedAt(s: seq<string>, i: nat)
    requires i < |s|
    ensures Reversed(s)[i] == s[|s| - 1 - i]
  {
    if i > 0 {
      ReversedAt(s[..|s| - 1], i - 1);
    }
  }

  /**
   * The list left by generating the tokens g[0], g[1], ... in that order into
   * an empty registry of capacity maximum. With maximum == 0 the first
   * generation throws, so maximum must be non-zero.
   */
  function Replay(g: seq<string>, maximum: int): (r: seq<string>)
    requires maximum != 0
    ensures 0 < maximum ==> |r| <= maximum
    ensures |r| == if 0 < maximum && maximum < |g| then maximum else |g|
  {
    if g == [] then []
    else Admit(Replay(g[..|g| - 1], maximum), g[|g| - 1], maximum)
  }

  /**
   * What a run of generations leaves behind. Below capacity the tokens sit
   * newest first. From then on only the newest generated token and the
   * maximum - 1 oldest ones remain: each generation on a full list evicts the
   * token generated just before it, never the oldest.
   */
  lemma {:induction false} ReplayShape(g: seq<string>, maximum: int)
    requires 0 < maximum
    ensures Replay(g, maximum) ==
      if |g| < maximum then Reversed(g)
      else [g[|g| - 1]] + Reversed(g[..maximum - 1])
  {
    if g != [] {
      var n := |g|;
      var p := g[..n - 1];
      ReplayShape(p, maximum);
      if n - 1 < maximum {
        assert p[..] == p;
        if n == maximum {
          assert p == g[..maximum - 1];
        }
      } else {
        assert p[n - 2] == g[n - 2];
        assert p[..maximum - 1] == g[..maximum - 1];
      }
    }
  }

  /** With a negative maximum nothing is ever evicted. */
  lemma {:induction false} ReplayUnbounded(g: seq<string>, maximum: int)
    requires maximum < 0
    ensures Replay(g, maximum) == Reversed(g)
  {
    if g != [] {
      ReplayUnbounded(g[..|g| - 1], maximum);
    }
  }

  predicate Distinct(g: seq<string>)
  {
    forall i, j | 0 <= i < j < |g| :: g[i] != g[j]
  }

  /**
   * Once more distinct tokens are generated than fit, the token generated
   * just before the last one is no longer registered, while the oldest
   * maximum - 1 tokens still are.
   */
  lemma EvictsNewest(g: seq<string>, maximum: int)
    requires 0 < maximum < |g| && Distinct(g)
    ensures g[|g| - 2] !in Replay(g, maximum)
    ensures g[|g| - 1] in Replay(g, maximum)
    ensures forall i | 0 <= i < maximum - 1 :: g[i] in Replay(g, maximum)
  {
    var n := |g|;
    ReplayShape(g, maximum);
    var r := Replay(g, maximum);
    var old_ := g[..maximum - 1];
    assert r == [g[n - 1]] + Reversed(old_);
    forall k | 0 <= k < |r| ensures r[k] != g[n - 2] {
      if k > 0 {
        ReversedAt(old_, k - 1);
        assert r[k] == Reversed(old_)[k - 1] == old_[maximum - 1 - 1 - (k - 1)];
      }
    }
    forall i | 0 <= i < maximum - 1 ensures g[i] in r {
      ReversedAt(old_, maximum - 2 - i);
      assert r[maximum - 1 - i] == Reversed(old_)[maximum - 2 - i] == g[i];
    }
  }
}
