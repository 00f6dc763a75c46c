/** Sequences without repeats, and the first-seen deduplication on which both
 *  run-once rules of certbot/hooks.py rest: `pre_hook.already` (a command
 *  that was seen is skipped) and `post_hook.eventually` (a command is queued
 *  only if it is not queued yet). */
module Seqs {

  function Elems<T(==)>(s: seq<T>): set<T> {
    set x | x in s
  }

  predicate NoDup<T(==)>(s: seq<T>) {
    forall i, j :: 0 <= i < j < |s| ==> s[i] != s[j]
  }

  /** The elements of s that are not in seen, each at its first occurrence in
   *  s and in the order of s. Defined from the last element backwards, the
   *  way a loop over s grows it: the last element is kept exactly when it is
   *  neither in seen nor earlier in s. */
  function FreshInOrder<T(==)>(seen: set<T>, s: seq<T>): seq<T>
    decreases |s|
  {
    if s == [] then []
    else
      var init, last := s[..|s| - 1], s[|s| - 1];
      if last in seen || last in init then FreshInOrder(seen, init)
      else FreshInOrder(seen, init) + [last]
  }

  /** The elements of s that FreshInOrder drops, in the order of s. */
  function SkippedInOrder<T(==)>(seen: set<T>, s: seq<T>): seq<T>
    decreases |s|
  {
    if s == [] then []
    else
      var init, last := s[..|s| - 1], s[|s| - 1];
      if last in seen || last in init then SkippedInOrder(seen, init) + [last]
      else SkippedInOrder(seen, init)
  }

  /** One more element is kept exactly when it is new. */
  lemma FreshInOrderSnoc<T>(seen: set<T>, s: seq<T>, x: T)
    ensures FreshInOrder(seen, s + [x])
         == if x in seen || x in s then FreshInOrder(seen, s) else FreshInOrder(seen, s) + [x]
  {
    assert (s + [x])[..|s|] == s;
  }

  /** One more element is counted as skipped exactly when it is not new. */
  lemma SkippedInOrderSnoc<T>(seen: set<T>, s: seq<T>, x: T)
    ensures SkippedInOrder(seen, s + [x])
         == if x in seen || x in s then SkippedInOrder(seen, s) + [x] else SkippedInOrder(seen, s)
  {
    assert (s + [x])[..|s|] == s;
  }

  /** FreshInOrder keeps every element of s that is not in seen, and nothing else. */
  lemma {:induction false} FreshInOrderElems<T>(seen: set<T>, s: seq<T>)
    ensures Elems(FreshInOrder(seen, s)) == Elems(s) - seen
    decreases |s|
  {
    if s != [] {
      var init, last := s[..|s| - 1], s[|s| - 1];
      FreshInOrderElems(seen, init);
      assert s == init + [last];
      assert Elems(s) == Elems(init) + {last};
      assert last in init ==> last in Elems(init);
      var f := FreshInOrder(seen, init);
      assert Elems(f + [last]) == Elems(f) + {last};
    }
  }

  /** An element not yet in s can be appended without a repeat. */
  lemma NoDupSnoc<T>(s: seq<T>, x: T)
    requires NoDup(s) && x !in s
    ensures NoDup(s + [x])
  {
    var t := s + [x];
    forall i, j | 0 <= i < j < |t| ensures t[i] != t[j] {
      if j == |s| {
        assert t[i] == s[i];
      } else {
        assert t[i] == s[i] && t[j] == s[j];
      }
    }
  }

  /** FreshInOrder never yields an element twice, nor one of seen. */
  lemma {:induction false} FreshInOrderNoDup<T>(seen: set<T>, s: seq<T>)
    ensures NoDup(FreshInOrder(seen, s))
    ensures Elems(FreshInOrder(seen, s)) !! seen
    decreases |s|
  {
    FreshInOrderElems(seen, s);
    if s != [] {
      var init, last := s[..|s| - 1], s[|s| - 1];
      FreshInOrderNoDup(seen, init);
      FreshInOrderElems(seen, init);
      var f := FreshInOrder(seen, init);
      if !(last in seen || last in init) {
        assert last !in Elems(f);
        assert forall i :: 0 <= i < |f| ==> f[i] in Elems(f);
      }
    }
  }

  /** Running over s and then over t, with everything of s counted as seen,
   *  is running over s + t: the run-once rule holds across calls. */
  lemma {:induction false} FreshInOrderAppend<T>(seen: set<T>, s: seq<T>, t: seq<T>)
    ensures FreshInOrder(seen, s + t) == FreshInOrder(seen, s) + FreshInOrder(seen + Elems(s), t)
    decreases |t|
  {
    if t == [] {
      assert s + t == s;
    } else {
      var init, last := t[..|t| - 1], t[|t| - 1];
      var seen' := seen + Elems(s);
      FreshInOrderAppend(seen, s, init);
      assert FreshInOrder(seen, s + t)
          == if last in seen || last in s + init then FreshInOrder(seen, s + init)
             else FreshInOrder(seen, s + init) + [last] by {
        assert s + t == (s + init) + [last];
        FreshInOrderSnoc(seen, s + init, last);
      }
      assert FreshInOrder(seen', t)
          == if last in seen' || last in init then FreshInOrder(seen', init)
             else FreshInOrder(seen', init) + [last] by {
        assert t == init + [last];
        FreshInOrderSnoc(seen', init, last);
      }
      assert last in seen || last in s + init <==> last in seen' || last in init;
    }
  }

  /** The skipped part splits the same way. */
  lemma {:induction false} SkippedInOrderAppend<T>(seen: set<T>, s: seq<T>, t: seq<T>)
    ensures SkippedInOrder(seen, s + t) == SkippedInOrder(seen, s) + SkippedInOrder(seen + Elems(s), t)
    decreases |t|
  {
    if t == [] {
      assert s + t == s;
    } else {
      var init, last := t[..|t| - 1], t[|t| - 1];
      var seen' := seen + Elems(s);
      SkippedInOrderAppend(seen, s, init);
      assert SkippedInOrder(seen, s + t)
          == if last in seen || last in s + init then SkippedInOrder(seen, s + init) + [last]
             else SkippedInOrder(seen, s + init) by {
        assert s + t == (s + init) + [last];
        SkippedInOrderSnoc(seen, s + init, last);
      }
      assert SkippedInOrder(seen', t)
          == if last in seen' || last in init then SkippedInOrder(seen', init) + [last]
             else SkippedInOrder(seen', init) by {
        assert t == init + [last];
        SkippedInOrderSnoc(seen', init, last);
      }
      assert last in seen || last in s + init <==> last in seen' || last in init;
    }
  }

  /** A sequence all of whose elements were seen yields nothing: a second
   *  pass over the same commands runs none of them. */
  lemma {:induction false} FreshInOrderAllSeen<T>(seen: set<T>, s: seq<T>)
    requires Elems(s) <= seen
    ensures FreshInOrder(seen, s) == []
    ensures SkippedInOrder(seen, s) == s
    decreases |s|
  {
    if s != [] {
      var init, last := s[..|s| - 1], s[|s| - 1];
      assert s == init + [last];
      assert Elems(init) <= Elems(s);
      FreshInOrderAllSeen(seen, init);
    }
  }

  /** A sequence without repeats and disjoint from seen is kept whole. */
  lemma {:induction false} FreshInOrderKeepsDistinct<T>(seen: set<T>, s: seq<T>)
    requires NoDup(s) && Elems(s) !! seen
    ensures FreshInOrder(seen, s) == s
    ensures SkippedInOrder(seen, s) == []
    decreases |s|
  {
    if s != [] {
      var init, last := s[..|s| - 1], s[|s| - 1];
      assert s == init + [last];
      assert Elems(init) <= Elems(s);
      assert last !in init by {
        forall i | 0 <= i < |init| ensures init[i] != last {
          assert init[i] == s[i] && last == s[|s| - 1];
        }
      }
      assert last in Elems(s);
      FreshInOrderKeepsDistinct(seen, init);
    }
  }

  /** Every element of s is either kept or skipped, as often as it occurs. */
  lemma {:induction false} FreshInOrderPartition<T>(seen: set<T>, s: seq<T>)
    ensures multiset(FreshInOrder(seen, s)) + multiset(SkippedInOrder(seen, s)) == multiset(s)
    decreases |s|
  {
    if s != [] {
      var init, last := s[..|s| - 1], s[|s| - 1];
      FreshInOrderPartition(seen, init);
      assert s == init + [last];
    }
  }

  /** The same deduplication read from the front, one element at a time, as
   *  the process meets the commands: a new element is kept and becomes seen. */
  function DedupFront<T(==)>(seen: set<T>, s: seq<T>): seq<T>
    decreases |s|
  {
    if s == [] then []
    else if s[0] in seen then DedupFront(seen, s[1..])
    else [s[0]] + DedupFront(seen + {s[0]}, s[1..])
  }

  /** The backward definition agrees with the front-to-back reading. */
  lemma {:induction false} FreshInOrderIsDedupFront<T>(seen: set<T>, s: seq<T>)
    ensures FreshInOrder(seen, s) == DedupFront(seen, s)
    decreases |s|
  {
    if s != [] {
      var head, tail := [s[0]], s[1..];
      assert s == head + tail;
      FreshInOrderAppend(seen, head, tail);
      assert Elems(head) == {s[0]};
      FreshInOrderIsDedupFront(seen + {s[0]}, tail);
      assert [] + [s[0]] == head;
      FreshInOrderSnoc(seen, [], s[0]);
      if s[0] in seen {
        assert seen + {s[0]} == seen;
        FreshInOrderIsDedupFront(seen, tail);
      }
    }
  }
}
