/** Sequences one after another, and what is left of a sequence when only some of its places are kept. */
module Sequences {

  lemma Regroup<T>(a: seq<T>, b: seq<T>, c: seq<T>)
    ensures a + b + c == a + (b + c)
  {
  }

  /** All sequences one after another. */
  function Flat<T>(s: seq<seq<T>>): seq<T>
  {
    if s == [] then [] else Flat(s[..|s| - 1]) + s[|s| - 1]
  }

  lemma FlatGrows<T>(s: seq<seq<T>>, k: nat)
    requires k < |s|
    ensures Flat(s[..k + 1]) == Flat(s[..k]) + s[k]
  {
    assert s[..k + 1][..k] == s[..k];
  }

  /** One more sequence. */
  lemma FlatNext<T>(before: seq<T>, s: seq<seq<T>>, x: seq<T>)
    ensures before + Flat(s + [x]) == before + Flat(s) + x
  {
    assert (s + [x])[..|s|] == s;
  }

  lemma {:induction false} FlatPrefix<T>(s: seq<seq<T>>, k: nat)
    requires k <= |s|
    ensures Flat(s[..k]) <= Flat(s)
    decreases |s|
  {
    if k == |s| {
      assert s[..k] == s;
    } else {
      assert s[..|s| - 1][..k] == s[..k];
      FlatPrefix(s[..|s| - 1], k);
    }
  }

  lemma {:induction false} FlatAt<T>(s: seq<seq<T>>, j: nat) returns (t: nat, i: nat)
    requires j < |Flat(s)|
    ensures t < |s| && i < |s[t]| && s[t][i] == Flat(s)[j]
  {
    var n := |s| - 1;
    if j < |Flat(s[..n])| {
      t, i := FlatAt(s[..n], j);
    } else {
      t, i := n, j - |Flat(s[..n])|;
    }
  }

  /** at lists the given places in rising order. */
  ghost predicate Ascending(at: seq<nat>, places: set<nat>)
  {
    && (forall i, j :: 0 <= i < j < |at| ==> at[i] < at[j])
    && (forall p: nat :: p in places <==> p in at)
  }

  ghost predicate KeptAt<T>(s: seq<T>, places: set<nat>, kept: seq<T>, at: seq<nat>)
  {
    && Ascending(at, places) && |kept| == |at|
    && (forall k :: 0 <= k < |at| ==> at[k] < |s| && kept[k] == s[at[k]])
  }

  /** kept is what stands at the given places of s, in the order of s. */
  ghost predicate Keeps<T>(s: seq<T>, places: set<nat>, kept: seq<T>)
  {
    exists at: seq<nat> :: KeptAt(s, places, kept, at)
  }

  /** What stands at a place that is kept is in kept. */
  lemma KeptIndex<T>(s: seq<T>, places: set<nat>, kept: seq<T>, p: nat) returns (k: nat)
    requires Keeps(s, places, kept) && p in places
    ensures p < |s| && k < |kept| && kept[k] == s[p]
  {
    var at: seq<nat> :| KeptAt(s, places, kept, at);
    assert p in at;
    k :| k < |at| && at[k] == p;
  }

  lemma KeptIsIn<T>(s: seq<T>, places: set<nat>, kept: seq<T>, x: T)
    requires Keeps(s, places, kept) && x in kept
    ensures x in s
  {
    var at: seq<nat> :| KeptAt(s, places, kept, at);
    var k :| 0 <= k < |kept| && kept[k] == x;
    assert s[at[k]] == x;
  }

  lemma KeepsNone<T>(s: seq<T>)
    ensures Keeps(s, {}, [])
  {
    assert KeptAt(s, {}, [], []);
  }

  /** One more place, behind all others. */
  lemma KeepsNext<T>(s: seq<T>, places: set<nat>, kept: seq<T>, p: nat)
    requires Keeps(s, places, kept) && p < |s| && forall q: nat :: q in places ==> q < p
    ensures Keeps(s, places + {p}, kept + [s[p]])
  {
    var at: seq<nat> :| KeptAt(s, places, kept, at);
    forall i | 0 <= i < |at|
      ensures at[i] < p
    {
      assert at[i] in at;
    }
    assert KeptAt(s, places + {p}, kept + [s[p]], at + [p]);
  }

  /** Elements behind the places do not matter. */
  lemma KeepsLonger<T>(s: seq<T>, places: set<nat>, kept: seq<T>, s': seq<T>)
    requires Keeps(s, places, kept) && s <= s'
    ensures Keeps(s', places, kept)
  {
    var at: seq<nat> :| KeptAt(s, places, kept, at);
    assert KeptAt(s', places, kept, at);
  }

  lemma AscendingEmpty(a: seq<nat>, places: set<nat>)
    requires Ascending(a, places)
    ensures a == [] <==> places == {}
  {
    assert a != [] ==> a[0] in a;
  }

  lemma AscendingWithoutLast(a: seq<nat>, places: set<nat>)
    requires Ascending(a, places) && a != []
    ensures Ascending(a[..|a| - 1], places - {a[|a| - 1]})
    ensures a[|a| - 1] in places && forall p: nat :: p in places ==> p <= a[|a| - 1]
  {
    assert a == a[..|a| - 1] + [a[|a| - 1]];
  }

  lemma {:induction false} AscendingIsUnique(a: seq<nat>, b: seq<nat>, places: set<nat>)
    requires Ascending(a, places) && Ascending(b, places)
    ensures a == b
  {
    AscendingEmpty(a, places);
    AscendingEmpty(b, places);
    if a != [] {
      var m, n := |a| - 1, |b| - 1;
      AscendingWithoutLast(a, places);
      AscendingWithoutLast(b, places);
      AscendingIsUnique(a[..m], b[..n], places - {a[m]});
      assert a == a[..m] + [a[m]] && b == b[..n] + [b[n]];
    }
  }

  /** There is only one way to keep the given places. */
  lemma KeepsIsUnique<T>(s: seq<T>, places: set<nat>, a: seq<T>, b: seq<T>)
    requires Keeps(s, places, a) && Keeps(s, places, b)
    ensures a == b
  {
    var i: seq<nat> :| KeptAt(s, places, a, i);
    var j: seq<nat> :| KeptAt(s, places, b, j);
    AscendingIsUnique(i, j, places);
  }
}
