/**
 * The per-group index `marks_by_group` (a dictionary from group key to the
 * list of markables of that group, keys in first-seen order) and its
 * construction, plus the reference definition of the order in which the chain
 * builder links the non-cataphoric members of a group.
 */
module Chains {
  import opened Markables

  /** `order` lists the keys in insertion order; `lists[k]` holds arena indices. */
  datatype GroupIndex = GroupIndex(order: seq<int>, lists: map<int, seq<nat>>)

  /** `marks_by_group[k]` on the defaultdict: a missing key reads as an empty list. */
  function Members(idx: GroupIndex, k: int): seq<nat> {
    if k in idx.lists then idx.lists[k] else []
  }

  predicate Increasing(s: seq<nat>) {
    forall a, b :: 0 <= a < b < |s| ==> s[a] < s[b]
  }

  /** Every list holds indices of an arena of size `n`. */
  predicate ListsIn(idx: GroupIndex, n: nat) {
    forall k, x :: k in idx.lists && x in idx.lists[k] ==> x < n
  }

  /** The structural shape of the index: distinct keys in `order`, the same keys
      in `lists`, each list increasing and within the arena, lists disjoint. */
  predicate Bounded(idx: GroupIndex, n: nat) {
    && (forall a, b :: 0 <= a < b < |idx.order| ==> idx.order[a] != idx.order[b])
    && (forall k :: k in idx.order ==> k in idx.lists)
    && (forall k :: k in idx.lists ==> k in idx.order)
    && (forall k :: k in idx.lists ==> Increasing(idx.lists[k]))
    && ListsIn(idx, n)
    && (forall k1, k2, x :: k1 in idx.lists && k2 in idx.lists && x in idx.lists[k1] && x in idx.lists[k2] ==> k1 == k2)
  }

  /** The markables `ms[..n]` sit exactly in the lists of their own groups. */
  predicate GroupedUpTo(idx: GroupIndex, ms: seq<Markable>, n: nat) {
    && n <= |ms|
    && (forall i :: 0 <= i < n ==> ms[i].group in idx.lists && i in idx.lists[ms[i].group])
    && (forall k, x {:trigger x in idx.lists[k]} :: k in idx.lists && x in idx.lists[k] ==> x < n && ms[x].group == k)
  }

  /** The keys of `lists` are those of `order`, without repetition; every list
      is non-empty and in document order. */
  predicate Shaped(idx: GroupIndex) {
    && (forall a, b :: 0 <= a < b < |idx.order| ==> idx.order[a] != idx.order[b])
    && (forall a :: 0 <= a < |idx.order| ==> idx.order[a] in idx.lists && |idx.lists[idx.order[a]]| > 0)
    && (forall k :: k in idx.lists ==> k in idx.order)
    && (forall k :: k in idx.lists ==> Increasing(idx.lists[k]) && |idx.lists[k]| > 0)
  }

  /** The keys are ordered by the first markable of their lists. */
  predicate FirstSeenOrder(idx: GroupIndex)
    requires Shaped(idx)
  {
    forall a, b :: 0 <= a < b < |idx.order| ==> idx.lists[idx.order[a]][0] < idx.lists[idx.order[b]][0]
  }

  /** `idx` is `marks_by_group` built from `ms[..n]`. */
  predicate IndexOf(idx: GroupIndex, ms: seq<Markable>, n: nat) {
    Shaped(idx) && GroupedUpTo(idx, ms, n) && FirstSeenOrder(idx)
  }

  lemma IndexOfBounded(idx: GroupIndex, ms: seq<Markable>)
    requires IndexOf(idx, ms, |ms|)
    ensures Bounded(idx, |ms|)
  {
    forall k1, k2, x | k1 in idx.lists && k2 in idx.lists && x in idx.lists[k1] && x in idx.lists[k2]
      ensures k1 == k2
    {
      assert ms[x].group == k1 && ms[x].group == k2;
    }
  }

  lemma MembersIn(idx: GroupIndex, n: nat, k: int)
    requires ListsIn(idx, n)
    ensures InArena(Members(idx, k), n)
  {
    var g := Members(idx, k);
    forall i | 0 <= i < |g| ensures g[i] < n {
      assert g[i] in g;
    }
  }

  /** `marks_by_group[k].append(x)` on the defaultdict. */
  function Append(idx: GroupIndex, k: int, x: nat): GroupIndex {
    if k in idx.lists then GroupIndex(idx.order, idx.lists[k := idx.lists[k] + [x]])
    else GroupIndex(idx.order + [k], idx.lists[k := [x]])
  }

  lemma AppendGrouped(idx: GroupIndex, ms: seq<Markable>, n: nat)
    requires GroupedUpTo(idx, ms, n) && n < |ms|
    ensures GroupedUpTo(Append(idx, ms[n].group, n), ms, n + 1)
  {
    var k := ms[n].group;
    if k in idx.lists {
      var new_list := idx.lists[k] + [n];
      assert forall x :: x in new_list ==> x in idx.lists[k] || x == n;
    }
  }

  lemma AppendShaped(idx: GroupIndex, ms: seq<Markable>, n: nat)
    requires Shaped(idx) && GroupedUpTo(idx, ms, n) && n < |ms|
    ensures Shaped(Append(idx, ms[n].group, n))
  {
    var k := ms[n].group;
    if k in idx.lists {
      var old_list := idx.lists[k];
      forall a | 0 <= a < |old_list| ensures old_list[a] < n {
        assert old_list[a] in old_list;
      }
      assert Increasing(old_list + [n]);
    } else {
      forall a | 0 <= a < |idx.order| ensures idx.order[a] != k {
        assert idx.order[a] in idx.order;
      }
    }
  }

  lemma AppendFirstSeen(idx: GroupIndex, ms: seq<Markable>, n: nat)
    requires Shaped(idx) && GroupedUpTo(idx, ms, n) && FirstSeenOrder(idx) && n < |ms|
    requires Shaped(Append(idx, ms[n].group, n))
    ensures FirstSeenOrder(Append(idx, ms[n].group, n))
  {
    var k := ms[n].group;
    if k in idx.lists {
      assert (idx.lists[k] + [n])[0] == idx.lists[k][0];
    } else {
      forall a | 0 <= a < |idx.order|
        ensures idx.order[a] != k && idx.lists[idx.order[a]][0] < n
      {
        var ka := idx.order[a];
        assert ka in idx.order;
        assert idx.lists[ka][0] in idx.lists[ka];
      }
    }
  }

  lemma AppendNext(idx: GroupIndex, ms: seq<Markable>, n: nat)
    requires IndexOf(idx, ms, n) && n < |ms|
    ensures IndexOf(Append(idx, ms[n].group, n), ms, n + 1)
  {
    AppendGrouped(idx, ms, n);
    AppendShaped(idx, ms, n);
    AppendFirstSeen(idx, ms, n);
  }

  /** `marks_by_group` after the loop of lines 16-17 has seen `ms[..n]`. */
  function Index(ms: seq<Markable>, n: nat): GroupIndex
    requires n <= |ms|
  {
    if n == 0 then GroupIndex([], map[]) else Append(Index(ms, n - 1), ms[n - 1].group, n - 1)
  }

  /** The loop builds exactly the index of the markables it has seen. */
  lemma IndexIsIndexOf(ms: seq<Markable>, n: nat)
    requires n <= |ms|
    ensures IndexOf(Index(ms, n), ms, n)
  {
    IndexOfFrom(ms, n, 0, GroupIndex([], map[]));
  }

  lemma {:induction false} IndexOfFrom(ms: seq<Markable>, n: nat, i: nat, idx: GroupIndex)
    requires i <= n <= |ms| && idx == Index(ms, i) && IndexOf(idx, ms, i)
    ensures IndexOf(Index(ms, n), ms, n)
    decreases n - i
  {
    if i < n {
      var next := Append(idx, ms[i].group, i);
      AppendNext(idx, ms, i);
      IndexOfFrom(ms, n, i + 1, next);
    }
  }

  /** Lines 15-17: index the markables by group, in document order. */
  method BuildGroups(ms: seq<Markable>) returns (idx: GroupIndex)
    ensures idx == Index(ms, |ms|)
    ensures IndexOf(idx, ms, |ms|) && Bounded(idx, |ms|)
  {
    idx := GroupIndex([], map[]);
    var i := 0;
    while i < |ms|
      invariant 0 <= i <= |ms|
      invariant idx == Index(ms, i)
    {
      idx := Append(idx, ms[i].group, i);
      i := i + 1;
    }
    IndexIsIndexOf(ms, |ms|);
    IndexOfBounded(idx, ms);
  }

  /** The non-cataphoric members of the list `g`, in list order. */
  function NonCata(ms: seq<Markable>, g: seq<nat>): seq<nat>
    requires InArena(g, |ms|)
  {
    if g == [] then []
    else
      var last := g[|g| - 1];
      var front := NonCata(ms, g[..|g| - 1]);
      if ms[last].mention.corefType != "cata" then front + [last] else front
  }

  /** One more member of the list: `NonCata` grows by it unless it is a cataphor. */
  lemma NonCataPrefix(ms: seq<Markable>, g: seq<nat>, j: nat)
    requires InArena(g, |ms|) && j < |g|
    ensures NonCata(ms, g[..j + 1]) == if ms[g[j]].mention.corefType != "cata" then NonCata(ms, g[..j]) + [g[j]] else NonCata(ms, g[..j])
  {
    assert g[..j + 1][..j] == g[..j];
  }

  lemma {:induction false} NonCataMembers(ms: seq<Markable>, g: seq<nat>)
    requires InArena(g, |ms|)
    ensures forall x :: x in NonCata(ms, g) <==> x in g && ms[x].mention.corefType != "cata"
  {
    if g != [] {
      var init := g[..|g| - 1];
      assert g == init + [g[|g| - 1]];
      NonCataMembers(ms, init);
    }
  }

  /** NonCata keeps the list order, so it has no repetitions when the list has none. */
  lemma {:induction false} NonCataIncreasing(ms: seq<Markable>, g: seq<nat>)
    requires InArena(g, |ms|)
    requires Increasing(g)
    ensures Increasing(NonCata(ms, g))
    ensures g != [] ==> forall x :: x in NonCata(ms, g) ==> x <= g[|g| - 1]
  {
    if g != [] {
      var last := g[|g| - 1];
      var init := g[..|g| - 1];
      assert Increasing(init);
      NonCataIncreasing(ms, init);
      var front := NonCata(ms, init);
      forall a | 0 <= a < |front| ensures front[a] < last {
        assert front[a] in front;
        assert front[a] <= init[|init| - 1];
      }
    }
  }

  /** NonCata reads only the coreference types. */
  lemma {:induction false} NonCataSameTypes(ms: seq<Markable>, ms': seq<Markable>, g: seq<nat>)
    requires InArena(g, |ms|) && |ms| == |ms'|
    requires forall i :: 0 <= i < |ms| ==> ms[i].mention.corefType == ms'[i].mention.corefType
    ensures NonCata(ms, g) == NonCata(ms', g)
  {
    if g != [] {
      NonCataSameTypes(ms, ms', g[..|g| - 1]);
    }
  }

  /** `b` is `a` with at most its antecedent links changed. */
  predicate SameButLinks(a: seq<Markable>, b: seq<Markable>) {
    |a| == |b| && forall i :: 0 <= i < |a| ==> b[i] == a[i].(antecedent := b[i].antecedent)
  }

  /** The member `x` is linked to by lines 22-27 over `nc`: the member just
      before the last place `x` takes after the first one. */
  function LinkOf(nc: seq<nat>, x: nat): Option<nat> {
    if |nc| < 2 then None
    else if nc[|nc| - 1] == x then Some(nc[|nc| - 2])
    else LinkOf(nc[..|nc| - 1], x)
  }

  /** Lines 22-27 over the non-cataphoric members `nc` of one group: each is
      linked to the one before it; every other markable is left alone. */
  function Chain(ms: seq<Markable>, nc: seq<nat>): (r: seq<Markable>)
    ensures |r| == |ms|
  {
    seq(|ms|, x requires 0 <= x < |ms| => if LinkOf(nc, x).Some? then ms[x].(antecedent := LinkOf(nc, x)) else ms[x])
  }

  /** One step of the loop of lines 23-27: the non-cataphoric member `x`
      after the chain `nc` is linked to the last member of `nc`, if any. */
  lemma ChainExtend(ms: seq<Markable>, nc: seq<nat>, x: nat)
    requires x < |ms|
    ensures nc == [] ==> Chain(ms, nc) == ms
    ensures Chain(ms, nc + [x]) ==
      if nc == [] then ms
      else var c := Chain(ms, nc); c[x := c[x].(antecedent := Some(nc[|nc| - 1]))]
  {
    assert (nc + [x])[..|nc|] == nc;
    var r := Chain(ms, nc + [x]);
    if nc == [] {
      assert forall i :: 0 <= i < |ms| ==> r[i] == ms[i];
      assert forall i :: 0 <= i < |ms| ==> Chain(ms, nc)[i] == ms[i];
    } else {
      var c := Chain(ms, nc);
      assert forall i :: 0 <= i < |ms| ==> r[i] == c[x := c[x].(antecedent := Some(nc[|nc| - 1]))][i];
    }
  }

  /** The link `LinkOf` gives is a member of the chain. */
  lemma {:induction false} LinkOfIn(nc: seq<nat>, x: nat)
    ensures LinkOf(nc, x).Some? ==> LinkOf(nc, x).value in nc
  {
    if |nc| >= 2 && nc[|nc| - 1] != x {
      LinkOfIn(nc[..|nc| - 1], x);
    }
  }

  /** Linking a chain of the arena keeps every link inside the arena. */
  lemma ChainClosed(ms: seq<Markable>, nc: seq<nat>)
    requires Closed(ms) && InArena(nc, |ms|)
    ensures Closed(Chain(ms, nc))
  {
    forall x | 0 <= x < |ms| ensures LinkOf(nc, x).Some? ==> LinkOf(nc, x).value < |ms| {
      LinkOfIn(nc, x);
    }
  }

  lemma SameButLinksTrans(a: seq<Markable>, b: seq<Markable>, c: seq<Markable>)
    requires SameButLinks(a, b) && SameButLinks(b, c)
    ensures SameButLinks(a, c)
  {
  }

  lemma ChainSameButLinks(ms: seq<Markable>, nc: seq<nat>)
    ensures SameButLinks(ms, Chain(ms, nc))
  {
  }

  /** Every member of `nc` but the first points to its predecessor in `r`. */
  predicate Linked(r: seq<Markable>, nc: seq<nat>) {
    forall t :: 1 <= t < |nc| ==> LinkedAt(r, nc, t)
  }

  /** Member `t` of `nc` points to member `t - 1` in `r`. */
  predicate LinkedAt(r: seq<Markable>, nc: seq<nat>, t: nat)
    requires 1 <= t < |nc|
  {
    nc[t] < |r| && r[nc[t]].antecedent == Some(nc[t - 1])
  }

  /** `x` is not a member of `nc` other than the first. */
  predicate NotLinked(nc: seq<nat>, x: nat) {
    forall t :: 1 <= t < |nc| ==> nc[t] != x
  }

  /** In an increasing chain, member `t` is linked to member `t - 1`. */
  lemma {:induction false} LinkOfAt(nc: seq<nat>, t: nat)
    requires Increasing(nc) && 1 <= t < |nc|
    ensures LinkOf(nc, nc[t]) == Some(nc[t - 1])
  {
    if t < |nc| - 1 {
      var init := nc[..|nc| - 1];
      assert init[t] == nc[t] && init[t - 1] == nc[t - 1];
      assert nc[t] < nc[|nc| - 1];
      LinkOfAt(init, t);
    }
  }

  /** A markable that is no member past the first is linked to nothing. */
  lemma {:induction false} LinkOfNone(nc: seq<nat>, x: nat)
    requires NotLinked(nc, x)
    ensures LinkOf(nc, x) == None
  {
    if |nc| >= 2 {
      var init := nc[..|nc| - 1];
      assert nc[|nc| - 1] != x;
      assert NotLinked(init, x) by {
        forall t | 1 <= t < |init| ensures init[t] != x {
          assert init[t] == nc[t];
        }
      }
      LinkOfNone(init, x);
    }
  }

  lemma ChainLinksAll(ms: seq<Markable>, nc: seq<nat>)
    requires InArena(nc, |ms|) && Increasing(nc)
    ensures Linked(Chain(ms, nc), nc)
  {
    forall t | 1 <= t < |nc| ensures LinkedAt(Chain(ms, nc), nc, t) {
      LinkOfAt(nc, t);
    }
  }

  lemma ChainKeeps(ms: seq<Markable>, nc: seq<nat>, x: nat)
    requires x < |ms| && NotLinked(nc, x)
    ensures Chain(ms, nc)[x].antecedent == ms[x].antecedent
  {
    LinkOfNone(nc, x);
  }

  /** Every member of `nc` but the first points to its predecessor; every
      other markable keeps its antecedent. */
  lemma ChainLinks(ms: seq<Markable>, nc: seq<nat>)
    requires InArena(nc, |ms|) && Increasing(nc)
    ensures var r := Chain(ms, nc);
      && Linked(r, nc)
      && (forall x :: 0 <= x < |ms| && NotLinked(nc, x) ==> r[x].antecedent == ms[x].antecedent)
  {
    ChainLinksAll(ms, nc);
    forall x | 0 <= x < |ms| && NotLinked(nc, x) ensures Chain(ms, nc)[x].antecedent == ms[x].antecedent {
      ChainKeeps(ms, nc, x);
    }
  }

  /** The non-cataphoric members of the group `idx.order[q]`. */
  function GroupChain(ms: seq<Markable>, idx: GroupIndex, q: nat): seq<nat>
    requires ListsIn(idx, |ms|) && q < |idx.order|
  {
    MembersIn(idx, |ms|, idx.order[q]);
    NonCata(ms, Members(idx, idx.order[q]))
  }

  /** Lines 21-27 for the first `p` groups of `idx.order`. The coreference
      types are read on `ms`: linking never changes them. */
  function LinkGroups(ms: seq<Markable>, idx: GroupIndex, p: nat): (r: seq<Markable>)
    requires ListsIn(idx, |ms|) && p <= |idx.order|
    ensures |r| == |ms|
  {
    if p == 0 then ms else Chain(LinkGroups(ms, idx, p - 1), GroupChain(ms, idx, p - 1))
  }

  lemma NonCataIn(ms: seq<Markable>, g: seq<nat>)
    requires InArena(g, |ms|)
    ensures InArena(NonCata(ms, g), |ms|)
  {
    var nc := NonCata(ms, g);
    NonCataMembers(ms, g);
    forall i | 0 <= i < |nc| ensures nc[i] < |ms| {
      assert nc[i] in nc;
      var j :| 0 <= j < |g| && g[j] == nc[i];
    }
  }

  lemma {:induction false} LinkGroupsSameButLinks(ms: seq<Markable>, idx: GroupIndex, p: nat)
    requires ListsIn(idx, |ms|) && p <= |idx.order|
    ensures SameButLinks(ms, LinkGroups(ms, idx, p))
  {
    if p > 0 {
      LinkGroupsSameButLinks(ms, idx, p - 1);
      var cur := LinkGroups(ms, idx, p - 1);
      ChainSameButLinks(cur, GroupChain(ms, idx, p - 1));
      SameButLinksTrans(ms, cur, LinkGroups(ms, idx, p));
    }
  }

  /** `x` is a non-first member of the chain of one of the first `p` groups. */
  predicate Relinked(ms: seq<Markable>, idx: GroupIndex, p: nat, x: nat)
    requires ListsIn(idx, |ms|) && p <= |idx.order|
  {
    exists q :: 0 <= q < p && !NotLinked(GroupChain(ms, idx, q), x)
  }

  /** The members of a group's chain belong to that group. */
  lemma GroupChainMembers(ms: seq<Markable>, idx: GroupIndex, q: nat)
    requires ListsIn(idx, |ms|) && q < |idx.order|
    ensures forall x :: x in GroupChain(ms, idx, q) ==> x in Members(idx, idx.order[q])
    ensures InArena(GroupChain(ms, idx, q), |ms|)
  {
    MembersIn(idx, |ms|, idx.order[q]);
    NonCataMembers(ms, Members(idx, idx.order[q]));
    NonCataIn(ms, Members(idx, idx.order[q]));
  }

  /** The chains of the first `p` groups are linked in `r`. */
  predicate ChainsLinked(ms: seq<Markable>, idx: GroupIndex, p: nat, r: seq<Markable>)
    requires ListsIn(idx, |ms|) && p <= |idx.order|
  {
    forall q :: 0 <= q < p ==> Linked(r, GroupChain(ms, idx, q))
  }

  /** The chain builder keeps every link inside the arena. */
  lemma {:induction false} LinkGroupsClosed(ms: seq<Markable>, idx: GroupIndex, p: nat)
    requires Closed(ms) && ListsIn(idx, |ms|) && p <= |idx.order|
    ensures Closed(LinkGroups(ms, idx, p))
  {
    if p > 0 {
      LinkGroupsClosed(ms, idx, p - 1);
      GroupChainMembers(ms, idx, p - 1);
      ChainClosed(LinkGroups(ms, idx, p - 1), GroupChain(ms, idx, p - 1));
    }
  }

  /** Every markable outside the relinked ones keeps its antecedent in `r`. */
  predicate OthersKept(ms: seq<Markable>, idx: GroupIndex, p: nat, r: seq<Markable>)
    requires ListsIn(idx, |ms|) && p <= |idx.order| && |r| == |ms|
  {
    forall x :: 0 <= x < |ms| && !Relinked(ms, idx, p, x) ==> r[x].antecedent == ms[x].antecedent
  }

  /** The chain of group `p - 1` is the same whether its coreference types
      are read on `ms` or on the arena the pass has reached. */
  lemma StepChain(ms: seq<Markable>, idx: GroupIndex, p: nat)
    requires ListsIn(idx, |ms|) && 0 < p <= |idx.order|
    ensures InArena(Members(idx, idx.order[p - 1]), |ms|)
    ensures NonCata(LinkGroups(ms, idx, p - 1), Members(idx, idx.order[p - 1])) == GroupChain(ms, idx, p - 1)
  {
    MembersIn(idx, |ms|, idx.order[p - 1]);
    LinkGroupsSameButLinks(ms, idx, p - 1);
    NonCataSameTypes(ms, LinkGroups(ms, idx, p - 1), Members(idx, idx.order[p - 1]));
  }

  /** A group's chain lies in the arena and is in document order. */
  lemma GroupChainShaped(ms: seq<Markable>, idx: GroupIndex, q: nat)
    requires Bounded(idx, |ms|) && q < |idx.order|
    ensures InArena(GroupChain(ms, idx, q), |ms|) && Increasing(GroupChain(ms, idx, q))
  {
    MembersIn(idx, |ms|, idx.order[q]);
    GroupChainMembers(ms, idx, q);
    NonCataIncreasing(ms, Members(idx, idx.order[q]));
  }

  /** Chains of distinct groups have no member in common. */
  lemma ChainsDisjoint(ms: seq<Markable>, idx: GroupIndex, q: nat, q': nat, x: nat)
    requires Bounded(idx, |ms|) && q < q' < |idx.order|
    requires x in GroupChain(ms, idx, q)
    ensures NotLinked(GroupChain(ms, idx, q'), x)
  {
    GroupChainMembers(ms, idx, q);
    GroupChainMembers(ms, idx, q');
    var nc := GroupChain(ms, idx, q');
    forall s | 1 <= s < |nc| ensures nc[s] != x {
      assert nc[s] in nc;
      assert idx.order[q] != idx.order[q'];
    }
  }

  /** Linking one chain leaves another chain's links alone when they share no member. */
  lemma LinkedKept(cur: seq<Markable>, nc: seq<nat>, c: seq<nat>)
    requires InArena(nc, |cur|) && Increasing(nc) && Linked(cur, c)
    requires forall t :: 1 <= t < |c| ==> NotLinked(nc, c[t])
    ensures Linked(Chain(cur, nc), c)
  {
    ChainLinks(cur, nc);
    forall t | 1 <= t < |c| ensures LinkedAt(Chain(cur, nc), c, t) {
      assert LinkedAt(cur, c, t);
    }
  }

  lemma {:induction false} LinkGroupsLinked(ms: seq<Markable>, idx: GroupIndex, p: nat)
    requires Bounded(idx, |ms|) && p <= |idx.order|
    ensures ChainsLinked(ms, idx, p, LinkGroups(ms, idx, p))
  {
    if p > 0 {
      LinkGroupsLinked(ms, idx, p - 1);
      ChainsLinkedStep(ms, idx, LinkGroups(ms, idx, p - 1), p);
    }
  }

  /** Linking the chain of group `p - 1` on an arena `cur` where the chains of
      the groups before it are linked links the chains of the first `p` groups. */
  lemma ChainsLinkedStep(ms: seq<Markable>, idx: GroupIndex, cur: seq<Markable>, p: nat)
    requires Bounded(idx, |ms|) && 0 < p <= |idx.order| && |cur| == |ms|
    requires ChainsLinked(ms, idx, p - 1, cur)
    ensures ChainsLinked(ms, idx, p, Chain(cur, GroupChain(ms, idx, p - 1)))
  {
    var nc := GroupChain(ms, idx, p - 1);
    GroupChainShaped(ms, idx, p - 1);
    ChainLinksAll(cur, nc);
    forall q | 0 <= q < p ensures Linked(Chain(cur, nc), GroupChain(ms, idx, q)) {
      if q < p - 1 {
        ChainKeepsOther(ms, idx, cur, q, p - 1);
      }
    }
  }

  /** Linking the chain of group `q'` keeps the links of the chain of an earlier group `q`. */
  lemma ChainKeepsOther(ms: seq<Markable>, idx: GroupIndex, cur: seq<Markable>, q: nat, q': nat)
    requires Bounded(idx, |ms|) && q < q' < |idx.order| && |cur| == |ms|
    requires Linked(cur, GroupChain(ms, idx, q))
    ensures Linked(Chain(cur, GroupChain(ms, idx, q')), GroupChain(ms, idx, q))
  {
    GroupChainShaped(ms, idx, q');
    ChainsApart(ms, idx, q, q');
    LinkedKept(cur, GroupChain(ms, idx, q'), GroupChain(ms, idx, q));
  }

  lemma ChainsApart(ms: seq<Markable>, idx: GroupIndex, q: nat, q': nat)
    requires Bounded(idx, |ms|) && q < q' < |idx.order|
    ensures var c := GroupChain(ms, idx, q);
      forall t :: 1 <= t < |c| ==> NotLinked(GroupChain(ms, idx, q'), c[t])
  {
    var c := GroupChain(ms, idx, q);
    forall t | 1 <= t < |c| ensures NotLinked(GroupChain(ms, idx, q'), c[t]) {
      assert c[t] in c;
      ChainsDisjoint(ms, idx, q, q', c[t]);
    }
  }

  lemma {:induction false} LinkGroupsKept(ms: seq<Markable>, idx: GroupIndex, p: nat)
    requires Bounded(idx, |ms|) && p <= |idx.order|
    ensures OthersKept(ms, idx, p, LinkGroups(ms, idx, p))
  {
    if p > 0 {
      LinkGroupsKept(ms, idx, p - 1);
      LinkStepKept(ms, idx, p);
    }
  }

  lemma LinkStepKept(ms: seq<Markable>, idx: GroupIndex, p: nat)
    requires Bounded(idx, |ms|) && 0 < p <= |idx.order|
    requires forall x :: 0 <= x < |ms| && !Relinked(ms, idx, p - 1, x) ==> LinkGroups(ms, idx, p - 1)[x].antecedent == ms[x].antecedent
    ensures forall x :: 0 <= x < |ms| && !Relinked(ms, idx, p, x) ==> LinkGroups(ms, idx, p)[x].antecedent == ms[x].antecedent
  {
    var cur := LinkGroups(ms, idx, p - 1);
    var nc := GroupChain(ms, idx, p - 1);
    GroupChainShaped(ms, idx, p - 1);
    ChainLinks(cur, nc);
    forall x | 0 <= x < |ms| && !Relinked(ms, idx, p, x)
      ensures LinkGroups(ms, idx, p)[x].antecedent == ms[x].antecedent
    {
      assert !Relinked(ms, idx, p - 1, x);
      assert NotLinked(nc, x);
    }
  }

  /** The chain builder links, in every group, each non-cataphoric member but
      the first to the previous non-cataphoric member; every other markable
      (cataphors and each group's first non-cataphoric member included) keeps
      its antecedent, and no other field changes. */
  lemma LinkGroupsEffect(ms: seq<Markable>, idx: GroupIndex, p: nat)
    requires Bounded(idx, |ms|) && p <= |idx.order|
    ensures var r := LinkGroups(ms, idx, p);
      SameButLinks(ms, r) && ChainsLinked(ms, idx, p, r) && OthersKept(ms, idx, p, r)
  {
    LinkGroupsSameButLinks(ms, idx, p);
    LinkGroupsLinked(ms, idx, p);
    LinkGroupsKept(ms, idx, p);
  }

  /** The markables the chain builder never links keep their antecedents: a
      cataphor, and the first non-cataphoric member of each group, whose
      antecedent is not reset to "none". */
  lemma LinkGroupsKeepsHeads(ms: seq<Markable>, idx: GroupIndex, p: nat, x: nat)
    requires Bounded(idx, |ms|) && p <= |idx.order| && x < |ms|
    requires ms[x].mention.corefType == "cata" ||
      exists q :: 0 <= q < p && GroupChain(ms, idx, q) != [] && GroupChain(ms, idx, q)[0] == x
    ensures LinkGroups(ms, idx, p)[x].antecedent == ms[x].antecedent
  {
    LinkGroupsKept(ms, idx, p);
    forall q | 0 <= q < p ensures NotLinked(GroupChain(ms, idx, q), x) {
      HeadNotLinked(ms, idx, q, x);
    }
  }

  lemma HeadNotLinked(ms: seq<Markable>, idx: GroupIndex, q: nat, x: nat)
    requires Bounded(idx, |ms|) && q < |idx.order| && x < |ms|
    requires ms[x].mention.corefType == "cata" ||
      exists q0 :: 0 <= q0 < |idx.order| && GroupChain(ms, idx, q0) != [] && GroupChain(ms, idx, q0)[0] == x
    ensures NotLinked(GroupChain(ms, idx, q), x)
  {
    var nc := GroupChain(ms, idx, q);
    MembersIn(idx, |ms|, idx.order[q]);
    NonCataMembers(ms, Members(idx, idx.order[q]));
    GroupChainMembers(ms, idx, q);
    GroupChainShaped(ms, idx, q);
    forall t | 1 <= t < |nc| ensures nc[t] != x {
      assert nc[t] in nc;
      if ms[x].mention.corefType != "cata" {
        var q0 :| 0 <= q0 < |idx.order| && GroupChain(ms, idx, q0) != [] && GroupChain(ms, idx, q0)[0] == x;
        if q0 == q {
          assert nc[0] < nc[t];
        } else {
          GroupChainMembers(ms, idx, q0);
          assert x in GroupChain(ms, idx, q0);
          assert idx.order[q0] != idx.order[q];
        }
      }
    }
  }
}
