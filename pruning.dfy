/**
 * The two deactivation passes of lines 52-74: cataphora removal and singleton
 * removal. Both change ids only (to the inactive id "0"); no link and no group
 * is touched.
 */
module Pruning {
  import opened Markables
  import opened Chains

  /** `b` is `a` with at most its id changed. */
  predicate SameButId(a: seq<Markable>, b: seq<Markable>) {
    |a| == |b| && forall i :: 0 <= i < |a| ==> b[i] == a[i].(id := b[i].id)
  }

  lemma SameButIdMentions(a: seq<Markable>, b: seq<Markable>)
    requires SameButId(a, b)
    ensures SameMentions(a, b)
    ensures Closed(a) ==> Closed(b)
  {
  }

  lemma SameButIdTrans(a: seq<Markable>, b: seq<Markable>, c: seq<Markable>)
    requires SameButId(a, b) && SameButId(b, c)
    ensures SameButId(a, c)
  {
  }

  // ---------------------------------------------------------------- cataphora

  /** Lines 54-58 over `ms[..n]`: `x` is a cataphor, or the antecedent of one. */
  predicate CataHit(ms: seq<Markable>, n: nat, x: nat) {
    (x < n && x < |ms| && ms[x].mention.corefType == "cata") ||
    exists y :: 0 <= y < n && y < |ms| && ms[y].mention.corefType == "cata" && ms[y].antecedent == Some(x)
  }

  /** The arena after the cataphora loop has visited `ms[..n]`. */
  function Uncata(ms: seq<Markable>, n: nat): (r: seq<Markable>)
    ensures SameButId(ms, r)
  {
    seq(|ms|, x requires 0 <= x < |ms| => ms[x].(id := if CataHit(ms, n, x) then Inactive else ms[x].id))
  }

  /** One more visited markable adds itself and its antecedent, when it is a cataphor. */
  lemma CataHitStep(ms: seq<Markable>, n: nat, x: nat)
    requires n < |ms|
    ensures CataHit(ms, n + 1, x) <==>
      CataHit(ms, n, x) || (ms[n].mention.corefType == "cata" && (x == n || ms[n].antecedent == Some(x)))
  {
    if CataHit(ms, n + 1, x) && !(x < n && ms[x].mention.corefType == "cata") && !(ms[n].mention.corefType == "cata" && (x == n || ms[n].antecedent == Some(x))) {
      var y :| 0 <= y < n + 1 && y < |ms| && ms[y].mention.corefType == "cata" && ms[y].antecedent == Some(x);
      assert y < n;
    }
  }

  /** One step of the loop of lines 54-58, at markable `i`. */
  lemma UncataStep(ms: seq<Markable>, i: nat)
    requires Closed(ms) && i < |ms|
    ensures Uncata(ms, i + 1) ==
      if ms[i].mention.corefType != "cata" then Uncata(ms, i)
      else
        var u := Uncata(ms, i);
        var u1 := u[i := u[i].(id := Inactive)];
        if ms[i].antecedent.Some? then u1[ms[i].antecedent.value := u1[ms[i].antecedent.value].(id := Inactive)] else u1
  {
    var u := Uncata(ms, i);
    var u1 := u[i := u[i].(id := Inactive)];
    var w := if ms[i].mention.corefType != "cata" then u
      else if ms[i].antecedent.Some? then u1[ms[i].antecedent.value := u1[ms[i].antecedent.value].(id := Inactive)] else u1;
    forall x | 0 <= x < |ms| ensures Uncata(ms, i + 1)[x] == w[x] {
      CataHitStep(ms, i, x);
    }
  }

  /** After the pass every cataphor and every antecedent of a cataphor is
      inactive, and a markable is still active exactly when it was active
      before, is not cataphoric, and is no cataphor's antecedent; links and
      groups are kept. */
  lemma CataphoraEffect(ms: seq<Markable>)
    requires Closed(ms)
    ensures var r := Uncata(ms, |ms|);
      && SameMentions(ms, r)
      && (forall x :: 0 <= x < |ms| ==> r[x].antecedent == ms[x].antecedent && r[x].group == ms[x].group)
      && (forall y :: 0 <= y < |ms| && ms[y].mention.corefType == "cata" ==>
            !Active(r[y]) && (ms[y].antecedent.Some? ==> !Active(r[ms[y].antecedent.value])))
      && (forall x :: 0 <= x < |ms| && Active(r[x]) ==>
            Active(ms[x]) && ms[x].mention.corefType != "cata" &&
            forall y :: 0 <= y < |ms| && ms[y].mention.corefType == "cata" ==> ms[y].antecedent != Some(x))
      && (forall x :: (0 <= x < |ms| && Active(ms[x]) && ms[x].mention.corefType != "cata" &&
                        forall y :: 0 <= y < |ms| && ms[y].mention.corefType == "cata" ==> ms[y].antecedent != Some(x))
            ==> Active(r[x]))
  {
    var r := Uncata(ms, |ms|);
    SameButIdMentions(ms, r);
    forall y | 0 <= y < |ms| && ms[y].mention.corefType == "cata" && ms[y].antecedent.Some?
      ensures !Active(r[ms[y].antecedent.value])
    {
      assert CataHit(ms, |ms|, ms[y].antecedent.value);
    }
  }

  /** Removing cataphora twice removes nothing more. */
  lemma CataphoraIdempotent(ms: seq<Markable>)
    ensures Uncata(Uncata(ms, |ms|), |ms|) == Uncata(ms, |ms|)
  {
    var r := Uncata(ms, |ms|);
    var r2 := Uncata(r, |r|);
    forall x | 0 <= x < |ms| ensures r2[x] == r[x] {
      if CataHit(r, |r|, x) {
        if !(x < |r| && r[x].mention.corefType == "cata") {
          var y :| 0 <= y < |r| && r[y].mention.corefType == "cata" && r[y].antecedent == Some(x);
          assert ms[y].mention.corefType == "cata" && ms[y].antecedent == Some(x);
        }
        assert CataHit(ms, |ms|, x);
      }
    }
  }

  // --------------------------------------------------------------- singletons

  /** Lines 63-72: a group is wiped when it has fewer than two members, or
      when none of its members has an antecedent. */
  predicate Wiped(ms: seq<Markable>, g: seq<nat>)
    requires InArena(g, |ms|)
  {
    |g| < 2 || forall j :: 0 <= j < |g| ==> ms[g[j]].antecedent.None?
  }

  /** Lines 65-66 and 73-74: every member of `g` gets the id "0". */
  function WipeAll(ms: seq<Markable>, g: seq<nat>): (r: seq<Markable>)
    ensures SameButId(ms, r)
    ensures forall i :: 0 <= i < |ms| ==> r[i].id == if i in g then Inactive else ms[i].id
  {
    seq(|ms|, i requires 0 <= i < |ms| => if i in g then ms[i].(id := Inactive) else ms[i])
  }

  /** One step of the loops of lines 65-66 and 73-74. */
  lemma WipeAllPrefix(ms: seq<Markable>, g: seq<nat>, j: nat)
    requires InArena(g, |ms|) && j < |g|
    ensures WipeAll(ms, g[..j + 1]) == var w := WipeAll(ms, g[..j]); w[g[j] := w[g[j]].(id := Inactive)]
  {
    assert g[..j + 1] == g[..j] + [g[j]];
    var w := WipeAll(ms, g[..j]);
    var w1 := w[g[j] := w[g[j]].(id := Inactive)];
    assert forall i :: 0 <= i < |ms| ==> WipeAll(ms, g[..j + 1])[i] == w1[i];
  }

  /** The singleton pass over the first `p` groups of `idx.order`. */
  function PruneGroups(ms: seq<Markable>, idx: GroupIndex, p: nat): (r: seq<Markable>)
    requires ListsIn(idx, |ms|) && p <= |idx.order|
    ensures SameButId(ms, r)
  {
    if p == 0 then ms
    else
      var cur := PruneGroups(ms, idx, p - 1);
      var g := Members(idx, idx.order[p - 1]);
      MembersIn(idx, |ms|, idx.order[p - 1]);
      if Wiped(cur, g) then WipeAll(cur, g) else cur
  }

  /** `x` is listed in one of the first `p` groups and that group is wiped. */
  predicate InWipedGroup(ms: seq<Markable>, idx: GroupIndex, p: nat, x: nat)
    requires ListsIn(idx, |ms|) && p <= |idx.order|
  {
    exists q :: 0 <= q < p && WipedAt(ms, idx, q, x)
  }

  predicate WipedAt(ms: seq<Markable>, idx: GroupIndex, q: nat, x: nat)
    requires ListsIn(idx, |ms|) && q < |idx.order|
  {
    MembersIn(idx, |ms|, idx.order[q]);
    x in Members(idx, idx.order[q]) && Wiped(ms, Members(idx, idx.order[q]))
  }

  /** Wiping reads antecedents only, which no part of the pass changes. */
  lemma WipedSameButId(ms: seq<Markable>, ms': seq<Markable>, g: seq<nat>)
    requires SameButId(ms, ms') && InArena(g, |ms|)
    ensures Wiped(ms, g) == Wiped(ms', g)
  {
    assert forall j :: 0 <= j < |g| ==> ms[g[j]].antecedent == ms'[g[j]].antecedent;
  }

  /** One more group: `x` is in a wiped group among the first `p` when it is
      among the first `p - 1` or in group `p - 1`. */
  lemma InWipedStep(ms: seq<Markable>, idx: GroupIndex, p: nat, x: nat)
    requires ListsIn(idx, |ms|) && 0 < p <= |idx.order|
    ensures InWipedGroup(ms, idx, p, x) <==> InWipedGroup(ms, idx, p - 1, x) || WipedAt(ms, idx, p - 1, x)
  {
    if InWipedGroup(ms, idx, p, x) && !WipedAt(ms, idx, p - 1, x) {
      var q :| 0 <= q < p && WipedAt(ms, idx, q, x);
      assert InWipedGroup(ms, idx, p - 1, x);
    }
    if WipedAt(ms, idx, p - 1, x) {
      assert InWipedGroup(ms, idx, p, x);
    }
  }

  /** The step of the pass for group `p - 1`, as seen at one markable. */
  lemma PruneStepAt(ms: seq<Markable>, idx: GroupIndex, p: nat, x: nat)
    requires ListsIn(idx, |ms|) && 0 < p <= |idx.order| && x < |ms|
    ensures PruneGroups(ms, idx, p)[x].id ==
      if WipedAt(ms, idx, p - 1, x) then Inactive else PruneGroups(ms, idx, p - 1)[x].id
  {
    var cur := PruneGroups(ms, idx, p - 1);
    var g := Members(idx, idx.order[p - 1]);
    MembersIn(idx, |ms|, idx.order[p - 1]);
    WipedSameButId(ms, cur, g);
  }

  lemma PruneStepId(ms: seq<Markable>, idx: GroupIndex, p: nat, x: nat)
    requires ListsIn(idx, |ms|) && 0 < p <= |idx.order| && x < |ms|
    requires PruneGroups(ms, idx, p - 1)[x].id == if InWipedGroup(ms, idx, p - 1, x) then Inactive else ms[x].id
    ensures PruneGroups(ms, idx, p)[x].id == if InWipedGroup(ms, idx, p, x) then Inactive else ms[x].id
  {
    PruneStepAt(ms, idx, p, x);
    InWipedStep(ms, idx, p, x);
  }

  /** After the pass over the first `p` groups, a markable is inactive exactly
      when it belongs to a wiped group or was inactive before. */
  lemma {:induction false} PruneGroupsIds(ms: seq<Markable>, idx: GroupIndex, p: nat)
    requires ListsIn(idx, |ms|) && p <= |idx.order|
    ensures forall x :: 0 <= x < |ms| ==>
      PruneGroups(ms, idx, p)[x].id == if InWipedGroup(ms, idx, p, x) then Inactive else ms[x].id
  {
    if p > 0 {
      PruneGroupsIds(ms, idx, p - 1);
      forall x | 0 <= x < |ms|
        ensures PruneGroups(ms, idx, p)[x].id == if InWipedGroup(ms, idx, p, x) then Inactive else ms[x].id
      {
        PruneStepId(ms, idx, p, x);
      }
    }
  }

  /** With one list per markable (as `marks_by_group` has), the pass decides
      group by group: every member of a wiped group is inactive afterwards,
      and every member of a group that is kept keeps its id. */
  lemma PruneRule(ms: seq<Markable>, idx: GroupIndex, q: nat)
    requires Bounded(idx, |ms|) && q < |idx.order| && InArena(Members(idx, idx.order[q]), |ms|)
    ensures var g := Members(idx, idx.order[q]);
      var r := PruneGroups(ms, idx, |idx.order|);
      forall x :: x in g ==> r[x].id == if Wiped(ms, g) then Inactive else ms[x].id
  {
    var g := Members(idx, idx.order[q]);
    MembersIn(idx, |ms|, idx.order[q]);
    PruneGroupsIds(ms, idx, |idx.order|);
    forall x | x in g
      ensures InWipedGroup(ms, idx, |idx.order|, x) == Wiped(ms, g)
    {
      var t :| 0 <= t < |g| && g[t] == x;
      if Wiped(ms, g) {
        assert WipedAt(ms, idx, q, x);
      }
    }
  }

  /** Pruning singletons a second time changes nothing. */
  lemma PruneIdempotent(ms: seq<Markable>, idx: GroupIndex)
    requires ListsIn(idx, |ms|)
    ensures PruneGroups(PruneGroups(ms, idx, |idx.order|), idx, |idx.order|) == PruneGroups(ms, idx, |idx.order|)
  {
    var r := PruneGroups(ms, idx, |idx.order|);
    var r2 := PruneGroups(r, idx, |idx.order|);
    PruneGroupsIds(ms, idx, |idx.order|);
    PruneGroupsIds(r, idx, |idx.order|);
    forall x | 0 <= x < |ms| ensures r2[x] == r[x] {
      if InWipedGroup(r, idx, |idx.order|, x) {
        var q :| 0 <= q < |idx.order| && WipedAt(r, idx, q, x);
        MembersIn(idx, |ms|, idx.order[q]);
        WipedSameButId(ms, r, Members(idx, idx.order[q]));
        assert WipedAt(ms, idx, q, x);
      }
    }
  }
}
