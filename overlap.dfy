/**
 * The "i in i" rule of lines 42-50: inside each group, every ordered pair of
 * distinct overlapping members is compared, and the member with the shorter
 * span (the first of the pair, when the spans are equal) is spliced out with
 * the group's list.
 */
module Overlaps {
  import opened Markables
  import opened Chains
  import opened Splicing

  /** Lines 47-50: the member spliced when `mark1 = x` meets `mark2 = y`. */
  function Loser(ms: seq<Markable>, x: nat, y: nat): nat
    requires x < |ms| && y < |ms|
  {
    if Span(ms[x]) > Span(ms[y]) then y else x
  }

  /** Lines 45-50 for one pair: what is spliced, if anything. */
  function Compare(ms: seq<Markable>, x: nat, y: nat): seq<nat>
    requires x < |ms| && y < |ms|
  {
    if x != y && MarkablesOverlap(ms[x], ms[y]) then [Loser(ms, x, y)] else []
  }

  /** A comparison reads the spans and positions of the two markables only. */
  lemma CompareSameMentions(ms: seq<Markable>, ms': seq<Markable>, x: nat, y: nat)
    requires SameMentions(ms, ms') && x < |ms| && y < |ms|
    ensures Compare(ms, x, y) == Compare(ms', x, y)
  {
    assert SameMention(ms[x], ms'[x]) && SameMention(ms[y], ms'[y]);
  }

  /** What is spliced while `mark1 = g[a]` meets `mark2 = g[0..b]`. */
  function Row(ms: seq<Markable>, g: seq<nat>, a: nat, b: nat): seq<nat>
    requires InArena(g, |ms|) && a < |g| && b <= |g|
  {
    if b == 0 then [] else Row(ms, g, a, b - 1) + Compare(ms, g[a], g[b - 1])
  }

  /** What is spliced while `mark1` runs over `g[0..a]`, in order. */
  function Victims(ms: seq<Markable>, g: seq<nat>, a: nat): seq<nat>
    requires InArena(g, |ms|) && a <= |g|
  {
    if a == 0 then [] else Victims(ms, g, a - 1) + FullRow(ms, g, a - 1)
  }

  /** What is spliced while `mark1 = g[a]` meets every member of `g`. */
  function FullRow(ms: seq<Markable>, g: seq<nat>, a: nat): seq<nat>
    requires InArena(g, |ms|) && a < |g|
  {
    Row(ms, g, a, |g|)
  }

  /** Every comparison splices a member of the group. */
  lemma {:induction false} RowIn(ms: seq<Markable>, g: seq<nat>, a: nat, b: nat)
    requires InArena(g, |ms|) && a < |g| && b <= |g|
    ensures InArena(Row(ms, g, a, b), |ms|)
  {
    if b > 0 {
      RowIn(ms, g, a, b - 1);
    }
  }

  lemma {:induction false} VictimsIn(ms: seq<Markable>, g: seq<nat>, a: nat)
    requires InArena(g, |ms|) && a <= |g|
    ensures InArena(Victims(ms, g, a), |ms|)
  {
    if a > 0 {
      VictimsIn(ms, g, a - 1);
      RowIn(ms, g, a - 1, |g|);
    }
  }

  /** `x` meets another member of `g` that overlaps it with a span at least as long. */
  predicate Loses(ms: seq<Markable>, g: seq<nat>, x: nat)
    requires InArena(g, |ms|) && x < |ms|
  {
    exists b :: 0 <= b < |g| && g[b] != x && MarkablesOverlap(ms[x], ms[g[b]]) && Span(ms[g[b]]) >= Span(ms[x])
  }

  /** The spliced member of one comparison. */
  lemma CompareLoser(ms: seq<Markable>, g: seq<nat>, p: nat, c: nat, x: nat)
    requires InArena(g, |ms|) && p < |g| && c < |g| && x in Compare(ms, g[p], g[c])
    ensures x in g && Loses(ms, g, x)
  {
    if Span(ms[g[p]]) > Span(ms[g[c]]) {
      assert x == g[c] && g[p] != x && MarkablesOverlap(ms[x], ms[g[p]]);
    } else {
      assert x == g[p] && g[c] != x && MarkablesOverlap(ms[x], ms[g[c]]);
    }
  }

  lemma {:induction false} RowSound(ms: seq<Markable>, g: seq<nat>, a: nat, b: nat, x: nat)
    requires InArena(g, |ms|) && a < |g| && b <= |g| && x in Row(ms, g, a, b)
    ensures x in g && Loses(ms, g, x)
  {
    if b > 0 {
      var front, cmp := Row(ms, g, a, b - 1), Compare(ms, g[a], g[b - 1]);
      assert Row(ms, g, a, b) == front + cmp;
      if x in front {
        RowSound(ms, g, a, b - 1, x);
      } else {
        assert x in cmp;
        CompareLoser(ms, g, a, b - 1, x);
      }
    }
  }

  lemma {:induction false} VictimsSound(ms: seq<Markable>, g: seq<nat>, a: nat, x: nat)
    requires InArena(g, |ms|) && a <= |g| && x in Victims(ms, g, a)
    ensures x in g && Loses(ms, g, x)
  {
    if a > 0 {
      if x in Victims(ms, g, a - 1) {
        VictimsSound(ms, g, a - 1, x);
      } else {
        RowSound(ms, g, a - 1, |g|, x);
      }
    }
  }

  lemma {:induction false} RowHas(ms: seq<Markable>, g: seq<nat>, a: nat, b: nat, c: nat, x: nat)
    requires InArena(g, |ms|) && a < |g| && c < b <= |g| && x in Compare(ms, g[a], g[c])
    ensures x in Row(ms, g, a, b)
  {
    var front, cmp := Row(ms, g, a, b - 1), Compare(ms, g[a], g[b - 1]);
    assert Row(ms, g, a, b) == front + cmp;
    if c < b - 1 {
      RowHas(ms, g, a, b - 1, c, x);
      assert x in front;
    } else {
      assert x in cmp;
    }
  }

  lemma {:induction false} VictimsHas(ms: seq<Markable>, g: seq<nat>, a: nat, p: nat, x: nat)
    requires InArena(g, |ms|) && p < a <= |g| && x in FullRow(ms, g, p)
    ensures x in Victims(ms, g, a)
  {
    if p < a - 1 {
      VictimsHas(ms, g, a - 1, p, x);
    }
  }

  /** Only members of `g` are ever spliced by the pass over `g`. */
  lemma VictimsInGroup(ms: seq<Markable>, g: seq<nat>)
    requires InArena(g, |ms|)
    ensures forall x :: x in Victims(ms, g, |g|) ==> x in g
    ensures InArena(Victims(ms, g, |g|), |ms|)
  {
    var vs := Victims(ms, g, |g|);
    forall x | x in vs ensures x in g {
      VictimsSound(ms, g, |g|, x);
    }
    forall i | 0 <= i < |vs| ensures vs[i] < |ms| {
      assert vs[i] in vs;
    }
  }

  lemma VictimIsLoser(ms: seq<Markable>, g: seq<nat>, x: nat)
    requires InArena(g, |ms|) && x < |ms| && x in Victims(ms, g, |g|)
    ensures x in g && Loses(ms, g, x)
  {
    VictimsSound(ms, g, |g|, x);
  }

  lemma LoserIsVictim(ms: seq<Markable>, g: seq<nat>, x: nat)
    requires InArena(g, |ms|) && x < |ms| && x in g && Loses(ms, g, x)
    ensures x in Victims(ms, g, |g|)
  {
    var t :| 0 <= t < |g| && g[t] == x;
    var b :| 0 <= b < |g| && g[b] != x && MarkablesOverlap(ms[x], ms[g[b]]) && Span(ms[g[b]]) >= Span(ms[x]);
    assert x in Compare(ms, g[t], g[b]);
    RowHas(ms, g, t, |g|, b, x);
    VictimsHas(ms, g, |g|, t, x);
  }

  /** A member is spliced by the pass over its group exactly when it meets a
      distinct overlapping member whose span is at least as long: the strictly
      longer member of a pair survives, and on equal spans both are spliced. */
  lemma VictimsCharacterized(ms: seq<Markable>, g: seq<nat>)
    requires InArena(g, |ms|)
    ensures forall x :: 0 <= x < |ms| ==> (x in Victims(ms, g, |g|) <==> x in g && Loses(ms, g, x))
  {
    forall x | 0 <= x < |ms|
      ensures x in Victims(ms, g, |g|) <==> x in g && Loses(ms, g, x)
    {
      if x in Victims(ms, g, |g|) {
        VictimIsLoser(ms, g, x);
      }
      if x in g && Loses(ms, g, x) {
        LoserIsVictim(ms, g, x);
      }
    }
  }

  /** Two overlapping members with spans of equal length are both spliced. */
  lemma TieRemovesBoth(ms: seq<Markable>, g: seq<nat>, a: nat, b: nat)
    requires InArena(g, |ms|) && a < |g| && b < |g| && g[a] != g[b]
    requires MarkablesOverlap(ms[g[a]], ms[g[b]]) && Span(ms[g[a]]) == Span(ms[g[b]])
    ensures g[a] in Victims(ms, g, |g|) && g[b] in Victims(ms, g, |g|)
  {
    VictimsCharacterized(ms, g);
    assert Loses(ms, g, g[a]);
    assert Loses(ms, g, g[b]);
  }

  /** Lines 42-50 for the first `p` groups of `idx.order`. */
  function OverlapGroups(ms: seq<Markable>, idx: GroupIndex, p: nat): (r: seq<Markable>)
    requires Parsed(ms) && ListsIn(idx, |ms|) && p <= |idx.order|
    ensures SameMentions(ms, r) && Parsed(r)
    ensures Closed(ms) ==> Closed(r)
  {
    if p == 0 then ms
    else
      var cur := OverlapGroups(ms, idx, p - 1);
      var g := Members(idx, idx.order[p - 1]);
      MembersIn(idx, |ms|, idx.order[p - 1]);
      VictimsInGroup(cur, g);
      SameMentionsTrans(ms, cur, SpliceIn(cur, g, Victims(cur, g, |g|)));
      SpliceIn(cur, g, Victims(cur, g, |g|))
  }

  /** `x` is listed in the group `idx.order[q]` and loses there. */
  predicate LosesAt(ms: seq<Markable>, idx: GroupIndex, q: nat, x: nat)
    requires ListsIn(idx, |ms|) && q < |idx.order| && x < |ms|
  {
    MembersIn(idx, |ms|, idx.order[q]);
    x in Members(idx, idx.order[q]) && Loses(ms, Members(idx, idx.order[q]), x)
  }

  /** `x` loses in one of the first `p` groups it is listed in. */
  predicate LosesIn(ms: seq<Markable>, idx: GroupIndex, p: nat, x: nat)
    requires ListsIn(idx, |ms|) && p <= |idx.order| && x < |ms|
  {
    exists q :: 0 <= q < p && LosesAt(ms, idx, q, x)
  }

  /** The comparisons only read spans, which splicing never changes. */
  lemma LosesSameMentions(ms: seq<Markable>, ms': seq<Markable>, g: seq<nat>, x: nat)
    requires SameMentions(ms, ms') && InArena(g, |ms|) && x < |ms|
    ensures Loses(ms, g, x) == Loses(ms', g, x)
  {
    assert forall y :: 0 <= y < |ms| ==> ms[y].mention.start == ms'[y].mention.start && ms[y].mention.end == ms'[y].mention.end;
  }

  /** One more group: `x` has lost in the first `p` groups when it lost in the
      first `p - 1` or loses in group `p - 1`, as the arena stands before it. */
  lemma LosesInStep(ms: seq<Markable>, cur: seq<Markable>, idx: GroupIndex, p: nat, x: nat)
    requires SameMentions(ms, cur) && ListsIn(idx, |ms|) && 0 < p <= |idx.order| && x < |ms|
    requires InArena(Members(idx, idx.order[p - 1]), |ms|)
    ensures LosesIn(ms, idx, p, x) <==>
      LosesIn(ms, idx, p - 1, x) || (x in Members(idx, idx.order[p - 1]) && Loses(cur, Members(idx, idx.order[p - 1]), x))
  {
    var g := Members(idx, idx.order[p - 1]);
    MembersIn(idx, |ms|, idx.order[p - 1]);
    LosesSameMentions(ms, cur, g, x);
    if LosesIn(ms, idx, p, x) && !LosesAt(ms, idx, p - 1, x) {
      var q :| 0 <= q < p && LosesAt(ms, idx, q, x);
      assert LosesIn(ms, idx, p - 1, x);
    }
    if x in g && Loses(cur, g, x) {
      assert LosesAt(ms, idx, p - 1, x);
    }
  }

  lemma OverlapStepId(ms: seq<Markable>, idx: GroupIndex, p: nat, x: nat)
    requires Parsed(ms) && ListsIn(idx, |ms|) && 0 < p <= |idx.order| && x < |ms|
    requires OverlapGroups(ms, idx, p - 1)[x].id == if LosesIn(ms, idx, p - 1, x) then Inactive else ms[x].id
    ensures OverlapGroups(ms, idx, p)[x].id == if LosesIn(ms, idx, p, x) then Inactive else ms[x].id
  {
    var cur := OverlapGroups(ms, idx, p - 1);
    var g := Members(idx, idx.order[p - 1]);
    MembersIn(idx, |ms|, idx.order[p - 1]);
    VictimsInGroup(cur, g);
    SpliceInIds(cur, g, Victims(cur, g, |g|));
    VictimsCharacterized(cur, g);
    LosesInStep(ms, cur, idx, p, x);
  }

  /** After the overlap pass over the first `p` groups, a markable is inactive
      exactly when it lost in one of them or was inactive before. */
  lemma {:induction false} OverlapGroupsIds(ms: seq<Markable>, idx: GroupIndex, p: nat)
    requires Parsed(ms) && ListsIn(idx, |ms|) && p <= |idx.order|
    ensures forall x :: 0 <= x < |ms| ==>
      OverlapGroups(ms, idx, p)[x].id == if LosesIn(ms, idx, p, x) then Inactive else ms[x].id
  {
    if p > 0 {
      OverlapGroupsIds(ms, idx, p - 1);
      forall x | 0 <= x < |ms|
        ensures OverlapGroups(ms, idx, p)[x].id == if LosesIn(ms, idx, p, x) then Inactive else ms[x].id
      {
        OverlapStepId(ms, idx, p, x);
      }
    }
  }

  /** No two active members of one group overlap after the pass. */
  lemma NoActiveOverlap(ms: seq<Markable>, idx: GroupIndex, q: nat, x: nat, y: nat)
    requires Parsed(ms) && ListsIn(idx, |ms|) && q < |idx.order|
    requires x in Members(idx, idx.order[q]) && y in Members(idx, idx.order[q]) && x != y
    requires MarkablesOverlap(ms[x], ms[y])
    ensures var r := OverlapGroups(ms, idx, |idx.order|);
      !(Active(r[x]) && Active(r[y]))
  {
    var g := Members(idx, idx.order[q]);
    MembersIn(idx, |ms|, idx.order[q]);
    OverlapGroupsIds(ms, idx, |idx.order|);
    var b :| 0 <= b < |g| && g[b] == y;
    var a :| 0 <= a < |g| && g[a] == x;
    if Span(ms[y]) >= Span(ms[x]) {
      assert Loses(ms, g, x);
      assert LosesAt(ms, idx, q, x);
    } else {
      assert Loses(ms, g, y);
      assert LosesAt(ms, idx, q, y);
    }
  }
}
