/**
 * `splice_out(mark, group)`: the shared removal primitive (reference
 * definition `Splice`), and the two ways the pass applies it repeatedly:
 * with one fixed group list (overlap pass) and with the list of the spliced
 * markable's current group (filters).
 */
module Splicing {
  import opened Markables
  import opened Chains

  /** The ids `splice_out` parses (the mark's and every member's) are numeric. */
  predicate IdsParse(ms: seq<Markable>, g: seq<nat>) {
    InArena(g, |ms|) && forall i :: 0 <= i < |g| ==> ms[g[i]].id.Ref?
  }

  predicate SpliceReady(ms: seq<Markable>, m: nat, g: seq<nat>) {
    m < |ms| && ms[m].id.Ref? && IdsParse(ms, g)
  }

  /** The value of `min_id` after the scan of lines 110-115 over `g`: 0 means
      "not yet set", and a member is skipped when its id equals the mark's. */
  function MinIdScan(ms: seq<Markable>, g: seq<nat>, markId: Ident): nat
    requires IdsParse(ms, g)
  {
    if g == [] then 0
    else
      var acc := MinIdScan(ms, g[..|g| - 1], markId);
      var member := ms[g[|g| - 1]];
      if (acc == 0 || acc > member.id.n) && member.id != markId then member.id.n else acc
  }

  /** The arena after `splice_out(ms[m], g)`. */
  function Splice(ms: seq<Markable>, m: nat, g: seq<nat>): (r: seq<Markable>)
    requires SpliceReady(ms, m, g)
    ensures |r| == |ms|
  {
    var markId := ms[m].id.n;
    var minId := MinIdScan(ms, g, ms[m].id);
    var renumberSelf := markId != ms[m].group;
    seq(|ms|, i requires 0 <= i < |ms| =>
      if i == m then
        ms[m].(id := Inactive, antecedent := None, group := if renumberSelf then markId else ms[m].group)
      else
        ms[i].(antecedent := if i in g && ms[i].antecedent == Some(m) then ms[m].antecedent else ms[i].antecedent,
               group := if !renumberSelf && i in g then minId else ms[i].group))
  }

  /** Splicing changes links, groups and ids only; every id stays numeric
      and every link stays inside the arena. */
  lemma SpliceKeeps(ms: seq<Markable>, m: nat, g: seq<nat>)
    requires SpliceReady(ms, m, g)
    ensures var r := Splice(ms, m, g);
      && SameMentions(ms, r)
      && (Parsed(ms) ==> Parsed(r))
      && (Closed(ms) ==> Closed(r))
  {
    var r := Splice(ms, m, g);
    forall i | 0 <= i < |ms|
      ensures SameMention(ms[i], r[i])
      ensures ms[i].id.Ref? ==> r[i].id.Ref?
      ensures Closed(ms) ==> r[i].antecedent.Some? ==> r[i].antecedent.value < |r|
    {
      if Closed(ms) && i != m && i in g && ms[i].antecedent == Some(m) {
        assert ms[m].antecedent.Some? ==> ms[m].antecedent.value < |ms|;
      }
    }
  }

  /** Lines 110-112 and 116: the chain is not broken, only shortened. */
  lemma SpliceRelinks(ms: seq<Markable>, m: nat, g: seq<nat>)
    requires SpliceReady(ms, m, g)
    ensures var r := Splice(ms, m, g);
      && r[m].antecedent == None
      && (forall x :: 0 <= x < |ms| && x != m && x in g && ms[x].antecedent == Some(m) ==>
            r[x].antecedent == ms[m].antecedent)
      && (forall x :: 0 <= x < |ms| && x != m && (x !in g || ms[x].antecedent != Some(m)) ==>
            r[x].antecedent == ms[x].antecedent)
  {
  }

  /** Line 123: only the spliced markable is deactivated. */
  lemma SpliceDeactivates(ms: seq<Markable>, m: nat, g: seq<nat>)
    requires SpliceReady(ms, m, g)
    ensures var r := Splice(ms, m, g);
      forall x :: 0 <= x < |ms| ==> r[x].id == if x == m then Inactive else ms[x].id
  {
  }

  /** Lines 117-122: either the mark alone is renumbered to its own id, or every
      other member of the list is renumbered to `min_id`. */
  lemma SpliceRenumbers(ms: seq<Markable>, m: nat, g: seq<nat>)
    requires SpliceReady(ms, m, g)
    ensures var r := Splice(ms, m, g);
      if ms[m].id.n != ms[m].group then
        r[m].group == ms[m].id.n && forall x :: 0 <= x < |ms| && x != m ==> r[x].group == ms[x].group
      else
        r[m].group == ms[m].group &&
        forall x :: 0 <= x < |ms| && x != m ==>
          r[x].group == if x in g then MinIdScan(ms, g, ms[m].id) else ms[x].group
  {
  }

  /** When no member other than the mark holds id 0, `MinIdScan` is the
      smallest id among the members whose id differs from the mark's, and 0
      exactly when there is no such member. */
  lemma {:induction false} MinIdScanIsMinimum(ms: seq<Markable>, g: seq<nat>, markId: Ident)
    requires IdsParse(ms, g)
    requires forall i :: 0 <= i < |g| && ms[g[i]].id != markId ==> ms[g[i]].id != Inactive
    ensures var r := MinIdScan(ms, g, markId);
      && (r == 0 <==> forall i :: 0 <= i < |g| ==> ms[g[i]].id == markId)
      && (r != 0 ==> exists i :: 0 <= i < |g| && ms[g[i]].id == Ref(r) && Ref(r) != markId)
      && (forall i :: 0 <= i < |g| && ms[g[i]].id != markId ==> r <= ms[g[i]].id.n)
  {
    if g != [] {
      var init := g[..|g| - 1];
      assert forall i :: 0 <= i < |init| ==> init[i] == g[i];
      MinIdScanIsMinimum(ms, init, markId);
      var r0 := MinIdScan(ms, init, markId);
      if r0 != 0 {
        var i0 :| 0 <= i0 < |init| && ms[init[i0]].id == Ref(r0) && Ref(r0) != markId;
        assert ms[g[i0]].id == Ref(r0);
      }
    }
  }

  /** The as-written scan treats a deactivated member (id 0) as "not yet set":
      for the ids 5, 0, 7 (mark id 9) it yields 7, not the smallest live id 5. */
  lemma MinIdScanAfterInactive(ms: seq<Markable>)
    requires |ms| == 3 && ms[0].id == Ref(5) && ms[1].id == Inactive && ms[2].id == Ref(7)
    ensures MinIdScan(ms, [0, 1, 2], Ref(9)) == 7
  {
    assert [0, 1, 2][..2] == [0, 1];
    assert [0, 1][..1] == [0];
    assert [0][..0] == [];
  }

  /** When the mark is already inactive (a second splice of the same
      markable), members with id 0 are skipped like the mark, so nothing
      resets the scan: `min_id` is the smallest active id, 0 iff there is none. */
  lemma MinIdScanInactiveMark(ms: seq<Markable>, g: seq<nat>)
    requires IdsParse(ms, g)
    ensures var r := MinIdScan(ms, g, Inactive);
      && (r == 0 <==> forall i :: 0 <= i < |g| ==> !Active(ms[g[i]]))
      && (r != 0 ==> exists i :: 0 <= i < |g| && Active(ms[g[i]]) && ms[g[i]].id == Ref(r))
      && (forall i :: 0 <= i < |g| && Active(ms[g[i]]) ==> r <= ms[g[i]].id.n)
  {
    MinIdScanIsMinimum(ms, g, Inactive);
  }

  /** A deactivated member other than the mark restarts the scan: `min_id`
      is whatever the members after it yield. */
  lemma {:induction false} MinIdScanRestarts(ms: seq<Markable>, g: seq<nat>, markId: Ident, j: nat)
    requires IdsParse(ms, g) && j < |g| && ms[g[j]].id == Inactive && markId != Inactive
    ensures IdsParse(ms, g[j + 1..])
    ensures MinIdScan(ms, g, markId) == MinIdScan(ms, g[j + 1..], markId)
  {
    var init := g[..|g| - 1];
    assert forall i :: 0 <= i < |init| ==> init[i] == g[i];
    if j < |g| - 1 {
      MinIdScanRestarts(ms, init, markId, j);
      var tail := g[j + 1..];
      assert tail[..|tail| - 1] == init[j + 1..];
      assert tail[|tail| - 1] == g[|g| - 1];
    }
  }

  /** The general `min_id`: with `j` the last member other than the mark
      that is already deactivated, `min_id` is the smallest id among the
      members after `j` whose id differs from the mark's, and 0 when there is
      none (in particular when `j` is the last member). */
  lemma MinIdScanAfterLast(ms: seq<Markable>, g: seq<nat>, markId: Ident, j: nat)
    requires IdsParse(ms, g) && j < |g| && ms[g[j]].id == Inactive && markId != Inactive
    requires forall i :: j < i < |g| && ms[g[i]].id != markId ==> ms[g[i]].id != Inactive
    ensures var r := MinIdScan(ms, g, markId);
      && (r == 0 <==> forall i :: j < i < |g| ==> ms[g[i]].id == markId)
      && (r != 0 ==> exists i :: j < i < |g| && ms[g[i]].id == Ref(r) && Ref(r) != markId)
      && (forall i :: j < i < |g| && ms[g[i]].id != markId ==> r <= ms[g[i]].id.n)
  {
    MinIdScanRestarts(ms, g, markId, j);
    var tail := g[j + 1..];
    assert forall i :: j < i < |g| ==> g[i] == tail[i - j - 1];
    MinIdScanIsMinimum(ms, tail, markId);
    var r := MinIdScan(ms, g, markId);
    if r != 0 {
      var k :| 0 <= k < |tail| && ms[tail[k]].id == Ref(r) && Ref(r) != markId;
      assert ms[g[k + j + 1]].id == Ref(r);
    }
    forall i | j < i < |g| && ms[g[i]].id != markId ensures r <= ms[g[i]].id.n {
      assert ms[tail[i - j - 1]].id != markId;
    }
  }

  /** As written, `splice_out` can give live markables the group 0, which is
      no live markable's id: with the list [A, B, C] of ids 5, 7 and 0 and
      groups 5, 5 and 5, splicing A out (whose id equals its group) scans B
      (`min_id` 7) and then C (`min_id` reset to 0), so B stays active with
      group 0. */
  lemma SpliceGroupZero(ms: seq<Markable>)
    requires |ms| == 3 && ms[0].id == Ref(5) && ms[1].id == Ref(7) && ms[2].id == Inactive
    requires ms[0].group == 5
    ensures var r := Splice(ms, 0, [0, 1, 2]);
      && Active(r[1]) && r[1].group == 0
      && forall i :: 0 <= i < 3 && Active(r[i]) ==> r[i].id != Ref(r[1].group)
  {
    assert [0, 1, 2][..2] == [0, 1];
    assert [0, 1][..1] == [0];
    assert [0][..0] == [];
    assert MinIdScan(ms, [0, 1, 2], Ref(5)) == 0;
  }

  /** The scan as evidently intended: the smallest id among the members that
      are still active and differ from the mark, 0 when there is none. */
  function MinLiveScan(ms: seq<Markable>, g: seq<nat>, markId: Ident): nat
    requires IdsParse(ms, g)
  {
    if g == [] then 0
    else
      var acc := MinLiveScan(ms, g[..|g| - 1], markId);
      var member := ms[g[|g| - 1]];
      if (acc == 0 || acc > member.id.n) && member.id != markId && member.id != Inactive then member.id.n else acc
  }

  /** `MinLiveScan` is the smallest live id other than the mark's, over any
      list, whatever members were deactivated before. */
  lemma {:induction false} MinLiveScanIsMinimum(ms: seq<Markable>, g: seq<nat>, markId: Ident)
    requires IdsParse(ms, g)
    ensures var r := MinLiveScan(ms, g, markId);
      && (r == 0 <==> forall i :: 0 <= i < |g| ==> ms[g[i]].id == markId || ms[g[i]].id == Inactive)
      && (r != 0 ==> exists i :: 0 <= i < |g| && ms[g[i]].id == Ref(r) && Ref(r) != markId)
      && (forall i :: 0 <= i < |g| && ms[g[i]].id != markId && ms[g[i]].id != Inactive ==> r <= ms[g[i]].id.n)
  {
    if g != [] {
      var init := g[..|g| - 1];
      assert forall i :: 0 <= i < |init| ==> init[i] == g[i];
      MinLiveScanIsMinimum(ms, init, markId);
      var r0 := MinLiveScan(ms, init, markId);
      if r0 != 0 {
        var i0 :| 0 <= i0 < |init| && ms[init[i0]].id == Ref(r0) && Ref(r0) != markId;
        assert ms[g[i0]].id == Ref(r0);
      }
    }
  }

  /** `splice_out` with the intended scan: `Splice` with `MinLiveScan` in
      place of `MinIdScan`. */
  function SpliceLive(ms: seq<Markable>, m: nat, g: seq<nat>): (r: seq<Markable>)
    requires SpliceReady(ms, m, g)
    ensures |r| == |ms|
  {
    var markId := ms[m].id.n;
    var minId := MinLiveScan(ms, g, ms[m].id);
    var renumberSelf := markId != ms[m].group;
    seq(|ms|, i requires 0 <= i < |ms| =>
      if i == m then
        ms[m].(id := Inactive, antecedent := None, group := if renumberSelf then markId else ms[m].group)
      else
        ms[i].(antecedent := if i in g && ms[i].antecedent == Some(m) then ms[m].antecedent else ms[i].antecedent,
               group := if !renumberSelf && i in g then minId else ms[i].group))
  }

  /** With the intended scan, a group renumbered by `splice_out` is never
      orphaned: when some other member of the list is still active under an
      id other than the mark's, every other member's new group is the id of
      a member of the list that is still active afterwards. */
  lemma SpliceLiveGroupValid(ms: seq<Markable>, m: nat, g: seq<nat>)
    requires SpliceReady(ms, m, g) && ms[m].id.n == ms[m].group
    requires exists k :: 0 <= k < |g| && ms[g[k]].id != ms[m].id && Active(ms[g[k]])
    ensures var r := SpliceLive(ms, m, g);
      forall y :: 0 <= y < |ms| && y != m && y in g ==>
        exists k :: 0 <= k < |g| && Active(r[g[k]]) && r[g[k]].id == Ref(r[y].group)
  {
    var markId := ms[m].id;
    MinLiveScanIsMinimum(ms, g, markId);
    var minId := MinLiveScan(ms, g, markId);
    var r := SpliceLive(ms, m, g);
    assert minId != 0;
    var k :| 0 <= k < |g| && ms[g[k]].id == Ref(minId) && Ref(minId) != markId;
    assert g[k] != m;
    assert r[g[k]].id == Ref(minId);
    forall y | 0 <= y < |ms| && y != m && y in g
      ensures exists k :: 0 <= k < |g| && Active(r[g[k]]) && r[g[k]].id == Ref(r[y].group)
    {
      assert r[y].group == minId;
    }
  }

  /** `splice_out(v, g)` for every `v` of `vs` in turn, with the one list `g`. */
  function SpliceIn(ms: seq<Markable>, g: seq<nat>, vs: seq<nat>): (r: seq<Markable>)
    requires Parsed(ms) && InArena(g, |ms|) && InArena(vs, |ms|)
    ensures SameMentions(ms, r) && Parsed(r)
    ensures Closed(ms) ==> Closed(r)
  {
    if vs == [] then ms
    else
      var cur := SpliceIn(ms, g, vs[..|vs| - 1]);
      SpliceKeeps(cur, vs[|vs| - 1], g);
      SameMentionsTrans(ms, cur, Splice(cur, vs[|vs| - 1], g));
      Splice(cur, vs[|vs| - 1], g)
  }

  /** One more splice with the list `g`. */
  lemma SpliceInSnoc(ms: seq<Markable>, g: seq<nat>, vs: seq<nat>, w: nat)
    requires Parsed(ms) && InArena(g, |ms|) && InArena(vs, |ms|) && w < |ms|
    ensures InArena(vs + [w], |ms|)
    ensures SpliceIn(ms, g, vs + [w]) == Splice(SpliceIn(ms, g, vs), w, g)
  {
    assert (vs + [w])[..|vs|] == vs;
  }

  /** After `SpliceIn`, exactly the spliced markables are deactivated (or were already). */
  lemma {:induction false} SpliceInIds(ms: seq<Markable>, g: seq<nat>, vs: seq<nat>)
    requires Parsed(ms) && InArena(g, |ms|) && InArena(vs, |ms|)
    ensures forall x :: 0 <= x < |ms| ==> SpliceIn(ms, g, vs)[x].id == if x in vs then Inactive else ms[x].id
  {
    if vs != [] {
      var init := vs[..|vs| - 1];
      assert vs == init + [vs[|vs| - 1]];
      SpliceInIds(ms, g, init);
      SpliceDeactivates(SpliceIn(ms, g, init), vs[|vs| - 1], g);
    }
  }

  /** `splice_out(v, marks_by_group[v.group])` for every `v` of `vs` in turn,
      reading `v.group` when `v`'s turn comes. */
  function SpliceOwn(ms: seq<Markable>, idx: GroupIndex, vs: seq<nat>): (r: seq<Markable>)
    requires Parsed(ms) && ListsIn(idx, |ms|) && InArena(vs, |ms|)
    ensures SameMentions(ms, r) && Parsed(r)
    ensures Closed(ms) ==> Closed(r)
  {
    if vs == [] then ms
    else
      var cur := SpliceOwn(ms, idx, vs[..|vs| - 1]);
      var v := vs[|vs| - 1];
      MembersIn(idx, |ms|, cur[v].group);
      SpliceKeeps(cur, v, Members(idx, cur[v].group));
      SameMentionsTrans(ms, cur, Splice(cur, v, Members(idx, cur[v].group)));
      Splice(cur, v, Members(idx, cur[v].group))
  }

  /** One more splice with the list of the spliced markable's current group. */
  lemma SpliceOwnSnoc(ms: seq<Markable>, idx: GroupIndex, vs: seq<nat>, w: nat)
    requires Parsed(ms) && ListsIn(idx, |ms|) && InArena(vs, |ms|) && w < |ms|
    ensures InArena(vs + [w], |ms|)
    ensures var cur := SpliceOwn(ms, idx, vs);
      (MembersIn(idx, |ms|, cur[w].group);
       SpliceOwn(ms, idx, vs + [w]) == Splice(cur, w, Members(idx, cur[w].group)))
  {
    assert (vs + [w])[..|vs|] == vs;
  }

  lemma {:induction false} SpliceOwnIds(ms: seq<Markable>, idx: GroupIndex, vs: seq<nat>)
    requires Parsed(ms) && ListsIn(idx, |ms|) && InArena(vs, |ms|)
    ensures forall x :: 0 <= x < |ms| ==> SpliceOwn(ms, idx, vs)[x].id == if x in vs then Inactive else ms[x].id
  {
    if vs != [] {
      var init := vs[..|vs| - 1];
      var v := vs[|vs| - 1];
      assert vs == init + [v];
      SpliceOwnIds(ms, idx, init);
      var cur := SpliceOwn(ms, idx, init);
      MembersIn(idx, |ms|, cur[v].group);
      SpliceDeactivates(cur, v, Members(idx, cur[v].group));
    }
  }
}
