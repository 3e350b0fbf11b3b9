/**
 * `postprocess_coref` and `splice_out` as the source writes them: a document
 * object whose markable list and lookup tables are updated in place, pass by
 * pass, each pass proved to leave exactly the state its reference definition
 * describes.
 */
module Postprocess {
  import opened Markables
  import opened Chains
  import opened Splicing
  import opened Filters
  import opened Overlaps
  import opened Pruning
  import opened Envelopes

  /** What the removal filters of lines 30-38 leave. */
  function Filtered(cfg: Config, ms: seq<Markable>, idx: GroupIndex): (r: seq<Markable>)
    requires Parsed(ms) && ListsIn(idx, |ms|)
    ensures SameMentions(ms, r) && Parsed(r)
    ensures Closed(ms) ==> Closed(r)
  {
    var ms2 := if |cfg.headPattern| > 0 then SpliceOwn(ms, idx, HeadTargets(cfg, ms, |ms|)) else ms;
    if |cfg.childPattern| > 0 then SpliceOwn(ms2, idx, ChildTargets(cfg, ms2, |ms2|)) else ms2
  }

  /** What the chain builder, the filters and the overlap pass of lines 21-50 leave. */
  function Rechained(cfg: Config, ms: seq<Markable>, idx: GroupIndex): (r: seq<Markable>)
    requires Parsed(ms) && Closed(ms) && ListsIn(idx, |ms|)
    ensures SameMentions(ms, r) && Parsed(r) && Closed(r)
  {
    var ms1 := LinkGroups(ms, idx, |idx.order|);
    LinkGroupsSameButLinks(ms, idx, |idx.order|);
    LinkGroupsClosed(ms, idx, |idx.order|);
    var ms3 := Filtered(cfg, ms1, idx);
    var ms4 := OverlapGroups(ms3, idx, |idx.order|);
    SameMentionsTrans(ms, ms1, ms3);
    SameMentionsTrans(ms, ms3, ms4);
    ms4
  }

  /** What the deactivation passes of lines 53-74 leave. */
  function Deactivated(cfg: Config, ms: seq<Markable>, idx: GroupIndex): (r: seq<Markable>)
    requires Closed(ms) && ListsIn(idx, |ms|)
    ensures SameButId(ms, r) && Closed(r)
  {
    var ms5 := if cfg.removeCataphora then Uncata(ms, |ms|) else ms;
    SameButIdMentions(ms, ms5);
    var ms6 := if cfg.removeSingletons then PruneGroups(ms5, idx, |idx.order|) else ms5;
    SameButIdMentions(ms5, ms6);
    SameButIdTrans(ms, ms5, ms6);
    ms6
  }

  /** What the whole of lines 13-104 leaves, pass by pass; `marks_by_group`
      is built once, before the chains are linked, and never pruned. */
  function Postprocessed(cfg: Config, d: Doc): (r: Doc)
    requires Parsed(d.marks) && Closed(d.marks)
  {
    var ms0 := d.marks;
    var idx := Index(ms0, |ms0|);
    IndexIsIndexOf(ms0, |ms0|);
    IndexOfBounded(idx, ms0);
    var ms4 := Rechained(cfg, ms0, idx);
    var d6 := Doc(Deactivated(cfg, ms4, idx), d.markStart, d.markEnd, d.markByHead);
    if cfg.addApposEnvelopes then EnvGroups(d6, idx, |idx.order|) else d6
  }

  /** `b` is `a` with some markables deactivated and links and groups possibly
      changed: every mention stays, and an id either stays or becomes "0". */
  predicate Retires(a: seq<Markable>, b: seq<Markable>) {
    SameMentions(a, b) && forall i :: 0 <= i < |a| ==> b[i].id == a[i].id || b[i].id == Inactive
  }

  lemma RetiresTrans(a: seq<Markable>, b: seq<Markable>, c: seq<Markable>)
    requires Retires(a, b) && Retires(b, c)
    ensures Retires(a, c)
  {
  }

  lemma SpliceOwnRetires(ms: seq<Markable>, idx: GroupIndex, vs: seq<nat>)
    requires Parsed(ms) && ListsIn(idx, |ms|) && InArena(vs, |ms|)
    ensures Retires(ms, SpliceOwn(ms, idx, vs))
  {
    SpliceOwnIds(ms, idx, vs);
  }

  /** The filters only deactivate markables. */
  lemma FilteredRetires(cfg: Config, ms: seq<Markable>, idx: GroupIndex)
    requires Parsed(ms) && ListsIn(idx, |ms|)
    ensures Retires(ms, Filtered(cfg, ms, idx))
  {
    var ms2 := if |cfg.headPattern| > 0 then SpliceOwn(ms, idx, HeadTargets(cfg, ms, |ms|)) else ms;
    if |cfg.headPattern| > 0 {
      SpliceOwnRetires(ms, idx, HeadTargets(cfg, ms, |ms|));
    }
    if |cfg.childPattern| > 0 {
      SpliceOwnRetires(ms2, idx, ChildTargets(cfg, ms2, |ms2|));
      RetiresTrans(ms, ms2, Filtered(cfg, ms, idx));
    }
  }

  /** Linking, filtering and the overlap pass keep every mention; a markable
      they touch is deactivated, never reactivated or renumbered. */
  lemma RechainedRetires(cfg: Config, ms: seq<Markable>, idx: GroupIndex)
    requires Parsed(ms) && Closed(ms) && ListsIn(idx, |ms|)
    ensures Retires(ms, Rechained(cfg, ms, idx))
  {
    var ms1 := LinkGroups(ms, idx, |idx.order|);
    LinkGroupsSameButLinks(ms, idx, |idx.order|);
    LinkGroupsClosed(ms, idx, |idx.order|);
    assert Retires(ms, ms1);
    var ms3 := Filtered(cfg, ms1, idx);
    FilteredRetires(cfg, ms1, idx);
    OverlapGroupsIds(ms3, idx, |idx.order|);
    RetiresTrans(ms, ms1, ms3);
    RetiresTrans(ms, ms3, Rechained(cfg, ms, idx));
  }

  /** The deactivation passes change ids only, and only to "0". */
  lemma DeactivatedRetires(cfg: Config, ms: seq<Markable>, idx: GroupIndex)
    requires Closed(ms) && ListsIn(idx, |ms|)
    ensures Retires(ms, Deactivated(cfg, ms, idx))
  {
    var ms5 := if cfg.removeCataphora then Uncata(ms, |ms|) else ms;
    SameButIdMentions(ms, ms5);
    if cfg.removeSingletons {
      PruneGroupsIds(ms5, idx, |idx.order|);
      SameButIdMentions(ms5, Deactivated(cfg, ms, idx));
      RetiresTrans(ms, ms5, Deactivated(cfg, ms, idx));
    }
  }

  /** Deactivation keeps every mention, so the mention tables stay consistent. */
  lemma RetiresIndexed(d: Doc, ms: seq<Markable>)
    requires Retires(d.marks, ms)
    ensures Indexed(d) ==> Indexed(Doc(ms, d.markStart, d.markEnd, d.markByHead))
  {
    assert forall i :: 0 <= i < |ms| ==> ms[i].mention == d.marks[i].mention;
  }

  /** What the whole of `postprocess_coref` does to the arena and the tables. */
  predicate Outcome(d: Doc, r: Doc) {
    && Closed(r.marks)
    && |d.marks| <= |r.marks|
    && (forall i :: 0 <= i < |d.marks| ==>
          SameMention(d.marks[i], r.marks[i]) && (r.marks[i].id == d.marks[i].id || r.marks[i].id == Inactive))
    && (forall i :: |d.marks| <= i < |r.marks| ==> r.marks[i].id == Env)
    && (Indexed(d) ==> Indexed(r))
  }

  lemma RetiresThenKept(d: Doc, d6: Doc, r: Doc)
    requires Retires(d.marks, d6.marks) && (Indexed(d) ==> Indexed(d6)) && Kept(d6, r)
    ensures Outcome(d, r)
  {
  }

  /** `postprocess_coref` keeps every link inside the arena and keeps the
      tables consistent with it; every original markable keeps its mention
      and either its id or the inactive id "0"; everything appended is an
      envelope, and nothing is appended and no table changes unless
      appositive envelopes are requested. */
  lemma PostprocessedKeeps(cfg: Config, d: Doc)
    requires Parsed(d.marks) && Closed(d.marks)
    ensures Outcome(d, Postprocessed(cfg, d))
    ensures !cfg.addApposEnvelopes ==>
      var r := Postprocessed(cfg, d);
      |r.marks| == |d.marks| && r.markStart == d.markStart && r.markEnd == d.markEnd && r.markByHead == d.markByHead
  {
    var ms0 := d.marks;
    var idx := Index(ms0, |ms0|);
    IndexIsIndexOf(ms0, |ms0|);
    IndexOfBounded(idx, ms0);
    var ms4 := Rechained(cfg, ms0, idx);
    RechainedRetires(cfg, ms0, idx);
    var ms6 := Deactivated(cfg, ms4, idx);
    DeactivatedRetires(cfg, ms4, idx);
    RetiresTrans(ms0, ms4, ms6);
    var d6 := Doc(ms6, d.markStart, d.markEnd, d.markByHead);
    RetiresIndexed(d, ms6);
    if cfg.addApposEnvelopes {
      EnvGroupsPreserve(d6, idx, |idx.order|);
      assert Postprocessed(cfg, d) == EnvGroups(d6, idx, |idx.order|);
      RetiresThenKept(d, d6, Postprocessed(cfg, d));
    } else {
      assert Postprocessed(cfg, d) == d6;
    }
  }

  /** Lines 110-112 over `g[..k]`: members linked to `m` are linked to `m`'s antecedent. */
  function Bypassed(ms: seq<Markable>, m: nat, h: seq<nat>): (r: seq<Markable>)
    requires m < |ms|
    ensures |r| == |ms|
  {
    seq(|ms|, i requires 0 <= i < |ms| =>
      ms[i].(antecedent := if i in h && ms[i].antecedent == Some(m) then ms[m].antecedent else ms[i].antecedent))
  }

  /** Lines 120-122 over `g[..k]`: every member other than `m` takes the group `minId`. */
  function Regrouped(ms: seq<Markable>, m: nat, h: seq<nat>, minId: int): (r: seq<Markable>)
    ensures |r| == |ms|
  {
    seq(|ms|, i requires 0 <= i < |ms| => ms[i].(group := if i in h && i != m then minId else ms[i].group))
  }

  lemma BypassedStep(ms: seq<Markable>, m: nat, g: seq<nat>, k: nat)
    requires m < |ms| && InArena(g, |ms|) && k < |g|
    ensures var b := Bypassed(ms, m, g[..k]);
      && b[g[k]].id == ms[g[k]].id && b[m].id == ms[m].id
      && Bypassed(ms, m, g[..k + 1]) ==
        if b[g[k]].antecedent == Some(m) then b[g[k] := b[g[k]].(antecedent := b[m].antecedent)] else b
  {
    assert g[..k + 1] == g[..k] + [g[k]];
    var b := Bypassed(ms, m, g[..k]);
    var b1 := if b[g[k]].antecedent == Some(m) then b[g[k] := b[g[k]].(antecedent := b[m].antecedent)] else b;
    assert forall i :: 0 <= i < |ms| ==> Bypassed(ms, m, g[..k + 1])[i] == b1[i];
  }

  lemma RegroupedStep(ms: seq<Markable>, m: nat, g: seq<nat>, k: nat, minId: int)
    requires InArena(g, |ms|) && k < |g|
    ensures var b := Regrouped(ms, m, g[..k], minId);
      Regrouped(ms, m, g[..k + 1], minId) == if g[k] != m then b[g[k] := b[g[k]].(group := minId)] else b
  {
    assert g[..k + 1] == g[..k] + [g[k]];
    var b := Regrouped(ms, m, g[..k], minId);
    var b1 := if g[k] != m then b[g[k] := b[g[k]].(group := minId)] else b;
    assert forall i :: 0 <= i < |ms| ==> Regrouped(ms, m, g[..k + 1], minId)[i] == b1[i];
  }

  lemma MinIdScanStep(ms: seq<Markable>, g: seq<nat>, markId: Ident, k: nat)
    requires IdsParse(ms, g) && k < |g|
    ensures IdsParse(ms, g[..k]) && IdsParse(ms, g[..k + 1])
    ensures var acc := MinIdScan(ms, g[..k], markId);
      var member := ms[g[k]];
      MinIdScan(ms, g[..k + 1], markId) == if (acc == 0 || acc > member.id.n) && member.id != markId then member.id.n else acc
  {
    assert g[..k + 1][..k] == g[..k];
  }

  /** The writes of lines 116-123 after both scans give `Splice`. */
  lemma SpliceWrites(ms: seq<Markable>, m: nat, g: seq<nat>)
    requires SpliceReady(ms, m, g)
    ensures var b := Bypassed(ms, m, g);
      var b1 := b[m := b[m].(antecedent := None)];
      var markId := ms[m].id.n;
      var minId := MinIdScan(ms, g, ms[m].id);
      var b2 := if markId != ms[m].group then b1[m := b1[m].(group := markId)] else Regrouped(b1, m, g, minId);
      b2[m := b2[m].(id := Inactive)] == Splice(ms, m, g)
  {
    var b := Bypassed(ms, m, g);
    var b1 := b[m := b[m].(antecedent := None)];
    var markId := ms[m].id.n;
    var minId := MinIdScan(ms, g, ms[m].id);
    var b2 := if markId != ms[m].group then b1[m := b1[m].(group := markId)] else Regrouped(b1, m, g, minId);
    var b3 := b2[m := b2[m].(id := Inactive)];
    var r := Splice(ms, m, g);
    forall i | 0 <= i < |ms| ensures b3[i] == r[i] {
    }
  }

  /** Lines 110-115: the scan of `splice_out` relinks the members linked to
      `m` and computes `min_id`. */
  method BypassScan(ms: seq<Markable>, m: nat, g: seq<nat>) returns (cur: seq<Markable>, minId: nat)
    requires SpliceReady(ms, m, g)
    ensures cur == Bypassed(ms, m, g) && minId == MinIdScan(ms, g, ms[m].id)
  {
    cur := ms;
    minId := 0;
    var k := 0;
    while k < |g|
      invariant 0 <= k <= |g|
      invariant IdsParse(ms, g[..k]) && minId == MinIdScan(ms, g[..k], ms[m].id)
      invariant cur == Bypassed(ms, m, g[..k])
    {
      BypassedStep(ms, m, g, k);
      MinIdScanStep(ms, g, ms[m].id, k);
      var member := g[k];
      if cur[member].antecedent == Some(m) {
        cur := cur[member := cur[member].(antecedent := cur[m].antecedent)];
      }
      var memberId := cur[member].id.n;
      if (minId == 0 || minId > memberId) && cur[member].id != cur[m].id {
        minId := memberId;
      }
      k := k + 1;
    }
    assert g[..|g|] == g;
  }

  /** Lines 120-122: every member of `g` other than `m` takes the group `minId`. */
  method RegroupList(ms: seq<Markable>, m: nat, g: seq<nat>, minId: int) returns (cur: seq<Markable>)
    requires InArena(g, |ms|)
    ensures cur == Regrouped(ms, m, g, minId)
  {
    cur := ms;
    var k := 0;
    while k < |g|
      invariant 0 <= k <= |g|
      invariant cur == Regrouped(ms, m, g[..k], minId)
    {
      RegroupedStep(ms, m, g, k, minId);
      if g[k] != m {
        cur := cur[g[k] := cur[g[k]].(group := minId)];
      }
      k := k + 1;
    }
    assert g[..|g|] == g;
  }

  /** The last non-cataphoric member of `nc`, the `last_mark` of lines 22-27. */
  function LastOf(nc: seq<nat>): Option<nat> {
    if nc == [] then None else Some(nc[|nc| - 1])
  }

  /** Lines 24-27 for `mark = g[j]`. */
  method LinkTurn(ms: seq<Markable>, g: seq<nat>, j: nat, cur: seq<Markable>, lastMark: Option<nat>)
    returns (r: seq<Markable>, last: Option<nat>)
    requires InArena(g, |ms|) && j < |g|
    requires cur == Chain(ms, NonCata(ms, g[..j])) && lastMark == LastOf(NonCata(ms, g[..j]))
    ensures r == Chain(ms, NonCata(ms, g[..j + 1])) && last == LastOf(NonCata(ms, g[..j + 1]))
  {
    var mark := g[j];
    var nc := NonCata(ms, g[..j]);
    NonCataPrefix(ms, g, j);
    ChainExtend(ms, nc, mark);
    r, last := cur, lastMark;
    if cur[mark].mention.corefType != "cata" {
      assert LastOf(nc + [mark]) == Some(mark);
      if lastMark.Some? {
        r := cur[mark := cur[mark].(antecedent := lastMark)];
      }
      last := Some(mark);
    }
  }

  /** Lines 23-27 for one group list `g`. */
  method LinkList(ms: seq<Markable>, g: seq<nat>) returns (cur: seq<Markable>)
    requires InArena(g, |ms|)
    ensures cur == Chain(ms, NonCata(ms, g))
  {
    cur := ms;
    var lastMark: Option<nat> := None;
    assert g[..0] == [];
    for j := 0 to |g|
      invariant cur == Chain(ms, NonCata(ms, g[..j]))
      invariant lastMark == LastOf(NonCata(ms, g[..j]))
    {
      cur, lastMark := LinkTurn(ms, g, j, cur, lastMark);
    }
    assert g[..|g|] == g;
  }

  /** Lines 107-123 on a copy of the markable list. */
  method SpliceSeq(ms: seq<Markable>, m: nat, g: seq<nat>) returns (r: seq<Markable>)
    requires SpliceReady(ms, m, g)
    ensures r == Splice(ms, m, g)
  {
    SpliceWrites(ms, m, g);
    var markId := ms[m].id.n;
    var minId;
    r, minId := BypassScan(ms, m, g);
    r := r[m := r[m].(antecedent := None)];
    if markId != r[m].group {
      r := r[m := r[m].(group := markId)];
    } else {
      r := RegroupList(r, m, g, minId);
    }
    r := r[m := r[m].(id := Inactive)];
  }

  /** One turn of the head filter: markable `i` is tested on its own
      (unchanged) mention and, if removable, spliced with its current group. */
  lemma HeadStep(cfg: Config, ms: seq<Markable>, idx: GroupIndex, i: nat, cur: seq<Markable>)
    requires Parsed(ms) && ListsIn(idx, |ms|) && i < |ms|
    requires cur == SpliceOwn(ms, idx, HeadTargets(cfg, ms, i))
    ensures |cur| == |ms| && HeadRemovable(cfg, cur[i]) == HeadRemovable(cfg, ms[i])
    ensures InArena(Members(idx, cur[i].group), |cur|)
    ensures HeadRemovable(cfg, ms[i]) ==> SpliceReady(cur, i, Members(idx, cur[i].group))
    ensures SpliceOwn(ms, idx, HeadTargets(cfg, ms, i + 1)) ==
      if HeadRemovable(cfg, ms[i]) then Splice(cur, i, Members(idx, cur[i].group)) else cur
  {
    assert SameMention(ms[i], cur[i]);
    MembersIn(idx, |ms|, cur[i].group);
    var vs := HeadTargets(cfg, ms, i);
    if HeadRemovable(cfg, ms[i]) {
      assert HeadTargets(cfg, ms, i + 1) == vs + [i];
      SpliceOwnSnoc(ms, idx, vs, i);
    } else {
      assert HeadTargets(cfg, ms, i + 1) == vs;
    }
  }

  /** Line 32 for markable `i`. */
  method HeadTurn(cfg: Config, ms: seq<Markable>, idx: GroupIndex, i: nat, cur: seq<Markable>) returns (r: seq<Markable>)
    requires Parsed(ms) && ListsIn(idx, |ms|) && i < |ms|
    requires cur == SpliceOwn(ms, idx, HeadTargets(cfg, ms, i))
    ensures r == SpliceOwn(ms, idx, HeadTargets(cfg, ms, i + 1))
  {
    HeadStep(cfg, ms, idx, i, cur);
    r := cur;
    if HeadRemovable(cfg, cur[i]) {
      r := SpliceSeq(cur, i, Members(idx, cur[i].group));
    }
  }

  /** Lines 30-33 on a copy of the markable list. */
  method HeadFilter(cfg: Config, ms: seq<Markable>, idx: GroupIndex) returns (r: seq<Markable>)
    requires Parsed(ms) && ListsIn(idx, |ms|)
    ensures r == SpliceOwn(ms, idx, HeadTargets(cfg, ms, |ms|))
  {
    r := ms;
    var i := 0;
    while i < |ms|
      invariant 0 <= i <= |ms|
      invariant r == SpliceOwn(ms, idx, HeadTargets(cfg, ms, i))
    {
      r := HeadTurn(cfg, ms, idx, i, r);
      i := i + 1;
    }
  }

  // ------------------------------------------------------------ child filter

  /** The splices of the child filter once it has visited `ms[..i]` and the
      first `j` child functions of `ms[i]`. */
  function ChildSoFar(cfg: Config, ms: seq<Markable>, i: nat, j: nat): (r: seq<nat>)
    requires i < |ms| && j <= |ms[i].mention.head.childFuncs|
    ensures InArena(r, |ms|)
  {
    var hits := ChildHits(cfg.childMatch, i, ms[i].mention.head.childFuncs[..j]);
    ChildHitsOnly(cfg.childMatch, i, ms[i].mention.head.childFuncs[..j]);
    ChildTargets(cfg, ms, i) + hits
  }

  /** Before the first child function of `ms[i]` and after the last one. */
  lemma ChildEnds(cfg: Config, ms: seq<Markable>, i: nat)
    requires i < |ms|
    ensures ChildSoFar(cfg, ms, i, 0) == ChildTargets(cfg, ms, i)
    ensures ChildSoFar(cfg, ms, i, |ms[i].mention.head.childFuncs|) == ChildTargets(cfg, ms, i + 1)
  {
    var funcs := ms[i].mention.head.childFuncs;
    assert funcs[..0] == [];
    assert funcs[..|funcs|] == funcs;
    assert ChildTargets(cfg, ms, i) + [] == ChildTargets(cfg, ms, i);
  }

  /** One turn of the inner loop of lines 36-38: child function `j` of
      markable `i`, which keeps its (unchanged) head. */
  lemma ChildStep(cfg: Config, ms: seq<Markable>, idx: GroupIndex, i: nat, j: nat, cur: seq<Markable>)
    requires Parsed(ms) && ListsIn(idx, |ms|) && i < |ms| && j < |ms[i].mention.head.childFuncs|
    requires cur == SpliceOwn(ms, idx, ChildSoFar(cfg, ms, i, j))
    ensures |cur| == |ms| && cur[i].mention == ms[i].mention
    ensures InArena(Members(idx, cur[i].group), |cur|)
    ensures SpliceReady(cur, i, Members(idx, cur[i].group))
    ensures SpliceOwn(ms, idx, ChildSoFar(cfg, ms, i, j + 1)) ==
      if cfg.childMatch(ms[i].mention.head.childFuncs[j]) then Splice(cur, i, Members(idx, cur[i].group)) else cur
  {
    assert SameMention(ms[i], cur[i]);
    MembersIn(idx, |ms|, cur[i].group);
    ChildSoFarSnoc(cfg, ms, i, j);
    var vs := ChildSoFar(cfg, ms, i, j);
    if cfg.childMatch(ms[i].mention.head.childFuncs[j]) {
      SpliceOwnSnoc(ms, idx, vs, i);
    } else {
      assert vs + [] == vs;
    }
  }

  lemma ChildSoFarSnoc(cfg: Config, ms: seq<Markable>, i: nat, j: nat)
    requires i < |ms| && j < |ms[i].mention.head.childFuncs|
    ensures ChildSoFar(cfg, ms, i, j + 1) ==
      ChildSoFar(cfg, ms, i, j) + if cfg.childMatch(ms[i].mention.head.childFuncs[j]) then [i] else []
  {
    var funcs := ms[i].mention.head.childFuncs;
    var ext := funcs[..j + 1];
    assert ext[..|ext| - 1] == funcs[..j] && ext[|ext| - 1] == funcs[j];
    var hits := ChildHits(cfg.childMatch, i, funcs[..j]);
    var block := if cfg.childMatch(funcs[j]) then [i] else [];
    assert ChildHits(cfg.childMatch, i, ext) == hits + block;
    assert ChildTargets(cfg, ms, i) + (hits + block) == (ChildTargets(cfg, ms, i) + hits) + block;
  }

  /** Lines 37-38 for child function `j` of markable `i`. */
  method ChildTurn(cfg: Config, ms: seq<Markable>, idx: GroupIndex, i: nat, j: nat, cur: seq<Markable>) returns (r: seq<Markable>)
    requires Parsed(ms) && ListsIn(idx, |ms|) && i < |ms| && j < |ms[i].mention.head.childFuncs|
    requires cur == SpliceOwn(ms, idx, ChildSoFar(cfg, ms, i, j))
    ensures r == SpliceOwn(ms, idx, ChildSoFar(cfg, ms, i, j + 1))
  {
    ChildStep(cfg, ms, idx, i, j, cur);
    r := cur;
    if cfg.childMatch(cur[i].mention.head.childFuncs[j]) {
      r := SpliceSeq(cur, i, Members(idx, cur[i].group));
    }
  }

  /** Lines 36-38 for markable `i`. */
  method ChildMark(cfg: Config, ms: seq<Markable>, idx: GroupIndex, i: nat, cur: seq<Markable>) returns (r: seq<Markable>)
    requires Parsed(ms) && ListsIn(idx, |ms|) && i < |ms|
    requires cur == SpliceOwn(ms, idx, ChildTargets(cfg, ms, i))
    ensures r == SpliceOwn(ms, idx, ChildTargets(cfg, ms, i + 1))
  {
    ChildEnds(cfg, ms, i);
    assert SameMention(ms[i], cur[i]);
    var funcs := cur[i].mention.head.childFuncs;
    r := cur;
    var j := 0;
    while j < |funcs|
      invariant 0 <= j <= |funcs|
      invariant r == SpliceOwn(ms, idx, ChildSoFar(cfg, ms, i, j))
    {
      r := ChildTurn(cfg, ms, idx, i, j, r);
      j := j + 1;
    }
  }

  /** Lines 34-38 on a copy of the markable list. */
  method ChildFilter(cfg: Config, ms: seq<Markable>, idx: GroupIndex) returns (r: seq<Markable>)
    requires Parsed(ms) && ListsIn(idx, |ms|)
    ensures r == SpliceOwn(ms, idx, ChildTargets(cfg, ms, |ms|))
  {
    r := ms;
    var i := 0;
    while i < |ms|
      invariant 0 <= i <= |ms|
      invariant r == SpliceOwn(ms, idx, ChildTargets(cfg, ms, i))
    {
      r := ChildMark(cfg, ms, idx, i, r);
      i := i + 1;
    }
  }

  // ------------------------------------------------------------ overlap pass

  /** The splices of the overlap pass over `g` once `mark1` has run over
      `g[..a]` and, for `mark1 = g[a]`, `mark2` over `g[..b]`. */
  function Compared(ms: seq<Markable>, g: seq<nat>, a: nat, b: nat): (r: seq<nat>)
    requires InArena(g, |ms|) && a < |g| && b <= |g|
    ensures InArena(r, |ms|)
  {
    VictimsIn(ms, g, a);
    RowIn(ms, g, a, b);
    Victims(ms, g, a) + Row(ms, g, a, b)
  }

  /** One comparison of lines 45-50 splices its loser, if any, with the group's list. */
  lemma OverlapNext(ms: seq<Markable>, g: seq<nat>, a: nat, b: nat)
    requires Parsed(ms) && InArena(g, |ms|) && a < |g| && b < |g|
    ensures var cur := SpliceIn(ms, g, Compared(ms, g, a, b));
      SpliceIn(ms, g, Compared(ms, g, a, b + 1)) ==
        if Compare(ms, g[a], g[b]) == [] then cur else Splice(cur, Loser(ms, g[a], g[b]), g)
  {
    var vs := Compared(ms, g, a, b);
    RowSnoc(ms, g, a, b);
    if Compare(ms, g[a], g[b]) != [] {
      var w := Loser(ms, g[a], g[b]);
      assert Compare(ms, g[a], g[b]) == [w];
      SpliceInSnoc(ms, g, vs, w);
    } else {
      assert vs + [] == vs;
    }
  }

  /** The comparison reads spans and positions only, which no splice changes,
      so it can be made on the arena as it stands. */
  lemma OverlapSees(ms: seq<Markable>, cur: seq<Markable>, g: seq<nat>, a: nat, b: nat)
    requires SameMentions(ms, cur) && Parsed(cur) && InArena(g, |ms|) && a < |g| && b < |g|
    ensures Compare(cur, g[a], g[b]) == Compare(ms, g[a], g[b])
    ensures Loser(cur, g[a], g[b]) == Loser(ms, g[a], g[b])
    ensures SpliceReady(cur, Loser(cur, g[a], g[b]), g)
  {
    assert SameMention(ms[g[a]], cur[g[a]]) && SameMention(ms[g[b]], cur[g[b]]);
  }

  lemma OverlapStep(ms: seq<Markable>, g: seq<nat>, a: nat, b: nat, cur: seq<Markable>)
    requires Parsed(ms) && InArena(g, |ms|) && a < |g| && b < |g|
    requires cur == SpliceIn(ms, g, Compared(ms, g, a, b))
    ensures |cur| == |ms| && SpliceReady(cur, Loser(cur, g[a], g[b]), g)
    ensures SpliceIn(ms, g, Compared(ms, g, a, b + 1)) ==
      if Compare(cur, g[a], g[b]) == [] then cur else Splice(cur, Loser(cur, g[a], g[b]), g)
  {
    OverlapNext(ms, g, a, b);
    OverlapSees(ms, cur, g, a, b);
  }

  lemma RowSnoc(ms: seq<Markable>, g: seq<nat>, a: nat, b: nat)
    requires InArena(g, |ms|) && a < |g| && b < |g|
    ensures Compared(ms, g, a, b + 1) == Compared(ms, g, a, b) + Compare(ms, g[a], g[b])
  {
  }

  /** Lines 45-50 for `mark1 = g[a]` and `mark2 = g[b]`. */
  method OverlapTurn(ms: seq<Markable>, g: seq<nat>, a: nat, b: nat, cur: seq<Markable>) returns (r: seq<Markable>)
    requires Parsed(ms) && InArena(g, |ms|) && a < |g| && b < |g|
    requires cur == SpliceIn(ms, g, Compared(ms, g, a, b))
    ensures r == SpliceIn(ms, g, Compared(ms, g, a, b + 1))
  {
    OverlapStep(ms, g, a, b, cur);
    var mark1, mark2 := g[a], g[b];
    r := cur;
    if mark1 != mark2 {
      if MarkablesOverlap(cur[mark1], cur[mark2]) {
        if Span(cur[mark1]) > Span(cur[mark2]) {
          r := SpliceSeq(cur, mark2, g);
        } else {
          r := SpliceSeq(cur, mark1, g);
        }
      }
    }
  }

  /** Lines 44-50 for `mark1 = g[a]`. */
  method OverlapRow(ms: seq<Markable>, g: seq<nat>, a: nat, cur: seq<Markable>) returns (r: seq<Markable>)
    requires Parsed(ms) && InArena(g, |ms|) && a < |g|
    requires cur == SpliceIn(ms, g, Compared(ms, g, a, 0))
    ensures r == SpliceIn(ms, g, Compared(ms, g, a, |g|))
  {
    r := cur;
    for b := 0 to |g|
      invariant r == SpliceIn(ms, g, Compared(ms, g, a, b))
    {
      r := OverlapTurn(ms, g, a, b, r);
    }
  }

  /** Before the first comparison of a row and after the last one. */
  lemma RowDone(ms: seq<Markable>, g: seq<nat>, a: nat)
    requires Parsed(ms) && InArena(g, |ms|) && a < |g|
    ensures InArena(Victims(ms, g, a), |ms|) && InArena(Victims(ms, g, a + 1), |ms|)
    ensures SpliceIn(ms, g, Compared(ms, g, a, 0)) == SpliceIn(ms, g, Victims(ms, g, a))
    ensures SpliceIn(ms, g, Compared(ms, g, a, |g|)) == SpliceIn(ms, g, Victims(ms, g, a + 1))
  {
    VictimsIn(ms, g, a);
    VictimsIn(ms, g, a + 1);
    assert Compared(ms, g, a, 0) == Victims(ms, g, a);
    assert Victims(ms, g, a + 1) == Compared(ms, g, a, |g|);
  }

  /** Lines 43-50 for one group list `g`. */
  method OverlapGroup(ms: seq<Markable>, g: seq<nat>) returns (r: seq<Markable>)
    requires Parsed(ms) && InArena(g, |ms|)
    ensures InArena(Victims(ms, g, |g|), |ms|)
    ensures r == SpliceIn(ms, g, Victims(ms, g, |g|))
  {
    r := ms;
    var a := 0;
    while a < |g|
      invariant 0 <= a <= |g|
      invariant InArena(Victims(ms, g, a), |ms|)
      invariant r == SpliceIn(ms, g, Victims(ms, g, a))
    {
      RowDone(ms, g, a);
      r := OverlapRow(ms, g, a, r);
      a := a + 1;
    }
  }

  /** Lines 42-50 on a copy of the markable list. */
  method OverlapPass(ms: seq<Markable>, idx: GroupIndex) returns (r: seq<Markable>)
    requires Parsed(ms) && ListsIn(idx, |ms|)
    ensures r == OverlapGroups(ms, idx, |idx.order|)
  {
    r := ms;
    var p := 0;
    while p < |idx.order|
      invariant 0 <= p <= |idx.order|
      invariant r == OverlapGroups(ms, idx, p)
    {
      MembersIn(idx, |ms|, idx.order[p]);
      r := OverlapGroup(r, Members(idx, idx.order[p]));
      p := p + 1;
    }
  }

  // ------------------------------------------------------ cataphora, singletons

  /** Lines 53-58 on a copy of the markable list. */
  method CataPass(ms: seq<Markable>) returns (r: seq<Markable>)
    requires Closed(ms)
    ensures r == Uncata(ms, |ms|)
  {
    assert forall x :: 0 <= x < |ms| ==> Uncata(ms, 0)[x] == ms[x];
    r := ms;
    var i := 0;
    while i < |ms|
      invariant 0 <= i <= |ms|
      invariant r == Uncata(ms, i)
    {
      UncataStep(ms, i);
      assert r[i] == ms[i].(id := r[i].id);
      if r[i].mention.corefType == "cata" {
        r := r[i := r[i].(id := Inactive)];
        if r[i].antecedent.Some? {
          var a := r[i].antecedent.value;
          r := r[a := r[a].(id := Inactive)];
        }
      }
      i := i + 1;
    }
  }

  /** Lines 65-66 and 73-74: every member of `g` gets the id "0". */
  method WipeList(ms: seq<Markable>, g: seq<nat>) returns (r: seq<Markable>)
    requires InArena(g, |ms|)
    ensures r == WipeAll(ms, g)
  {
    assert forall x :: 0 <= x < |ms| ==> WipeAll(ms, g[..0])[x] == ms[x];
    r := ms;
    var j := 0;
    while j < |g|
      invariant 0 <= j <= |g|
      invariant r == WipeAll(ms, g[..j])
    {
      WipeAllPrefix(ms, g, j);
      r := r[g[j] := r[g[j]].(id := Inactive)];
      j := j + 1;
    }
    assert g[..|g|] == g;
  }

  /** Lines 62-74 for one group list `g`. */
  method PruneGroup(ms: seq<Markable>, g: seq<nat>) returns (r: seq<Markable>)
    requires InArena(g, |ms|)
    ensures r == if Wiped(ms, g) then WipeAll(ms, g) else ms
  {
    var wipe := true;
    if |g| < 2 {
      r := WipeList(ms, g);
    } else {
      var j := 0;
      while j < |g|
        invariant 0 <= j <= |g| && wipe
        invariant forall k :: 0 <= k < j ==> ms[g[k]].antecedent.None?
      {
        if ms[g[j]].antecedent.Some? {
          wipe := false;
          break;
        }
        j := j + 1;
      }
      if wipe {
        r := WipeList(ms, g);
      } else {
        r := ms;
      }
    }
  }

  /** Lines 61-74 on a copy of the markable list. */
  method PrunePass(ms: seq<Markable>, idx: GroupIndex) returns (r: seq<Markable>)
    requires ListsIn(idx, |ms|)
    ensures r == PruneGroups(ms, idx, |idx.order|)
  {
    r := ms;
    var p := 0;
    while p < |idx.order|
      invariant 0 <= p <= |idx.order| && |r| == |ms|
      invariant r == PruneGroups(ms, idx, p)
    {
      MembersIn(idx, |ms|, idx.order[p]);
      r := PruneGroup(r, Members(idx, idx.order[p]));
      p := p + 1;
    }
  }

  /** Lines 82-104 for `mark = d.marks[x]`, on copies of the markable list and the tables. */
  method MergeDoc(d: Doc, x: nat) returns (r: Doc)
    requires Closed(d.marks) && x < |d.marks|
    ensures r == MergeAt(d, x)
  {
    r := d;
    var prev := d.marks[x].antecedent;
    if prev.Some? {
      var p := prev.value;
      if d.marks[p].mention.corefType == "appos" && d.marks[p].antecedent.Some? {
        var pp := d.marks[p].antecedent.value;
        var envlop := CreateEnvelope(d.marks[pp], d.marks[p]);
        r := MergeWith(d, x, p, pp, envlop);
      }
    }
  }

  /** Lines 86-104 once `prev` and `prevprev` are found. */
  method MergeWith(d: Doc, x: nat, p: nat, pp: nat, envlop: Markable) returns (r: Doc)
    requires x < |d.marks| && p < |d.marks| && pp < |d.marks|
    ensures r == Merged(d, x, p, pp, envlop)
  {
    var n: nat := |d.marks|;
    var markStart := Registered(d.markStart, envlop.mention.start, n);
    var markEnd := Registered(d.markEnd, envlop.mention.end, n);
    var markByHead := d.markByHead[HeadKey(d.marks[pp], d.marks[p]) := n];
    var abGroup := 1000 + d.marks[pp].group + d.marks[p].group;
    var marks := RewireSeq(d.marks + [envlop], x, p, pp, n, abGroup);
    r := Doc(marks, markStart, markEnd, markByHead);
  }

  /** Lines 87 and 98-104 on a copy of the markable list, once the envelope
      `ms[n]` is appended. */
  method RewireSeq(ms: seq<Markable>, x: nat, p: nat, pp: nat, n: nat, ab: int) returns (r: seq<Markable>)
    requires x < n && p < n && pp < n && n < |ms|
    ensures r == Rewire(ms, x, p, pp, n, ab)
  {
    RewireWrites(ms, x, p, pp, n, ab);
    r := ms[n := ms[n].(nonAntecedentGroups := ms[p].antecedent)];
    r := r[pp := r[pp].(group := ab)];
    r := r[p := r[p].(group := ab)];
    r := r[x := r[x].(antecedent := Some(n))];
    r := r[pp := r[pp].(antecedent := None)];
  }

  /** The markables, the start and end tables and the head table that
      `postprocess_coref` updates in place. */
  class Document {
    var marks: seq<Markable>
    var markStart: map<int, seq<nat>>
    var markEnd: map<int, seq<nat>>
    var markByHead: map<string, nat>

    function State(): Doc
      reads this
    {
      Doc(marks, markStart, markEnd, markByHead)
    }

    constructor (d: Doc)
      ensures State() == d
    {
      marks := d.marks;
      markStart := d.markStart;
      markEnd := d.markEnd;
      markByHead := d.markByHead;
    }

    /** Lines 107-123: `splice_out(marks[m], g)` called on its own, on the
        document. The passes do not call it: they splice through `SpliceSeq`
        on a local sequence and assign the result back. */
    method SpliceOut(m: nat, g: seq<nat>)
      requires SpliceReady(marks, m, g)
      modifies this
      ensures marks == Splice(old(marks), m, g)
      ensures markStart == old(markStart) && markEnd == old(markEnd) && markByHead == old(markByHead)
    {
      marks := SpliceSeq(marks, m, g);
    }

    /** Lines 21-27: in every group, each non-cataphoric member is linked to
        the previous non-cataphoric one. */
    method LinkChains(idx: GroupIndex)
      requires ListsIn(idx, |marks|)
      modifies this
      ensures marks == LinkGroups(old(marks), idx, |idx.order|)
      ensures markStart == old(markStart) && markEnd == old(markEnd) && markByHead == old(markByHead)
    {
      ghost var ms := marks;
      var p := 0;
      while p < |idx.order|
        invariant 0 <= p <= |idx.order| && |marks| == |ms|
        invariant marks == LinkGroups(ms, idx, p)
        invariant markStart == old(markStart) && markEnd == old(markEnd) && markByHead == old(markByHead)
      {
        MembersIn(idx, |ms|, idx.order[p]);
        StepChain(ms, idx, p + 1);
        marks := LinkList(marks, Members(idx, idx.order[p]));
        p := p + 1;
      }
    }

    /** Lines 30-33: splice out every markable whose head function matches,
        proper markables exempt unless their text is "U.S.". */
    method FilterHead(cfg: Config, idx: GroupIndex)
      requires Parsed(marks) && ListsIn(idx, |marks|)
      modifies this
      ensures marks == SpliceOwn(old(marks), idx, HeadTargets(cfg, old(marks), |old(marks)|))
      ensures markStart == old(markStart) && markEnd == old(markEnd) && markByHead == old(markByHead)
    {
      marks := HeadFilter(cfg, marks, idx);
    }

    /** Lines 34-38: splice out a markable once per child function of its head that matches. */
    method FilterChild(cfg: Config, idx: GroupIndex)
      requires Parsed(marks) && ListsIn(idx, |marks|)
      modifies this
      ensures marks == SpliceOwn(old(marks), idx, ChildTargets(cfg, old(marks), |old(marks)|))
      ensures markStart == old(markStart) && markEnd == old(markEnd) && markByHead == old(markByHead)
    {
      marks := ChildFilter(cfg, marks, idx);
    }

    /** Lines 42-50: the "i in i" rule. */
    method RemoveOverlaps(idx: GroupIndex)
      requires Parsed(marks) && ListsIn(idx, |marks|)
      modifies this
      ensures marks == OverlapGroups(old(marks), idx, |idx.order|)
      ensures markStart == old(markStart) && markEnd == old(markEnd) && markByHead == old(markByHead)
    {
      marks := OverlapPass(marks, idx);
    }

    /** Lines 53-58: cataphors and their antecedents get the id "0". */
    method RemoveCataphora()
      requires Closed(marks)
      modifies this
      ensures marks == Uncata(old(marks), |old(marks)|)
      ensures markStart == old(markStart) && markEnd == old(markEnd) && markByHead == old(markByHead)
    {
      marks := CataPass(marks);
    }

    /** Lines 61-74: the members of singleton and unlinked groups get the id "0". */
    method RemoveSingletons(idx: GroupIndex)
      requires ListsIn(idx, |marks|)
      modifies this
      ensures marks == PruneGroups(old(marks), idx, |idx.order|)
      ensures markStart == old(markStart) && markEnd == old(markEnd) && markByHead == old(markByHead)
    {
      marks := PrunePass(marks, idx);
    }

    /** Lines 82-104 for `mark = marks[x]`. */
    method Envelop(x: nat)
      requires Closed(marks) && x < |marks|
      modifies this
      ensures State() == MergeAt(old(State()), x)
    {
      var r := MergeDoc(State(), x);
      marks, markStart, markEnd, markByHead := r.marks, r.markStart, r.markEnd, r.markByHead;
    }

    /** Lines 80-104 for one group list `g`: positions `len(g) - 1` down to 1. */
    method EnvelopGroup(g: seq<nat>)
      requires Closed(marks) && InArena(g, |marks|)
      modifies this
      ensures State() == EnvGroup(old(State()), g)
    {
      ghost var c := State();
      if g != [] {
        for i := |g| downto 1
          invariant InArena(Down(g, i), |c.marks|)
          invariant State() == MergeAll(c, Down(g, i))
          invariant Closed(marks) && |c.marks| <= |marks|
        {
          EnvelopNext(c, g, i);
        }
      }
    }

    /** One turn of the loop of lines 80-104: position `i` of `g`. */
    method EnvelopNext(ghost c: Doc, g: seq<nat>, i: nat)
      requires InArena(g, |c.marks|) && i < |g| && InArena(Down(g, i + 1), |c.marks|)
      requires State() == MergeAll(c, Down(g, i + 1)) && Closed(marks)
      modifies this
      ensures InArena(Down(g, i), |c.marks|)
      ensures State() == MergeAll(c, Down(g, i)) && Closed(marks) && |c.marks| <= |marks|
    {
      MergeAllSnoc(c, g, i);
      MergeClosed(State(), g[i]);
      Envelop(g[i]);
    }

    /** Lines 79-104: the envelope pass over every group. */
    method AddEnvelopes(idx: GroupIndex)
      requires Closed(marks) && ListsIn(idx, |marks|)
      modifies this
      ensures State() == EnvGroups(old(State()), idx, |idx.order|)
    {
      ghost var d := State();
      for p := 0 to |idx.order|
        invariant State() == EnvGroups(d, idx, p)
        invariant Closed(marks) && |d.marks| <= |marks|
      {
        MembersIn(idx, |d.marks|, idx.order[p]);
        LiftInArena(Members(idx, idx.order[p]), |d.marks|, |marks|);
        EnvelopGroup(Members(idx, idx.order[p]));
        EnvGroupsPreserve(d, idx, p + 1);
      }
    }

    /** Lines 13-104: `postprocess_coref`, pass by pass. */
    method PostprocessCoref(cfg: Config)
      requires Parsed(marks) && Closed(marks)
      modifies this
      ensures State() == Postprocessed(cfg, old(State()))
    {
      var idx := BuildGroups(marks);
      Relink(cfg, idx);
      Deactivate(cfg, idx);
      if cfg.addApposEnvelopes {
        AddEnvelopes(idx);
      }
    }

    /** Lines 21-50: chains, filters and overlaps. */
    method Relink(cfg: Config, idx: GroupIndex)
      requires Parsed(marks) && Closed(marks) && ListsIn(idx, |marks|)
      modifies this
      ensures marks == Rechained(cfg, old(marks), idx)
      ensures markStart == old(markStart) && markEnd == old(markEnd) && markByHead == old(markByHead)
    {
      LinkGroupsSameButLinks(marks, idx, |idx.order|);
      LinkChains(idx);
      Filter(cfg, idx);
      RemoveOverlaps(idx);
    }

    /** Lines 30-38: both removal filters, each switched on by a non-empty pattern. */
    method Filter(cfg: Config, idx: GroupIndex)
      requires Parsed(marks) && ListsIn(idx, |marks|)
      modifies this
      ensures marks == Filtered(cfg, old(marks), idx)
      ensures markStart == old(markStart) && markEnd == old(markEnd) && markByHead == old(markByHead)
    {
      if |cfg.headPattern| > 0 {
        FilterHead(cfg, idx);
      }
      if |cfg.childPattern| > 0 {
        FilterChild(cfg, idx);
      }
    }

    /** Lines 53-74: both deactivation passes, each switched on by its flag. */
    method Deactivate(cfg: Config, idx: GroupIndex)
      requires Closed(marks) && ListsIn(idx, |marks|)
      modifies this
      ensures marks == Deactivated(cfg, old(marks), idx)
      ensures markStart == old(markStart) && markEnd == old(markEnd) && markByHead == old(markByHead)
    {
      if cfg.removeCataphora {
        RemoveCataphora();
      }
      if cfg.removeSingletons {
        SameButIdMentions(old(marks), marks);
        RemoveSingletons(idx);
      }
    }
  }
}
