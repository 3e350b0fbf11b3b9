/**
 * The two removal filters of lines 30-38 and the configuration they read.
 * A compiled pattern is given by its source text (only its length is
 * inspected) and by its `match` test, as an arbitrary string predicate.
 */
module Filters {
  import opened Markables

  datatype Config = Config(
    headPattern: string,
    headMatch: string -> bool,
    childPattern: string,
    childMatch: string -> bool,
    removeCataphora: bool,
    removeSingletons: bool,
    addApposEnvelopes: bool)

  /** Line 32: the head function matches, and the markable is not a proper
      noun phrase, unless its stripped text is exactly "U.S.". */
  predicate HeadRemovable(cfg: Config, m: Markable) {
    cfg.headMatch(m.mention.head.func) && (m.mention.form != "proper" || Strip(m.mention.text) == "U.S.")
  }

  /** The markables among `ms[..n]` the head filter splices out, in the order it does so. */
  function HeadTargets(cfg: Config, ms: seq<Markable>, n: nat): (r: seq<nat>)
    requires n <= |ms|
    ensures InArena(r, n)
  {
    if n == 0 then []
    else HeadTargets(cfg, ms, n - 1) + (if HeadRemovable(cfg, ms[n - 1]) then [n - 1] else [])
  }

  lemma {:induction false} HeadTargetsExact(cfg: Config, ms: seq<Markable>, n: nat)
    requires n <= |ms|
    ensures forall i :: 0 <= i < |ms| ==> (i in HeadTargets(cfg, ms, n) <==> i < n && HeadRemovable(cfg, ms[i]))
  {
    if n > 0 {
      HeadTargetsExact(cfg, ms, n - 1);
    }
  }

  /** Lines 36-38 for one markable `i`: one splice per matching child function. */
  function ChildHits(childMatch: string -> bool, i: nat, funcs: seq<string>): seq<nat> {
    if funcs == [] then []
    else ChildHits(childMatch, i, funcs[..|funcs| - 1]) + (if childMatch(funcs[|funcs| - 1]) then [i] else [])
  }

  /** Every splice for markable `i` is of `i`. */
  lemma {:induction false} ChildHitsOnly(childMatch: string -> bool, i: nat, funcs: seq<string>)
    ensures forall j :: 0 <= j < |ChildHits(childMatch, i, funcs)| ==> ChildHits(childMatch, i, funcs)[j] == i
  {
    if funcs != [] {
      ChildHitsOnly(childMatch, i, funcs[..|funcs| - 1]);
    }
  }

  /** The splices the child filter makes for `ms[..n]`, in order. */
  function ChildTargets(cfg: Config, ms: seq<Markable>, n: nat): (r: seq<nat>)
    requires n <= |ms|
    ensures InArena(r, n)
  {
    if n == 0 then []
    else
      ChildHitsOnly(cfg.childMatch, n - 1, ms[n - 1].mention.head.childFuncs);
      ChildTargets(cfg, ms, n - 1) + ChildHits(cfg.childMatch, n - 1, ms[n - 1].mention.head.childFuncs)
  }

  /** The positions of the child functions that match. */
  function MatchingChildren(childMatch: string -> bool, funcs: seq<string>): set<nat> {
    set j: nat | j < |funcs| && childMatch(funcs[j])
  }

  /** How many times `x` occurs in `xs`. */
  function Occurrences(xs: seq<nat>, x: nat): nat {
    if xs == [] then 0 else Occurrences(xs[..|xs| - 1], x) + (if xs[|xs| - 1] == x then 1 else 0)
  }

  lemma {:induction false} OccurrencesAppend(a: seq<nat>, b: seq<nat>, x: nat)
    ensures Occurrences(a + b, x) == Occurrences(a, x) + Occurrences(b, x)
  {
    if b == [] {
      assert a + b == a;
    } else {
      assert (a + b)[..|a + b| - 1] == a + b[..|b| - 1];
      OccurrencesAppend(a, b[..|b| - 1], x);
    }
  }

  /** The splices for one markable `i`: one per matching child function, and none of another markable. */
  lemma {:induction false} ChildHitsOccurrences(childMatch: string -> bool, i: nat, funcs: seq<string>, j: nat)
    ensures Occurrences(ChildHits(childMatch, i, funcs), j) == if j == i then |MatchingChildren(childMatch, funcs)| else 0
  {
    if funcs != [] {
      var init := funcs[..|funcs| - 1];
      var last := |funcs| - 1;
      ChildHitsOccurrences(childMatch, i, init, j);
      var front := ChildHits(childMatch, i, init);
      var block := if childMatch(funcs[last]) then [i] else [];
      OccurrencesAppend(front, block, j);
      assert Occurrences(block, j) == if childMatch(funcs[last]) && j == i then 1 else 0 by {
        if block != [] {
          assert block[..0] == [];
        }
      }
      var before := MatchingChildren(childMatch, init);
      assert forall k: nat :: k < |init| ==> init[k] == funcs[k];
      if childMatch(funcs[last]) {
        assert MatchingChildren(childMatch, funcs) == before + {last};
        assert last !in before;
      } else {
        assert MatchingChildren(childMatch, funcs) == before;
      }
    }
  }

  /** A markable the filter has not reached is not spliced. */
  lemma {:induction false} ChildTargetsAbove(cfg: Config, ms: seq<Markable>, n: nat, i: nat)
    requires n <= |ms| && n <= i
    ensures Occurrences(ChildTargets(cfg, ms, n), i) == 0
  {
    if n > 0 {
      ChildTargetsAbove(cfg, ms, n - 1, i);
      ChildHitsOccurrences(cfg.childMatch, n - 1, ms[n - 1].mention.head.childFuncs, i);
      OccurrencesAppend(ChildTargets(cfg, ms, n - 1), ChildHits(cfg.childMatch, n - 1, ms[n - 1].mention.head.childFuncs), i);
    }
  }

  lemma {:induction false} ChildTargetsBelow(cfg: Config, ms: seq<Markable>, n: nat, i: nat)
    requires i < n <= |ms|
    ensures Occurrences(ChildTargets(cfg, ms, n), i) == |MatchingChildren(cfg.childMatch, ms[i].mention.head.childFuncs)|
  {
    var front := ChildTargets(cfg, ms, n - 1);
    var funcs := ms[n - 1].mention.head.childFuncs;
    var hits := ChildHits(cfg.childMatch, n - 1, funcs);
    assert ChildTargets(cfg, ms, n) == front + hits;
    ChildHitsOccurrences(cfg.childMatch, n - 1, funcs, i);
    OccurrencesAppend(front, hits, i);
    if i < n - 1 {
      ChildTargetsBelow(cfg, ms, n - 1, i);
      assert Occurrences(hits, i) == 0;
    } else {
      ChildTargetsAbove(cfg, ms, n - 1, i);
      assert Occurrences(hits, i) == |MatchingChildren(cfg.childMatch, funcs)|;
    }
  }

  /** The child filter splices `i` out once per matching child function of its head. */
  lemma ChildTargetsCount(cfg: Config, ms: seq<Markable>, n: nat)
    requires n <= |ms|
    ensures forall i :: 0 <= i < |ms| ==>
      Occurrences(ChildTargets(cfg, ms, n), i) ==
        if i < n then |MatchingChildren(cfg.childMatch, ms[i].mention.head.childFuncs)| else 0
  {
    forall i | 0 <= i < |ms|
      ensures Occurrences(ChildTargets(cfg, ms, n), i) ==
        if i < n then |MatchingChildren(cfg.childMatch, ms[i].mention.head.childFuncs)| else 0
    {
      if i < n {
        ChildTargetsBelow(cfg, ms, n, i);
      } else {
        ChildTargetsAbove(cfg, ms, n, i);
      }
    }
  }

  /** The U.S. carve-out of line 32: a proper markable whose text strips to
      exactly "U.S." is removable ... */
  lemma UsIsRemovable(cfg: Config, m: Markable)
    requires m.mention.form == "proper" && cfg.headMatch(m.mention.head.func) && m.mention.text == " U.S. "
    ensures HeadRemovable(cfg, m)
  {
    var s := m.mention.text;
    assert !IsSpace(s[1]) && IsSpace(s[0]) && !IsSpace(s[4]);
    assert LeadingSpace(s) == 1;
    var r := Strip(s);
    assert |r| == 4;
  }

  /** ... while any other proper markable is exempt, "the U.S." included ... */
  lemma TheUsExempt(cfg: Config, m: Markable)
    requires m.mention.form == "proper" && m.mention.text == "the U.S."
    ensures !HeadRemovable(cfg, m)
  {
    assert Stripped(m.mention.text);
    assert Strip(m.mention.text) == "the U.S.";
  }

  /** ... and so is "U.S. Government". */
  lemma UsGovernmentExempt(cfg: Config, m: Markable)
    requires m.mention.form == "proper" && m.mention.text == "U.S. Government"
    ensures !HeadRemovable(cfg, m)
  {
    assert Stripped(m.mention.text);
    assert Strip(m.mention.text) == "U.S. Government";
  }
}
