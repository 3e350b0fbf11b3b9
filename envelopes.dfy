/**
 * Appositive envelopes (lines 78-104 and `create_envelope`, lines 126-149).
 * The document state the pass changes is the markable arena plus the three
 * lookup tables keyed by start token, end token and head id.
 */
module Envelopes {
  import opened Markables
  import opened Chains

  /** `create_envelope(first, second)`: the merged markable of an appositive pair. */
  function CreateEnvelope(first: Markable, second: Markable): Markable {
    Markable(
      Env, first.antecedent, first.group, None,
      first.mention.(
        form := if first.mention.form == "proper" || second.mention.form == "proper" then "proper" else "common",
        end := second.mention.end,
        text := Strip(first.mention.text) + " " + Strip(second.mention.text),
        entity := second.mention.entity,
        entityCertainty := second.mention.entityCertainty))
  }

  /** The envelope is proper exactly when one of its parts is, and common otherwise. */
  lemma EnvelopeForm(first: Markable, second: Markable)
    ensures var e := CreateEnvelope(first, second);
      (e.mention.form == "proper" <==> first.mention.form == "proper" || second.mention.form == "proper") &&
      (e.mention.form != "proper" ==> e.mention.form == "common")
  {
  }

  /** The envelope runs from the start of `first` to the end of `second`, takes
      its entity reading from `second` and every field the merge does not
      recompute from `first`; it is an envelope, not a referent. */
  lemma EnvelopeFields(first: Markable, second: Markable)
    ensures var e := CreateEnvelope(first, second);
      && e.id == Env && e.mention.start == first.mention.start && e.mention.end == second.mention.end
      && e.mention.entity == second.mention.entity && e.mention.entityCertainty == second.mention.entityCertainty
      && e.mention.head == first.mention.head && e.mention.definiteness == first.mention.definiteness && e.mention.subclass == first.mention.subclass
      && e.mention.infstat == first.mention.infstat && e.mention.agree == first.mention.agree && e.mention.sentence == first.mention.sentence
      && e.antecedent == first.antecedent && e.mention.corefType == first.mention.corefType && e.group == first.group
      && e.mention.altEntities == first.mention.altEntities && e.mention.altSubclasses == first.mention.altSubclasses && e.mention.altAgree == first.mention.altAgree
  {
  }

  /** When `first` precedes `second`, the envelope's span contains both parts. */
  lemma EnvelopeCovers(first: Markable, second: Markable)
    requires first.mention.start <= second.mention.start && first.mention.end <= second.mention.end
    ensures var e := CreateEnvelope(first, second);
      e.mention.start <= first.mention.start && first.mention.end <= e.mention.end && e.mention.start <= second.mention.start && second.mention.end <= e.mention.end
  {
  }

  /** The text is the two trimmed texts around one space; when neither trims to
      nothing, the joined text has no surrounding whitespace either. */
  lemma EnvelopeText(first: Markable, second: Markable)
    ensures var e := CreateEnvelope(first, second);
      var a, b := Strip(first.mention.text), Strip(second.mention.text);
      && |e.mention.text| == |a| + 1 + |b|
      && e.mention.text[..|a|] == a && e.mention.text[|a|] == ' ' && e.mention.text[|a| + 1..] == b
      && (a != [] && b != [] ==> Stripped(e.mention.text))
  {
    var e := CreateEnvelope(first, second);
    var a, b := Strip(first.mention.text), Strip(second.mention.text);
    assert e.mention.text == a + [' '] + b;
  }

  /** The appositive pair spanning tokens 0-2 and 3-5 gives an envelope over
      tokens 0-5 with the second part's entity reading. */
  lemma EnvelopeExample(first: Markable, second: Markable)
    requires first.mention.start == 0 && first.mention.end == 2 && second.mention.start == 3 && second.mention.end == 5
    ensures var e := CreateEnvelope(first, second);
      e.mention.start == 0 && e.mention.end == 5 && e.mention.entity == second.mention.entity && e.mention.entityCertainty == second.mention.entityCertainty
  {
  }

  // ------------------------------------------------------------ the document

  /** The arena and the three lookup tables `markstart`, `markend`, `markbyhead`. */
  datatype Doc = Doc(
    marks: seq<Markable>,
    markStart: map<int, seq<nat>>,
    markEnd: map<int, seq<nat>>,
    markByHead: map<string, nat>)

  /** `table[k]`, with a missing key read as an empty list. */
  function Lookup(table: map<int, seq<nat>>, k: int): seq<nat> {
    if k in table then table[k] else []
  }

  /** The key a start or end table files a markable under. */
  function Key(m: Markable, byStart: bool): int {
    if byStart then m.mention.start else m.mention.end
  }

  /** Every markable a start (or end) table lists is in the arena and has that key. */
  predicate TableOk(t: map<int, seq<nat>>, ms: seq<Markable>, byStart: bool) {
    forall k, x {:trigger x in t[k]} :: k in t && x in t[k] ==> x < |ms| && Key(ms[x], byStart) == k
  }

  /** The tables list markables of the arena under their own start and end,
      and the head table names markables of the arena. */
  predicate Indexed(d: Doc) {
    && TableOk(d.markStart, d.marks, true)
    && TableOk(d.markEnd, d.marks, false)
    && (forall h :: h in d.markByHead ==> d.markByHead[h] < |d.marks|)
  }

  /** Lines 90-91: `table[k].append(n)`, on the lookup-or-empty table. */
  function Registered(t: map<int, seq<nat>>, k: int, n: nat): map<int, seq<nat>> {
    t[k := Lookup(t, k) + [n]]
  }

  /** Line 94: the head table key of an envelope, the two head ids joined by "_". */
  function HeadKey(first: Markable, second: Markable): string {
    first.mention.head.id + "_" + second.mention.head.id
  }

  /** Registering `n` under its own key keeps a table consistent with an arena
      that only grew and kept every old markable's key. */
  lemma RegisteredOk(t: map<int, seq<nat>>, ms: seq<Markable>, ms': seq<Markable>, byStart: bool, n: nat)
    requires TableOk(t, ms, byStart) && |ms| <= |ms'| && n < |ms'|
    requires forall i :: 0 <= i < |ms| ==> Key(ms'[i], byStart) == Key(ms[i], byStart)
    ensures TableOk(Registered(t, Key(ms'[n], byStart), n), ms', byStart)
  {
    var r := Registered(t, Key(ms'[n], byStart), n);
    forall k, x | k in r && x in r[k] ensures x < |ms'| && Key(ms'[x], byStart) == k {
      if k != Key(ms'[n], byStart) {
        assert x in t[k];
      } else if x != n {
        assert x in t[k];
      }
    }
  }

  /** Every registration appends: a table after it lists what it listed before. */
  lemma RegisteredKeeps(t: map<int, seq<nat>>, k: int, n: nat, k': int)
    requires k' in t
    ensures var r := Registered(t, k, n);
      k' in r && (forall x :: x in t[k'] ==> x in r[k']) && (k' == k ==> n in r[k'])
  {
  }

  /** Lines 84-85: `mark = ms[x]` has an appositive antecedent `prev` that has an
      antecedent `prevprev` (both links name markables of the arena). */
  predicate Mergeable(ms: seq<Markable>, x: nat)
    requires x < |ms|
  {
    && ms[x].antecedent.Some? && ms[x].antecedent.value < |ms|
    && ms[ms[x].antecedent.value].mention.corefType == "appos"
    && ms[ms[x].antecedent.value].antecedent.Some?
    && ms[ms[x].antecedent.value].antecedent.value < |ms|
  }

  /** Lines 98-104 on the arena once the envelope `ms1[n]` is appended: what
      the source's writes leave at each position, also when `mark`, `prev` and
      `prevprev` are not distinct (see `RewireWrites`). */
  function Rewire(ms1: seq<Markable>, x: nat, p: nat, pp: nat, n: nat, ab: int): (r: seq<Markable>)
    requires x < |ms1| && p < |ms1| && pp < |ms1| && n < |ms1|
    ensures |r| == |ms1|
  {
    seq(|ms1|, i requires 0 <= i < |ms1| => ms1[i].(
      group := if i == pp || i == p then ab else ms1[i].group,
      antecedent := if i == pp then None else if i == x then Some(n) else ms1[i].antecedent,
      nonAntecedentGroups := if i == n then ms1[p].antecedent else ms1[i].nonAntecedentGroups))
  }

  /** The writes of lines 98-104 in the source's order: the envelope records
      `prev.antecedent`, both parts take the group `ab`, `mark` is linked to the
      envelope, and last `prevprev` loses its link. */
  lemma RewireWrites(ms1: seq<Markable>, x: nat, p: nat, pp: nat, n: nat, ab: int)
    requires x < n && p < n && pp < n && n < |ms1|
    ensures var ms2 := ms1[n := ms1[n].(nonAntecedentGroups := ms1[p].antecedent)];
      var ms3 := ms2[pp := ms2[pp].(group := ab)];
      var ms4 := ms3[p := ms3[p].(group := ab)];
      var ms5 := ms4[x := ms4[x].(antecedent := Some(n))];
      ms5[pp := ms5[pp].(antecedent := None)] == Rewire(ms1, x, p, pp, n, ab)
  {
    var ms2 := ms1[n := ms1[n].(nonAntecedentGroups := ms1[p].antecedent)];
    var ms3 := ms2[pp := ms2[pp].(group := ab)];
    var ms4 := ms3[p := ms3[p].(group := ab)];
    var ms5 := ms4[x := ms4[x].(antecedent := Some(n))];
    var ms6 := ms5[pp := ms5[pp].(antecedent := None)];
    var r := Rewire(ms1, x, p, pp, n, ab);
    forall i | 0 <= i < |ms1| ensures ms6[i] == r[i] {
    }
  }

  /** Lines 86-104 with `mark = ms[x]`, `prev = ms[p]`, `prevprev = ms[pp]`
      and the envelope `e`. */
  function Merged(d: Doc, x: nat, p: nat, pp: nat, e: Markable): (r: Doc)
    requires x < |d.marks| && p < |d.marks| && pp < |d.marks|
    ensures |r.marks| == |d.marks| + 1
  {
    var ms := d.marks;
    Doc(Rewire(ms + [e], x, p, pp, |ms|, 1000 + ms[pp].group + ms[p].group),
        Registered(d.markStart, e.mention.start, |ms|),
        Registered(d.markEnd, e.mention.end, |ms|),
        d.markByHead[HeadKey(ms[pp], ms[p]) := |ms|])
  }

  /** Lines 82-104 for `mark = ms[x]`. */
  function MergeAt(d: Doc, x: nat): (r: Doc)
    requires x < |d.marks|
    ensures |d.marks| <= |r.marks|
  {
    if !Mergeable(d.marks, x) then d
    else
      var ms := d.marks;
      var p := ms[x].antecedent.value;
      var pp := ms[p].antecedent.value;
      Merged(d, x, p, pp, CreateEnvelope(ms[pp], ms[p]))
  }

  /** `r` extends `d`: the old markables keep their mention fields and ids, and
      every appended markable is an envelope. */
  predicate Extends(d: seq<Markable>, r: seq<Markable>) {
    && |d| <= |r|
    && (forall i :: 0 <= i < |d| ==> SameMention(d[i], r[i]) && r[i].id == d[i].id)
    && (forall i :: |d| <= i < |r| ==> r[i].id == Env)
  }

  lemma ExtendsTrans(a: seq<Markable>, b: seq<Markable>, c: seq<Markable>)
    requires Extends(a, b) && Extends(b, c)
    ensures Extends(a, c)
  {
  }

  /** What `Merged` leaves at position `i` of the arena. */
  lemma MergedAt(d: Doc, x: nat, p: nat, pp: nat, e: Markable, i: nat)
    requires x < |d.marks| && p < |d.marks| && pp < |d.marks| && i <= |d.marks|
    ensures var ms := d.marks;
      var n := |ms|;
      var src := if i < n then ms[i] else e;
      Merged(d, x, p, pp, e).marks[i] == src.(
        group := if i == pp || i == p then 1000 + ms[pp].group + ms[p].group else src.group,
        antecedent := if i == pp then None else if i == x then Some(n) else src.antecedent,
        nonAntecedentGroups := if i == n then ms[p].antecedent else src.nonAntecedentGroups)
  {
    var ms1 := d.marks + [e];
    assert ms1[i] == if i < |d.marks| then d.marks[i] else e;
    assert ms1[p] == d.marks[p];
  }

  /** One merge step keeps every link inside the arena and only appends an envelope. */
  lemma MergeClosed(d: Doc, x: nat)
    requires Closed(d.marks) && x < |d.marks|
    ensures var r := MergeAt(d, x);
      Closed(r.marks) && Extends(d.marks, r.marks)
  {
    if Mergeable(d.marks, x) {
      var ms := d.marks;
      var p := ms[x].antecedent.value;
      var pp := ms[p].antecedent.value;
      var e := CreateEnvelope(ms[pp], ms[p]);
      assert e.antecedent == ms[pp].antecedent && e.id == Env && e.nonAntecedentGroups == None;
      MergedClosed(d, x, p, pp, e);
    }
  }

  lemma MergedClosed(d: Doc, x: nat, p: nat, pp: nat, e: Markable)
    requires Closed(d.marks) && x < |d.marks| && p < |d.marks| && pp < |d.marks|
    requires e.id == Env && (e.antecedent.Some? ==> e.antecedent.value < |d.marks|) && e.nonAntecedentGroups == None
    ensures var r := Merged(d, x, p, pp, e);
      Closed(r.marks) && Extends(d.marks, r.marks)
  {
    var ms := d.marks;
    var r := Merged(d, x, p, pp, e).marks;
    forall i | 0 <= i < |r|
      ensures (r[i].antecedent.Some? ==> r[i].antecedent.value < |r|)
      ensures (r[i].nonAntecedentGroups.Some? ==> r[i].nonAntecedentGroups.value < |r|)
      ensures i < |ms| ==> SameMention(ms[i], r[i]) && r[i].id == ms[i].id
      ensures i >= |ms| ==> r[i].id == Env
    {
      MergedAt(d, x, p, pp, e, i);
    }
  }

  /** One merge step keeps the tables consistent with the arena. */
  lemma MergeIndexed(d: Doc, x: nat)
    requires x < |d.marks| && Indexed(d)
    ensures Indexed(MergeAt(d, x))
  {
    if Mergeable(d.marks, x) {
      var ms := d.marks;
      var p := ms[x].antecedent.value;
      var pp := ms[p].antecedent.value;
      var e := CreateEnvelope(ms[pp], ms[p]);
      assert MergeAt(d, x) == Merged(d, x, p, pp, e);
      MergedIndexed(d, x, p, pp, e);
    }
  }

  lemma MergedIndexed(d: Doc, x: nat, p: nat, pp: nat, e: Markable)
    requires x < |d.marks| && p < |d.marks| && pp < |d.marks| && Indexed(d)
    ensures Indexed(Merged(d, x, p, pp, e))
  {
    var ms := d.marks;
    var n := |ms|;
    var r := Merged(d, x, p, pp, e);
    forall i | 0 <= i <= n ensures i < n ==> r.marks[i].mention == ms[i].mention
      ensures i == n ==> r.marks[i].mention == e.mention
    {
      MergedAt(d, x, p, pp, e, i);
    }
    RegisteredOk(d.markStart, ms, r.marks, true, n);
    RegisteredOk(d.markEnd, ms, r.marks, false, n);
  }

  /** After a merge: the envelope is appended and registered under its start,
      its end and the joined head ids; it spans the pair, reads its entity from
      `prev`, records `prevprev` as absorbed and inherits `prevprev`'s old link;
      both parts share the group `1000 + prevprev.group + prev.group`; `mark`
      now points to the envelope (unless `mark` is `prevprev` itself), the link
      of `prevprev` is severed, and no other markable changes. */
  lemma MergeEffect(d: Doc, x: nat)
    requires x < |d.marks| && Mergeable(d.marks, x)
    ensures var ms := d.marks;
      var p := ms[x].antecedent.value;
      var pp := ms[p].antecedent.value;
      var n := |ms|;
      var ab := 1000 + ms[pp].group + ms[p].group;
      var r := MergeAt(d, x);
      && |r.marks| == n + 1
      && r.marks[n].id == Env && r.marks[n].mention.start == ms[pp].mention.start && r.marks[n].mention.end == ms[p].mention.end
      && r.marks[n].mention.entity == ms[p].mention.entity && r.marks[n].mention.head == ms[pp].mention.head
      && r.marks[n].nonAntecedentGroups == Some(pp) && r.marks[n].antecedent == ms[pp].antecedent
      && r.marks[n] == CreateEnvelope(ms[pp], ms[p]).(nonAntecedentGroups := Some(pp))
      && r.markStart[ms[pp].mention.start] == Lookup(d.markStart, ms[pp].mention.start) + [n]
      && r.markEnd[ms[p].mention.end] == Lookup(d.markEnd, ms[p].mention.end) + [n]
      && r.markByHead[HeadKey(ms[pp], ms[p])] == n
      && r.marks[pp].group == ab && r.marks[p].group == ab
      && r.marks[pp].antecedent == None
      && (x != pp ==> r.marks[x].antecedent == Some(n))
      && (forall i :: 0 <= i < n && i != x && i != p && i != pp ==> r.marks[i] == ms[i])
  {
    var ms := d.marks;
    var p := ms[x].antecedent.value;
    var pp := ms[p].antecedent.value;
    var n := |ms|;
    var e := CreateEnvelope(ms[pp], ms[p]);
    assert MergeAt(d, x) == Merged(d, x, p, pp, e);
    MergedAt(d, x, p, pp, e, n);
    MergedAt(d, x, p, pp, e, pp);
    MergedAt(d, x, p, pp, e, p);
    MergedAt(d, x, p, pp, e, x);
    forall i | 0 <= i < n && i != x && i != p && i != pp ensures MergeAt(d, x).marks[i] == ms[i] {
      MergedAt(d, x, p, pp, e, i);
    }
  }

  /** What a merge leaves alone: every old markable keeps its id, its mention
      and its recorded absorbed link (`mark`, `prev` and `prevprev` included),
      `prev` keeps its link and `mark` its group (when they are distinct from
      the other two). */
  lemma MergeFrame(d: Doc, x: nat)
    requires x < |d.marks| && Mergeable(d.marks, x)
    ensures var ms := d.marks;
      var p := ms[x].antecedent.value;
      var pp := ms[p].antecedent.value;
      var r := MergeAt(d, x);
      && |r.marks| == |ms| + 1
      && (p != x && p != pp ==> r.marks[p].antecedent == ms[p].antecedent)
      && (x != p && x != pp ==> r.marks[x].group == ms[x].group)
      && (forall i :: 0 <= i < |ms| ==>
            r.marks[i].id == ms[i].id && r.marks[i].mention == ms[i].mention &&
            r.marks[i].nonAntecedentGroups == ms[i].nonAntecedentGroups)
  {
    var ms := d.marks;
    var p := ms[x].antecedent.value;
    var pp := ms[p].antecedent.value;
    var e := CreateEnvelope(ms[pp], ms[p]);
    assert MergeAt(d, x) == Merged(d, x, p, pp, e);
    forall i | 0 <= i < |ms|
      ensures MergeAt(d, x).marks[i].id == ms[i].id && MergeAt(d, x).marks[i].mention == ms[i].mention
      ensures MergeAt(d, x).marks[i].nonAntecedentGroups == ms[i].nonAntecedentGroups
      ensures i == p && p != x && p != pp ==> MergeAt(d, x).marks[p].antecedent == ms[p].antecedent
      ensures i == x && x != p && x != pp ==> MergeAt(d, x).marks[x].group == ms[x].group
    {
      MergedAt(d, x, p, pp, e, i);
    }
  }

  /** A merge changes the start, end and head tables at the envelope's own keys only. */
  lemma MergeTables(d: Doc, x: nat)
    requires x < |d.marks| && Mergeable(d.marks, x)
    ensures var ms := d.marks;
      var p := ms[x].antecedent.value;
      var pp := ms[p].antecedent.value;
      var r := MergeAt(d, x);
      && (forall k :: k != ms[pp].mention.start ==> Lookup(r.markStart, k) == Lookup(d.markStart, k))
      && (forall k :: k != ms[p].mention.end ==> Lookup(r.markEnd, k) == Lookup(d.markEnd, k))
      && (forall k :: k in d.markByHead && k != HeadKey(ms[pp], ms[p]) ==> k in r.markByHead && r.markByHead[k] == d.markByHead[k])
  {
    var ms := d.marks;
    var p := ms[x].antecedent.value;
    var pp := ms[p].antecedent.value;
    var e := CreateEnvelope(ms[pp], ms[p]);
    assert MergeAt(d, x) == Merged(d, x, p, pp, e);
    assert e.mention.start == ms[pp].mention.start && e.mention.end == ms[p].mention.end;
    MergedTables(d, x, p, pp, e);
  }

  lemma MergedTables(d: Doc, x: nat, p: nat, pp: nat, e: Markable)
    requires x < |d.marks| && p < |d.marks| && pp < |d.marks|
    ensures var r := Merged(d, x, p, pp, e);
      && (forall k :: k != e.mention.start ==> Lookup(r.markStart, k) == Lookup(d.markStart, k))
      && (forall k :: k != e.mention.end ==> Lookup(r.markEnd, k) == Lookup(d.markEnd, k))
      && (forall k :: k in d.markByHead && k != HeadKey(d.marks[pp], d.marks[p]) ==> k in r.markByHead && r.markByHead[k] == d.markByHead[k])
  {
  }

  /** The positions `g[|g| - 1], g[|g| - 2], ..., g[lo]`: the order in which
      `reversed(range(lo, len(g)))` visits the list. */
  function Down(g: seq<nat>, lo: nat): seq<nat>
    decreases |g| - lo
  {
    if lo >= |g| then [] else Down(g, lo + 1) + [g[lo]]
  }

  /** `Down` is `g[lo..]` backwards. */
  lemma {:induction false} DownAt(g: seq<nat>, lo: nat)
    requires lo <= |g|
    ensures |Down(g, lo)| == |g| - lo
    ensures forall j :: 0 <= j < |g| - lo ==> Down(g, lo)[j] == g[|g| - 1 - j]
    decreases |g| - lo
  {
    if lo < |g| {
      DownAt(g, lo + 1);
    }
  }

  lemma DownIn(g: seq<nat>, lo: nat, n: nat)
    requires InArena(g, n) && lo <= |g|
    ensures InArena(Down(g, lo), n)
  {
    DownAt(g, lo);
    forall j | 0 <= j < |Down(g, lo)| ensures Down(g, lo)[j] < n {
      assert g[|g| - 1 - j] in g;
    }
  }

  /** Lines 80-82 visit every position but the first, from the last down: the
      first member of a group list is never processed as `mark`. */
  lemma VisitOrder(g: seq<nat>)
    requires g != []
    ensures |Down(g, 1)| == |g| - 1
    ensures forall j :: 0 <= j < |g| - 1 ==> Down(g, 1)[j] == g[|g| - 1 - j]
    ensures Increasing(g) ==> g[0] !in Down(g, 1)
  {
    DownAt(g, 1);
    if Increasing(g) {
      forall j | 0 <= j < |g| - 1 ensures Down(g, 1)[j] != g[0] {
        assert g[0] < g[|g| - 1 - j];
      }
    }
  }

  /** `MergeAt` for every position of `xs` in turn. */
  function MergeAll(d: Doc, xs: seq<nat>): (r: Doc)
    requires InArena(xs, |d.marks|)
    ensures |d.marks| <= |r.marks|
  {
    if xs == [] then d
    else
      var c := MergeAll(d, xs[..|xs| - 1]);
      MergeAt(c, xs[|xs| - 1])
  }

  /** One more position of the downward walk. */
  lemma MergeAllSnoc(d: Doc, g: seq<nat>, i: nat)
    requires InArena(g, |d.marks|) && i < |g|
    ensures InArena(Down(g, i), |d.marks|) && InArena(Down(g, i + 1), |d.marks|)
    ensures MergeAll(d, Down(g, i)) == MergeAt(MergeAll(d, Down(g, i + 1)), g[i])
  {
    DownIn(g, i, |d.marks|);
    DownIn(g, i + 1, |d.marks|);
    var xs := Down(g, i);
    assert xs == Down(g, i + 1) + [g[i]];
    assert xs[..|xs| - 1] == Down(g, i + 1);
  }

  /** The envelope loop over one group list. */
  function EnvGroup(d: Doc, g: seq<nat>): Doc
    requires InArena(g, |d.marks|)
  {
    if g == [] then d
    else
      DownIn(g, 1, |d.marks|);
      MergeAll(d, Down(g, 1))
  }

  /** The document invariants the envelope pass keeps. */
  predicate Kept(d: Doc, r: Doc) {
    Closed(r.marks) && Extends(d.marks, r.marks) && (Indexed(d) ==> Indexed(r))
  }

  lemma MergeKept(d: Doc, x: nat)
    requires Closed(d.marks) && x < |d.marks|
    ensures Kept(d, MergeAt(d, x))
  {
    MergeClosed(d, x);
    if Indexed(d) {
      MergeIndexed(d, x);
    }
  }

  lemma KeptTrans(a: Doc, b: Doc, c: Doc)
    requires Kept(a, b) && Kept(b, c)
    ensures Kept(a, c)
  {
    ExtendsTrans(a.marks, b.marks, c.marks);
  }

  lemma {:induction false} MergeAllPreserve(d: Doc, xs: seq<nat>)
    requires Closed(d.marks) && InArena(xs, |d.marks|)
    ensures Kept(d, MergeAll(d, xs))
  {
    if xs != [] {
      MergeAllPreserve(d, xs[..|xs| - 1]);
      var c := MergeAll(d, xs[..|xs| - 1]);
      MergeKept(c, xs[|xs| - 1]);
      KeptTrans(d, c, MergeAt(c, xs[|xs| - 1]));
    }
  }

  /** Lines 79-104 for the first `p` groups of `idx.order`. */
  function EnvGroups(d: Doc, idx: GroupIndex, p: nat): (r: Doc)
    requires ListsIn(idx, |d.marks|) && p <= |idx.order|
    ensures |d.marks| <= |r.marks|
  {
    if p == 0 then d
    else
      var c := EnvGroups(d, idx, p - 1);
      MembersIn(idx, |d.marks|, idx.order[p - 1]);
      LiftInArena(Members(idx, idx.order[p - 1]), |d.marks|, |c.marks|);
      EnvGroup(c, Members(idx, idx.order[p - 1]))
  }

  lemma LiftInArena(g: seq<nat>, n: nat, n': nat)
    requires InArena(g, n) && n <= n'
    ensures InArena(g, n')
  {
  }

  /** The envelope pass keeps every link inside the arena and the lookup
      tables consistent with it, and only appends envelopes: every original
      markable keeps its id and its mention fields. */
  lemma {:induction false} EnvGroupsPreserve(d: Doc, idx: GroupIndex, p: nat)
    requires Closed(d.marks) && ListsIn(idx, |d.marks|) && p <= |idx.order|
    ensures Kept(d, EnvGroups(d, idx, p))
  {
    if p > 0 {
      EnvGroupsPreserve(d, idx, p - 1);
      var c := EnvGroups(d, idx, p - 1);
      var g := Members(idx, idx.order[p - 1]);
      MembersIn(idx, |d.marks|, idx.order[p - 1]);
      LiftInArena(g, |d.marks|, |c.marks|);
      if g != [] {
        DownIn(g, 1, |c.marks|);
        MergeAllPreserve(c, Down(g, 1));
      }
      KeptTrans(d, c, EnvGroup(c, g));
    }
  }
}
