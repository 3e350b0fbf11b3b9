/**
 * The markable records the postprocessing pass works on, kept in an arena:
 * a markable is identified by its index in the document's markable sequence,
 * and an antecedent link is such an index (None stands for the "none" sentinel).
 */
module Markables {

  datatype Option<T> = None | Some(value: T)

  /** A markable identifier: `Ref(n)` stands for "referent_n" (and `Ref(0)` for
      the inactive id "0"); `Env` stands for the id "env" of an envelope. */
  datatype Ident = Ref(n: nat) | Env

  const Inactive: Ident := Ref(0)

  /** The fields of the syntactic head token that the pass reads. */
  datatype Head = Head(id: string, func: string, childFuncs: seq<string>)

  /** The descriptive fields of a markable, which the passes read but never
      change (a merge builds a new one for the envelope). */
  datatype Mention = Mention(
    head: Head,
    form: string,
    definiteness: string,
    start: int,
    end: int,
    text: string,
    entity: string,
    entityCertainty: string,
    subclass: string,
    infstat: string,
    agree: string,
    sentence: int,
    corefType: string,
    altEntities: seq<string>,
    altSubclasses: seq<string>,
    altAgree: seq<string>)

  /** A markable: its coreference fields, which the passes rewire, and its mention.
      `nonAntecedentGroups` is set on envelopes only. */
  datatype Markable = Markable(
    id: Ident,
    antecedent: Option<nat>,
    group: int,
    nonAntecedentGroups: Option<nat>,
    mention: Mention)

  predicate Active(m: Markable) {
    m.id != Inactive
  }

  /** Every id is numeric (no envelope yet), so `splice_out` can parse it. */
  predicate Parsed(ms: seq<Markable>) {
    forall i :: 0 <= i < |ms| ==> ms[i].id.Ref?
  }

  /** Every link stored in a markable refers to a markable of the arena. */
  predicate Closed(ms: seq<Markable>) {
    forall i :: 0 <= i < |ms| ==>
      (ms[i].antecedent.Some? ==> ms[i].antecedent.value < |ms|) &&
      (ms[i].nonAntecedentGroups.Some? ==> ms[i].nonAntecedentGroups.value < |ms|)
  }

  /** Every index in `xs` names a markable of an arena of size `n`. */
  predicate InArena(xs: seq<nat>, n: nat) {
    forall i :: 0 <= i < |xs| ==> xs[i] < n
  }

  /** `b` is `a` with at most its id, antecedent and group changed. */
  predicate SameMention(a: Markable, b: Markable) {
    a.mention == b.mention && a.nonAntecedentGroups == b.nonAntecedentGroups
  }

  predicate SameMentions(a: seq<Markable>, b: seq<Markable>) {
    |a| == |b| && forall i :: 0 <= i < |a| ==> SameMention(a[i], b[i])
  }

  lemma SameMentionsTrans(a: seq<Markable>, b: seq<Markable>, c: seq<Markable>)
    requires SameMentions(a, b) && SameMentions(b, c)
    ensures SameMentions(a, c)
  {
  }

  /** The span length compared by the overlap pass. */
  function Span(m: Markable): int {
    m.mention.end - m.mention.start
  }

  /** `markables_overlap` (defined outside this module): the inclusive token
      ranges of the two markables intersect. */
  predicate MarkablesOverlap(a: Markable, b: Markable) {
    a.mention.start <= b.mention.end && b.mention.start <= a.mention.end
  }

  lemma OverlapSymmetric(a: Markable, b: Markable)
    ensures MarkablesOverlap(a, b) == MarkablesOverlap(b, a)
  {
  }

  /** The characters Python's `str.strip()` removes (those for which `isspace()` holds). */
  const Whitespace: set<char> := {
    ' ', '\t', '\n', '\U{0B}', '\U{0C}', '\r', '\U{1C}', '\U{1D}', '\U{1E}', '\U{1F}', '\U{85}', '\U{A0}',
    '\U{1680}', '\U{2000}', '\U{2001}', '\U{2002}', '\U{2003}', '\U{2004}', '\U{2005}', '\U{2006}',
    '\U{2007}', '\U{2008}', '\U{2009}', '\U{200A}', '\U{2028}', '\U{2029}', '\U{202F}', '\U{205F}', '\U{3000}'}

  predicate IsSpace(c: char) {
    c in Whitespace
  }

  /** No whitespace at either end. */
  predicate Stripped(s: string) {
    s == [] || (!IsSpace(s[0]) && !IsSpace(s[|s| - 1]))
  }

  /** The number of whitespace characters at the front of `s`. */
  function LeadingSpace(s: string): (k: nat)
    ensures k <= |s|
    ensures forall i :: 0 <= i < k ==> IsSpace(s[i])
    ensures k == |s| || !IsSpace(s[k])
  {
    if s != [] && IsSpace(s[0]) then 1 + LeadingSpace(s[1..]) else 0
  }

  /** The number of whitespace characters at the back of `s`. */
  function TrailingSpace(s: string): (k: nat)
    ensures k <= |s|
    ensures forall i :: |s| - k <= i < |s| ==> IsSpace(s[i])
    ensures k == |s| || !IsSpace(s[|s| - 1 - k])
  {
    if s != [] && IsSpace(s[|s| - 1]) then 1 + TrailingSpace(s[..|s| - 1]) else 0
  }

  /** `lstrip()`: `s` without its leading whitespace. */
  function TrimLeft(s: string): (r: string)
    ensures |r| <= |s| && r == s[|s| - |r|..]
    ensures r == [] || !IsSpace(r[0])
    ensures forall i :: 0 <= i < |s| - |r| ==> IsSpace(s[i])
  {
    s[LeadingSpace(s)..]
  }

  /** `rstrip()`: `s` without its trailing whitespace. */
  function TrimRight(s: string): (r: string)
    ensures |r| <= |s| && r == s[..|r|]
    ensures r == [] || !IsSpace(r[|r| - 1])
    ensures forall i :: |r| <= i < |s| ==> IsSpace(s[i])
  {
    s[..|s| - TrailingSpace(s)]
  }

  /** Python's `text.strip()`: the slice of `s` that starts after its leading
      whitespace and ends before its trailing whitespace. */
  function Strip(s: string): (r: string)
    ensures Stripped(r) && |r| <= |s|
    ensures Stripped(s) ==> r == s
    ensures var a := LeadingSpace(s);
      && a + |r| <= |s| && r == s[a..a + |r|]
      && forall i :: a + |r| <= i < |s| ==> IsSpace(s[i])
  {
    var a := LeadingSpace(s);
    var l := s[a..];
    var r := l[..|l| - TrailingSpace(l)];
    assert r == s[a..a + |r|];
    assert forall i :: a + |r| <= i < |s| ==> s[i] == l[i - a];
    r
  }

  /** `strip()` removes the leading whitespace, then the trailing whitespace. */
  lemma StripHalves(s: string)
    ensures Strip(s) == TrimRight(TrimLeft(s))
  {
    var a := LeadingSpace(s);
    var l := TrimLeft(s);
    assert l == s[a..];
    var r := TrimRight(l);
    var t := Strip(s);
    assert t == l[..|t|];
  }

  lemma StripIdempotent(s: string)
    ensures Strip(Strip(s)) == Strip(s)
  {
  }
}
