/**
  The scan's two passes over short forms (CitationScanBibliographyJob): matchShortFormAntecedents before the
  resolution waves, inheritShortFormResolutions after them.
 */
module ShortFormScan {
  import opened Common
  import opened ShortForms

  /** The columns of a footnotes row the two passes touch. */
  datatype Footnote = Footnote(
    metadata: Option<Meta>, matchMethod: string,
    foundationSource: Option<string>, sourceId: Option<string>, matchScore: Option<real>)

  type Footnotes = map<string, Footnote>

  const SHORT_FORM_METHOD := "short_form_antecedent"

  /** A short form that only the language model can decide. */
  datatype Ambiguity = Ambiguity(id: string, entryIdx: nat, candidates: seq<FullForm>)

  function AmbiguityAt(es: seq<Entry>, k: nat, norm: Normaliser): Ambiguity
    requires k < |es|
  {
    Ambiguity(es[k].id, k, CandidatesFor(es, k, norm))
  }

  /** The ambiguous short forms among the first n entries. */
  function Ambiguities(es: seq<Entry>, n: nat, norm: Normaliser): seq<Ambiguity>
    requires n <= |es|
  {
    if n == 0 then []
    else Ambiguities(es, n - 1, norm) + if Ambiguous(es, n - 1, norm) then [AmbiguityAt(es, n - 1, norm)] else []
  }

  lemma {:induction false} AmbiguitiesSound(es: seq<Entry>, n: nat, norm: Normaliser, a: Ambiguity)
    requires n <= |es| && a in Ambiguities(es, n, norm)
    ensures a.entryIdx < n && Ambiguous(es, a.entryIdx, norm) && a == AmbiguityAt(es, a.entryIdx, norm)
  {
    if a in Ambiguities(es, n - 1, norm) {
      AmbiguitiesSound(es, n - 1, norm, a);
    }
  }

  lemma {:induction false} AmbiguitiesComplete(es: seq<Entry>, n: nat, norm: Normaliser, k: nat)
    requires k < n <= |es| && Ambiguous(es, k, norm)
    ensures AmbiguityAt(es, k, norm) in Ambiguities(es, n, norm)
  {
    if k < n - 1 {
      AmbiguitiesComplete(es, n - 1, norm, k);
    }
  }

  function ReferringIds(es: seq<Entry>): set<string> {
    set e | e in es && Referring(e.meta.kind) :: e.id
  }

  function WithoutIds(ids: seq<string>, dropped: set<string>): seq<string>
  {
    if ids == [] then []
    else
      var last := ids[|ids| - 1];
      WithoutIds(ids[..|ids| - 1], dropped) + if last in dropped then [] else [last]
  }

  /**
    Dropping takes out the dropped ids wherever they stand, and keeps the others, their order and their repetitions.
   */
  lemma {:induction false} DroppingIsLocal(before: seq<string>, id: string, behind: seq<string>, dropped: set<string>)
    ensures WithoutIds(before + [id] + behind, dropped)
      == WithoutIds(before, dropped) + (if id in dropped then [] else [id]) + WithoutIds(behind, dropped)
  {
    DroppingParts(before + [id], behind, dropped);
    assert (before + [id])[..|before|] == before;
  }

  lemma {:induction false} DroppingParts(a: seq<string>, b: seq<string>, dropped: set<string>)
    ensures WithoutIds(a + b, dropped) == WithoutIds(a, dropped) + WithoutIds(b, dropped)
  {
    if b == [] {
      assert a + b == a;
    } else {
      var n := |b| - 1;
      DroppingParts(a, b[..n], dropped);
      assert (a + b)[..|a + b| - 1] == a + b[..n];
    }
  }

  lemma {:induction false} RemainingMembers(ids: seq<string>, dropped: set<string>)
    ensures forall id :: id in WithoutIds(ids, dropped) <==> id in ids && id !in dropped
  {
    if ids != [] {
      var n := |ids| - 1;
      RemainingMembers(ids[..n], dropped);
      assert ids == ids[..n] + [ids[n]];
    }
  }

  /** What stays to be resolved on its own: whatever is not a short form or an ibid. */
  lemma {:induction false} ShortFormsAreDropped(ids: seq<string>, es: seq<Entry>, id: string)
    ensures id in WithoutIds(ids, ReferringIds(es))
      <==> id in ids && forall e | e in es && e.id == id :: e.meta.kind != "short-form" && e.meta.kind != "ibid"
  {
    RemainingMembers(ids, ReferringIds(es));
  }

  /** The map built from the links of the first entries, one link for each. */
  ghost predicate Mapped(m: map<string, string>, es: seq<Entry>, links: seq<Option<Link>>)
    requires |links| <= |es|
  {
    && (forall k | 0 <= k < |links| :: es[k].id in m <==> links[k].Some?)
    && (forall k | 0 <= k < |links| && links[k].Some? :: m[es[k].id] == links[k].value.id)
    && (forall id | id in m :: exists k :: 0 <= k < |links| && es[k].id == id)
  }

  /** The metadata with the links of the first entries substituted. */
  ghost predicate Substituted(metas: seq<Meta>, es: seq<Entry>, links: seq<Option<Link>>)
    requires |links| <= |es|
  {
    && |metas| == |es|
    && (forall k | 0 <= k < |links| :: metas[k] == Linked(es[k].meta, links[k]))
    && (forall k | |links| <= k < |es| :: metas[k] == es[k].meta)
  }

  function LinksOf(es: seq<Entry>, n: nat, norm: Normaliser): (r: seq<Option<Link>>)
    requires n <= |es|
    ensures |r| == n && forall k | 0 <= k < n :: r[k] == LinkOf(es, k, norm)
  {
    if n == 0 then [] else LinksOf(es, n - 1, norm) + [LinkOf(es, n - 1, norm)]
  }

  function FinalLinks(es: seq<Entry>, n: nat, norm: Normaliser, choices: Choices): (r: seq<Option<Link>>)
    requires n <= |es|
    ensures |r| == n && forall k | 0 <= k < n :: r[k] == FinalLink(es, k, norm, choices)
  {
    if n == 0 then [] else FinalLinks(es, n - 1, norm, choices) + [FinalLink(es, n - 1, norm, choices)]
  }

  lemma MappedUpdate(m: map<string, string>, es: seq<Entry>, links: seq<Option<Link>>, i: nat, link: Link)
    requires DistinctIds(es) && |links| == |es| && i < |es| && Mapped(m, es, links)
    ensures Mapped(m[es[i].id := link.id], es, links[i := Some(link)])
  {
    var m' := m[es[i].id := link.id];
    forall id | id in m' ensures exists k :: 0 <= k < |links| && es[k].id == id {
      if id in m {
        var k :| 0 <= k < |links| && es[k].id == id;
      }
    }
  }

  lemma SubstitutedAppend(metas: seq<Meta>, es: seq<Entry>, links: seq<Option<Link>>, link: Option<Link>)
    requires |links| < |es| && Substituted(metas, es, links)
    ensures Substituted(metas[|links| := Linked(es[|links|].meta, link)], es, links + [link])
  {
  }

  lemma SubstitutedUpdate(metas: seq<Meta>, es: seq<Entry>, links: seq<Option<Link>>, i: nat, link: Link)
    requires |links| == |es| && i < |es| && Substituted(metas, es, links)
    ensures Substituted(metas[i := link.meta.(shortFormOf := Some(link.id))], es, links[i := Some(link)])
  {
  }

  lemma ChosenLink(es: seq<Entry>, i: nat, norm: Normaliser, choices: Choices)
    requires i < |es| && Ambiguous(es, i, norm)
    ensures var all := CandidatesFor(es, i, norm);
      var n := if es[i].id in choices then choices[es[i].id] else 0;
      && LinkOf(es, i, norm) == None
      && FinalLink(es, i, norm, choices) == if 1 <= n <= |all| then Some(Link(all[n - 1].id, all[n - 1].meta)) else None
  {
  }

  /** The links once the answers for some short forms have been taken. */
  ghost predicate Heard(
    links: seq<Option<Link>>, es: seq<Entry>, norm: Normaliser, choices: Choices, heard: set<string>)
  {
    && |links| == |es|
    && forall k | 0 <= k < |es| :: links[k] == HeardLink(es, k, norm, choices, heard)
  }

  function HeardLink(es: seq<Entry>, k: nat, norm: Normaliser, choices: Choices, heard: set<string>): Option<Link>
    requires k < |es|
  {
    if es[k].id in heard then FinalLink(es, k, norm, choices) else LinkOf(es, k, norm)
  }

  lemma {:induction false} NothingHeard(es: seq<Entry>, norm: Normaliser, choices: Choices)
    ensures Heard(LinksOf(es, |es|, norm), es, norm, choices, {})
  {
  }

  lemma HearOne(
    links: seq<Option<Link>>, es: seq<Entry>, norm: Normaliser, choices: Choices, heard: set<string>, i: nat)
    requires DistinctIds(es) && i < |es| && Heard(links, es, norm, choices, heard)
    ensures Heard(links[i := FinalLink(es, i, norm, choices)], es, norm, choices, heard + {es[i].id})
  {
  }

  ghost predicate IdsIn(ambiguous: seq<Ambiguity>, n: nat, ids: set<string>)
    requires n <= |ambiguous|
  {
    forall k | 0 <= k < n :: ambiguous[k].id in ids
  }

  lemma OneMoreIn(ambiguous: seq<Ambiguity>, n: nat, ids: set<string>)
    requires n < |ambiguous| && IdsIn(ambiguous, n, ids)
    ensures IdsIn(ambiguous, n + 1, ids + {ambiguous[n].id})
  {
  }

  lemma AllHeard(
    links: seq<Option<Link>>, es: seq<Entry>, norm: Normaliser, choices: Choices, heard: set<string>)
    requires Heard(links, es, norm, choices, heard)
    requires IdsIn(Ambiguities(es, |es|, norm), |Ambiguities(es, |es|, norm)|, heard)
    ensures links == FinalLinks(es, |es|, norm, choices)
  {
    forall k | 0 <= k < |es| ensures links[k] == FinalLink(es, k, norm, choices) {
      if Ambiguous(es, k, norm) {
        AmbiguitiesComplete(es, |es|, norm, k);
      } else {
        assert FinalLink(es, k, norm, choices) == LinkOf(es, k, norm);
      }
    }
  }

  lemma MappedIsLinkMap(m: map<string, string>, es: seq<Entry>, norm: Normaliser, choices: Choices)
    requires Mapped(m, es, FinalLinks(es, |es|, norm, choices))
    ensures IsLinkMap(m, es, norm, choices)
  {
    var links := FinalLinks(es, |es|, norm, choices);
    assert forall k | 0 <= k < |es| :: links[k] == FinalLink(es, k, norm, choices);
  }

  /** Substitution turns a linked short form or ibid into a full citation, and changes nothing else. */
  lemma KindAfterLinking(es: seq<Entry>, k: nat, norm: Normaliser)
    requires k < |es|
    ensures var link := LinkOf(es, k, norm);
      && (link.Some? ==> Referring(es[k].meta.kind) && Citable(Linked(es[k].meta, link).kind))
      && (Relevant(Linked(es[k].meta, link).kind) <==> Relevant(es[k].meta.kind))
      && (Referring(Linked(es[k].meta, link).kind) <==> Referring(es[k].meta.kind) && link == None)
  {
    if LinkOf(es, k, norm).Some? {
      var j := LinkSource(es, k, norm);
      CitableIsNotReferring(es[j].meta.kind);
    }
  }

  /** Full citations from k on, walked nearest first. */
  method FindCandidates(fulls: seq<FullForm>, short: Meta, norm: Normaliser) returns (candidates: seq<FullForm>)
    ensures candidates == Candidates(fulls, 0, short, norm)
  {
    var surname, shortTitle := norm(short.surname), norm(short.shortTitle);
    candidates := [];
    var seenTitles := {};
    var k := |fulls|;
    while k > 0
      invariant 0 <= k <= |fulls|
      invariant candidates == Candidates(fulls, k, short, norm)
      invariant seenTitles == TitlesOf(candidates, norm)
    {
      k := k - 1;
      var f := fulls[k];
      if surname != "" && f.surname != surname {
        continue;
      }
      var title := norm(f.meta.title);
      if shortTitle != "" && title != "" && !(shortTitle <= title) && !Contains(title, shortTitle) {
        continue;
      }
      if surname == "" && shortTitle == "" {
        continue;
      }
      if title in seenTitles {
        continue;
      }
      TitlesSnoc(candidates, f, norm);
      seenTitles := seenTitles + {title};
      candidates := candidates + [f];
    }
  }

  /** The metadata when the pass has reached entry n. */
  ghost predicate ReachedInOrder(metas: seq<Meta>, es: seq<Entry>, n: nat, norm: Normaliser)
    requires n <= |es|
  {
    Substituted(metas, es, LinksOf(es, n, norm))
  }

  /** What an entry is linked to, and the metadata it gets. */
  ghost predicate IsLinkOf(antecedent: Option<string>, meta: Meta, es: seq<Entry>, i: nat, norm: Normaliser)
    requires i < |es|
  {
    && (antecedent.Some? <==> LinkOf(es, i, norm).Some?)
    && (antecedent.Some? ==> antecedent.value == LinkOf(es, i, norm).value.id)
    && meta == Linked(es[i].meta, LinkOf(es, i, norm))
  }

  /** What an entry adds to the list of ambiguous short forms and to the full citations. */
  ghost predicate AddsFrom(undecided: seq<Ambiguity>, full: seq<FullForm>, es: seq<Entry>, i: nat, norm: Normaliser)
    requires i < |es|
  {
    && undecided == (if Ambiguous(es, i, norm) then [AmbiguityAt(es, i, norm)] else [])
    && full == if IsFull(es[i].meta) then [FullFormOf(es[i], norm)] else []
  }

  ghost predicate AreFullForms(fullForms: seq<FullForm>, es: seq<Entry>, n: nat, norm: Normaliser)
    requires n <= |es|
  {
    fullForms == FullForms(es, n, norm)
  }

  /** The outcome of the whole pass. */
  ghost predicate LinkedInOrder(
    metas: seq<Meta>, m: map<string, string>, ambiguous: seq<Ambiguity>, es: seq<Entry>, norm: Normaliser)
  {
    && Substituted(metas, es, LinksOf(es, |es|, norm)) && Mapped(m, es, LinksOf(es, |es|, norm))
    && ambiguous == Ambiguities(es, |es|, norm)
  }

  /** The outcome once the answers are in. */
  ghost predicate LinkedFinally(
    metas: seq<Meta>, m: map<string, string>, es: seq<Entry>, norm: Normaliser, choices: Choices)
  {
    var links := FinalLinks(es, |es|, norm, choices);
    Substituted(metas, es, links) && Mapped(m, es, links)
  }

  /** The walk back from an ibid over metadata that is already substituted. */
  method FollowIbid(es: seq<Entry>, metas: seq<Meta>, i: nat, norm: Normaliser)
    returns (antecedent: Option<string>, meta: Meta)
    requires i < |es| && es[i].meta.kind == "ibid" && ReachedInOrder(metas, es, i, norm)
    ensures IsLinkOf(antecedent, meta, es, i, norm)
  {
    var j := i;
    while j > 0
      invariant 0 <= j <= i
      invariant forall k | j <= k < i :: !Relevant(es[k].meta.kind)
    {
      j := j - 1;
      IbidStops(es, metas, i, j, norm);
      if Citable(metas[j].kind) {
        var id := WorkId(metas[j], es[j].id);
        return Some(id), metas[j].(shortFormOf := Some(id));
      }
      if Referring(metas[j].kind) {
        return None, metas[i];
      }
    }
    return None, metas[i];
  }

  /** short_form_of ?? id */
  function WorkId(meta: Meta, own: string): string {
    match meta.shortFormOf case Some(work) => work case None => own
  }

  /** What the walk back finds out at entry j. */
  lemma {:induction false} IbidStops(es: seq<Entry>, metas: seq<Meta>, i: nat, j: nat, norm: Normaliser)
    requires j < i < |es| && es[i].meta.kind == "ibid" && ReachedInOrder(metas, es, i, norm)
    requires forall k | j < k < i :: !Relevant(es[k].meta.kind)
    ensures |metas| == |es|
    ensures var id := WorkId(metas[j], es[j].id);
      Citable(metas[j].kind) ==> IsLinkOf(Some(id), metas[j].(shortFormOf := Some(id)), es, i, norm)
    ensures Referring(metas[j].kind) ==> IsLinkOf(None, metas[i], es, i, norm)
    ensures !Citable(metas[j].kind) && !Referring(metas[j].kind) ==> !Relevant(es[j].meta.kind)
  {
    assert metas[j] == Linked(es[j].meta, LinkOf(es, j, norm));
    KindAfterLinking(es, j, norm);
    CitableIsNotReferring(metas[j].kind);
    CitableIsNotReferring(es[j].meta.kind);
    if Relevant(es[j].meta.kind) {
      IbidFollows(es, i, j, norm);
    }
  }

  /** What a short form is linked to before the language model is asked; several candidates are put aside. */
  method FollowShortForm(es: seq<Entry>, i: nat, fullForms: seq<FullForm>, norm: Normaliser)
    returns (antecedent: Option<string>, meta: Meta, undecided: seq<Ambiguity>)
    requires i < |es| && es[i].meta.kind == "short-form" && fullForms == FullForms(es, i, norm)
    ensures IsLinkOf(antecedent, meta, es, i, norm)
    ensures undecided == if Ambiguous(es, i, norm) then [AmbiguityAt(es, i, norm)] else []
  {
    antecedent, meta, undecided := None, es[i].meta, [];
    var candidates := FindCandidates(fullForms, es[i].meta, norm);
    if |candidates| == 1 {
      antecedent := Some(candidates[0].id);
      meta := candidates[0].meta.(shortFormOf := antecedent);
    } else if |candidates| > 1 {
      undecided := [Ambiguity(es[i].id, i, candidates)];
    }
  }

  /** One turn of the pass: what entry i is linked to, and what it adds to the two lists. */
  method LinkOne(es: seq<Entry>, metas: seq<Meta>, i: nat, fullForms: seq<FullForm>, norm: Normaliser)
    returns (antecedent: Option<string>, meta: Meta, undecided: seq<Ambiguity>, full: seq<FullForm>)
    requires i < |es| && ReachedInOrder(metas, es, i, norm) && AreFullForms(fullForms, es, i, norm)
    ensures IsLinkOf(antecedent, meta, es, i, norm) && AddsFrom(undecided, full, es, i, norm)
  {
    CitableIsNotReferring(es[i].meta.kind);
    var kind := metas[i].kind;
    antecedent, meta, undecided, full := None, metas[i], [], [];
    if kind == "ibid" {
      antecedent, meta := FollowIbid(es, metas, i, norm);
    } else if kind == "short-form" {
      antecedent, meta, undecided := FollowShortForm(es, i, fullForms, norm);
    } else if Citable(kind) && !Empty(metas[i].title) {
      full := [FullForm(es[i].id, metas[i], SurnameOf(metas[i], norm))];
    }
  }

  /** The pass in document order, rewriting metadata as it goes. */
  method LinkInOrder(es: seq<Entry>, norm: Normaliser)
    returns (metas: seq<Meta>, m: map<string, string>, ambiguous: seq<Ambiguity>)
    requires DistinctIds(es)
    ensures LinkedInOrder(metas, m, ambiguous, es, norm)
  {
    metas := seq(|es|, k requires 0 <= k < |es| => es[k].meta);
    m, ambiguous := map[], [];
    var fullForms: seq<FullForm> := [];
    PassStart(metas, es, norm);
    var i := 0;
    while i < |es|
      invariant 0 <= i <= |es|
      invariant Passing(metas, m, fullForms, ambiguous, es, i, norm)
    {
      metas, m, fullForms, ambiguous := PassEntry(es, i, norm, metas, m, fullForms, ambiguous);
      i := i + 1;
    }
    PassDone(metas, m, fullForms, ambiguous, es, norm);
  }

  /** One entry of the pass. */
  method PassEntry(
    es: seq<Entry>, i: nat, norm: Normaliser,
    metas: seq<Meta>, m: map<string, string>, fullForms: seq<FullForm>, ambiguous: seq<Ambiguity>)
    returns (metas': seq<Meta>, m': map<string, string>, fullForms': seq<FullForm>, ambiguous': seq<Ambiguity>)
    requires DistinctIds(es) && i < |es| && Passing(metas, m, fullForms, ambiguous, es, i, norm)
    ensures Passing(metas', m', fullForms', ambiguous', es, i + 1, norm)
  {
    var antecedent, meta, undecided, full := LinkOne(es, metas, i, fullForms, norm);
    PassOne(metas, m, fullForms, ambiguous, es, i, norm, antecedent, meta, undecided, full);
    metas', m' := metas[i := meta], if antecedent.Some? then m[es[i].id := antecedent.value] else m;
    fullForms', ambiguous' := fullForms + full, ambiguous + undecided;
  }

  lemma {:induction false} PassStart(metas: seq<Meta>, es: seq<Entry>, norm: Normaliser)
    requires |metas| == |es| && forall k | 0 <= k < |es| :: metas[k] == es[k].meta
    ensures Passing(metas, map[], [], [], es, 0, norm)
  {
  }

  lemma {:induction false} PassDone(
    metas: seq<Meta>, m: map<string, string>, fullForms: seq<FullForm>, ambiguous: seq<Ambiguity>,
    es: seq<Entry>, norm: Normaliser)
    requires Passing(metas, m, fullForms, ambiguous, es, |es|, norm)
    ensures LinkedInOrder(metas, m, ambiguous, es, norm)
  {
  }

  /** The state of the pass before entry i. */
  ghost predicate Passing(
    metas: seq<Meta>, m: map<string, string>, fullForms: seq<FullForm>, ambiguous: seq<Ambiguity>,
    es: seq<Entry>, i: nat, norm: Normaliser)
    requires i <= |es|
  {
    && ReachedInOrder(metas, es, i, norm) && Mapped(m, es, LinksOf(es, i, norm))
    && fullForms == FullForms(es, i, norm) && ambiguous == Ambiguities(es, i, norm)
  }

  lemma MappedAppend(m: map<string, string>, es: seq<Entry>, links: seq<Option<Link>>, link: Option<Link>)
    requires DistinctIds(es) && |links| < |es| && Mapped(m, es, links)
    ensures Mapped(if link.Some? then m[es[|links|].id := link.value.id] else m, es, links + [link])
  {
    var m' := if link.Some? then m[es[|links|].id := link.value.id] else m;
    forall id | id in m' ensures exists k :: 0 <= k < |links + [link]| && es[k].id == id {
      if id in m {
        var k :| 0 <= k < |links| && es[k].id == id;
      }
    }
  }

  lemma {:induction false} PassOne(
    metas: seq<Meta>, m: map<string, string>, fullForms: seq<FullForm>, ambiguous: seq<Ambiguity>,
    es: seq<Entry>, i: nat, norm: Normaliser,
    antecedent: Option<string>, meta: Meta, undecided: seq<Ambiguity>, full: seq<FullForm>)
    requires DistinctIds(es) && i < |es| && Passing(metas, m, fullForms, ambiguous, es, i, norm)
    requires IsLinkOf(antecedent, meta, es, i, norm)
    requires AddsFrom(undecided, full, es, i, norm)
    ensures Passing(
      metas[i := meta], if antecedent.Some? then m[es[i].id := antecedent.value] else m,
      fullForms + full, ambiguous + undecided, es, i + 1, norm)
  {
    var links, link := LinksOf(es, i, norm), LinkOf(es, i, norm);
    MappedAppend(m, es, links, link);
    SubstitutedAppend(metas, es, links, link);
    assert LinksOf(es, i + 1, norm) == links + [link];
  }

  /** The answers of the language model, taken one ambiguous short form at a time. */
  method ApplyChoices(
    es: seq<Entry>, norm: Normaliser, choices: Choices, ambiguous: seq<Ambiguity>,
    metas0: seq<Meta>, m0: map<string, string>)
    returns (metas: seq<Meta>, m: map<string, string>)
    requires DistinctIds(es) && LinkedInOrder(metas0, m0, ambiguous, es, norm)
    ensures LinkedFinally(metas, m, es, norm, choices)
  {
    metas, m := metas0, m0;
    ghost var links, heard := LinksOf(es, |es|, norm), {};
    NothingHeard(es, norm, choices);
    var t := 0;
    while t < |ambiguous|
      invariant 0 <= t <= |ambiguous|
      invariant Halfway(metas, m, links, es, norm, choices, heard)
      invariant IdsIn(ambiguous, t, heard)
    {
      metas, m, links := ApplyNext(es, norm, choices, ambiguous[t], metas, m, links, heard);
      OneMoreIn(ambiguous, t, heard);
      heard := heard + {ambiguous[t].id};
      t := t + 1;
    }
    AllHeard(links, es, norm, choices, heard);
  }

  /** The state between two answers. */
  ghost predicate Halfway(
    metas: seq<Meta>, m: map<string, string>, links: seq<Option<Link>>,
    es: seq<Entry>, norm: Normaliser, choices: Choices, heard: set<string>)
  {
    Heard(links, es, norm, choices, heard) && Substituted(metas, es, links) && Mapped(m, es, links)
  }

  method ApplyNext(
    es: seq<Entry>, norm: Normaliser, choices: Choices, a: Ambiguity,
    metas0: seq<Meta>, m0: map<string, string>, ghost links0: seq<Option<Link>>, ghost heard: set<string>)
    returns (metas: seq<Meta>, m: map<string, string>, ghost links: seq<Option<Link>>)
    requires DistinctIds(es) && a in Ambiguities(es, |es|, norm)
    requires Halfway(metas0, m0, links0, es, norm, choices, heard)
    ensures Halfway(metas, m, links, es, norm, choices, heard + {a.id})
  {
    AmbiguitiesSound(es, |es|, norm, a);
    var i := a.entryIdx;
    ChosenLink(es, i, norm, choices);
    HearOne(links0, es, norm, choices, heard, i);
    links := links0[i := FinalLink(es, i, norm, choices)];
    metas, m := ApplyChoice(es, norm, choices, i, a.candidates, metas0, m0, links0);
  }

  method ApplyChoice(
    es: seq<Entry>, norm: Normaliser, choices: Choices, i: nat, candidates: seq<FullForm>,
    metas0: seq<Meta>, m0: map<string, string>, ghost links: seq<Option<Link>>)
    returns (metas: seq<Meta>, m: map<string, string>)
    requires DistinctIds(es) && i < |es| && Ambiguous(es, i, norm) && candidates == CandidatesFor(es, i, norm)
    requires |links| == |es| && links[i] in {None, FinalLink(es, i, norm, choices)}
    requires Substituted(metas0, es, links) && Mapped(m0, es, links)
    ensures Substituted(metas, es, links[i := FinalLink(es, i, norm, choices)])
    ensures Mapped(m, es, links[i := FinalLink(es, i, norm, choices)])
  {
    metas, m := metas0, m0;
    ChosenLink(es, i, norm, choices);
    var n := if es[i].id in choices then choices[es[i].id] else 0;
    if 1 <= n <= |candidates| {
      var chosen := candidates[n - 1];
      MappedUpdate(m, es, links, i, Link(chosen.id, chosen.meta));
      SubstitutedUpdate(metas, es, links, i, Link(chosen.id, chosen.meta));
      m := m[es[i].id := chosen.id];
      metas := metas[i := chosen.meta.(shortFormOf := Some(chosen.id))];
    } else {
      assert links[i := FinalLink(es, i, norm, choices)] == links;
    }
  }

  // Writing back and dropping.

  function Rewritten(row: Footnote, meta: Meta): Footnote {
    row.(metadata := Some(meta), matchMethod := SHORT_FORM_METHOD)
  }

  function AfterRewrite(rows: Footnotes, id: string, meta: Meta): Footnotes {
    if id in rows then rows[id := Rewritten(rows[id], meta)] else rows
  }

  /** The table after the links of the first n entries have been written back. */
  function WrittenBack(rows: Footnotes, es: seq<Entry>, links: seq<Option<Link>>, n: nat): Footnotes
    requires n <= |es| == |links|
  {
    if n == 0 then rows
    else
      var before := WrittenBack(rows, es, links, n - 1);
      if links[n - 1].Some? then AfterRewrite(before, es[n - 1].id, Linked(es[n - 1].meta, links[n - 1])) else before
  }

  lemma WrittenBackStep(rows: Footnotes, es: seq<Entry>, links: seq<Option<Link>>, i: nat)
    requires i < |es| == |links|
    ensures WrittenBack(rows, es, links, i + 1) ==
      if links[i].Some? then AfterRewrite(WrittenBack(rows, es, links, i), es[i].id, Linked(es[i].meta, links[i]))
      else WrittenBack(rows, es, links, i)
  {
  }

  lemma {:induction false} WrittenBackElsewhere(
    rows: Footnotes, es: seq<Entry>, links: seq<Option<Link>>, n: nat, id: string)
    requires n <= |es| == |links| && forall k | 0 <= k < n && links[k].Some? :: es[k].id != id
    ensures id in WrittenBack(rows, es, links, n) <==> id in rows
    ensures id in rows ==> WrittenBack(rows, es, links, n)[id] == rows[id]
  {
    if n > 0 {
      WrittenBackElsewhere(rows, es, links, n - 1, id);
    }
  }

  /**
    A linked entry's row gets its antecedent's metadata, with its id as short_form_of, and the method's name; its
    resolution, and every other row, stays as it was.
   */
  lemma {:induction false} WrittenBackAt(rows: Footnotes, es: seq<Entry>, links: seq<Option<Link>>, n: nat, k: nat)
    requires k < n <= |es| == |links| && DistinctIds(es) && es[k].id in rows
    ensures es[k].id in WrittenBack(rows, es, links, n)
    ensures var row := rows[es[k].id];
      WrittenBack(rows, es, links, n)[es[k].id] ==
        match links[k]
        case None => row
        case Some(link) => Footnote(Some(link.meta.(shortFormOf := Some(link.id))), "short_form_antecedent",
                                    row.foundationSource, row.sourceId, row.matchScore)
  {
    if k < n - 1 {
      WrittenBackAt(rows, es, links, n - 1, k);
    } else {
      WrittenBackElsewhere(rows, es, links, k, es[k].id);
    }
  }

  lemma ReferringIdsStep(es: seq<Entry>, i: nat)
    requires i < |es|
    ensures ReferringIds(es[..i + 1]) == ReferringIds(es[..i]) + if Referring(es[i].meta.kind) then {es[i].id} else {}
  {
    assert es[..i + 1] == es[..i] + [es[i]];
    forall e | e in es[..i + 1] ensures e in es[..i] || e == es[i] {
    }
  }

  // Inheriting.

  predicate NoSource(source: Option<string>) {
    source == None || Empty(source.value)
  }

  /** What a linked footnote takes over from its antecedent's row. */
  function TakenOver(row: Footnote, from: Footnote): Footnote {
    row.(foundationSource := from.foundationSource, sourceId := from.sourceId, matchMethod := SHORT_FORM_METHOD,
         matchScore := Some(match from.matchScore case Some(score) => score case None => 1.0))
  }

  function InheritedRow(rows: Footnotes, id: string, antecedent: string): Footnote
    requires id in rows
  {
    if antecedent !in rows || NoSource(rows[antecedent].foundationSource) then rows[id]
    else TakenOver(rows[id], rows[antecedent])
  }

  /** The updates one after the other, each reading what the ones before it left. */
  function InheritInOrder(rows: Footnotes, m: map<string, string>, order: seq<string>): Footnotes
    requires forall id | id in order :: id in m
  {
    if order == [] then rows
    else
      var id := order[|order| - 1];
      var before := InheritInOrder(rows, m, order[..|order| - 1]);
      if id in before then before[id := InheritedRow(before, id, m[id])] else before
  }

  /** All the updates at once, read from the table before any of them. */
  function InheritAtOnce(rows: Footnotes, m: map<string, string>, ids: set<string>): Footnotes
    requires ids <= m.Keys
  {
    map id | id in rows :: if id in ids then InheritedRow(rows, id, m[id]) else rows[id]
  }

  function Members(ids: seq<string>): set<string> {
    set id | id in ids
  }

  /** When no antecedent is itself a short form, the order of the updates does not matter. */
  lemma {:induction false} OrderDoesNotMatter(rows: Footnotes, m: map<string, string>, order: seq<string>)
    requires DepthOne(m) && forall id | id in order :: id in m
    ensures InheritInOrder(rows, m, order) == InheritAtOnce(rows, m, Members(order))
  {
    if order == [] {
      assert Members(order) == {};
    } else {
      var n := |order| - 1;
      OrderDoesNotMatter(rows, m, order[..n]);
      assert order == order[..n] + [order[n]];
      assert Members(order) == Members(order[..n]) + {order[n]};
    }
  }

  lemma InheritedRowColumns(rows: Footnotes, id: string, antecedent: string)
    requires id in rows
    ensures InheritedRow(rows, id, antecedent) ==
      if antecedent !in rows || rows[antecedent].foundationSource in {None, Some(""), Some("0")} then rows[id]
      else
        var from := rows[antecedent];
        Footnote(rows[id].metadata, "short_form_antecedent", from.foundationSource, from.sourceId,
                 Some(if from.matchScore.Some? then from.matchScore.value else 1.0))
  {
  }

  /**
    After inheritance, in whatever order. A linked footnote gets its antecedent's source, source id and score (1 if
    there is none) and the method's name, and keeps its metadata; it is as it was when the antecedent has no row, or
    one whose source is null, empty or "0". Antecedents' rows and all others have not changed.
   */
  lemma {:induction false} LinkedCarryTheirAntecedents(
    rows: Footnotes, es: seq<Entry>, norm: Normaliser, choices: Choices, m: map<string, string>, order: seq<string>)
    requires DistinctIds(es) && Grounded(es) && IsLinkMap(m, es, norm, choices) && Members(order) == m.Keys
    ensures var after := InheritInOrder(rows, m, order);
      && after.Keys == rows.Keys
      && (forall id | id in rows && id !in m :: after[id] == rows[id])
      && (forall id | id in m && id in rows && m[id] !in rows :: after[id] == rows[id])
      && forall id | id in m && id in rows && m[id] in rows ::
           var from := rows[m[id]];
           && after[m[id]] == from
           && after[id] ==
                if from.foundationSource in {None, Some(""), Some("0")} then rows[id]
                else Footnote(rows[id].metadata, "short_form_antecedent", from.foundationSource, from.sourceId,
                              Some(if from.matchScore.Some? then from.matchScore.value else 1.0))
  {
    LinksPointBack(m, es, norm, choices);
    assert forall id | id in order :: id in Members(order);
    OrderDoesNotMatter(rows, m, order);
    forall id | id in m && id in rows {
      InheritedRowColumns(rows, id, m[id]);
    }
  }

  /**
    So a linked row is left as it was exactly when its antecedent's source is empty, or it already carries the
    antecedent's resolution.
   */
  lemma {:induction false} LeftAloneIff(
    rows: Footnotes, es: seq<Entry>, norm: Normaliser, choices: Choices, m: map<string, string>, order: seq<string>,
    id: string)
    requires DistinctIds(es) && Grounded(es) && IsLinkMap(m, es, norm, choices) && Members(order) == m.Keys
    requires id in m && id in rows && m[id] in rows
    ensures id in InheritInOrder(rows, m, order)
    ensures var row, from := rows[id], rows[m[id]];
      InheritInOrder(rows, m, order)[id] == row <==>
        || from.foundationSource in {None, Some(""), Some("0")}
        || (&& row.matchMethod == "short_form_antecedent"
            && row.foundationSource == from.foundationSource && row.sourceId == from.sourceId
            && row.matchScore == Some(if from.matchScore.Some? then from.matchScore.value else 1.0))
  {
    LinkedCarryTheirAntecedents(rows, es, norm, choices, m, order);
  }

  /** The mark of an unresolved antecedent is a source like any other: the short form takes "unknown" over. */
  lemma {:induction false} UnknownIsInherited(
    rows: Footnotes, es: seq<Entry>, norm: Normaliser, choices: Choices, m: map<string, string>, order: seq<string>,
    id: string)
    requires DistinctIds(es) && Grounded(es) && IsLinkMap(m, es, norm, choices) && Members(order) == m.Keys
    requires id in m && id in rows && m[id] in rows && rows[m[id]].foundationSource == Some("unknown")
    ensures id in InheritInOrder(rows, m, order)
    ensures InheritInOrder(rows, m, order)[id].foundationSource == Some("unknown")
  {
    LinkedCarryTheirAntecedents(rows, es, norm, choices, m, order);
  }

  /** The job, with the footnotes table of its book. */
  class CitationScan {
    var footnotes: Footnotes
    const norm: Normaliser

    constructor (footnotes: Footnotes, norm: Normaliser)
      ensures this.footnotes == footnotes && this.norm == norm
    {
      this.footnotes, this.norm := footnotes, norm;
    }

    /** choices is what the language model answers for the ambiguous short forms; empty when the call fails. */
    method MatchShortFormAntecedents(es: seq<Entry>, needsResolution: seq<string>, choices: Choices)
      returns (m: map<string, string>, remaining: seq<string>)
      requires DistinctIds(es)
      modifies this
      ensures IsLinkMap(m, es, norm, choices)
      ensures footnotes == WrittenBack(old(footnotes), es, FinalLinks(es, |es|, norm, choices), |es|)
      ensures remaining == WithoutIds(needsResolution, ReferringIds(es))
    {
      var metas, ambiguous;
      metas, m, ambiguous := LinkInOrder(es, norm);
      metas, m := ApplyChoices(es, norm, choices, ambiguous, metas, m);
      MappedIsLinkMap(m, es, norm, choices);
      ghost var links := FinalLinks(es, |es|, norm, choices);
      forall k | 0 <= k < |es| && links[k].Some? ensures Referring(es[k].meta.kind) {
        OnlyReferringAreLinked(es, k, norm, choices);
      }
      var shortIds := Persist(es, metas, m, links);
      remaining := Drop(needsResolution, shortIds);
    }

    method Persist(es: seq<Entry>, metas: seq<Meta>, m: map<string, string>, ghost links: seq<Option<Link>>)
      returns (shortIds: set<string>)
      requires |links| == |es| && Substituted(metas, es, links) && Mapped(m, es, links)
      requires forall k | 0 <= k < |es| && links[k].Some? :: Referring(es[k].meta.kind)
      modifies this
      ensures footnotes == WrittenBack(old(footnotes), es, links, |es|)
      ensures shortIds == ReferringIds(es)
    {
      shortIds := {};
      var i := 0;
      while i < |es|
        invariant 0 <= i <= |es|
        invariant footnotes == WrittenBack(old(footnotes), es, links, i)
        invariant shortIds == ReferringIds(es[..i])
      {
        ReferringIdsStep(es, i);
        LinkHere(es, metas, m, links, i);
        WrittenBackStep(old(footnotes), es, links, i);
        if es[i].id in m || Referring(metas[i].kind) {
          shortIds := shortIds + {es[i].id};
          if es[i].id in m {
            Rewrite(es[i].id, metas[i]);
          }
        }
        i := i + 1;
      }
      assert es[..i] == es;
    }

    method Rewrite(id: string, meta: Meta)
      modifies this
      ensures footnotes == AfterRewrite(old(footnotes), id, meta)
    {
      if id in footnotes {
        footnotes := footnotes[id := Rewritten(footnotes[id], meta)];
      }
    }

    method InheritShortFormResolutions(m: map<string, string>, order: seq<string>)
      requires forall id | id in order :: id in m
      modifies this
      ensures footnotes == InheritInOrder(old(footnotes), m, order)
    {
      var i := 0;
      while i < |order|
        invariant 0 <= i <= |order|
        invariant footnotes == InheritInOrder(old(footnotes), m, order[..i])
      {
        var shortId := order[i];
        assert order[..i + 1][..i] == order[..i];
        var antecedent := m[shortId];
        if antecedent in footnotes && !NoSource(footnotes[antecedent].foundationSource) && shortId in footnotes {
          footnotes := footnotes[shortId := InheritedRow(footnotes, shortId, antecedent)];
        } else if shortId in footnotes {
          assert footnotes[shortId := InheritedRow(footnotes, shortId, antecedent)] == footnotes;
        }
        i := i + 1;
      }
      assert order[..i] == order;
    }
  }

  lemma LinkHere(es: seq<Entry>, metas: seq<Meta>, m: map<string, string>, links: seq<Option<Link>>, i: nat)
    requires i < |es| == |links| && Substituted(metas, es, links) && Mapped(m, es, links)
    requires links[i].Some? ==> Referring(es[i].meta.kind)
    ensures |metas| == |es| && metas[i] == Linked(es[i].meta, links[i]) && (es[i].id in m <==> links[i].Some?)
    ensures es[i].id in m || Referring(metas[i].kind) <==> Referring(es[i].meta.kind)
  {
  }

  lemma OnlyReferringAreLinked(es: seq<Entry>, i: nat, norm: Normaliser, choices: Choices)
    requires i < |es|
    ensures FinalLink(es, i, norm, choices).Some? ==> Referring(es[i].meta.kind)
  {
  }

  method Drop(ids: seq<string>, dropped: set<string>) returns (remaining: seq<string>)
    ensures remaining == WithoutIds(ids, dropped)
  {
    remaining := [];
    var i := 0;
    while i < |ids|
      invariant 0 <= i <= |ids|
      invariant remaining == WithoutIds(ids[..i], dropped)
    {
      assert ids[..i + 1][..i] == ids[..i];
      if ids[i] !in dropped {
        remaining := remaining + [ids[i]];
      }
      i := i + 1;
    }
    assert ids[..i] == ids;
  }
}
