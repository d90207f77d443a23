/**
  What a short form and an ibid mean, read off the entries before them: without the list of full forms, the candidates
  and the walk back.
 */
module ShortFormMeaning {
  import opened Common
  import opened ShortForms

  /** A full citation. */
  predicate IsCitation(kind: string) {
    kind in {"book", "journal-article", "book-chapter", "conference-paper", "thesis", "report", "web_page", "chapter"}
  }

  /** A titled full citation that agrees with all a short form says, provided it says anything. */
  predicate CouldMean(e: Entry, short: Meta, norm: Normaliser) {
    var surname, shortTitle, title := norm(short.surname), norm(short.shortTitle), norm(e.meta.title);
    var author := if e.meta.firstAuthor == "" then "" else norm(BeforeComma(e.meta.firstAuthor));
    && IsCitation(e.meta.kind) && e.meta.title !in {"", "0"}
    && (surname != "" ==> author == surname)
    && (shortTitle != "" && title != "" ==> Contains(title, shortTitle))
    && (surname != "" || shortTitle != "")
  }

  /** The titles a short form could mean, among the entries from index j up to i. */
  function TitlesFrom(es: seq<Entry>, j: nat, i: nat, short: Meta, norm: Normaliser): set<string>
    requires i <= |es|
  {
    set k | j <= k < i && CouldMean(es[k], short, norm) :: norm(es[k].meta.title)
  }

  lemma CouldMeanIff(e: Entry, short: Meta, norm: Normaliser)
    ensures CouldMean(e, short, norm) <==> IsFull(e.meta) && Matches(FullFormOf(e, norm), short, norm)
  {
    var shortTitle, title := norm(short.shortTitle), norm(e.meta.title);
    if shortTitle <= title {
      assert shortTitle <= title[0..];
    }
  }

  lemma TitlesFromStep(es: seq<Entry>, j: nat, i: nat, short: Meta, norm: Normaliser)
    requires j <= i < |es|
    ensures TitlesFrom(es, j, i + 1, short, norm)
      == TitlesFrom(es, j, i, short, norm) + if CouldMean(es[i], short, norm) then {norm(es[i].meta.title)} else {}
  {
    var all, before := TitlesFrom(es, j, i + 1, short, norm), TitlesFrom(es, j, i, short, norm);
    forall t | t in all ensures t in before || (CouldMean(es[i], short, norm) && t == norm(es[i].meta.title)) {
      var k :| j <= k < i + 1 && CouldMean(es[k], short, norm) && t == norm(es[k].meta.title);
      assert k == i || k < i;
    }
  }

  lemma MatchingTitlesSnoc(fulls: seq<FullForm>, f: FullForm, p: nat, short: Meta, norm: Normaliser)
    requires p <= |fulls|
    ensures MatchingTitles(fulls + [f], p, short, norm)
      == MatchingTitles(fulls, p, short, norm) + if Matches(f, short, norm) then {norm(f.meta.title)} else {}
  {
    var all := fulls + [f];
    forall t | t in MatchingTitles(all, p, short, norm)
      ensures t in MatchingTitles(fulls, p, short, norm) || (Matches(f, short, norm) && t == norm(f.meta.title))
    {
      var k :| p <= k < |all| && Matches(all[k], short, norm) && t == norm(all[k].meta.title);
      assert k < |fulls| ==> all[k] == fulls[k];
    }
    forall k | p <= k < |fulls| && Matches(fulls[k], short, norm)
      ensures norm(fulls[k].meta.title) in MatchingTitles(all, p, short, norm)
    {
      assert all[k] == fulls[k];
    }
    assert all[|fulls|] == f;
  }

  lemma MatchingTitlesNext(es: seq<Entry>, i: nat, p: nat, short: Meta, norm: Normaliser)
    requires i < |es| && p <= |FullForms(es, i, norm)|
    ensures p <= |FullForms(es, i + 1, norm)|
    ensures MatchingTitles(FullForms(es, i + 1, norm), p, short, norm)
      == MatchingTitles(FullForms(es, i, norm), p, short, norm)
         + if CouldMean(es[i], short, norm) then {norm(es[i].meta.title)} else {}
  {
    var fulls := FullForms(es, i, norm);
    CouldMeanIff(es[i], short, norm);
    if IsFull(es[i].meta) {
      MatchingTitlesSnoc(fulls, FullFormOf(es[i], norm), p, short, norm);
    } else {
      assert FullForms(es, i + 1, norm) == fulls;
    }
  }

  /** The list of full forms has all the titles there are. */
  lemma {:induction false} AllTitles(es: seq<Entry>, i: nat, short: Meta, norm: Normaliser)
    requires i <= |es|
    ensures MatchingTitles(FullForms(es, i, norm), 0, short, norm) == TitlesFrom(es, 0, i, short, norm)
  {
    if i == 0 {
      assert MatchingTitles([], 0, short, norm) == {};
    } else {
      AllTitles(es, i - 1, short, norm);
      TitlesFromStep(es, 0, i - 1, short, norm);
      MatchingTitlesNext(es, i - 1, 0, short, norm);
    }
  }

  /** A full form's entry, with the same titles behind it. */
  lemma {:induction false} EntryOf(es: seq<Entry>, i: nat, p: nat, short: Meta, norm: Normaliser) returns (j: nat)
    requires i <= |es| && p < |FullForms(es, i, norm)|
    ensures j < i && IsFull(es[j].meta) && FullForms(es, i, norm)[p] == FullFormOf(es[j], norm)
    ensures MatchingTitles(FullForms(es, i, norm), p + 1, short, norm) == TitlesFrom(es, j + 1, i, short, norm)
  {
    var fulls := FullForms(es, i - 1, norm);
    if p < |fulls| {
      j := EntryOf(es, i - 1, p, short, norm);
      TitlesFromStep(es, j + 1, i - 1, short, norm);
      MatchingTitlesNext(es, i - 1, p + 1, short, norm);
      assert FullForms(es, i, norm)[p] == fulls[p];
    } else {
      j := i - 1;
      assert MatchingTitles(FullForms(es, i, norm), p + 1, short, norm) == {};
      assert TitlesFrom(es, j + 1, i, short, norm) == {};
    }
  }

  /** Candidate number c + 1 is the last match of its title, with c titles behind it. */
  lemma {:induction false} CandidateAt(fulls: seq<FullForm>, k: nat, short: Meta, norm: Normaliser, c: nat)
    returns (p: nat)
    requires k <= |fulls| && c < |Candidates(fulls, k, short, norm)|
    ensures k <= p < |fulls| && Candidates(fulls, k, short, norm)[c] == fulls[p] && Matches(fulls[p], short, norm)
    ensures norm(fulls[p].meta.title) !in MatchingTitles(fulls, p + 1, short, norm)
    ensures |MatchingTitles(fulls, p + 1, short, norm)| == c
    decreases |fulls| - k
  {
    CandidatesCountTitles(fulls, k + 1, short, norm);
    if c < |Candidates(fulls, k + 1, short, norm)| {
      p := CandidateAt(fulls, k + 1, short, norm, c);
    } else {
      p := k;
    }
  }

  /** The entry candidate number c + 1 stands for. */
  lemma {:induction false} CandidateMeans(es: seq<Entry>, i: nat, norm: Normaliser, c: nat) returns (j: nat)
    requires i < |es| && c < |CandidatesFor(es, i, norm)|
    ensures j < i && CouldMean(es[j], es[i].meta, norm)
    ensures CandidatesFor(es, i, norm)[c].id == es[j].id && CandidatesFor(es, i, norm)[c].meta == es[j].meta
    ensures norm(es[j].meta.title) !in TitlesFrom(es, j + 1, i, es[i].meta, norm)
    ensures |TitlesFrom(es, j + 1, i, es[i].meta, norm)| == c
  {
    var p := CandidateAt(FullForms(es, i, norm), 0, es[i].meta, norm, c);
    j := EntryOf(es, i, p, es[i].meta, norm);
    CouldMeanIff(es[j], es[i].meta, norm);
  }

  /**
    Number n of the candidates is chosen when the language model says so, or when there is but one. A short form is
    linked to the last entry of the n-th title from its end, with that entry's metadata, and not linked otherwise.
   */
  lemma {:induction false} ShortFormMeans(es: seq<Entry>, i: nat, norm: Normaliser, choices: Choices) returns (j: nat)
    requires i < |es| && es[i].meta.kind == "short-form"
    ensures var titles := |TitlesFrom(es, 0, i, es[i].meta, norm)|;
      var n := if titles == 1 then 1 else if es[i].id in choices then choices[es[i].id] else 0;
      if 1 <= n <= titles then
        && j < i && CouldMean(es[j], es[i].meta, norm)
        && norm(es[j].meta.title) !in TitlesFrom(es, j + 1, i, es[i].meta, norm)
        && |TitlesFrom(es, j + 1, i, es[i].meta, norm)| == n - 1
        && FinalLink(es, i, norm, choices) == Some(Link(es[j].id, es[j].meta))
      else FinalLink(es, i, norm, choices) == None
  {
    AllTitles(es, i, es[i].meta, norm);
    CandidatesCountTitles(FullForms(es, i, norm), 0, es[i].meta, norm);
    var titles := |CandidatesFor(es, i, norm)|;
    var n := if titles == 1 then 1 else if es[i].id in choices then choices[es[i].id] else 0;
    j := 0;
    if 1 <= n <= titles {
      j := CandidateMeans(es, i, norm, n - 1);
    }
  }

  /**
    An ibid means what the last citation, short form or ibid before it stands for: of a citation, the work it is marked
    as a short form of, or itself; of a short form or ibid, what that one means before the language model is asked.
   */
  lemma {:induction false} IbidMeans(es: seq<Entry>, i: nat, j: nat, norm: Normaliser, choices: Choices)
    requires j < i < |es| && es[i].meta.kind == "ibid"
    requires IsCitation(es[j].meta.kind) || es[j].meta.kind in {"short-form", "ibid"}
    requires forall k | j < k < i :: !IsCitation(es[k].meta.kind) && es[k].meta.kind !in {"short-form", "ibid"}
    ensures FinalLink(es, i, norm, choices) ==
      if IsCitation(es[j].meta.kind)
      then Some(Link(if es[j].meta.shortFormOf.Some? then es[j].meta.shortFormOf.value else es[j].id, es[j].meta))
      else LinkOf(es, j, norm)
  {
    IbidFollows(es, i, j, norm);
  }

  /** An ibid with nothing before it to follow, and an entry that is neither a short form nor an ibid, mean nothing. */
  lemma {:induction false} MeansNothing(es: seq<Entry>, i: nat, norm: Normaliser, choices: Choices)
    requires i < |es| && es[i].meta.kind != "short-form"
    requires es[i].meta.kind == "ibid" ==>
      forall k | 0 <= k < i :: !IsCitation(es[k].meta.kind) && es[k].meta.kind !in {"short-form", "ibid"}
    ensures FinalLink(es, i, norm, choices) == None
  {
    if es[i].meta.kind == "ibid" {
      assert LastRelevant(es, i) == None;
    }
  }
}
