/**
  Short forms and ibids among citation footnotes (CitationScanBibliographyJob): what each one refers to, as
  a definition over the footnotes in document order, and as the loops that rewrite metadata in place.
 */
module ShortForms {
  import opened Common

  /** What the scan reads of a footnote's llm_metadata; absent fields are empty. */
  datatype Meta = Meta(
    kind: string, title: string, firstAuthor: string, surname: string, shortTitle: string,
    details: string, shortFormOf: Option<string>)

  /** A citation footnote with a numeric marker; lists of these are in marker order. */
  datatype Entry = Entry(id: string, meta: Meta)

  datatype FullForm = FullForm(id: string, meta: Meta, surname: string)

  /** The antecedent's id, and the metadata taken over from it. */
  datatype Link = Link(id: string, meta: Meta)

  const CITABLE_TYPES: set<string> := {
    "book", "journal-article", "book-chapter", "conference-paper", "thesis", "report", "web_page", "chapter"}

  predicate Citable(kind: string) {
    kind in CITABLE_TYPES
  }

  predicate Referring(kind: string) {
    kind == "short-form" || kind == "ibid"
  }

  /** PHP's empty() on a string. */
  predicate Empty(s: string) {
    s == "" || s == "0"
  }

  function BeforeComma(s: string): string {
    if s == "" || s[0] == ',' then "" else [s[0]] + BeforeComma(s[1..])
  }

  /** The normaliser: lower case, letters, digits and inner white space only. */
  type Normaliser = string -> string

  function SurnameOf(meta: Meta, norm: Normaliser): string {
    if meta.firstAuthor == "" then "" else norm(BeforeComma(meta.firstAuthor))
  }

  predicate Contains(text: string, part: string) {
    exists i | 0 <= i <= |text| :: part <= text[i..]
  }

  predicate IsFull(meta: Meta) {
    Citable(meta.kind) && !Empty(meta.title)
  }

  function FullFormOf(e: Entry, norm: Normaliser): FullForm {
    FullForm(e.id, e.meta, SurnameOf(e.meta, norm))
  }

  /** The full citations among the first n entries. */
  function FullForms(es: seq<Entry>, n: nat, norm: Normaliser): seq<FullForm>
    requires n <= |es|
  {
    if n == 0 then []
    else FullForms(es, n - 1, norm) + if IsFull(es[n - 1].meta) then [FullFormOf(es[n - 1], norm)] else []
  }

  /** Whether a full citation can be what this short form means. */
  predicate Matches(f: FullForm, short: Meta, norm: Normaliser) {
    var surname, shortTitle, title := norm(short.surname), norm(short.shortTitle), norm(f.meta.title);
    && (surname == "" || f.surname == surname)
    && (shortTitle == "" || title == "" || shortTitle <= title || Contains(title, shortTitle))
    && !(surname == "" && shortTitle == "")
  }

  function TitlesOf(fs: seq<FullForm>, norm: Normaliser): set<string> {
    set f | f in fs :: norm(f.meta.title)
  }

  /** The matching full forms from index k on, nearest first, one per normalised title. */
  function Candidates(fulls: seq<FullForm>, k: nat, short: Meta, norm: Normaliser): seq<FullForm>
    requires k <= |fulls|
    decreases |fulls| - k
  {
    if k == |fulls| then []
    else
      var nearer := Candidates(fulls, k + 1, short, norm);
      if Matches(fulls[k], short, norm) && norm(fulls[k].meta.title) !in TitlesOf(nearer, norm)
      then nearer + [fulls[k]] else nearer
  }

  function CandidatesFor(es: seq<Entry>, i: nat, norm: Normaliser): seq<FullForm>
    requires i < |es|
  {
    Candidates(FullForms(es, i, norm), 0, es[i].meta, norm)
  }

  predicate Relevant(kind: string) {
    Citable(kind) || Referring(kind)
  }

  /** The last of the first n entries that is a full citation, a short form or an ibid. */
  function LastRelevant(es: seq<Entry>, n: nat): (r: Option<nat>)
    requires n <= |es|
    ensures r.Some? ==> r.value < n && Relevant(es[r.value].meta.kind)
    ensures forall k | (if r.Some? then r.value + 1 else 0) <= k < n :: !Relevant(es[k].meta.kind)
  {
    if n == 0 then None
    else if Relevant(es[n - 1].meta.kind) then Some(n - 1)
    else LastRelevant(es, n - 1)
  }

  function OwnWork(e: Entry): Link {
    Link(match e.meta.shortFormOf case Some(id) => id case None => e.id, e.meta)
  }

  /**
    The work an entry stands for, before the language model is asked: a short form's is its only candidate, an
    ibid's is that of the last relevant entry before it.
   */
  function LinkOf(es: seq<Entry>, i: nat, norm: Normaliser): Option<Link>
    requires i < |es|
  {
    if es[i].meta.kind == "ibid" then
      match LastRelevant(es, i)
      case None => None
      case Some(j) => if Citable(es[j].meta.kind) then Some(OwnWork(es[j])) else LinkOf(es, j, norm)
    else if es[i].meta.kind == "short-form" then
      var candidates := CandidatesFor(es, i, norm);
      if |candidates| == 1 then Some(Link(candidates[0].id, candidates[0].meta)) else None
    else None
  }

  predicate Ambiguous(es: seq<Entry>, i: nat, norm: Normaliser)
    requires i < |es|
  {
    es[i].meta.kind == "short-form" && |CandidatesFor(es, i, norm)| > 1
  }

  /** Candidate numbers by short form, as the language model answers; anything may be in there. */
  type Choices = map<string, int>

  /** The work an entry stands for once the answers are in. */
  function FinalLink(es: seq<Entry>, i: nat, norm: Normaliser, choices: Choices): Option<Link>
    requires i < |es|
  {
    if Ambiguous(es, i, norm) && es[i].id in choices && 1 <= choices[es[i].id] <= |CandidatesFor(es, i, norm)| then
      var chosen := CandidatesFor(es, i, norm)[choices[es[i].id] - 1];
      Some(Link(chosen.id, chosen.meta))
    else LinkOf(es, i, norm)
  }

  function Linked(meta: Meta, link: Option<Link>): Meta {
    match link
    case None => meta
    case Some(l) => l.meta.(shortFormOf := Some(l.id))
  }

  // What the definition means.

  ghost predicate DistinctIds(es: seq<Entry>) {
    forall i, j | 0 <= i < j < |es| :: es[i].id != es[j].id
  }

  /** No stored metadata comes from an earlier scan's substitution. */
  ghost predicate Fresh(es: seq<Entry>) {
    forall i | 0 <= i < |es| :: es[i].meta.shortFormOf == None
  }

  /** A full citation of that id stands before index i. */
  ghost predicate CitedBefore(es: seq<Entry>, i: nat, id: string)
    requires i <= |es|
  {
    exists j :: 0 <= j < i && es[j].id == id && Citable(es[j].meta.kind)
  }

  /** Whatever earlier scans have substituted names a full citation before the entry. */
  ghost predicate Grounded(es: seq<Entry>) {
    forall i | 0 <= i < |es| && es[i].meta.shortFormOf.Some? :: CitedBefore(es, i, es[i].meta.shortFormOf.value)
  }

  /** An original: a full citation that is not itself the trace of an earlier substitution. */
  ghost predicate OriginalBefore(es: seq<Entry>, i: nat, id: string)
    requires i <= |es|
  {
    exists j :: 0 <= j < i && es[j].id == id && Citable(es[j].meta.kind) && es[j].meta.shortFormOf == None
  }

  /** Whatever earlier scans have substituted names an original before the entry. */
  ghost predicate Rooted(es: seq<Entry>) {
    forall i | 0 <= i < |es| && es[i].meta.shortFormOf.Some? :: OriginalBefore(es, i, es[i].meta.shortFormOf.value)
  }

  lemma {:induction false} FullFormsAt(es: seq<Entry>, n: nat, norm: Normaliser, f: FullForm) returns (j: nat)
    requires n <= |es| && f in FullForms(es, n, norm)
    ensures j < n && IsFull(es[j].meta) && f == FullFormOf(es[j], norm)
  {
    if f in FullForms(es, n - 1, norm) {
      j := FullFormsAt(es, n - 1, norm, f);
    } else {
      j := n - 1;
    }
  }

  lemma {:induction false} CandidatesMatch(fulls: seq<FullForm>, k: nat, short: Meta, norm: Normaliser)
    requires k <= |fulls|
    ensures forall f | f in Candidates(fulls, k, short, norm) :: f in fulls && Matches(f, short, norm)
    decreases |fulls| - k
  {
    if k < |fulls| {
      CandidatesMatch(fulls, k + 1, short, norm);
    }
  }

  /** The titles of the matching full forms from index k on. */
  function MatchingTitles(fulls: seq<FullForm>, k: nat, short: Meta, norm: Normaliser): set<string>
    requires k <= |fulls|
  {
    set i | k <= i < |fulls| && Matches(fulls[i], short, norm) :: norm(fulls[i].meta.title)
  }

  lemma TitlesSnoc(fs: seq<FullForm>, f: FullForm, norm: Normaliser)
    ensures TitlesOf(fs + [f], norm) == TitlesOf(fs, norm) + {norm(f.meta.title)}
  {
    assert f in fs + [f] && forall g | g in fs :: g in fs + [f];
  }

  lemma MatchingTitlesStep(fulls: seq<FullForm>, k: nat, short: Meta, norm: Normaliser)
    requires k < |fulls|
    ensures MatchingTitles(fulls, k, short, norm) == MatchingTitles(fulls, k + 1, short, norm)
            + if Matches(fulls[k], short, norm) then {norm(fulls[k].meta.title)} else {}
  {
    var all, rest := MatchingTitles(fulls, k, short, norm), MatchingTitles(fulls, k + 1, short, norm);
    forall t | t in all ensures t in rest || (Matches(fulls[k], short, norm) && t == norm(fulls[k].meta.title)) {
      var i :| k <= i < |fulls| && Matches(fulls[i], short, norm) && t == norm(fulls[i].meta.title);
      assert i == k || k + 1 <= i;
    }
  }

  /** One candidate for each title among the matching full forms. */
  lemma {:induction false} CandidatesCountTitles(fulls: seq<FullForm>, k: nat, short: Meta, norm: Normaliser)
    requires k <= |fulls|
    ensures var c := Candidates(fulls, k, short, norm);
      && TitlesOf(c, norm) == MatchingTitles(fulls, k, short, norm)
      && |c| == |MatchingTitles(fulls, k, short, norm)|
    decreases |fulls| - k
  {
    if k == |fulls| {
      assert MatchingTitles(fulls, k, short, norm) == {};
    } else {
      CandidatesCountTitles(fulls, k + 1, short, norm);
      MatchingTitlesStep(fulls, k, short, norm);
      TitlesSnoc(Candidates(fulls, k + 1, short, norm), fulls[k], norm);
    }
  }

  /** The first candidate is the nearest matching full form. */
  lemma {:induction false} NearestComesFirst(fulls: seq<FullForm>, k: nat, short: Meta, norm: Normaliser, last: nat)
    requires k <= last < |fulls| && Matches(fulls[last], short, norm)
    requires forall i | last < i < |fulls| :: !Matches(fulls[i], short, norm)
    ensures Candidates(fulls, k, short, norm) != [] && Candidates(fulls, k, short, norm)[0] == fulls[last]
    decreases last - k
  {
    if k == last {
      CandidatesCountTitles(fulls, k + 1, short, norm);
      assert MatchingTitles(fulls, k + 1, short, norm) == {};
      assert Candidates(fulls, k + 1, short, norm) == [];
    } else {
      NearestComesFirst(fulls, k + 1, short, norm, last);
    }
  }

  ghost predicate IsLastMatch(fulls: seq<FullForm>, last: nat, short: Meta, norm: Normaliser) {
    && last < |fulls| && Matches(fulls[last], short, norm)
    && forall k | last < k < |fulls| :: !Matches(fulls[k], short, norm)
  }

  lemma {:induction false} LastMatch(fulls: seq<FullForm>, k: nat, short: Meta, norm: Normaliser) returns (last: nat)
    requires k <= |fulls| && MatchingTitles(fulls, k, short, norm) != {}
    ensures k <= last && IsLastMatch(fulls, last, short, norm)
    decreases |fulls| - k
  {
    MatchingTitlesStep(fulls, k, short, norm);
    if MatchingTitles(fulls, k + 1, short, norm) != {} {
      last := LastMatch(fulls, k + 1, short, norm);
    } else {
      last := k;
      forall i | k < i < |fulls| ensures !Matches(fulls[i], short, norm) {
        assert norm(fulls[i].meta.title) !in MatchingTitles(fulls, k + 1, short, norm);
      }
    }
  }

  /**
    A short form is linked without the language model exactly when the full citations before it that match have
    one normalised title between them; and then it is linked to the last of them.
   */
  lemma {:induction false} ShortFormLinkedIff(es: seq<Entry>, i: nat, norm: Normaliser, link: Link)
    requires i < |es| && es[i].meta.kind == "short-form"
    ensures var fulls := FullForms(es, i, norm);
      LinkOf(es, i, norm) == Some(link) <==>
        && |MatchingTitles(fulls, 0, es[i].meta, norm)| == 1
        && exists last: nat ::
             IsLastMatch(fulls, last, es[i].meta, norm) && link == Link(fulls[last].id, fulls[last].meta)
  {
    var fulls := FullForms(es, i, norm);
    CandidatesCountTitles(fulls, 0, es[i].meta, norm);
    if |MatchingTitles(fulls, 0, es[i].meta, norm)| == 1 {
      var last := LastMatch(fulls, 0, es[i].meta, norm);
      NearestComesFirst(fulls, 0, es[i].meta, norm, last);
      forall other: nat | IsLastMatch(fulls, other, es[i].meta, norm) ensures other == last {
      }
    }
  }

  lemma CandidateSource(es: seq<Entry>, i: nat, norm: Normaliser, f: FullForm) returns (j: nat)
    requires i < |es| && f in CandidatesFor(es, i, norm)
    ensures j < i && IsFull(es[j].meta) && f.id == es[j].id && f.meta == es[j].meta
  {
    CandidatesMatch(FullForms(es, i, norm), 0, es[i].meta, norm);
    j := FullFormsAt(es, i, norm, f);
  }

  /**
    A link takes over the metadata of a strictly earlier entry that is a full citation, and names it or what it names.
   */
  lemma {:induction false} LinkSource(es: seq<Entry>, i: nat, norm: Normaliser) returns (j: nat)
    requires i < |es| && LinkOf(es, i, norm).Some?
    ensures j < i && Citable(es[j].meta.kind) && LinkOf(es, i, norm).value.meta == es[j].meta
    ensures LinkOf(es, i, norm).value.id in {es[j].id, OwnWork(es[j]).id}
  {
    if es[i].meta.kind == "ibid" {
      var before := LastRelevant(es, i).value;
      j := before;
      if !Citable(es[before].meta.kind) {
        j := LinkSource(es, before, norm);
      }
    } else {
      j := CandidateSource(es, i, norm, CandidatesFor(es, i, norm)[0]);
    }
  }

  lemma FinalLinkSource(es: seq<Entry>, i: nat, norm: Normaliser, choices: Choices) returns (j: nat)
    requires i < |es| && FinalLink(es, i, norm, choices).Some?
    ensures j < i && Citable(es[j].meta.kind) && FinalLink(es, i, norm, choices).value.meta == es[j].meta
    ensures FinalLink(es, i, norm, choices).value.id in {es[j].id, OwnWork(es[j]).id}
  {
    var candidates := CandidatesFor(es, i, norm);
    if Ambiguous(es, i, norm) && es[i].id in choices && 1 <= choices[es[i].id] <= |candidates| {
      j := CandidateSource(es, i, norm, candidates[choices[es[i].id] - 1]);
    } else {
      j := LinkSource(es, i, norm);
    }
  }

  /** The map from short forms to antecedents. */
  ghost predicate IsLinkMap(m: map<string, string>, es: seq<Entry>, norm: Normaliser, choices: Choices) {
    && (forall i | 0 <= i < |es| :: es[i].id in m <==> FinalLink(es, i, norm, choices).Some?)
    && (forall i | 0 <= i < |es| && es[i].id in m :: m[es[i].id] == FinalLink(es, i, norm, choices).value.id)
    && (forall id | id in m :: exists i :: 0 <= i < |es| && es[i].id == id)
  }

  /** No antecedent is itself a short form of something. */
  ghost predicate DepthOne(m: map<string, string>) {
    forall id | id in m :: m[id] !in m
  }

  /** What a link in the map is: from a short form or ibid to a full citation before it. */
  ghost predicate PointsBack(m: map<string, string>, es: seq<Entry>, id: string) {
    id in m && exists i :: 0 <= i < |es| && es[i].id == id && Referring(es[i].meta.kind) && CitedBefore(es, i, m[id])
  }

  lemma LinkIsGrounded(es: seq<Entry>, i: nat, norm: Normaliser, choices: Choices)
    requires Grounded(es) && i < |es| && FinalLink(es, i, norm, choices).Some?
    ensures CitedBefore(es, i, FinalLink(es, i, norm, choices).value.id)
    ensures Citable(FinalLink(es, i, norm, choices).value.meta.kind)
  {
    var j := FinalLinkSource(es, i, norm, choices);
    var id := FinalLink(es, i, norm, choices).value.id;
    if id != es[j].id {
      assert CitedBefore(es, j, id);
    }
  }

  lemma CitableIsNotReferring(kind: string)
    ensures !(Citable(kind) && Referring(kind))
  {
  }

  lemma FullCitationsAreNotLinked(es: seq<Entry>, i: nat, norm: Normaliser, choices: Choices)
    requires i < |es| && !Referring(es[i].meta.kind)
    ensures FinalLink(es, i, norm, choices) == None
  {
  }

  lemma LinkPointsBack(m: map<string, string>, es: seq<Entry>, norm: Normaliser, choices: Choices, id: string)
    requires DistinctIds(es) && Grounded(es) && IsLinkMap(m, es, norm, choices) && id in m
    ensures PointsBack(m, es, id) && m[id] !in m
  {
    var i :| 0 <= i < |es| && es[i].id == id;
    LinkIsGrounded(es, i, norm, choices);
    assert CitedBefore(es, i, m[id]);
    var j :| 0 <= j < i && es[j].id == m[id] && Citable(es[j].meta.kind);
    CitableIsNotReferring(es[j].meta.kind);
    FullCitationsAreNotLinked(es, j, norm, choices);
    assert es[j].id !in m;
  }

  /**
    Whatever the language model answers, every link goes from a short form or ibid to a full citation strictly
    before it, so links never chain.
   */
  lemma LinksPointBack(m: map<string, string>, es: seq<Entry>, norm: Normaliser, choices: Choices)
    requires DistinctIds(es) && Grounded(es) && IsLinkMap(m, es, norm, choices)
    ensures forall id | id in m :: PointsBack(m, es, id)
    ensures DepthOne(m)
  {
    forall id | id in m ensures PointsBack(m, es, id) && m[id] !in m {
      LinkPointsBack(m, es, norm, choices, id);
    }
  }

  /** On fresh metadata the antecedent's is its own, untouched: it names no other work. */
  lemma FreshLinksNameTheirSource(es: seq<Entry>, i: nat, norm: Normaliser, choices: Choices) returns (j: nat)
    requires Fresh(es) && i < |es| && FinalLink(es, i, norm, choices).Some?
    ensures j < i && Citable(es[j].meta.kind)
    ensures FinalLink(es, i, norm, choices) == Some(Link(es[j].id, es[j].meta))
  {
    j := FinalLinkSource(es, i, norm, choices);
  }

  // Scanning again.

  /** The first n entries as a scan leaves them. */
  function AfterScan(es: seq<Entry>, n: nat, norm: Normaliser, choices: Choices): (r: seq<Entry>)
    requires n <= |es|
    ensures |r| == n
    ensures forall k | 0 <= k < n :: r[k] == Entry(es[k].id, Linked(es[k].meta, FinalLink(es, k, norm, choices)))
  {
    if n == 0 then []
    else
      var last := es[n - 1];
      AfterScan(es, n - 1, norm, choices) + [Entry(last.id, Linked(last.meta, FinalLink(es, n - 1, norm, choices)))]
  }

  lemma StillCited(es: seq<Entry>, i: nat, id: string, norm: Normaliser, choices: Choices)
    requires i <= |es| && CitedBefore(es, i, id)
    ensures CitedBefore(AfterScan(es, |es|, norm, choices), i, id)
  {
    var j :| 0 <= j < i && es[j].id == id && Citable(es[j].meta.kind);
    CitableIsNotReferring(es[j].meta.kind);
    FullCitationsAreNotLinked(es, j, norm, choices);
    assert AfterScan(es, |es|, norm, choices)[j] == es[j];
  }

  /** What a scan writes back is grounded, so links point back in every later scan too, however many there are. */
  lemma ScanKeepsGrounded(es: seq<Entry>, norm: Normaliser, choices: Choices)
    requires Grounded(es)
    ensures Grounded(AfterScan(es, |es|, norm, choices))
  {
    var after := AfterScan(es, |es|, norm, choices);
    forall i | 0 <= i < |after| && after[i].meta.shortFormOf.Some?
      ensures CitedBefore(after, i, after[i].meta.shortFormOf.value)
    {
      if FinalLink(es, i, norm, choices).Some? {
        LinkIsGrounded(es, i, norm, choices);
      }
      StillCited(es, i, after[i].meta.shortFormOf.value, norm, choices);
    }
  }

  /** An ibid follows the last relevant entry before it; legislation, pointers and the like are passed over. */
  lemma IbidFollows(es: seq<Entry>, i: nat, j: nat, norm: Normaliser)
    requires j < i < |es| && es[i].meta.kind == "ibid" && Relevant(es[j].meta.kind)
    requires forall k | j < k < i :: !Relevant(es[k].meta.kind)
    ensures LinkOf(es, i, norm) == if Citable(es[j].meta.kind) then Some(OwnWork(es[j])) else LinkOf(es, j, norm)
  {
    var r := LastRelevant(es, i);
    assert r == Some(j);
  }

  /** An ibid after a short form that only the language model can link stays unlinked, whatever the answer. */
  lemma IbidAfterAmbiguity(es: seq<Entry>, i: nat, j: nat, norm: Normaliser, choices: Choices)
    requires j < i < |es| && es[i].meta.kind == "ibid" && Ambiguous(es, j, norm)
    requires forall k | j < k < i :: !Relevant(es[k].meta.kind)
    ensures FinalLink(es, i, norm, choices) == None
  {
    CitableIsNotReferring(es[j].meta.kind);
    IbidFollows(es, i, j, norm);
  }

  // Originals.

  /**
    A link names an original exactly when the metadata it takes over is an original's, or says which one it stands for.
   */
  lemma {:induction false} LinkNamesOriginalIff(es: seq<Entry>, i: nat, norm: Normaliser, choices: Choices)
    requires DistinctIds(es) && Rooted(es) && i < |es| && FinalLink(es, i, norm, choices).Some?
    ensures var l := FinalLink(es, i, norm, choices).value;
      OriginalBefore(es, i, l.id) <==> l.meta.shortFormOf in {None, Some(l.id)}
  {
    var l := FinalLink(es, i, norm, choices).value;
    var j := FinalLinkSource(es, i, norm, choices);
    if es[j].meta.shortFormOf.Some? {
      assert OriginalBefore(es, j, es[j].meta.shortFormOf.value);
    }
  }

  /**
    A short form with one matching title is linked to an original exactly when the last full citation that matches
    is not itself an earlier scan's substitution.
   */
  lemma {:induction false} ShortFormNamesOriginalIff(es: seq<Entry>, i: nat, norm: Normaliser, last: nat)
    requires DistinctIds(es) && Rooted(es) && i < |es| && es[i].meta.kind == "short-form"
    requires |MatchingTitles(FullForms(es, i, norm), 0, es[i].meta, norm)| == 1
    requires IsLastMatch(FullForms(es, i, norm), last, es[i].meta, norm)
    ensures LinkOf(es, i, norm).Some?
    ensures OriginalBefore(es, i, LinkOf(es, i, norm).value.id)
      <==> FullForms(es, i, norm)[last].meta.shortFormOf == None
  {
    var f := FullForms(es, i, norm)[last];
    ShortFormLinkedIff(es, i, norm, Link(f.id, f.meta));
    var j := FullFormsAt(es, i, norm, f);
  }

  /** An ibid right after a full citation always is: it reads which work the citation stands for. */
  lemma {:induction false} IbidNamesOriginal(es: seq<Entry>, i: nat, j: nat, norm: Normaliser)
    requires Rooted(es) && j < i < |es| && es[i].meta.kind == "ibid" && Citable(es[j].meta.kind)
    requires forall k | j < k < i :: !Relevant(es[k].meta.kind)
    ensures LinkOf(es, i, norm).Some? && OriginalBefore(es, i, LinkOf(es, i, norm).value.id)
  {
    IbidFollows(es, i, j, norm);
  }

  /** All links of a scan name originals. */
  ghost predicate AllNameOriginals(es: seq<Entry>, norm: Normaliser, choices: Choices) {
    forall i | 0 <= i < |es| && FinalLink(es, i, norm, choices).Some? ::
      OriginalBefore(es, i, FinalLink(es, i, norm, choices).value.id)
  }

  lemma {:induction false} OriginalAfterScanIff(es: seq<Entry>, i: nat, id: string, norm: Normaliser, choices: Choices)
    requires i <= |es|
    ensures OriginalBefore(AfterScan(es, |es|, norm, choices), i, id) <==> OriginalBefore(es, i, id)
  {
    var after := AfterScan(es, |es|, norm, choices);
    forall j | 0 <= j < i
      ensures Citable(after[j].meta.kind) && after[j].meta.shortFormOf == None
        <==> Citable(es[j].meta.kind) && es[j].meta.shortFormOf == None
    {
      assert after[j] == Entry(es[j].id, Linked(es[j].meta, FinalLink(es, j, norm, choices)));
      CitableIsNotReferring(es[j].meta.kind);
      if !Referring(es[j].meta.kind) {
        FullCitationsAreNotLinked(es, j, norm, choices);
      }
    }
  }

  /** A scan leaves metadata that names originals only, exactly when its links do. */
  lemma {:induction false} ScanKeepsRootedIff(es: seq<Entry>, norm: Normaliser, choices: Choices)
    requires Rooted(es)
    ensures Rooted(AfterScan(es, |es|, norm, choices)) <==> AllNameOriginals(es, norm, choices)
  {
    var after := AfterScan(es, |es|, norm, choices);
    forall i | 0 <= i < |es|
      ensures after[i].meta.shortFormOf.Some? ==>
        (OriginalBefore(after, i, after[i].meta.shortFormOf.value)
         <==> OriginalBefore(es, i, after[i].meta.shortFormOf.value))
    {
      if after[i].meta.shortFormOf.Some? {
        OriginalAfterScanIff(es, i, after[i].meta.shortFormOf.value, norm, choices);
      }
    }
    forall i | 0 <= i < |es| && FinalLink(es, i, norm, choices).Some?
      ensures after[i].meta.shortFormOf == Some(FinalLink(es, i, norm, choices).value.id)
    {
    }
    forall i | 0 <= i < |es| && FinalLink(es, i, norm, choices) == None ensures after[i] == es[i] {
    }
  }

  /** The first scan's do. */
  lemma {:induction false} FirstScanNamesOriginals(es: seq<Entry>, norm: Normaliser, choices: Choices)
    requires Fresh(es)
    ensures AllNameOriginals(es, norm, choices) && Rooted(AfterScan(es, |es|, norm, choices))
  {
    forall i | 0 <= i < |es| && FinalLink(es, i, norm, choices).Some?
      ensures OriginalBefore(es, i, FinalLink(es, i, norm, choices).value.id)
    {
      var j := FreshLinksNameTheirSource(es, i, norm, choices);
    }
    ScanKeepsRootedIff(es, norm, choices);
  }

  // Against the comments.

  /** The match by "short-title prefix". */
  predicate MatchesByPrefix(f: FullForm, short: Meta, norm: Normaliser) {
    var surname, shortTitle, title := norm(short.surname), norm(short.shortTitle), norm(f.meta.title);
    && (surname == "" || f.surname == surname)
    && (shortTitle == "" || title == "" || shortTitle <= title)
    && !(surname == "" && shortTitle == "")
  }

  /** The code accepts what the prefix rule accepts, and besides exactly the short titles inside a title. */
  lemma {:induction false} MatchesByPrefixIff(f: FullForm, short: Meta, norm: Normaliser)
    ensures MatchesByPrefix(f, short, norm) <==>
      && Matches(f, short, norm)
      && (var shortTitle, title := norm(short.shortTitle), norm(f.meta.title);
          Contains(title, shortTitle) ==> shortTitle <= title || title == "")
  {
    var shortTitle, title := norm(short.shortTitle), norm(f.meta.title);
    if shortTitle <= title {
      assert shortTitle <= title[0..];
    }
    if shortTitle == "" {
      assert shortTitle <= title;
    }
  }

  /** The titles the prefix rule finds. */
  function PrefixTitles(fulls: seq<FullForm>, short: Meta, norm: Normaliser): set<string> {
    set i | 0 <= i < |fulls| && MatchesByPrefix(fulls[i], short, norm) :: norm(fulls[i].meta.title)
  }

  function LastPrefixMatch(fulls: seq<FullForm>, short: Meta, norm: Normaliser): Option<FullForm> {
    if fulls == [] then None
    else
      var last := fulls[|fulls| - 1];
      if MatchesByPrefix(last, short, norm) then Some(last) else LastPrefixMatch(fulls[..|fulls| - 1], short, norm)
  }

  /** The link of the prefix rule: the nearest match, if all matches are of one title. */
  function PrefixLink(es: seq<Entry>, i: nat, norm: Normaliser): Option<Link>
    requires i < |es|
  {
    var fulls := FullForms(es, i, norm);
    if |PrefixTitles(fulls, es[i].meta, norm)| != 1 then None
    else
      match LastPrefixMatch(fulls, es[i].meta, norm)
      case None => None
      case Some(f) => Some(Link(f.id, f.meta))
  }

  lemma {:induction false} LastPrefixMatchIs(fulls: seq<FullForm>, short: Meta, norm: Normaliser, last: nat)
    requires last < |fulls| && MatchesByPrefix(fulls[last], short, norm)
    requires forall k | last < k < |fulls| :: !MatchesByPrefix(fulls[k], short, norm)
    ensures LastPrefixMatch(fulls, short, norm) == Some(fulls[last])
  {
    var n := |fulls| - 1;
    if last < n {
      LastPrefixMatchIs(fulls[..n], short, norm, last);
    }
  }

  lemma {:induction false} PrefixMatchExists(fulls: seq<FullForm>, short: Meta, norm: Normaliser)
    requires PrefixTitles(fulls, short, norm) != {}
    ensures LastPrefixMatch(fulls, short, norm).Some?
  {
    var n := |fulls| - 1;
    var title :| title in PrefixTitles(fulls, short, norm);
    var i :| 0 <= i < |fulls| && MatchesByPrefix(fulls[i], short, norm) && title == norm(fulls[i].meta.title);
    if i < n {
      assert fulls[..n][i] == fulls[i];
      assert title in PrefixTitles(fulls[..n], short, norm);
      PrefixMatchExists(fulls[..n], short, norm);
    }
  }

  /** Among matches, prefix or not is a matter of the title. */
  lemma TitleDecides(f: FullForm, g: FullForm, short: Meta, norm: Normaliser)
    requires MatchesByPrefix(f, short, norm) && Matches(g, short, norm) && norm(f.meta.title) == norm(g.meta.title)
    ensures MatchesByPrefix(g, short, norm)
  {
  }

  lemma OneTitleEach(fulls: seq<FullForm>, short: Meta, norm: Normaliser)
    requires |MatchingTitles(fulls, 0, short, norm)| == 1 && |PrefixTitles(fulls, short, norm)| == 1
    ensures forall k | 0 <= k < |fulls| :: Matches(fulls[k], short, norm) <==> MatchesByPrefix(fulls[k], short, norm)
  {
    var all, some := MatchingTitles(fulls, 0, short, norm), PrefixTitles(fulls, short, norm);
    var title :| title in some;
    var i :| 0 <= i < |fulls| && MatchesByPrefix(fulls[i], short, norm) && title == norm(fulls[i].meta.title);
    forall k | 0 <= k < |fulls| && MatchesByPrefix(fulls[k], short, norm) ensures Matches(fulls[k], short, norm) {
      MatchesByPrefixIff(fulls[k], short, norm);
    }
    OnlyOne(all, title);
    forall k | 0 <= k < |fulls| && Matches(fulls[k], short, norm) ensures MatchesByPrefix(fulls[k], short, norm) {
      assert norm(fulls[k].meta.title) in all;
      TitleDecides(fulls[i], fulls[k], short, norm);
    }
  }

  lemma OnlyOne(all: set<string>, x: string)
    requires |all| == 1 && x in all
    ensures all == {x}
  {
    assert |all - {x}| == 0;
  }

  /**
    A short form gets the link the prefix rule would give it, exactly when the titles that match and the titles that
    match by prefix are both one, or both none or several.
   */
  lemma {:induction false} PrefixLinkIff(es: seq<Entry>, i: nat, norm: Normaliser)
    requires i < |es| && es[i].meta.kind == "short-form"
    ensures LinkOf(es, i, norm) == PrefixLink(es, i, norm) <==>
      (|MatchingTitles(FullForms(es, i, norm), 0, es[i].meta, norm)| == 1
       <==> |PrefixTitles(FullForms(es, i, norm), es[i].meta, norm)| == 1)
  {
    var fulls, short := FullForms(es, i, norm), es[i].meta;
    CandidatesCountTitles(fulls, 0, short, norm);
    if |PrefixTitles(fulls, short, norm)| == 1 {
      PrefixMatchExists(fulls, short, norm);
      if |MatchingTitles(fulls, 0, short, norm)| == 1 {
        var last := LastMatch(fulls, 0, short, norm);
        ShortFormLinkedIff(es, i, norm, Link(fulls[last].id, fulls[last].meta));
        OneTitleEach(fulls, short, norm);
        LastPrefixMatchIs(fulls, short, norm, last);
      }
    }
  }

  /** "Justice" is inside "A Theory of Justice", and so matches it, though it does not begin it. */
  lemma {:induction false} InsideATitle(norm: Normaliser, f: FullForm)
    requires norm("") == "" && norm("Justice") == "justice" && norm(f.meta.title) == "a theory of justice"
    ensures var short := ShortEntry("Fn2").meta.(surname := "");
      Matches(f, short, norm) && !MatchesByPrefix(f, short, norm)
  {
    assert "justice" <= "a theory of justice"[12..];
    assert "a theory of justice"[0] != "justice"[0];
  }

  /** What an ibid right after this entry would stand for, if that entry were all it looked at. */
  function StandsFor(es: seq<Entry>, i: nat, norm: Normaliser): Option<Link>
    requires i < |es|
  {
    if Citable(es[i].meta.kind) then Some(OwnWork(es[i])) else LinkOf(es, i, norm)
  }

  /** No entry before i is relevant, or the last one that is stands for nothing. */
  predicate NothingToFollow(es: seq<Entry>, i: nat, norm: Normaliser)
    requires i <= |es|
  {
    match LastRelevant(es, i)
    case None => true
    case Some(j) => StandsFor(es, j, norm) == None
  }

  /**
    An ibid stands for what the footnote right before it stands for, exactly when that one is a citation, a short form
    or an ibid, or there is nothing behind it to follow either.
   */
  lemma {:induction false} IbidIsImmediateIff(es: seq<Entry>, i: nat, norm: Normaliser)
    requires 0 < i < |es| && es[i].meta.kind == "ibid"
    ensures LinkOf(es, i, norm) == StandsFor(es, i - 1, norm)
      <==> Relevant(es[i - 1].meta.kind) || NothingToFollow(es, i - 1, norm)
  {
    if Relevant(es[i - 1].meta.kind) {
      assert LastRelevant(es, i) == Some(i - 1);
    } else {
      assert LastRelevant(es, i) == LastRelevant(es, i - 1);
      assert StandsFor(es, i - 1, norm) == None;
    }
  }

  /** Past a statute, an ibid goes back to the book before it. */
  lemma {:induction false} IbidPassesOverLegislation(norm: Normaliser)
    ensures var es := [
        FullEntry("Fn1"), Entry("Fn2", FullEntry("Fn2").meta.(kind := "legislation")),
        Entry("Fn3", ShortEntry("Fn3").meta.(kind := "ibid"))];
      LinkOf(es, 2, norm) == Some(Link("Fn1", es[0].meta))
  {
    var es := [
      FullEntry("Fn1"), Entry("Fn2", FullEntry("Fn2").meta.(kind := "legislation")),
      Entry("Fn3", ShortEntry("Fn3").meta.(kind := "ibid"))];
    assert !Relevant(es[1].meta.kind);
    IbidFollows(es, 2, 0, norm);
  }

  function FullEntry(id: string): Entry {
    Entry(id, Meta("book", "Justice", "Hart, H.", "", "", "", None))
  }

  function ShortEntry(id: string): Entry {
    Entry(id, Meta("short-form", "", "", "Hart", "Justice", "", None))
  }

  /** "Justice" and "A Theory of Justice", both by Hart, and then "Hart, Justice". */
  function TwoByHart(): seq<Entry> {
    var theory := FullEntry("Fn2").meta.(title := "A Theory of Justice");
    [FullEntry("Fn1"), Entry("Fn2", theory), ShortEntry("Fn3")]
  }

  lemma {:induction false} HartMatches(norm: Normaliser, f: FullForm, g: FullForm)
    requires norm("Hart") == "hart" && norm("Justice") == "justice"
    requires norm("A Theory of Justice") == "a theory of justice"
    requires f == FullFormOf(TwoByHart()[0], norm) && g == FullFormOf(TwoByHart()[1], norm)
    ensures var short := ShortEntry("Fn3").meta;
      && Matches(f, short, norm) && Matches(g, short, norm)
      && MatchesByPrefix(f, short, norm) && !MatchesByPrefix(g, short, norm)
  {
    HartBeforeComma();
    assert "justice" <= "a theory of justice"[12..];
    assert "a theory of justice"[0] != "justice"[0];
  }

  lemma {:induction false} HartFullForms(norm: Normaliser)
    ensures FullForms(TwoByHart(), 2, norm) == [FullFormOf(TwoByHart()[0], norm), FullFormOf(TwoByHart()[1], norm)]
  {
    var es := TwoByHart();
    assert FullForms(es, 0, norm) == [];
    assert FullForms(es, 1, norm) == [FullFormOf(es[0], norm)];
  }

  lemma {:induction false} BothAreCandidates(f: FullForm, g: FullForm, short: Meta, norm: Normaliser)
    requires Matches(f, short, norm) && Matches(g, short, norm) && norm(f.meta.title) != norm(g.meta.title)
    ensures Candidates([f, g], 0, short, norm) == [g, f]
  {
    assert Candidates([f, g], 2, short, norm) == [];
    assert Candidates([f, g], 1, short, norm) == [g];
    assert TitlesOf([g], norm) == {norm(g.meta.title)};
  }

  lemma {:induction false} FirstByPrefix(f: FullForm, g: FullForm, short: Meta, norm: Normaliser)
    requires MatchesByPrefix(f, short, norm) && !MatchesByPrefix(g, short, norm)
    ensures PrefixTitles([f, g], short, norm) == {norm(f.meta.title)}
    ensures LastPrefixMatch([f, g], short, norm) == Some(f)
  {
    LastPrefixMatchIs([f, g], short, norm, 0);
    assert [f, g][0] == f;
  }

  /** The prefix rule links it to the first; the code finds two titles and leaves it to the language model. */
  lemma {:induction false} PrefixLinkLost(norm: Normaliser)
    requires norm("Hart") == "hart" && norm("Justice") == "justice"
    requires norm("A Theory of Justice") == "a theory of justice"
    ensures var es := TwoByHart();
      LinkOf(es, 2, norm) == None && Ambiguous(es, 2, norm) && PrefixLink(es, 2, norm) == Some(Link("Fn1", es[0].meta))
  {
    var es := TwoByHart();
    var f, g := FullFormOf(es[0], norm), FullFormOf(es[1], norm);
    HartFullForms(norm);
    HartMatches(norm, f, g);
    assert "a theory of justice"[0] != "justice"[0];
    BothAreCandidates(f, g, es[2].meta, norm);
    FirstByPrefix(f, g, es[2].meta, norm);
  }

  /** A fresh book: one full citation, one short form of it. */
  function FreshPair(): seq<Entry> {
    [FullEntry("Fn1"), ShortEntry("Fn2")]
  }

  /** The same after its first scan, with a short form added. */
  function Rescanned(norm: Normaliser): seq<Entry> {
    AfterScan(FreshPair(), 2, norm, map[]) + [ShortEntry("Fn3")]
  }

  lemma {:induction false} FirstScanLinks(norm: Normaliser)
    requires norm("Hart") == "hart" && norm("Justice") == "justice"
    ensures AfterScan(FreshPair(), 2, norm, map[])
      == [FullEntry("Fn1"), Entry("Fn2", FullEntry("Fn1").meta.(shortFormOf := Some("Fn1")))]
  {
    var es := FreshPair();
    HartBeforeComma();
    assert FullForms(es, 0, norm) == [];
    var fulls := FullForms(es, 1, norm);
    assert fulls == [FullFormOf(es[0], norm)];
    assert Candidates(fulls, 1, es[1].meta, norm) == [];
    assert Candidates(fulls, 0, es[1].meta, norm) == [fulls[0]];
    assert LinkOf(es, 1, norm) == Some(Link("Fn1", es[0].meta));
    assert LinkOf(es, 0, norm) == None;
  }

  /**
    After one scan of a fresh book the linked short form looks like a full citation, and in the next scan it attracts
    a new short form to itself instead of to the original.
   */
  lemma {:induction false} RescanMayLinkToAShortForm(norm: Normaliser)
    requires norm("Hart") == "hart" && norm("Justice") == "justice"
    ensures Fresh(FreshPair()) && DistinctIds(Rescanned(norm)) && Rooted(Rescanned(norm))
    ensures LinkOf(Rescanned(norm), 2, norm).Some? && LinkOf(Rescanned(norm), 2, norm).value.id == "Fn2"
    ensures !OriginalBefore(Rescanned(norm), 2, "Fn2")
  {
    var es := Rescanned(norm);
    FirstScanLinks(norm);
    SecondScanLinks(norm, es);
    assert es[0].meta.shortFormOf == None && es[0].id == "Fn1";
  }

  lemma {:induction false} SecondScanLinks(norm: Normaliser, es: seq<Entry>)
    requires norm("Hart") == "hart" && norm("Justice") == "justice"
    requires es == [
      FullEntry("Fn1"), Entry("Fn2", FullEntry("Fn1").meta.(shortFormOf := Some("Fn1"))), ShortEntry("Fn3")]
    ensures LinkOf(es, 2, norm) == Some(Link("Fn2", es[1].meta))
  {
    HartBeforeComma();
    assert FullForms(es, 0, norm) == [];
    assert FullForms(es, 1, norm) == [FullFormOf(es[0], norm)];
    var fulls := FullForms(es, 2, norm);
    assert fulls == [FullFormOf(es[0], norm), FullFormOf(es[1], norm)];
    assert Candidates(fulls, 2, es[2].meta, norm) == [];
    assert Candidates(fulls, 1, es[2].meta, norm) == [fulls[1]];
    assert norm(fulls[1].meta.title) in TitlesOf([fulls[1]], norm);
  }

  lemma HartBeforeComma()
    ensures BeforeComma("Hart, H.") == "Hart"
  {
    assert BeforeComma(", H.") == "";
    assert "t, H."[1..] == ", H.";
    assert BeforeComma("t, H.") == "t";
    assert "rt, H."[1..] == "t, H.";
    assert BeforeComma("rt, H.") == "rt";
    assert "art, H."[1..] == "rt, H.";
    assert BeforeComma("art, H.") == "art";
    assert "Hart, H."[1..] == "art, H.";
  }
}
