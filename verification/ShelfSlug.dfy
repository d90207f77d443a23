/**
  Unique shelf slugs (ShelfSlug::unique): try the base slug, then base-2, base-3, ...
  until the creator has no shelf of that slug.
 */
module ShelfSlug {
  import opened Common
  import Decimal

  datatype Shelf = Shelf(id: string, creator: string, slug: string)

  /** PHP's truth of a string. */
  predicate Truthy(s: string) {
    s != "" && s != "0"
  }

  /** The rows the existence query can see: the creator's, minus the shelf being edited. */
  predicate Visible(row: Shelf, creator: string, excludeId: Option<string>) {
    && row.creator == creator
    && (excludeId.Some? && Truthy(excludeId.value) ==> row.id != excludeId.value)
  }

  predicate Taken(shelves: seq<Shelf>, creator: string, excludeId: Option<string>, slug: string) {
    exists row | row in shelves :: Visible(row, creator, excludeId) && row.slug == slug
  }

  /** The slugs in the order they are tried. */
  function Candidate(baseSlug: string, n: nat): string {
    if n <= 1 then baseSlug else baseSlug + "-" + Decimal.Print(n)
  }

  /** The slug asked for: the first candidate that is free. */
  ghost predicate IsFirstFree(
    shelves: seq<Shelf>, creator: string, excludeId: Option<string>, baseSlug: string, slug: string, n: nat)
  {
    && 1 <= n
    && slug == (if n == 1 then baseSlug else baseSlug + "-" + Decimal.Print(n))
    && !Taken(shelves, creator, excludeId, slug)
    && forall k | 1 <= k < n :: Taken(shelves, creator, excludeId, Candidate(baseSlug, k))
  }

  /** The UNIQUE (creator, slug) index. */
  ghost predicate UniqueSlugs(shelves: seq<Shelf>) {
    forall i, j | 0 <= i < j < |shelves| ::
      shelves[i].creator == shelves[j].creator ==> shelves[i].slug != shelves[j].slug
  }

  ghost predicate UniqueIds(shelves: seq<Shelf>) {
    forall i, j | 0 <= i < j < |shelves| :: shelves[i].id != shelves[j].id
  }

  /** ShelfSlug::unique; nameSlug is the slug text of the shelf's name. */
  method Unique(nameSlug: string, creator: string, excludeId: Option<string>, shelves: seq<Shelf>)
    returns (slug: string)
    ensures var baseSlug := if nameSlug == "" then "shelf" else nameSlug;
      exists n: nat :: IsFirstFree(shelves, creator, excludeId, baseSlug, slug, n)
  {
    var baseSlug := nameSlug;
    if baseSlug == "" {
      baseSlug := "shelf";
    }
    slug := baseSlug;
    var counter := 2;
    while Taken(shelves, creator, excludeId, slug)
      invariant 2 <= counter && slug == Candidate(baseSlug, counter - 1)
      invariant forall k | 1 <= k < counter - 1 :: Taken(shelves, creator, excludeId, Candidate(baseSlug, k))
      decreases |SlugsOf(shelves)| + 2 - counter
    {
      TriedAtMostStored(shelves, creator, excludeId, baseSlug, counter - 1);
      slug := baseSlug + "-" + Decimal.Print(counter);
      counter := counter + 1;
    }
    assert IsFirstFree(shelves, creator, excludeId, baseSlug, slug, counter - 1);
  }

  ghost function SlugsOf(shelves: seq<Shelf>): set<string> {
    set row | row in shelves :: row.slug
  }

  /** The candidates are pairwise different. */
  lemma CandidatesDiffer(baseSlug: string, j: nat, k: nat)
    requires 1 <= j < k
    ensures Candidate(baseSlug, j) != Candidate(baseSlug, k)
  {
    if j > 1 {
      Decimal.PrintIsInjective(j, k);
      var n := |baseSlug| + 1;
      assert Candidate(baseSlug, j)[n..] == Decimal.Print(j);
      assert Candidate(baseSlug, k)[n..] == Decimal.Print(k);
    } else {
      assert |Candidate(baseSlug, k)| > |baseSlug|;
    }
  }

  ghost function Tried(baseSlug: string, n: nat): set<string> {
    if n == 0 then {} else Tried(baseSlug, n - 1) + {Candidate(baseSlug, n)}
  }

  lemma {:induction false} TriedCount(baseSlug: string, n: nat)
    ensures |Tried(baseSlug, n)| == n
    ensures forall s | s in Tried(baseSlug, n) :: exists k | 1 <= k <= n :: s == Candidate(baseSlug, k)
  {
    if n != 0 {
      TriedCount(baseSlug, n - 1);
      forall k | 1 <= k <= n - 1 ensures Candidate(baseSlug, k) != Candidate(baseSlug, n) {
        CandidatesDiffer(baseSlug, k, n);
      }
      assert Candidate(baseSlug, n) !in Tried(baseSlug, n - 1);
    }
  }

  lemma SubsetSize<T>(a: set<T>, b: set<T>)
    requires a <= b
    ensures |a| <= |b|
  {
    assert b == a + (b - a);
  }

  /** Pigeonhole: there are no more taken candidates than stored slugs. */
  lemma TriedAtMostStored(
    shelves: seq<Shelf>, creator: string, excludeId: Option<string>, baseSlug: string, n: nat)
    requires forall k | 1 <= k <= n :: Taken(shelves, creator, excludeId, Candidate(baseSlug, k))
    ensures n <= |SlugsOf(shelves)|
  {
    TriedCount(baseSlug, n);
    assert Tried(baseSlug, n) <= SlugsOf(shelves);
    SubsetSize(Tried(baseSlug, n), SlugsOf(shelves));
  }

  /** Storing a new shelf under the slug found keeps the index satisfied. */
  lemma InsertKeepsUnique(shelves: seq<Shelf>, row: Shelf)
    requires UniqueSlugs(shelves) && !Taken(shelves, row.creator, None, row.slug)
    ensures UniqueSlugs(shelves + [row])
  {
    forall i | 0 <= i < |shelves| && shelves[i].creator == row.creator
      ensures shelves[i].slug != row.slug
    {
      assert shelves[i] in shelves && Visible(shelves[i], row.creator, None);
    }
  }

  /** A shelf's own slug does not stand in its way. */
  lemma {:induction false} OwnSlugIsFree(shelves: seq<Shelf>, i: nat)
    requires i < |shelves| && UniqueSlugs(shelves) && shelves[i].id != "" && shelves[i].id != "0"
    ensures !Taken(shelves, shelves[i].creator, Some(shelves[i].id), shelves[i].slug)
  {
    forall row | row in shelves && Visible(row, shelves[i].creator, Some(shelves[i].id))
      ensures row.slug != shelves[i].slug
    {
      var j :| 0 <= j < |shelves| && shelves[j] == row;
      assert j != i;
    }
  }

  /** So does renaming an existing shelf, which looks past its own row. */
  lemma UpdateKeepsUnique(shelves: seq<Shelf>, i: nat, slug: string)
    requires i < |shelves| && UniqueSlugs(shelves) && UniqueIds(shelves) && Truthy(shelves[i].id)
    requires !Taken(shelves, shelves[i].creator, Some(shelves[i].id), slug)
    ensures UniqueSlugs(shelves[i := shelves[i].(slug := slug)])
  {
    forall j | 0 <= j < |shelves| && j != i && shelves[j].creator == shelves[i].creator
      ensures shelves[j].slug != slug
    {
      assert shelves[j].id != shelves[i].id;
      assert shelves[j] in shelves && Visible(shelves[j], shelves[i].creator, Some(shelves[i].id));
    }
  }
}
