/**
  Sub-book ids (SubBookIdHelper): a footnote or annotation is a book of its own whose
  id is "foundation/item" one level down and "foundation/N/parentItem/item" at level N.
 */
module SubBookIds {
  import opened Common
  import Decimal

  /** PHP's explode('/', s). */
  function Explode(s: string): (parts: seq<string>)
    ensures parts != []
  {
    if s == "" then [""]
    else
      var rest := Explode(s[1..]);
      if s[0] == '/' then [""] + rest else [[s[0]] + rest[0]] + rest[1..]
  }

  /** The array SubBookIdHelper::parse returns. */
  datatype Parsed = Parsed(foundation: string, level: nat, parentItemId: Option<string>, itemId: Option<string>)

  function Parse(subBookId: string): Parsed {
    var parts := Explode(subBookId);
    if |parts| == 2 then Parsed(parts[0], 1, None, Some(parts[1]))
    else if |parts| == 4 then Parsed(parts[0], Decimal.Parse(parts[1]), Some(parts[2]), Some(parts[3]))
    else Parsed(subBookId, 0, None, None)
  }

  /** The array SubBookIdHelper::parseParent returns. */
  datatype ParsedParent = ParsedParent(foundation: string, level: nat, lastItemId: string)

  function ParseParent(parentBook: string): Option<ParsedParent> {
    if '/' !in parentBook then None
    else
      var parts := Explode(parentBook);
      if |parts| == 2 then Some(ParsedParent(parts[0], 1, parts[1]))
      else if |parts| == 4 then Some(ParsedParent(parts[0], Decimal.Parse(parts[1]), parts[3]))
      else Some(ParsedParent(parts[0], 1, parts[|parts| - 1]))
  }

  function Build(parentBook: string, itemId: string): string {
    match ParseParent(parentBook)
    case None => parentBook + "/" + itemId
    case Some(p) => p.foundation + "/" + Decimal.Print(p.level + 1) + "/" + p.lastItemId + "/" + itemId
  }

  /** The id of an item reached from a foundation through a chain of items, one Build a step. */
  function BuildChain(foundation: string, items: seq<string>): string {
    if items == [] then foundation else Build(BuildChain(foundation, items[..|items| - 1]), items[|items| - 1])
  }

  ghost predicate SlashFree(s: string) {
    '/' !in s
  }

  lemma {:induction false} ExplodeSlashFree(s: string)
    requires SlashFree(s)
    ensures Explode(s) == [s]
  {
    if s != "" {
      ExplodeSlashFree(s[1..]);
      assert s == [s[0]] + s[1..];
    }
  }

  lemma {:induction false} ExplodePrefix(head: string, tail: string)
    requires SlashFree(head)
    ensures Explode(head + "/" + tail) == [head] + Explode(tail)
  {
    var s := head + "/" + tail;
    if head == "" {
      assert s == "/" + tail && s[1..] == tail;
    } else {
      ExplodePrefix(head[1..], tail);
      assert s[1..] == head[1..] + "/" + tail;
      assert head == [head[0]] + head[1..];
    }
  }

  lemma ExplodeTwo(a: string, b: string)
    requires SlashFree(a) && SlashFree(b)
    ensures Explode(a + "/" + b) == [a, b]
  {
    ExplodeSlashFree(b);
    ExplodePrefix(a, b);
  }

  lemma {:induction false} ExplodeFour(a: string, b: string, c: string, d: string)
    requires SlashFree(a) && SlashFree(b) && SlashFree(c) && SlashFree(d)
    ensures Explode(a + "/" + b + "/" + c + "/" + d) == [a, b, c, d]
  {
    ExplodeTwo(c, d);
    ExplodePrefix(b, c + "/" + d);
    ExplodePrefix(a, b + "/" + (c + "/" + d));
    assert a + "/" + b + "/" + c + "/" + d == a + "/" + (b + "/" + (c + "/" + d));
  }

  function ShortId(foundation: string, itemId: string): string {
    foundation + "/" + itemId
  }

  function DeepId(foundation: string, level: nat, parentItemId: string, itemId: string): string {
    foundation + "/" + Decimal.Print(level) + "/" + parentItemId + "/" + itemId
  }

  lemma ParseShortId(f: string, i: string)
    requires SlashFree(f) && SlashFree(i)
    ensures Parse(ShortId(f, i)) == Parsed(f, 1, None, Some(i))
    ensures ParseParent(ShortId(f, i)) == Some(ParsedParent(f, 1, i))
  {
    ExplodeTwo(f, i);
    assert ShortId(f, i)[|f|] == '/';
  }

  lemma ParseDeepId(f: string, level: nat, p: string, i: string)
    requires SlashFree(f) && SlashFree(p) && SlashFree(i)
    ensures Parse(DeepId(f, level, p, i)) == Parsed(f, level, Some(p), Some(i))
    ensures ParseParent(DeepId(f, level, p, i)) == Some(ParsedParent(f, level, i))
  {
    ExplodeFour(f, Decimal.Print(level), p, i);
    Decimal.ParsePrint(level);
    assert DeepId(f, level, p, i)[|f|] == '/';
  }

  /** The written form of a chain's id: only its length, its last item and the item before that survive. */
  function ChainId(foundation: string, items: seq<string>): string
    requires items != []
  {
    var n := |items|;
    if n == 1 then ShortId(foundation, items[0]) else DeepId(foundation, n, items[n - 2], items[n - 1])
  }

  lemma BuildChainForm(foundation: string, items: seq<string>)
    requires SlashFree(foundation) && items != [] && forall i | i in items :: SlashFree(i)
    ensures BuildChain(foundation, items) == ChainId(foundation, items)
    ensures var n := |items|;
      BuildChain(foundation, items) ==
        if n == 1 then foundation + "/" + items[0]
        else foundation + "/" + Decimal.Print(n) + "/" + items[n - 2] + "/" + items[n - 1]
  {
    var n := |items|;
    var before := items[..n - 1];
    if n == 1 {
      assert before == [];
    } else {
      assert forall i | i in before :: i in items;
      BuildChainForm(foundation, before);
      assert before[n - 2] == items[n - 2];
      if n == 2 {
        ParseShortId(foundation, before[0]);
      } else {
        ParseDeepId(foundation, n - 1, before[n - 3], before[n - 2]);
      }
    }
  }

  /** The part of a chain an id identifies. */
  function Identified(foundation: string, items: seq<string>): Parsed
    requires items != []
  {
    var n := |items|;
    Parsed(foundation, n, if n == 1 then None else Some(items[n - 2]), Some(items[n - 1]))
  }

  /** Parsing undoes building, for a chain of any length and items of any slash-free text. */
  lemma ParseBuildChain(foundation: string, items: seq<string>)
    requires SlashFree(foundation) && items != [] && forall i | i in items :: SlashFree(i)
    ensures Parse(BuildChain(foundation, items)) == Identified(foundation, items)
  {
    var n := |items|;
    BuildChainForm(foundation, items);
    if n == 1 {
      ParseShortId(foundation, items[0]);
    } else {
      ParseDeepId(foundation, n, items[n - 2], items[n - 1]);
    }
  }

  /**
    Two chains get the same id exactly when they agree on the foundation, the depth, the last
    item and the item before it. Ancestors further up are not part of the id.
   */
  lemma SameIdIff(f: string, xs: seq<string>, g: string, ys: seq<string>)
    requires SlashFree(f) && xs != [] && forall i | i in xs :: SlashFree(i)
    requires SlashFree(g) && ys != [] && forall i | i in ys :: SlashFree(i)
    ensures BuildChain(f, xs) == BuildChain(g, ys) <==> Identified(f, xs) == Identified(g, ys)
  {
    ParseBuildChain(f, xs);
    ParseBuildChain(g, ys);
    BuildChainForm(f, xs);
    BuildChainForm(g, ys);
  }
}
