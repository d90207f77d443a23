/** The lines the renumberer takes, one by one, and the list it writes. */
module RenumberedLines {
  import opened Common
  import opened PhpStrings
  import opened Renumber

  lemma {:induction false} ValidInTurn(a: seq<string>, b: seq<string>, h: Helpers)
    ensures ValidNodes(a + b, h) == ValidNodes(a, h) + ValidNodes(b, h)
  {
    if b == [] {
      assert a + b == a;
    } else {
      var n := |b| - 1;
      ValidInTurn(a, b[..n], h);
      assert (a + b)[..|a + b| - 1] == a + b[..n];
    }
  }

  /** A line adds its node where it stands, or nothing if it is blank or does not decode. */
  lemma {:induction false} EachLineCounts(before: seq<string>, line: string, behind: seq<string>, h: Helpers)
    ensures ValidNodes(before + [line] + behind, h) ==
      ValidNodes(before, h)
      + (if Trim(line) != "" && h.decode(Trim(line)).Some? then [h.decode(Trim(line)).value] else [])
      + ValidNodes(behind, h)
  {
    ValidInTurn(before + [line], behind, h);
    assert (before + [line])[..|before|] == before;
  }

  /** The elements of the list are the encoded nodes, with a comma between any two. */
  lemma {:induction false} JsonIsAList(a: seq<Node>, node: Node, b: seq<Node>, h: Helpers)
    ensures JsonElements([node], h) == h.encode(node)
    ensures a != [] && b != [] ==> JsonElements(a + b, h) == JsonElements(a, h) + "," + JsonElements(b, h)
  {
    if a != [] && b != [] {
      var n := |b| - 1;
      assert (a + b)[..|a + b| - 1] == a + b[..n];
      if n > 0 {
        JsonIsAList(a, node, b[..n], h);
        assert JsonElements(a, h) + "," + JsonElements(b[..n], h) + "," + h.encode(b[n])
            == JsonElements(a, h) + "," + (JsonElements(b[..n], h) + "," + h.encode(b[n]));
      } else {
        assert a + b[..n] == a;
      }
    }
  }
}
