/** PHP string functions used by more than one component. */
module PhpStrings {

  /** str_replace with a one-character search. */
  function ReplaceChar(s: string, c: char, replacement: string): string {
    if s == "" then ""
    else (if s[0] == c then replacement else [s[0]]) + ReplaceChar(s[1..], c, replacement)
  }

  lemma {:induction false} ReplaceCharConcat(a: string, b: string, c: char, replacement: string)
    ensures ReplaceChar(a + b, c, replacement) == ReplaceChar(a, c, replacement) + ReplaceChar(b, c, replacement)
  {
    if a == "" {
      assert a + b == b;
    } else {
      ReplaceCharConcat(a[1..], b, c, replacement);
      var first := if a[0] == c then replacement else [a[0]];
      assert (a + b)[1..] == a[1..] + b;
      assert first + (ReplaceChar(a[1..], c, replacement) + ReplaceChar(b, c, replacement))
          == (first + ReplaceChar(a[1..], c, replacement)) + ReplaceChar(b, c, replacement);
    }
  }

  lemma {:induction false} ReplaceCharAbsent(s: string, c: char, replacement: string)
    requires c !in s
    ensures ReplaceChar(s, c, replacement) == s
  {
    if s != "" {
      ReplaceCharAbsent(s[1..], c, replacement);
      assert s == [s[0]] + s[1..];
    }
  }

  lemma ReplaceCharPresent(c: char, replacement: string)
    ensures ReplaceChar([c], c, replacement) == replacement
  {
    assert [c][1..] == "";
  }

  /** The characters trim() strips. */
  predicate Trimmable(c: char) {
    c == ' ' || c == '\t' || c == '\n' || c == '\r' || c == '\0' || c == 11 as char
  }

  function TrimLeft(s: string): string {
    if s != "" && Trimmable(s[0]) then TrimLeft(s[1..]) else s
  }

  function TrimRight(s: string): string {
    if s != "" && Trimmable(s[|s| - 1]) then TrimRight(s[..|s| - 1]) else s
  }

  function Trim(s: string): string {
    TrimRight(TrimLeft(s))
  }

  lemma {:induction false} TrimLeftCuts(s: string) returns (front: string)
    ensures s == front + TrimLeft(s) && forall c | c in front :: Trimmable(c)
    ensures TrimLeft(s) != "" ==> !Trimmable(TrimLeft(s)[0])
  {
    front := "";
    if s != "" && Trimmable(s[0]) {
      var more := TrimLeftCuts(s[1..]);
      front := [s[0]] + more;
      assert s == [s[0]] + s[1..] == front + TrimLeft(s);
    }
  }

  lemma {:induction false} TrimRightCuts(s: string) returns (back: string)
    ensures s == TrimRight(s) + back && forall c | c in back :: Trimmable(c)
    ensures TrimRight(s) != "" ==> !Trimmable(TrimRight(s)[|TrimRight(s)| - 1]) && TrimRight(s)[0] == s[0]
  {
    back := "";
    if s != "" && Trimmable(s[|s| - 1]) {
      var more := TrimRightCuts(s[..|s| - 1]);
      back := more + [s[|s| - 1]];
      assert s == s[..|s| - 1] + [s[|s| - 1]] == TrimRight(s) + back;
    }
  }

  /** Trimming cuts what it strips off both ends, and all of it. */
  lemma TrimIs(s: string) returns (front: string, back: string)
    ensures s == front + Trim(s) + back
    ensures forall c | c in front + back :: c in {' ', '\t', '\n', '\r', '\0', 11 as char}
    ensures var t, stripped := Trim(s), {' ', '\t', '\n', '\r', '\0', 11 as char};
      t == "" || (t[0] !in stripped && t[|t| - 1] !in stripped)
  {
    front := TrimLeftCuts(s);
    back := TrimRightCuts(TrimLeft(s));
    assert s == front + (Trim(s) + back) == front + Trim(s) + back;
  }
}
