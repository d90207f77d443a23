/**
  Prefix search with SQL LIKE. BookVersionRestorer escapes the book id before it appends
  "/%"; the import job appends "/%" to the id as it is. LIKE is read as section 9.7.1 of the
  PostgreSQL manual describes it, with backslash as the escape character.
 */
module LikePattern {
  import opened PhpStrings

  /** str_replace with an array of searches: one replacement after the other over the whole string. */
  function EscapeLike(s: string): string {
    ReplaceChar(ReplaceChar(ReplaceChar(s, '\\', "\\\\"), '%', "\\%"), '_', "\\_")
  }

  /** The pattern BookVersionRestorer builds for a book's sub-books. */
  function SubBookPattern(bookId: string): string {
    EscapeLike(bookId) + "/%"
  }

  /** The pattern the import job builds. */
  function UnescapedPattern(bookId: string): string {
    bookId + "/%"
  }

  /** LIKE over the whole string; a pattern ending in an escape character matches nothing here (an error in SQL). */
  predicate Like(pattern: string, s: string)
    decreases |pattern| + |s|
  {
    if pattern == "" then s == ""
    else if pattern[0] == '%' then
      Like(pattern[1..], s) || (s != "" && Like(pattern, s[1..]))
    else if pattern[0] == '_' then
      s != "" && Like(pattern[1..], s[1..])
    else if pattern[0] == '\\' then
      |pattern| > 1 && s != "" && s[0] == pattern[1] && Like(pattern[2..], s[1..])
    else
      s != "" && s[0] == pattern[0] && Like(pattern[1..], s[1..])
  }

  predicate Special(c: char) {
    c == '\\' || c == '%' || c == '_'
  }

  function EscapeChar(c: char): string {
    if Special(c) then ['\\', c] else [c]
  }

  /** The three replacements in sequence escape each character once: later ones never touch earlier output. */
  lemma {:induction false} EscapeLikeCharwise(s: string)
    ensures EscapeLike(s) == if s == "" then "" else EscapeChar(s[0]) + EscapeLike(s[1..])
  {
    if s != "" {
      var rest := ReplaceChar(s[1..], '\\', "\\\\");
      var first := if s[0] == '\\' then "\\\\" else [s[0]];
      ReplaceCharConcat(first, rest, '%', "\\%");
      ReplaceCharConcat(ReplaceChar(first, '%', "\\%"), ReplaceChar(rest, '%', "\\%"), '_', "\\_");
      ReplaceFirst(first, s[0]);
    }
  }

  lemma ReplaceFirst(first: string, c: char)
    requires first == if c == '\\' then "\\\\" else [c]
    ensures ReplaceChar(ReplaceChar(first, '%', "\\%"), '_', "\\_") == EscapeChar(c)
  {
    if c == '%' {
      ReplaceCharPresent('%', "\\%");
      ReplaceCharAbsent("\\%", '_', "\\_");
    } else {
      ReplaceCharAbsent(first, '%', "\\%");
      if c == '_' {
        ReplaceCharPresent('_', "\\_");
      } else {
        ReplaceCharAbsent(first, '_', "\\_");
      }
    }
  }

  /** An escaped text matches itself and nothing else, whatever pattern follows it. */
  lemma {:induction false} EscapedMatchesLiterally(text: string, tail: string, s: string)
    ensures Like(EscapeLike(text) + tail, s) <==> text <= s && Like(tail, s[|text|..])
  {
    EscapeLikeCharwise(text);
    if text == "" {
      assert EscapeLike(text) + tail == tail && s[0..] == s;
    } else {
      var rest := EscapeLike(text[1..]) + tail;
      var pattern := EscapeLike(text) + tail;
      assert pattern == EscapeChar(text[0]) + rest;
      if s == "" {
        assert pattern != "" && pattern[0] != '%';
      } else {
        EscapedMatchesLiterally(text[1..], tail, s[1..]);
        if Special(text[0]) {
          assert pattern[0] == '\\' && pattern[1] == text[0] && pattern[2..] == rest;
        } else {
          assert pattern[0] == text[0] && pattern[1..] == rest;
        }
        assert text <= s <==> text[0] == s[0] && text[1..] <= s[1..] by {
          assert text == [text[0]] + text[1..] && s == [s[0]] + s[1..];
        }
        assert text[1..] <= s[1..] ==> s[1..][|text[1..]|..] == s[|text|..];
      }
    }
  }

  lemma {:induction false} PercentMatchesAll(s: string)
    ensures Like("%", s)
  {
    assert "%"[1..] == "";
    if s != "" {
      PercentMatchesAll(s[1..]);
    }
  }

  lemma SlashPercent(s: string)
    ensures Like("/%", s) <==> "/" <= s
  {
    assert "/%"[1..] == "%";
    if s != "" {
      PercentMatchesAll(s[1..]);
    }
  }

  /** The restorer's pattern selects exactly the ids that start with the book id and a slash. */
  lemma SubBookPatternIsPrefix(bookId: string, s: string)
    ensures Like(SubBookPattern(bookId), s) <==> bookId + "/" <= s
  {
    EscapedMatchesLiterally(bookId, "/%", s);
    if bookId <= s {
      SlashPercent(s[|bookId|..]);
      assert s == bookId + s[|bookId|..];
      assert bookId + "/" <= s <==> "/" <= s[|bookId|..];
    }
  }

  /** A shortest string a pattern matches: % gives nothing, _ gives an x, an escape gives what it escapes. */
  function Instance(pattern: string): string {
    if pattern == "" then ""
    else if pattern[0] == '%' then Instance(pattern[1..])
    else if pattern[0] == '_' then "x" + Instance(pattern[1..])
    else if pattern[0] == '\\' then
      if |pattern| == 1 then "" else [pattern[1]] + Instance(pattern[2..])
    else [pattern[0]] + Instance(pattern[1..])
  }

  lemma {:induction false} InstanceMatches(pattern: string)
    requires pattern != "" && pattern[|pattern| - 1] == '/'
    ensures Like(pattern + "%", Instance(pattern))
    decreases |pattern|
  {
    var n := if pattern[0] == '\\' then 2 else 1;
    assert (pattern + "%")[n..] == pattern[n..] + "%";
    if n < |pattern| {
      InstanceMatches(pattern[n..]);
    } else {
      assert pattern[n..] + "%" == "%" && Instance(pattern[n..]) == "";
      PercentMatchesAll("");
    }
    assert pattern[0] != '%' ==> Instance(pattern)[1..] == Instance(pattern[n..]);
  }

  lemma {:induction false} InstanceOfPlain(pattern: string)
    ensures |Instance(pattern)| <= |pattern|
    ensures Instance(pattern) == pattern <==> forall c | c in pattern :: !Special(c)
    decreases |pattern|
  {
    if pattern != "" {
      InstanceOfPlain(pattern[1..]);
      assert pattern == [pattern[0]] + pattern[1..] && pattern[0] in pattern;
      if pattern[0] == '\\' && |pattern| > 1 {
        InstanceOfPlain(pattern[2..]);
      }
    }
  }

  lemma {:induction false} PlainIsEscaped(s: string)
    requires forall c | c in s :: !Special(c)
    ensures EscapeLike(s) == s
  {
    EscapeLikeCharwise(s);
    if s != "" {
      PlainIsEscaped(s[1..]);
      assert s == [s[0]] + s[1..];
    }
  }

  /** A pattern means "starts with the book id and a slash". */
  ghost predicate MeansSubBookOf(pattern: string, bookId: string) {
    forall s :: Like(pattern, s) <==> bookId + "/" <= s
  }

  /** The import job's unescaped pattern has that meaning for exactly the ids without \, % and _. */
  lemma UnescapedIsPrefixIff(bookId: string)
    ensures MeansSubBookOf(UnescapedPattern(bookId), bookId) <==> forall c | c in bookId :: !Special(c)
  {
    if forall c | c in bookId :: !Special(c) {
      PlainIsEscaped(bookId);
      forall s ensures Like(UnescapedPattern(bookId), s) <==> bookId + "/" <= s {
        SubBookPatternIsPrefix(bookId, s);
      }
    } else {
      var p := bookId + "/";
      InstanceMatches(p);
      assert p + "%" == UnescapedPattern(bookId);
      InstanceOfPlain(p);
      var c :| c in bookId && Special(c);
      assert c in p;
      assert p <= Instance(p) ==> p == Instance(p);
      assert Like(UnescapedPattern(bookId), Instance(p)) && !(bookId + "/" <= Instance(p));
    }
  }

  /** Generated ids have the form book_N, so the import's pattern also selects the sub-books of ids like bookxN. */
  lemma UnderscoreMatchesOtherBooks()
    ensures Like(UnescapedPattern("book_1"), "bookx1/Fn1") && !("book_1" + "/" <= "bookx1/Fn1")
  {
    var p, s := UnescapedPattern("book_1"), "bookx1/Fn1";
    assert p[1..] == "ook_1/%" && s[1..] == "ookx1/Fn1";
    assert p[2..] == "ok_1/%" && s[2..] == "okx1/Fn1";
    PercentMatchesAll("Fn1");
    assert Like("/%", "/Fn1") by { assert "/%"[1..] == "%" && "/Fn1"[1..] == "Fn1"; }
    assert Like("1/%", "1/Fn1") by { assert "1/%"[1..] == "/%" && "1/Fn1"[1..] == "/Fn1"; }
    assert Like("_1/%", "x1/Fn1") by { assert "_1/%"[1..] == "1/%" && "x1/Fn1"[1..] == "1/Fn1"; }
    assert Like("k_1/%", "kx1/Fn1") by { assert "k_1/%"[1..] == "_1/%" && "kx1/Fn1"[1..] == "x1/Fn1"; }
    assert Like("ok_1/%", "okx1/Fn1") by { assert "ok_1/%"[1..] == "k_1/%" && "okx1/Fn1"[1..] == "kx1/Fn1"; }
    assert Like("ook_1/%", "ookx1/Fn1") by { assert "ook_1/%"[1..] == "ok_1/%" && "ookx1/Fn1"[1..] == "okx1/Fn1"; }
    assert s[4] != "book_1/"[4];
  }
}
