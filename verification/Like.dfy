/** The LIKE predicate with an escape character (SQL-92, ISO/IEC 9075:1992, section 8.5), and the
    escaping that turns a search term into a pattern (app/repositories/bookmark/repository.py). */
module Like {
  import opened Common
  import opened Text

  const ESCAPE := '\\'

  // ---- Patterns ----

  datatype Token = Literal(c: char) | AnyChar | AnyString

  /** The pattern's substring specifiers, or None where the standard raises "invalid escape sequence". */
  function Parse(pattern: string): Option<seq<Token>> {
    if pattern == "" then Some([])
    else if pattern[0] == ESCAPE then
      if |pattern| >= 2 && pattern[1] in {ESCAPE, '%', '_'} then Prepend(Literal(pattern[1]), Parse(pattern[2..]))
      else None
    else
      var token := if pattern[0] == '%' then AnyString else if pattern[0] == '_' then AnyChar else Literal(pattern[0]);
      Prepend(token, Parse(pattern[1..]))
  }

  function Prepend(t: Token, rest: Option<seq<Token>>): Option<seq<Token>> {
    if rest.None? then None else Some([t] + rest.value)
  }

  /** The text can be cut into pieces that satisfy the specifiers in order. */
  predicate Fits(s: string, ts: seq<Token>)
    decreases |ts|
  {
    if ts == [] then s == ""
    else match ts[0]
      case Literal(c) => s != "" && s[0] == c && Fits(s[1..], ts[1..])
      case AnyChar => s != "" && Fits(s[1..], ts[1..])
      case AnyString => exists k :: 0 <= k <= |s| && Fits(s[k..], ts[1..])
  }

  /** SQL truth values. */
  datatype Truth = True | False | Unknown

  function Or(a: Truth, b: Truth): Truth {
    if a.True? || b.True? then True else if a.Unknown? || b.Unknown? then Unknown else False
  }

  /** `text LIKE pattern ESCAPE '\'` for a well-formed pattern; a null text gives Unknown. */
  function Like(text: Option<string>, pattern: string): Truth
    requires Parse(pattern).Some?
  {
    if text.None? then Unknown else if Fits(text.value, Parse(pattern).value) then True else False
  }

  // ---- Escaping ----

  /** Python's `text.replace(c, sub)` for a single character c. */
  function Replace(s: string, c: char, sub: string): string {
    if s == "" then "" else (if s[0] == c then sub else [s[0]]) + Replace(s[1..], c, sub)
  }

  /** The three successive replaces of the repository. */
  function Escape(term: string): string {
    Replace(Replace(Replace(term, '\\', "\\\\"), '%', "\\%"), '_', "\\_")
  }

  /** Escaping each character once, in one pass. */
  function EscapeOnce(term: string): string {
    if term == "" then ""
    else (if term[0] in {ESCAPE, '%', '_'} then [ESCAPE, term[0]] else [term[0]]) + EscapeOnce(term[1..])
  }

  function SearchPattern(term: string): string {
    "%" + Escape(term) + "%"
  }

  lemma {:induction false} ReplaceConcat(a: string, b: string, c: char, sub: string)
    ensures Replace(a + b, c, sub) == Replace(a, c, sub) + Replace(b, c, sub)
  {
    if a == "" {
      assert a + b == b;
    } else {
      assert (a + b)[1..] == a[1..] + b;
      ReplaceConcat(a[1..], b, c, sub);
    }
  }

  lemma ReplaceChar(x: char, c: char, sub: string)
    ensures Replace([x], c, sub) == if x == c then sub else [x]
  {
    assert Replace([x][1..], c, sub) == "";
  }

  lemma EscapeChar(x: char)
    ensures Escape([x]) == EscapeOnce([x])
  {
    ReplaceChar(x, '\\', "\\\\");
    ReplaceChar(x, '%', "\\%");
    ReplaceChar(x, '_', "\\_");
    if x == '\\' {
      Untouched("\\\\", '%', "\\%");
      Untouched("\\\\", '_', "\\_");
    } else if x == '%' {
      Untouched("\\%", '_', "\\_");
    }
    assert EscapeOnce([x][1..]) == "";
  }

  lemma {:induction false} Untouched(s: string, c: char, sub: string)
    requires c !in s
    ensures Replace(s, c, sub) == s
  {
    if s != "" {
      Untouched(s[1..], c, sub);
      assert [s[0]] + s[1..] == s;
    }
  }

  /** Because the backslash is replaced first, the three replaces equal one pass over the term. */
  lemma {:induction false} EscapeIsOnePass(term: string)
    ensures Escape(term) == EscapeOnce(term)
  {
    if term != "" {
      var x, rest := [term[0]], term[1..];
      assert term == x + rest;
      ReplaceConcat(x, rest, '\\', "\\\\");
      ReplaceConcat(Replace(x, '\\', "\\\\"), Replace(rest, '\\', "\\\\"), '%', "\\%");
      ReplaceConcat(
        Replace(Replace(x, '\\', "\\\\"), '%', "\\%"), Replace(Replace(rest, '\\', "\\\\"), '%', "\\%"), '_', "\\_");
      assert Escape(term) == Escape(x) + Escape(rest);
      EscapeChar(term[0]);
      assert EscapeOnce(x[1..]) == "";
      EscapeIsOnePass(rest);
    }
  }

  /** Replacing the backslash last would break it: the term "%" would no longer be escaped. */
  lemma BackslashMustGoFirst()
    ensures Replace(Replace(Replace("%", '%', "\\%"), '_', "\\_"), '\\', "\\\\") != EscapeOnce("%")
  {
    ReplaceChar('%', '%', "\\%");
    Untouched("\\%", '_', "\\_");
    ReplaceConcat("\\", "%", '\\', "\\\\");
    assert "\\" + "%" == "\\%";
    ReplaceChar('\\', '\\', "\\\\");
    Untouched("%", '\\', "\\\\");
    assert |EscapeOnce("%")| == 2 by { assert EscapeOnce("%"[1..]) == ""; }
  }

  // ---- Searching ----

  function Literals(s: string): seq<Token> {
    seq(|s|, i requires 0 <= i < |s| => Literal(s[i]))
  }

  /** An escaped term followed by a percent sign parses to the term's characters, then any string. */
  lemma {:induction false} ParseEscaped(term: string)
    ensures Parse(EscapeOnce(term) + "%") == Some(Literals(term) + [AnyString])
  {
    if term == "" {
      assert EscapeOnce(term) + "%" == "%";
      assert Parse("%"[1..]) == Some([]);
      assert Literals(term) + [AnyString] == [AnyString] + [];
    } else {
      var rest := EscapeOnce(term[1..]) + "%";
      var p := EscapeOnce(term) + "%";
      ParseEscaped(term[1..]);
      if term[0] in {ESCAPE, '%', '_'} {
        assert p == [ESCAPE, term[0]] + rest && p[2..] == rest;
      } else {
        assert p == [term[0]] + rest && p[1..] == rest;
      }
      assert Literals(term) == [Literal(term[0])] + Literals(term[1..]);
      assert [Literal(term[0])] + (Literals(term[1..]) + [AnyString]) == Literals(term) + [AnyString];
    }
  }

  /** Literal characters and then any string: a prefix test. */
  lemma {:induction false} FitsPrefix(s: string, term: string)
    ensures Fits(s, Literals(term) + [AnyString]) <==> term <= s
  {
    var ts := Literals(term) + [AnyString];
    if term == "" {
      assert ts == [AnyString];
      assert Fits(s[|s|..], ts[1..]);
    } else {
      assert ts[1..] == Literals(term[1..]) + [AnyString];
      if s != "" {
        FitsPrefix(s[1..], term[1..]);
        assert term == [term[0]] + term[1..] && s == [s[0]] + s[1..];
        if term[0] == s[0] && term[1..] <= s[1..] {
          assert s[..|term|] == [s[0]] + s[1..][..|term| - 1];
        }
        if term <= s {
          assert s[1..][..|term| - 1] == s[..|term|][1..];
        }
      }
    }
  }

  /** For every term and text: the escaped pattern is well formed and finds exactly the substring. */
  lemma SearchIsSubstring(text: string, term: string)
    ensures Parse(SearchPattern(term)).Some?
    ensures Like(Some(text), SearchPattern(term)) == if Contains(text, term) then True else False
  {
    EscapeIsOnePass(term);
    ParseEscaped(term);
    var p := SearchPattern(term);
    assert p == "%" + (EscapeOnce(term) + "%") && p[1..] == EscapeOnce(term) + "%";
    var tail := Literals(term) + [AnyString];
    var ts := Parse(p).value;
    assert ts == [AnyString] + tail && ts[1..] == tail;
    if Fits(text, ts) {
      var k :| 0 <= k <= |text| && Fits(text[k..], ts[1..]);
      FitsPrefix(text[k..], term);
      assert text[k..][..|term|] == term;
      assert Contains(text, term);
    }
    if Contains(text, term) {
      var i :| 0 <= i <= |text| - |term| && text[i..][..|term|] == term;
      FitsPrefix(text[i..], term);
      assert Fits(text[i..], ts[1..]);
    }
  }

  /** Why terms are escaped: an unescaped percent sign would find every text, and an unescaped
      underscore every text but the empty one. */
  lemma UnescapedWildcards(text: string)
    ensures Parse("%%%").Some? && Like(Some(text), "%%%").True?
    ensures Parse("%_%").Some? && (Like(Some(text), "%_%").True? <==> text != "")
  {
    PercentParses();
    AnyTextFits(text);
    UnderscoreParses();
    CharThenAny(text);
  }

  lemma PercentParses()
    ensures Parse("%") == Some([AnyString]) && Parse("%%%") == Some([AnyString, AnyString, AnyString])
  {
    assert ['%'] + "" == "%" && [AnyString] + [] == [AnyString];
    ParseMore('%', "", []);
    assert ['%'] + "%" == "%%" && [AnyString] + [AnyString] == [AnyString, AnyString];
    ParseMore('%', "%", [AnyString]);
    assert ['%'] + "%%" == "%%%" && [AnyString] + [AnyString, AnyString] == [AnyString, AnyString, AnyString];
    ParseMore('%', "%%", [AnyString, AnyString]);
  }

  lemma UnderscoreParses()
    ensures Parse("%_%") == Some([AnyString, AnyChar, AnyString])
  {
    PercentParses();
    assert ['_'] + "%" == "_%" && [AnyChar] + [AnyString] == [AnyChar, AnyString];
    ParseMore('_', "%", [AnyString]);
    assert ['%'] + "_%" == "%_%" && [AnyString] + [AnyChar, AnyString] == [AnyString, AnyChar, AnyString];
    ParseMore('%', "_%", [AnyChar, AnyString]);
  }

  lemma ParseMore(c: char, rest: string, ts: seq<Token>)
    requires c in {'%', '_'} && Parse(rest) == Some(ts)
    ensures Parse([c] + rest) == Some([if c == '%' then AnyString else AnyChar] + ts)
  {
    assert ([c] + rest)[1..] == rest;
  }

  lemma AnyStringFits(s: string, ts: seq<Token>, k: nat)
    requires k <= |s| && Fits(s[k..], ts)
    ensures Fits(s, [AnyString] + ts)
  {
    assert ([AnyString] + ts)[1..] == ts;
  }

  lemma AnyTextFits(s: string)
    ensures Fits(s, [AnyString]) && Fits(s, [AnyString, AnyString, AnyString])
  {
    AnyStringFits(s, [], |s|);
    assert [AnyString] + [AnyString] == [AnyString, AnyString];
    AnyStringFits(s, [AnyString], 0);
    assert [AnyString] + [AnyString, AnyString] == [AnyString, AnyString, AnyString];
    AnyStringFits(s, [AnyString, AnyString], 0);
  }

  lemma CharThenAny(s: string)
    ensures Fits(s, [AnyString, AnyChar, AnyString]) <==> s != ""
  {
    var ts := [AnyChar, AnyString];
    assert ts[1..] == [AnyString] && [AnyString, AnyChar, AnyString] == [AnyString] + ts;
    if s != "" {
      AnyTextFits(s[1..]);
      AnyStringFits(s, ts, 0);
    } else {
      forall k | 0 <= k <= |s| ensures !Fits(s[k..], ts) {}
    }
  }

  /** The two-column search: a null description counts as not containing the term. */
  lemma SearchEitherColumn(title: string, description: Option<string>, term: string)
    ensures Parse(SearchPattern(term)).Some?
    ensures Or(Like(Some(title), SearchPattern(term)), Like(description, SearchPattern(term))).True?
            <==> Contains(title, term) || (description.Some? && Contains(description.value, term))
  {
    SearchIsSubstring(title, term);
    if description.Some? { SearchIsSubstring(description.value, term); }
  }
}
