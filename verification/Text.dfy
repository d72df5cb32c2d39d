/** Python's string operations: strip on Latin-1, which is all a header can hold, lower on ASCII. */
module Text {
  import opened Common

  /** The Latin-1 characters that str.strip() removes. */
  predicate IsBlank(c: char) {
    '\t' <= c <= '\r' || '\U{1c}' <= c <= '\U{1f}' || c == ' ' || c == '\U{85}' || c == '\U{a0}'
  }

  /** By code: the line and page controls, the separators, space, next line and no-break space. */
  lemma BlankCodes(c: char)
    ensures IsBlank(c) <==> c as int in {9, 10, 11, 12, 13, 28, 29, 30, 31, 32, 133, 160}
  {
  }

  predicate AllBlank(s: string) {
    forall c :: c in s ==> IsBlank(c)
  }

  /** No blank at either end. */
  predicate Trimmed(s: string) {
    s != "" ==> !IsBlank(s[0]) && !IsBlank(s[|s| - 1])
  }

  function StripLeft(s: string): (r: string)
    ensures r == "" || !IsBlank(r[0])
  {
    if s != "" && IsBlank(s[0]) then StripLeft(s[1..]) else s
  }

  function StripRight(s: string): (r: string)
    ensures r == "" || !IsBlank(r[|r| - 1])
    ensures r <= s
  {
    if s != "" && IsBlank(s[|s| - 1]) then StripRight(s[..|s| - 1]) else s
  }

  function Strip(s: string): (r: string)
    ensures Trimmed(r)
  {
    StripRight(StripLeft(s))
  }

  lemma {:induction false} StripLeftPast(lead: string, rest: string)
    requires AllBlank(lead)
    requires rest == "" || !IsBlank(rest[0])
    ensures StripLeft(lead + rest) == rest
  {
    if lead == "" {
      assert lead + rest == rest;
    } else {
      assert (lead + rest)[1..] == lead[1..] + rest;
      StripLeftPast(lead[1..], rest);
    }
  }

  lemma {:induction false} StripRightPast(rest: string, trail: string)
    requires AllBlank(trail)
    requires rest == "" || !IsBlank(rest[|rest| - 1])
    ensures StripRight(rest + trail) == rest
  {
    if trail == "" {
      assert rest + trail == rest;
    } else {
      assert (rest + trail)[..|rest + trail| - 1] == rest + trail[..|trail| - 1];
      StripRightPast(rest, trail[..|trail| - 1]);
    }
  }

  /** Whatever blanks surround a trimmed text, stripping returns that text. */
  lemma StripPadded(lead: string, core: string, trail: string)
    requires AllBlank(lead) && AllBlank(trail) && Trimmed(core)
    ensures Strip(lead + core + trail) == core
  {
    if core == "" {
      assert lead + core + trail == lead + trail + "";
      StripLeftPast(lead + trail, "");
    } else {
      assert lead + core + trail == lead + (core + trail);
      StripLeftPast(lead, core + trail);
      StripRightPast(core, trail);
    }
  }

  lemma {:induction false} StripLeftSuffix(s: string)
    ensures |StripLeft(s)| <= |s| && StripLeft(s) == s[|s| - |StripLeft(s)|..]
  {
    if s != "" && IsBlank(s[0]) {
      StripLeftSuffix(s[1..]);
    }
  }

  /** Stripping invents no character. */
  lemma StripChars(s: string, c: char)
    requires c in Strip(s)
    ensures c in s
  {
    StripLeftSuffix(s);
    var i :| 0 <= i < |Strip(s)| && Strip(s)[i] == c;
    assert StripLeft(s)[i] == c;
  }

  /** A last character that is not blank stays last, and what comes first stood before it. */
  lemma {:induction false} StripLeftKeepsLast(s: string)
    requires s != "" && !IsBlank(s[|s| - 1])
    ensures
      var r := StripLeft(s);
      r != "" && r[|r| - 1] == s[|s| - 1] && (|r| >= 2 ==> r[0] in s[..|s| - 1])
  {
    if IsBlank(s[0]) {
      StripLeftKeepsLast(s[1..]);
      assert s[..|s| - 1] == [s[0]] + s[1..][..|s[1..]| - 1];
    } else if |s| >= 2 {
      assert s[..|s| - 1][0] == s[0];
    }
  }

  lemma {:induction false} StripRightKeepsFirst(s: string)
    requires s != "" && !IsBlank(s[0])
    ensures
      var r := StripRight(s);
      r != "" && r[0] == s[0] && (|r| >= 2 ==> r[|r| - 1] in s[1..])
  {
    if IsBlank(s[|s| - 1]) {
      StripRightKeepsFirst(s[..|s| - 1]);
      assert s[1..] == s[..|s| - 1][1..] + [s[|s| - 1]];
    } else if |s| >= 2 {
      assert s[1..][|s| - 2] == s[|s| - 1];
    }
  }

  /** Stripping a text behind blanks: its first character stays first, and what is last came after it. */
  lemma StripBehind(lead: string, s: string)
    requires AllBlank(lead) && s != "" && !IsBlank(s[0])
    ensures
      var r := Strip(lead + s);
      r != "" && r[0] == s[0] && (|r| >= 2 ==> r[|r| - 1] in s[1..])
  {
    StripLeftPast(lead, s);
    StripRightKeepsFirst(s);
  }

  /** What follows a text that is not all blank does not matter to its left end. */
  lemma {:induction false} StripLeftWithin(s: string, trail: string)
    requires !AllBlank(s)
    ensures StripLeft(s + trail) == StripLeft(s) + trail
  {
    assert (s + trail)[0] == s[0];
    if IsBlank(s[0]) {
      assert s == [s[0]] + s[1..] && (s + trail)[1..] == s[1..] + trail;
      StripLeftWithin(s[1..], trail);
    }
  }

  /** Stripping a text before blanks: its last character stays last, and what is first came before. */
  lemma StripBefore(s: string, trail: string)
    requires AllBlank(trail) && s != "" && !IsBlank(s[|s| - 1])
    ensures
      var r := Strip(s + trail);
      r != "" && r[|r| - 1] == s[|s| - 1] && (|r| >= 2 ==> r[0] in s[..|s| - 1])
  {
    assert s[|s| - 1] in s;
    StripLeftWithin(s, trail);
    StripLeftKeepsLast(s);
    StripRightPast(StripLeft(s), trail);
  }

  /** Only blanks strip to nothing. */
  lemma BlankStrips(s: string)
    ensures Strip(s) == "" <==> AllBlank(s)
  {
    if AllBlank(s) {
      StripPadded(s, "", "");
      assert s + "" + "" == s;
    } else {
      var c :| c in s && !IsBlank(c);
      StripLeftKeeps(s, c);
      StripRightKeeps(StripLeft(s), c);
    }
  }

  lemma {:induction false} StripLeftKeeps(s: string, c: char)
    requires c in s && !IsBlank(c)
    ensures c in StripLeft(s)
  {
    if IsBlank(s[0]) {
      assert s == [s[0]] + s[1..];
      StripLeftKeeps(s[1..], c);
    }
  }

  lemma {:induction false} StripRightKeeps(s: string, c: char)
    requires c in s && !IsBlank(c)
    ensures c in StripRight(s)
  {
    if IsBlank(s[|s| - 1]) {
      assert s == s[..|s| - 1] + [s[|s| - 1]];
      StripRightKeeps(s[..|s| - 1], c);
    }
  }

  /** Stripping removes blanks from the two ends and nothing else. */
  lemma StripExact(s: string) returns (lead: string, trail: string)
    ensures s == lead + Strip(s) + trail && AllBlank(lead) && AllBlank(trail) && Trimmed(Strip(s))
  {
    lead := BlanksBefore(s);
    trail := BlanksAfter(StripLeft(s));
    Associative(lead, Strip(s), trail);
  }

  lemma {:induction false} BlanksBefore(s: string) returns (lead: string)
    ensures s == lead + StripLeft(s) && AllBlank(lead)
  {
    if s != "" && IsBlank(s[0]) {
      var rest := BlanksBefore(s[1..]);
      lead := [s[0]] + rest;
      Associative([s[0]], rest, StripLeft(s));
      assert s == [s[0]] + s[1..];
    } else {
      lead := "";
    }
  }

  lemma {:induction false} BlanksAfter(s: string) returns (trail: string)
    ensures s == StripRight(s) + trail && AllBlank(trail)
  {
    if s != "" && IsBlank(s[|s| - 1]) {
      var rest := BlanksAfter(s[..|s| - 1]);
      trail := rest + [s[|s| - 1]];
      Associative(StripRight(s), rest, [s[|s| - 1]]);
      assert s == s[..|s| - 1] + [s[|s| - 1]];
    } else {
      trail := "";
    }
  }

  function LowerChar(c: char): char {
    if 'A' <= c <= 'Z' then (c as int + 32) as char else c
  }

  function Lower(s: string): (r: string)
    ensures |r| == |s|
  {
    seq(|s|, i requires 0 <= i < |s| => LowerChar(s[i]))
  }

  /** `text.strip().lower()`, the normal form of tag names, e-mails and search terms. */
  function Clean(s: string): string {
    Lower(Strip(s))
  }

  const UPPER := "ABCDEFGHIJKLMNOPQRSTUVWXYZ"
  const LOWER := "abcdefghijklmnopqrstuvwxyz"

  /** Letter by letter: capitals become the small letters of the same place, the rest stays. */
  lemma LowerExact(s: string, i: nat)
    requires i < |s|
    ensures s[i] !in UPPER ==> Lower(s)[i] == s[i]
    ensures forall k :: 0 <= k < 26 && s[i] == UPPER[k] ==> Lower(s)[i] == LOWER[k]
  {
    CapitalAt(s[i]);
    forall k | 0 <= k < 26 ensures LowerChar(UPPER[k]) == LOWER[k] { AlphabetAt(k); }
  }

  lemma AlphabetAt(k: nat)
    requires k < 26
    ensures UPPER[k] == (65 + k) as char && LOWER[k] == (97 + k) as char
  {
  }

  lemma CapitalAt(c: char)
    ensures c in UPPER <==> 'A' <= c <= 'Z'
  {
    if 'A' <= c <= 'Z' { AlphabetAt(c as int - 65); }
    if c in UPPER {
      var k :| 0 <= k < |UPPER| && UPPER[k] == c;
      AlphabetAt(k);
    }
  }

  lemma LowerIdempotent(s: string)
    ensures Lower(Lower(s)) == Lower(s)
  {
    forall i | 0 <= i < |s| ensures Lower(Lower(s))[i] == Lower(s)[i] {
      assert LowerChar(LowerChar(s[i])) == LowerChar(s[i]);
    }
  }

  lemma TrimmedIsStripped(s: string)
    requires Trimmed(s)
    ensures Strip(s) == s
  {
    assert "" + s + "" == s;
    StripPadded("", s, "");
  }

  /** Cleaning twice is cleaning once. */
  lemma CleanIdempotent(s: string)
    ensures Clean(Clean(s)) == Clean(s)
    ensures Trimmed(Clean(s)) && Lower(Clean(s)) == Clean(s)
  {
    LowerIdempotent(Strip(s));
    TrimmedIsStripped(Clean(s));
  }

  /** t occurs in s. */
  predicate Contains(s: string, t: string) {
    exists i :: 0 <= i <= |s| - |t| && s[i..][..|t|] == t
  }
}
