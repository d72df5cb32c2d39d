/** Version entity-tags and If-Match (app/utils/etag/etag.py). */
module ETag {
  import opened Common
  import opened Text

  // ---- Printing ----

  function Digit(d: nat): char
    requires d < 10
  {
    ('0' as int + d) as char
  }

  /** `str(version)`. */
  function Decimal(n: nat): (s: string)
    ensures s != "" && AllDigits(s)
  {
    if n < 10 then [Digit(n)] else Decimal(n / 10) + [Digit(n % 10)]
  }

  predicate AllDigits(s: string) {
    forall i :: 0 <= i < |s| ==> '0' <= s[i] <= '9'
  }

  /** `int(text)` on a run of digits. */
  function Value(s: string): nat
    requires AllDigits(s)
  {
    if s == "" then 0 else 10 * Value(s[..|s| - 1]) + (s[|s| - 1] as int - '0' as int)
  }

  /** Printing a version and reading it back is lossless, so distinct versions print differently. */
  lemma {:induction false} DecimalRoundTrip(n: nat)
    ensures Value(Decimal(n)) == n
  {
    var s := Decimal(n);
    if n < 10 {
      assert s[..0] == "";
    } else {
      assert s[..|s| - 1] == Decimal(n / 10);
      DecimalRoundTrip(n / 10);
    }
  }

  const DIGITS := "0123456789"

  /** Decimal notation: a further digit goes to the right, and only zero starts with a zero. */
  lemma DecimalExact(n: nat, d: nat)
    requires d < 10
    ensures Decimal(d) == [DIGITS[d]]
    ensures n > 0 ==> Decimal(10 * n + d) == Decimal(n) + [DIGITS[d]]
    ensures Decimal(n)[0] == '0' <==> n == 0
  {
    assert (10 * n + d) / 10 == n && (10 * n + d) % 10 == d;
    NoLeadingZero(n);
  }

  lemma {:induction false} NoLeadingZero(n: nat)
    ensures Decimal(n)[0] == '0' <==> n == 0
  {
    if n >= 10 { NoLeadingZero(n / 10); }
  }

  lemma DecimalInjective(v: nat, w: nat)
    requires Decimal(v) == Decimal(w)
    ensures v == w
  {
    DecimalRoundTrip(v);
    DecimalRoundTrip(w);
  }

  function MakeETag(version: nat): string {
    "\"" + Decimal(version) + "\""
  }

  // ---- Matching ----

  /** `header.split(",")`: never empty, and a comma-free text is its own only piece. */
  function Split(s: string): (parts: seq<string>)
    ensures parts != []
  {
    if s == "" then [""]
    else
      var rest := Split(s[1..]);
      if s[0] == ',' then [""] + rest else [[s[0]] + rest[0]] + rest[1..]
  }

  /** What one comma-separated piece of the header says about the current version. */
  predicate Accepts(piece: string, current: string) {
    var tag := Strip(piece);
    tag == "*" || (|tag| >= 2 && tag[0] == '"' && tag[|tag| - 1] == '"' && tag[1..|tag| - 1] == current)
  }

  predicate SomePieceAccepts(pieces: seq<string>, current: string) {
    exists i :: 0 <= i < |pieces| && Accepts(pieces[i], current)
  }

  predicate Matches(header: string, version: nat) {
    SomePieceAccepts(Split(header), Decimal(version))
  }

  /** The token loop of `matches`, with its skips and early returns. */
  method MatchHeader(header: string, version: nat) returns (matched: bool)
    ensures matched == Matches(header, version)
  {
    var current := Decimal(version);
    var pieces := Split(header);
    for k := 0 to |pieces|
      invariant forall i :: 0 <= i < k ==> !Accepts(pieces[i], current)
    {
      var tag := Strip(pieces[k]);
      if tag == "" {
        continue;
      }
      if tag == "*" {
        return true;
      }
      if "W/" <= tag {
        assert tag[0] == 'W';
        continue;
      }
      if |tag| >= 2 && tag[0] == '"' && tag[|tag| - 1] == '"' {
        if tag[1..|tag| - 1] == current {
          return true;
        }
      }
    }
    return false;
  }

  // ---- The grammar of RFC 7232, sections 2.3 and 3.1 ----

  /** etagc: every visible ASCII character but the double quote, and obs-text. */
  predicate IsEtagChar(c: char) {
    c == '!' || '#' <= c <= '~' || '\U{80}' <= c <= '\U{ff}'
  }

  predicate IsOpaque(s: string) {
    forall c :: c in s ==> IsEtagChar(c)
  }

  /** OWS: spaces and horizontal tabs. */
  predicate IsOws(s: string) {
    forall c :: c in s ==> c == ' ' || c == '\t'
  }

  predicate StarInside(pieces: seq<string>) {
    exists i :: 0 < i < |pieces| - 1 && Strip(pieces[i]) == "*"
  }

  /** One element of the list, blanks included; recipients must accept empty elements. */
  datatype Element =
    | Empty(blank: string)
    | EntityTag(lead: string, weak: bool, opaque_: string, trail: string)
  {
    predicate Valid() {
      match this
      case Empty(blank) => IsOws(blank)
      case EntityTag(lead, _, o, trail) => IsOws(lead) && IsOws(trail) && IsOpaque(o)
    }

    function Core(): string
      requires EntityTag?
    {
      (if weak then "W/" else "") + "\"" + opaque_ + "\""
    }

    function Print(): string {
      match this
      case Empty(blank) => blank
      case EntityTag(lead, _, _, trail) => lead + Core() + trail
    }

    /** Strong comparison (section 2.3.2): neither tag weak, opaque parts identical. */
    predicate StronglyNames(version: nat) {
      EntityTag? && !weak && opaque_ == Decimal(version)
    }

    /** An opaque-tag with a lone star, but for blanks, between two of its own commas; the only
        blanks an opaque-tag can hold are U+0085 and U+00A0. */
    predicate HidesStar() {
      EntityTag? && StarInside(Split(opaque_))
    }

    predicate Contributes(version: nat) {
      StronglyNames(version) || HidesStar()
    }
  }

  predicate ValidList(es: seq<Element>) {
    es != [] && forall i :: 0 <= i < |es| ==> es[i].Valid()
  }

  /** Strong comparison of a whole If-Match list (section 3.1). */
  predicate StrongMatch(es: seq<Element>, version: nat) {
    exists i :: 0 <= i < |es| && es[i].StronglyNames(version)
  }

  predicate SomeContributes(es: seq<Element>, version: nat) {
    exists i :: 0 <= i < |es| && es[i].Contributes(version)
  }

  predicate HidesNoStar(es: seq<Element>) {
    forall i :: 0 <= i < |es| ==> !es[i].HidesStar()
  }

  predicate CommaFree(es: seq<Element>) {
    forall i :: 0 <= i < |es| ==> es[i].EntityTag? ==> ',' !in es[i].opaque_
  }

  /** The field value of a list of elements. */
  function PrintList(es: seq<Element>): string
    requires es != []
  {
    if |es| == 1 then es[0].Print() else es[0].Print() + "," + PrintList(es[1..])
  }

  // ---- Splitting facts ----

  lemma {:induction false} SplitNoComma(s: string)
    requires ',' !in s
    ensures Split(s) == [s]
  {
    if s != "" {
      SplitNoComma(s[1..]);
      assert [s[0]] + s[1..] == s;
    }
  }

  lemma {:induction false} SplitAtComma(a: string, b: string)
    ensures Split(a + "," + b) == Split(a) + Split(b)
  {
    if a == "" {
      assert a + "," + b == "," + b;
      assert ("," + b)[1..] == b;
    } else {
      assert (a + "," + b)[1..] == a[1..] + "," + b;
      SplitAtComma(a[1..], b);
    }
  }

  /** Comma-free text around a body sticks to the body's first and last pieces. */
  lemma {:induction false} SplitBefore(lead: string, s: string)
    requires ',' !in lead
    ensures Split(lead + s) == [lead + Split(s)[0]] + Split(s)[1..]
  {
    if lead == "" {
      assert lead + s == s;
      assert lead + Split(s)[0] == Split(s)[0];
    } else {
      assert (lead + s)[1..] == lead[1..] + s;
      SplitBefore(lead[1..], s);
      assert [lead[0]] + (lead[1..] + Split(s)[0]) == lead + Split(s)[0];
    }
  }

  lemma {:induction false} SplitAfter(s: string, trail: string)
    requires ',' !in trail
    ensures
      var p := Split(s);
      Split(s + trail) == p[..|p| - 1] + [p[|p| - 1] + trail]
  {
    if s == "" {
      assert s + trail == trail;
      SplitNoComma(trail);
      assert "" + trail == trail;
    } else {
      assert (s + trail)[0] == s[0] && (s + trail)[1..] == s[1..] + trail;
      SplitAfter(s[1..], trail);
      OneMoreChar(s, trail, Split(s[1..]));
    }
  }

  lemma OneMoreChar(s: string, trail: string, p: seq<string>)
    requires s != "" && p != [] && p == Split(s[1..]) && (s + trail)[0] == s[0]
    requires Split((s + trail)[1..]) == p[..|p| - 1] + [p[|p| - 1] + trail]
    ensures
      var q := Split(s);
      Split(s + trail) == q[..|q| - 1] + [q[|q| - 1] + trail]
  {
    if s[0] != ',' && |p| == 1 {
      assert [s[0]] + (p[0] + trail) == ([s[0]] + p[0]) + trail;
    }
  }

  lemma {:induction false} SplitPieceChars(s: string, i: nat)
    requires i < |Split(s)|
    ensures forall c :: c in Split(s)[i] ==> c in s && c != ','
  {
    if s != "" {
      var rest := Split(s[1..]);
      if s[0] == ',' {
        if i > 0 { SplitPieceChars(s[1..], i - 1); }
      } else {
        SplitPieceChars(s[1..], i);
      }
    }
  }

  // ---- One element ----

  lemma OwsIsBlank(s: string)
    requires IsOws(s)
    ensures AllBlank(s) && ',' !in s
  {
  }

  /** The piece printed by a comma-free entity-tag accepts exactly when the tag strongly names the version. */
  lemma WholeTagPiece(e: Element, version: nat)
    requires e.Valid() && e.EntityTag? && ',' !in e.opaque_
    ensures Split(e.Print()) == [e.Print()]
    ensures Accepts(e.Print(), Decimal(version)) <==> e.StronglyNames(version)
  {
    OwsIsBlank(e.lead);
    OwsIsBlank(e.trail);
    SplitNoComma(e.Print());
    var tag := e.Core();
    StripPadded(e.lead, tag, e.trail);
    if e.weak {
      assert tag[0] == 'W';
    } else {
      assert tag[1..|tag| - 1] == e.opaque_;
    }
  }

  lemma EmptyPiece(blank: string, current: string)
    requires IsOws(blank)
    ensures Split(blank) == [blank] && !Accepts(blank, current)
  {
    OwsIsBlank(blank);
    SplitNoComma(blank);
    assert blank + "" + "" == blank;
    StripPadded(blank, "", "");
  }

  /** The pieces of an entity-tag with commas inside: an opening stub, bare middles, a closing stub. */
  lemma CommaTagPieces(e: Element)
    requires e.Valid() && e.EntityTag? && ',' in e.opaque_
    ensures
      var p, o := Split(e.Print()), Split(e.opaque_);
      && |p| == |o| >= 2
      && p[0] == e.lead + ((if e.weak then "W/" else "") + "\"" + o[0])
      && p[|p| - 1] == (o[|o| - 1] + "\"") + e.trail
      && forall i :: 0 < i < |p| - 1 ==> p[i] == o[i]
  {
    var mark := if e.weak then "W/" else "";
    CommaMeansPieces(e.opaque_);
    OwsIsBlank(e.lead);
    OwsIsBlank(e.trail);
    TagPieces(e.lead, mark, e.opaque_, e.trail);
    assert e.Print() == (e.lead + mark + "\"") + e.opaque_ + ("\"" + e.trail);
  }

  lemma TagPieces(lead: string, mark: string, body: string, trail: string)
    requires ',' !in lead && ',' !in mark && ',' !in trail && |Split(body)| >= 2
    ensures
      var p, o := Split((lead + mark + "\"") + body + ("\"" + trail)), Split(body);
      && |p| == |o|
      && p[0] == lead + (mark + "\"" + o[0])
      && p[|p| - 1] == (o[|o| - 1] + "\"") + trail
      && forall i :: 0 < i < |p| - 1 ==> p[i] == o[i]
  {
    var o, opening, closing := Split(body), lead + mark + "\"", "\"" + trail;
    SplitAround(opening, body, closing);
    NewEnds(o, opening + o[0], o[|o| - 1] + closing);
    StubText(lead, mark, o[0]);
    Associative(o[|o| - 1], "\"", trail);
  }

  lemma StubText(lead: string, mark: string, o: string)
    ensures (lead + mark + "\"") + o == lead + (mark + "\"" + o)
  {
    Associative(lead, mark, "\"");
    Associative(lead, mark + "\"", o);
  }

  /** Comma-free text on both sides of a body of several pieces. */
  lemma SplitAround(lead: string, s: string, trail: string)
    requires ',' !in lead && ',' !in trail && |Split(s)| >= 2
    ensures
      var o := Split(s);
      Split(lead + s + trail) == [lead + o[0]] + o[1..|o| - 1] + [o[|o| - 1] + trail]
  {
    SplitAfter(s, trail);
    SplitBefore(lead, s + trail);
    assert lead + s + trail == lead + (s + trail);
  }

  lemma {:induction false} CommaMeansPieces(s: string)
    requires ',' in s
    ensures |Split(s)| >= 2
  {
    if s[0] != ',' { CommaMeansPieces(s[1..]); }
  }

  lemma OpeningStubRejected(lead: string, weak: bool, o: string, current: string)
    requires IsOws(lead) && IsOpaque(o)
    ensures !Accepts(lead + ((if weak then "W/" else "") + "\"" + o), current)
  {
    var core := (if weak then "W/" else "") + "\"" + o;
    OwsIsBlank(lead);
    assert core[0] == if weak then 'W' else '"';
    StripBehind(lead, core);
    if !weak { QuoteThenOpaque(core, o, lead + core, current); }
  }

  /** A lone quote, or one followed by opaque text, is no quoted tag. */
  lemma QuoteThenOpaque(core: string, o: string, piece: string, current: string)
    requires IsOpaque(o) && core != "" && core[0] == '"' && core[1..] == o
    requires
      var tag := Strip(piece);
      tag != "" && tag[0] == core[0] && (|tag| >= 2 ==> tag[|tag| - 1] in core[1..])
    ensures !Accepts(piece, current)
  {
  }

  lemma ClosingStubRejected(o: string, trail: string, current: string)
    requires IsOws(trail) && IsOpaque(o)
    ensures !Accepts((o + "\"") + trail, current)
  {
    var core := o + "\"";
    OwsIsBlank(trail);
    TakeFront(o, '"');
    StripBefore(core, trail);
    OpaqueThenQuote(core, o, core + trail, current);
  }

  /** A lone quote, or one after opaque text, is no quoted tag. */
  lemma OpaqueThenQuote(core: string, o: string, piece: string, current: string)
    requires IsOpaque(o) && core != "" && core[|core| - 1] == '"' && core[..|core| - 1] == o
    requires
      var tag := Strip(piece);
      tag != "" && tag[|tag| - 1] == core[|core| - 1] && (|tag| >= 2 ==> tag[0] in core[..|core| - 1])
    ensures !Accepts(piece, current)
  {
  }

  lemma MiddleAcceptsOnlyStar(o: string, current: string)
    requires IsOpaque(o)
    ensures Accepts(o, current) <==> Strip(o) == "*"
  {
    var tag := Strip(o);
    if |tag| >= 2 { StripChars(o, tag[0]); }
  }

  lemma CommaElementAccepts(e: Element, version: nat)
    requires e.Valid() && e.EntityTag? && ',' in e.opaque_
    ensures SomePieceAccepts(Split(e.Print()), Decimal(version)) <==> e.HidesStar()
  {
    var p, o, current := Split(e.Print()), Split(e.opaque_), Decimal(version);
    CommaTagPieces(e);
    forall i | 0 <= i < |o| ensures IsOpaque(o[i]) { SplitPieceChars(e.opaque_, i); }
    OpeningStubRejected(e.lead, e.weak, o[0], current);
    ClosingStubRejected(o[|o| - 1], e.trail, current);
    assert !Accepts(p[0], current) && !Accepts(p[|p| - 1], current);
    forall i | 0 < i < |p| - 1 ensures Accepts(p[i], current) <==> Strip(o[i]) == "*" {
      MiddleAcceptsOnlyStar(o[i], current);
    }
    if SomePieceAccepts(p, current) {
      var i :| 0 <= i < |p| && Accepts(p[i], current);
      assert Strip(o[i]) == "*";
    }
    if e.HidesStar() {
      assert StarInside(o);
      var i :| 0 < i < |o| - 1 && Strip(o[i]) == "*";
      assert Accepts(p[i], current);
    }
  }

  /** Exactly what one list element contributes: strong equality, or a star hidden between its commas. */
  lemma ElementAccepts(e: Element, version: nat)
    requires e.Valid()
    ensures SomePieceAccepts(Split(e.Print()), Decimal(version)) <==> e.Contributes(version)
  {
    var p := Split(e.Print());
    if e.Empty? {
      EmptyPiece(e.blank, Decimal(version));
    } else if ',' !in e.opaque_ {
      WholeTagPiece(e, version);
      SplitNoComma(e.opaque_);
      assert !e.HidesStar();
      assert p == [e.Print()] && p[0] == e.Print();
    } else {
      CommaElementAccepts(e, version);
      assert !AllDigits(e.opaque_);
    }
  }

  lemma PiecesConcat(a: seq<string>, b: seq<string>, current: string)
    ensures SomePieceAccepts(a + b, current) <==> SomePieceAccepts(a, current) || SomePieceAccepts(b, current)
  {
    if SomePieceAccepts(a, current) {
      var i :| 0 <= i < |a| && Accepts(a[i], current);
      assert (a + b)[i] == a[i];
    }
    if SomePieceAccepts(b, current) {
      var i :| 0 <= i < |b| && Accepts(b[i], current);
      assert (a + b)[|a| + i] == b[i];
    }
  }

  /** For every list of entity-tags, with any blanks, empty elements and commas: the code's answer is
      strong comparison, except that a star between the commas of one opaque-tag is taken for `*`. */
  lemma {:induction false} MatchesExactly(es: seq<Element>, version: nat)
    requires ValidList(es)
    ensures Matches(PrintList(es), version) <==> SomeContributes(es, version)
  {
    var e, current := es[0], Decimal(version);
    ElementAccepts(e, version);
    if |es| > 1 {
      var rest := es[1..];
      MatchesExactly(rest, version);
      SplitAtComma(e.Print(), PrintList(rest));
      PiecesConcat(Split(e.Print()), Split(PrintList(rest)), current);
      if SomeContributes(rest, version) {
        var i :| 0 <= i < |rest| && rest[i].Contributes(version);
        assert es[i + 1].Contributes(version);
      }
      if SomeContributes(es, version) && !e.Contributes(version) {
        var i :| 0 <= i < |es| && es[i].Contributes(version);
        assert rest[i - 1].Contributes(version);
      }
    }
  }

  /** The code performs strong comparison, for every version, exactly on the lists that hide no star. */
  lemma StrongComparisonIff(es: seq<Element>)
    requires ValidList(es)
    ensures (forall v: nat :: Matches(PrintList(es), v) <==> StrongMatch(es, v)) <==> HidesNoStar(es)
  {
    if HidesNoStar(es) {
      forall v: nat ensures Matches(PrintList(es), v) <==> StrongMatch(es, v) {
        MatchesExactly(es, v);
      }
    } else {
      var v := UnusedVersion(es);
      MatchesExactly(es, v);
      var i :| 0 <= i < |es| && es[i].HidesStar();
      assert es[i].Contributes(v);
      assert !StrongMatch(es, v);
    }
  }

  /** Without commas inside opaque-tags the code is strong comparison outright. */
  lemma CommaFreeIsStrong(es: seq<Element>, version: nat)
    requires ValidList(es) && CommaFree(es)
    ensures Matches(PrintList(es), version) <==> StrongMatch(es, version)
  {
    forall i | 0 <= i < |es| ensures !es[i].HidesStar() {
      if es[i].EntityTag? { SplitNoComma(es[i].opaque_); }
    }
    StrongComparisonIff(es);
  }

  /** Above every version that some element of the list names. */
  function UnusedVersion(es: seq<Element>): (v: nat)
    ensures forall w: nat :: StrongMatch(es, w) ==> w < v
  {
    if es == [] then 0
    else
      var v, e := UnusedVersion(es[1..]), es[0];
      var own := if e.EntityTag? && AllDigits(e.opaque_) then Value(e.opaque_) + 1 else 0;
      var top := if own > v then own else v;
      assert forall w: nat :: StrongMatch(es, w) ==> w < top by {
        forall w: nat | StrongMatch(es, w) ensures w < top {
          var i :| 0 <= i < |es| && es[i].StronglyNames(w);
          DecimalRoundTrip(w);
          if i > 0 { assert es[1..][i - 1].StronglyNames(w); assert StrongMatch(es[1..], w); }
        }
      }
      top
  }

  lemma HiddenStarPieces()
    ensures Split("a,*,b") == ["a", "*", "b"]
  {
    SplitNoComma("b");
    SplitNoComma("*");
    SplitNoComma("a");
    SplitAtComma("*", "b");
    SplitAtComma("a", "*,b");
    assert "*" + "," + "b" == "*,b" && "a" + "," + "*,b" == "a,*,b";
  }

  lemma HiddenStarTag(e: Element)
    requires e == EntityTag("", false, "a,*,b", "")
    ensures e.Valid() && e.HidesStar() && !AllDigits(e.opaque_)
  {
    HiddenStarPieces();
    TrimmedIsStripped("*");
    assert Strip(Split(e.opaque_)[1]) == "*";
    assert e.opaque_[0] == 'a';
  }

  /** A single legal entity-tag naming no version, which the code nevertheless takes for `*`. */
  lemma HiddenStarExample(version: nat)
    ensures
      var e := EntityTag("", false, "a,*,b", "");
      ValidList([e]) && !StrongMatch([e], version) && Matches(PrintList([e]), version)
  {
    var e := EntityTag("", false, "a,*,b", "");
    HiddenStarTag(e);
    assert [e][0].Contributes(version);
    MatchesExactly([e], version);
  }

  /** An ETag this service printed matches exactly the version it was printed for. */
  lemma PrintedETagMatches(v: nat, w: nat)
    ensures Matches(MakeETag(v), w) <==> v == w
  {
    var e := EntityTag("", false, Decimal(v), "");
    forall c | c in Decimal(v) ensures IsEtagChar(c) && c != ',' {
      var i :| 0 <= i < |Decimal(v)| && Decimal(v)[i] == c;
    }
    assert e.Print() == MakeETag(v);
    assert PrintList([e]) == MakeETag(v);
    CommaFreeIsStrong([e], w);
    if Decimal(v) == Decimal(w) { DecimalInjective(v, w); }
    assert StrongMatch([e], w) <==> [e][0].StronglyNames(w);
  }

  predicate HasStar(header: string) {
    exists i :: 0 <= i < |Split(header)| && Strip(Split(header)[i]) == "*"
  }

  /** The header quotes the ETag of this version. */
  predicate Quotes(header: string, version: nat) {
    exists i :: 0 <= i < |Split(header)| && Strip(Split(header)[i]) == MakeETag(version)
  }

  /** A header matches only by a star or by quoting the version's own ETag. */
  lemma MatchesByStarOrQuote(header: string, version: nat)
    ensures Matches(header, version) <==> HasStar(header) || Quotes(header, version)
  {
    var pieces, current := Split(header), Decimal(version);
    forall i | 0 <= i < |pieces|
      ensures Accepts(pieces[i], current) <==> Strip(pieces[i]) == "*" || Strip(pieces[i]) == MakeETag(version)
    {
      var tag := Strip(pieces[i]);
      if |tag| >= 2 && tag[0] == '"' && tag[|tag| - 1] == '"' {
        assert tag == [tag[0]] + tag[1..|tag| - 1] + [tag[|tag| - 1]];
      }
      assert MakeETag(version)[1..|MakeETag(version)| - 1] == current;
    }
    if Matches(header, version) {
      var i :| 0 <= i < |pieces| && Accepts(pieces[i], current);
      assert Strip(pieces[i]) == "*" || Strip(pieces[i]) == MakeETag(version);
    }
  }

  /** A header that has a star or quotes an ETag is not all blank. */
  lemma BlankNamesNothing(header: string, version: nat)
    ensures HasStar(header) || Quotes(header, version) ==> !AllBlank(header)
  {
    if AllBlank(header) {
      SplitNoComma(header);
      BlankStrips(header);
      assert Split(header)[0] == header && |Split(header)| == 1;
    }
  }

  /** `*`, blanks around it or not, matches every version. */
  lemma StarMatchesAll(lead: string, trail: string, version: nat)
    requires IsOws(lead) && IsOws(trail)
    ensures Matches(lead + "*" + trail, version)
  {
    OwsIsBlank(lead);
    OwsIsBlank(trail);
    SplitNoComma(lead + "*" + trail);
    StripPadded(lead, "*", trail);
    assert Accepts(Split(lead + "*" + trail)[0], Decimal(version));
  }
}
