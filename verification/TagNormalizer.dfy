/** Tag-name normalisation (app/utils/tags/normalizer.py). */
module TagNormalizer {
  import opened Common
  import opened Text

  const MAX_TAG_LENGTH := 50
  const MAX_TAGS_PER_BOOKMARK := 30

  /** The list of names, or the ValueError raised instead. */
  datatype Normalized = Names(names: seq<string>) | TooLong(name: string) | TooMany(count: nat)

  // ---- Specification ----

  /** The cleaned, non-blank names of the list, repetitions included. */
  function Kept(raw: seq<string>): seq<string> {
    if raw == [] then []
    else
      var last := Clean(raw[|raw| - 1]);
      Kept(raw[..|raw| - 1]) + if last == "" then [] else [last]
  }

  /** Each element once, where it first occurs. */
  function FirstOccurrences(s: seq<string>): seq<string> {
    if s == [] then []
    else
      var earlier, last := FirstOccurrences(s[..|s| - 1]), s[|s| - 1];
      if last in earlier then earlier else earlier + [last]
  }

  /** The position at which x first occurs in s. */
  function FirstIndex(s: seq<string>, x: string): (i: nat)
    requires x in s
    ensures i < |s| && s[i] == x && forall k :: 0 <= k < i ==> s[k] != x
  {
    if s[0] == x then 0 else 1 + FirstIndex(s[1..], x)
  }

  predicate IsLong(name: string) {
    |name| > MAX_TAG_LENGTH
  }

  /** The first over-long name, if any. */
  function FirstLong(raw: seq<string>): Option<string> {
    if raw == [] then None
    else if IsLong(Clean(raw[0])) then Some(Clean(raw[0]))
    else FirstLong(raw[1..])
  }

  function Normalize(raw: seq<string>): Normalized {
    var long, distinct := FirstLong(raw), FirstOccurrences(Kept(raw));
    if long.Some? then TooLong(long.value)
    else if |distinct| > MAX_TAGS_PER_BOOKMARK then TooMany(|distinct|)
    else Names(distinct)
  }

  // ---- The loop ----

  method NormalizeTags(raw: Option<seq<string>>) returns (result: Normalized)
    ensures result == if raw.None? then Names([]) else Normalize(raw.value)
  {
    if raw.None? || raw.value == [] {
      return Names([]);
    }
    var items := raw.value;
    var normalized: seq<string> := [];
    var seen: set<string> := {};
    assert items[..0] == [];
    for k := 0 to |items|
      invariant Progress(items, k, normalized, seen)
    {
      var name := Clean(items[k]);
      Proceed(items, k, normalized, seen);
      if name == "" {
        continue;
      }
      if |name| > MAX_TAG_LENGTH {
        return TooLong(name);
      }
      if name !in seen {
        seen := seen + {name};
        normalized := normalized + [name];
      }
    }
    NoneLong(items);
    TakeAll(items);
    if |normalized| > MAX_TAGS_PER_BOOKMARK {
      return TooMany(|normalized|);
    }
    return Names(normalized);
  }

  predicate LongAt(items: seq<string>, i: nat)
    requires i < |items|
  {
    IsLong(Clean(items[i]))
  }

  /** After the first k items: the distinct names so far, in order and as a set, none too long. */
  ghost predicate Progress(items: seq<string>, k: nat, normalized: seq<string>, seen: set<string>) {
    && k <= |items|
    && normalized == FirstOccurrences(Kept(items[..k]))
    && seen == Elements(normalized)
    && forall i :: 0 <= i < k ==> !LongAt(items, i)
  }

  lemma Proceed(items: seq<string>, k: nat, normalized: seq<string>, seen: set<string>)
    requires k < |items| && Progress(items, k, normalized, seen)
    ensures
      var name := Clean(items[k]);
      if name == "" then Progress(items, k + 1, normalized, seen)
      else if |name| > MAX_TAG_LENGTH then Normalize(items) == TooLong(name)
      else if name in seen then Progress(items, k + 1, normalized, seen)
      else Progress(items, k + 1, normalized + [name], seen + {name})
  {
    var kept, name := Kept(items[..k]), Clean(items[k]);
    if name == "" {
      KeptBlank(items, k);
    } else if LongAt(items, k) {
      LongFound(items, k);
    } else {
      KeptName(items, k, name);
      ProceedName(kept, name, normalized, seen);
    }
  }

  lemma ProceedName(kept: seq<string>, name: string, normalized: seq<string>, seen: set<string>)
    requires normalized == FirstOccurrences(kept) && seen == Elements(normalized)
    ensures
      if name in seen then FirstOccurrences(kept + [name]) == normalized
      else FirstOccurrences(kept + [name]) == normalized + [name] && Elements(normalized + [name]) == seen + {name}
  {
    TakeFront(kept, name);
    ElementsSnoc(normalized, name);
  }

  lemma KeptBlank(items: seq<string>, k: nat)
    requires k < |items| && Clean(items[k]) == ""
    ensures Kept(items[..k + 1]) == Kept(items[..k])
  {
    Snoc(items, k);
    TakeAll(Kept(items[..k]));
  }

  lemma KeptName(items: seq<string>, k: nat, name: string)
    requires k < |items| && name == Clean(items[k]) != ""
    ensures Kept(items[..k + 1]) == Kept(items[..k]) + [name]
  {
    Snoc(items, k);
  }

  /** The first over-long item decides the verdict, whatever follows. */
  lemma {:induction false} LongFound(items: seq<string>, k: nat)
    requires k < |items| && LongAt(items, k) && forall i :: 0 <= i < k ==> !LongAt(items, i)
    ensures FirstLong(items) == Some(Clean(items[k]))
  {
    if k > 0 {
      assert !LongAt(items, 0);
      forall i | 0 <= i < k - 1 ensures !LongAt(items[1..], i) { assert !LongAt(items, i + 1); }
      assert LongAt(items[1..], k - 1);
      LongFound(items[1..], k - 1);
    }
  }

  lemma {:induction false} NoneLong(items: seq<string>)
    requires forall i :: 0 <= i < |items| ==> !LongAt(items, i)
    ensures FirstLong(items).None?
  {
    if items != [] {
      assert !LongAt(items, 0);
      forall i | 0 <= i < |items[1..]| ensures !LongAt(items[1..], i) { assert !LongAt(items, i + 1); }
      NoneLong(items[1..]);
    }
  }

  // ---- What the list is ----

  /** It raises for length exactly when some item's name is too long, and then names the first. */
  lemma FirstLongExact(raw: seq<string>)
    ensures FirstLong(raw).Some? <==> exists i :: 0 <= i < |raw| && LongAt(raw, i)
    ensures FirstLong(raw).Some? ==>
              exists i :: 0 <= i < |raw| && LongAt(raw, i) && Clean(raw[i]) == FirstLong(raw).value
                          && forall j :: 0 <= j < i ==> !LongAt(raw, j)
  {
    if i :| 0 <= i < |raw| && LongAt(raw, i) {
      var k := FirstLongIndex(raw, i);
      LongFound(raw, k);
    } else {
      NoneLong(raw);
    }
  }

  lemma {:induction false} FirstLongIndex(raw: seq<string>, i: nat) returns (k: nat)
    requires i < |raw| && LongAt(raw, i)
    ensures k <= i && LongAt(raw, k) && forall j :: 0 <= j < k ==> !LongAt(raw, j)
    decreases i
  {
    if j :| 0 <= j < i && LongAt(raw, j) {
      k := FirstLongIndex(raw, j);
    } else {
      k := i;
    }
  }

  lemma {:induction false} KeptElements(raw: seq<string>, x: string)
    ensures x in Kept(raw) <==> x != "" && exists i :: 0 <= i < |raw| && Clean(raw[i]) == x
  {
    if raw != [] {
      var front := raw[..|raw| - 1];
      KeptElements(front, x);
      if i :| 0 <= i < |raw| && Clean(raw[i]) == x {
        assert i < |front| ==> Clean(front[i]) == x;
      }
    }
  }

  /** Distinct, complete, and in the order of first occurrence. */
  lemma {:induction false} FirstOccurrencesExact(s: seq<string>)
    ensures
      var r := FirstOccurrences(s);
      && Distinct(r)
      && (forall x :: x in r <==> x in s)
      && (forall i, j :: 0 <= i < j < |r| ==> FirstIndex(s, r[i]) < FirstIndex(s, r[j]))
  {
    if s != [] {
      var front, last := s[..|s| - 1], s[|s| - 1];
      FirstOccurrencesExact(front);
      assert s == front + [last];
      forall x | x in front ensures FirstIndex(s, x) == FirstIndex(front, x) { FirstIndexOfPrefix(front, last, x); }
      var r := FirstOccurrences(s);
      if last !in front {
        assert FirstIndex(s, last) == |front|;
      }
      forall i, j | 0 <= i < j < |r| ensures FirstIndex(s, r[i]) < FirstIndex(s, r[j]) {
        assert r[i] in front;
        if j < |FirstOccurrences(front)| { assert r[j] in front; }
      }
    }
  }

  lemma FirstIndexOfPrefix(front: seq<string>, last: string, x: string)
    requires x in front
    ensures FirstIndex(front + [last], x) == FirstIndex(front, x)
  {
    var i, j := FirstIndex(front + [last], x), FirstIndex(front, x);
    assert (front + [last])[j] == x;
  }

  /** No other list is distinct, complete and in that order. */
  lemma FirstOccurrencesUnique(s: seq<string>, r: seq<string>)
    requires Distinct(r) && (forall x :: x in r <==> x in s)
    requires forall i, j :: 0 <= i < j < |r| ==> FirstIndex(s, r[i]) < FirstIndex(s, r[j])
    ensures r == FirstOccurrences(s)
  {
    FirstOccurrencesExact(s);
    SameOrder(s, r, FirstOccurrences(s));
  }

  lemma TailMembers(s: seq<string>, x: string)
    requires s != [] && Distinct(s)
    ensures x in s[1..] <==> x in s && x != s[0]
  {
    assert s == [s[0]] + s[1..];
  }

  lemma {:induction false} SameOrder(s: seq<string>, r: seq<string>, t: seq<string>)
    requires Distinct(r) && Distinct(t) && (forall x :: x in r <==> x in t) && (forall x :: x in r ==> x in s)
    requires forall i, j :: 0 <= i < j < |r| ==> FirstIndex(s, r[i]) < FirstIndex(s, r[j])
    requires forall i, j :: 0 <= i < j < |t| ==> FirstIndex(s, t[i]) < FirstIndex(s, t[j])
    ensures r == t
  {
    if r == [] {
      SameElementsSameBag(r, t);
      assert |t| == |multiset(t)|;
    } else {
      assert r[0] in t && (t != [] ==> t[0] in r);
      assert r[0] == t[0];
      forall x ensures x in r[1..] <==> x in t[1..] {
        TailMembers(r, x);
        TailMembers(t, x);
      }
      SameOrder(s, r[1..], t[1..]);
    }
  }

  /** The distinct names a list asks for: its items trimmed and lower-cased, blanks aside. */
  function CleanNames(raw: seq<string>): set<string> {
    set i | 0 <= i < |raw| && Clean(raw[i]) != "" :: Clean(raw[i])
  }

  /** Some item says x, and none up to it says y. */
  predicate SaidBefore(raw: seq<string>, x: string, y: string) {
    exists a :: 0 <= a < |raw| && Clean(raw[a]) == x && forall b :: 0 <= b <= a ==> Clean(raw[b]) != y
  }

  lemma KeptAreCleanNames(raw: seq<string>)
    ensures Elements(Kept(raw)) == CleanNames(raw)
  {
    forall x ensures x in Elements(Kept(raw)) <==> x in CleanNames(raw) { KeptElements(raw, x); }
  }

  lemma SaidBeforeSnoc(front: seq<string>, item: string, x: string, y: string)
    requires SaidBefore(front, x, y)
    ensures SaidBefore(front + [item], x, y)
  {
    var a :| 0 <= a < |front| && Clean(front[a]) == x && forall b :: 0 <= b <= a ==> Clean(front[b]) != y;
    var raw := front + [item];
    assert raw[a] == front[a];
    forall b | 0 <= b <= a ensures Clean(raw[b]) != y { assert raw[b] == front[b]; }
  }

  lemma SaidLast(front: seq<string>, item: string, x: string, y: string)
    requires Clean(item) == x != y && y != "" && y !in Kept(front)
    ensures SaidBefore(front + [item], x, y)
  {
    var raw := front + [item];
    assert raw[|front|] == item;
    forall b | 0 <= b <= |front| ensures Clean(raw[b]) != y {
      if b < |front| {
        assert raw[b] == front[b];
        KeptElements(front, y);
      }
    }
  }

  /** The order of the kept names is the order in which the items first say them. */
  lemma {:induction false} KeptOrder(raw: seq<string>, x: string, y: string)
    requires x in Kept(raw) && x != y && y != ""
    requires y in Kept(raw) ==> FirstIndex(Kept(raw), x) < FirstIndex(Kept(raw), y)
    ensures SaidBefore(raw, x, y)
  {
    var front, item := raw[..|raw| - 1], raw[|raw| - 1];
    var kept := Kept(front);
    assert raw == front + [item];
    if Clean(item) == "" {
      TakeAll(kept);
      KeptOrder(front, x, y);
      SaidBeforeSnoc(front, item, x, y);
    } else if x in kept {
      FirstIndexOfPrefix(kept, Clean(item), x);
      if y in kept { FirstIndexOfPrefix(kept, Clean(item), y); }
      KeptOrder(front, x, y);
      SaidBeforeSnoc(front, item, x, y);
    } else {
      NewNameIsLast(kept, Clean(item), x);
      if y in kept { FirstIndexOfPrefix(kept, Clean(item), y); }
      SaidLast(front, item, x, y);
    }
  }

  lemma NewNameIsLast(kept: seq<string>, last: string, x: string)
    requires x in kept + [last] && x !in kept
    ensures x == last && FirstIndex(kept + [last], x) == |kept|
  {
    assert (kept + [last])[FirstIndex(kept + [last], x)] == x;
  }

  /** `normalize_tags` in full: when it raises, and which names it returns in which order. */
  lemma NormalizeExact(raw: seq<string>)
    ensures
      var r := Normalize(raw);
      && (r.TooLong? <==> exists i :: 0 <= i < |raw| && |Clean(raw[i])| > 50)
      && (r.TooLong? ==>
            exists i :: 0 <= i < |raw| && |Clean(raw[i])| > 50 && Clean(raw[i]) == r.name
                        && forall j :: 0 <= j < i ==> |Clean(raw[j])| <= 50)
      && (r.TooMany? <==> !r.TooLong? && |CleanNames(raw)| > 30)
      && (r.TooMany? ==> r.count == |CleanNames(raw)|)
      && (r.Names? ==>
            && Distinct(r.names)
            && Elements(r.names) == CleanNames(raw)
            && (forall i, j :: 0 <= i < j < |r.names| ==> SaidBefore(raw, r.names[i], r.names[j])))
  {
    LengthExact(raw);
    NamesExact(raw);
  }

  lemma LengthExact(raw: seq<string>)
    ensures
      var r := FirstLong(raw);
      && (r.Some? <==> exists i :: 0 <= i < |raw| && |Clean(raw[i])| > 50)
      && (r.Some? ==>
            exists i :: 0 <= i < |raw| && |Clean(raw[i])| > 50 && Clean(raw[i]) == r.value
                        && forall j :: 0 <= j < i ==> |Clean(raw[j])| <= 50)
  {
    FirstLongExact(raw);
    forall i | 0 <= i < |raw| ensures LongAt(raw, i) <==> |Clean(raw[i])| > 50 {}
    if FirstLong(raw).Some? {
      var i :| 0 <= i < |raw| && LongAt(raw, i) && Clean(raw[i]) == FirstLong(raw).value
               && forall j :: 0 <= j < i ==> !LongAt(raw, j);
      forall j | 0 <= j < i ensures |Clean(raw[j])| <= 50 { assert !LongAt(raw, j); }
    } else {
      forall i | 0 <= i < |raw| ensures |Clean(raw[i])| <= 50 { assert !LongAt(raw, i); }
    }
  }

  lemma NamesAreClean(raw: seq<string>)
    ensures Elements(FirstOccurrences(Kept(raw))) == CleanNames(raw)
    ensures |FirstOccurrences(Kept(raw))| == |CleanNames(raw)|
  {
    NamesExact(raw);
  }

  /** The distinct kept names: as many as the list asks for, those very names, in order. */
  lemma NamesExact(raw: seq<string>)
    ensures
      var names := FirstOccurrences(Kept(raw));
      && Distinct(names) && Elements(names) == CleanNames(raw) && |names| == |CleanNames(raw)|
      && (forall i, j :: 0 <= i < j < |names| ==> SaidBefore(raw, names[i], names[j]))
  {
    var kept := Kept(raw);
    var names := FirstOccurrences(kept);
    FirstOccurrencesExact(kept);
    KeptAreCleanNames(raw);
    assert Elements(names) == Elements(kept);
    DistinctCardinality(names);
    forall i, j | 0 <= i < j < |names| ensures SaidBefore(raw, names[i], names[j]) {
      assert names[i] in kept && names[j] in kept;
      KeptElements(raw, names[j]);
      KeptOrder(raw, names[i], names[j]);
    }
  }

  // ---- Idempotence ----

  predicate IsNormal(names: seq<string>) {
    && |names| <= MAX_TAGS_PER_BOOKMARK
    && (forall i, j :: 0 <= i < j < |names| ==> names[i] != names[j])
    && forall i :: 0 <= i < |names| ==> names[i] != "" && Clean(names[i]) == names[i] && !IsLong(names[i])
  }

  lemma ResultIsNormal(raw: seq<string>)
    requires Normalize(raw).Names?
    ensures IsNormal(Normalize(raw).names)
  {
    var kept, r := Kept(raw), Normalize(raw).names;
    FirstOccurrencesExact(kept);
    FirstLongExact(raw);
    forall i | 0 <= i < |r| ensures r[i] != "" && Clean(r[i]) == r[i] && !IsLong(r[i]) {
      assert r[i] in kept;
      KeptElements(raw, r[i]);
      var k :| 0 <= k < |raw| && Clean(raw[k]) == r[i];
      CleanIdempotent(raw[k]);
      assert !LongAt(raw, k);
    }
  }

  lemma {:induction false} CleanAreKept(names: seq<string>, k: nat)
    requires k <= |names| && forall i :: 0 <= i < |names| ==> names[i] != "" && Clean(names[i]) == names[i]
    ensures Kept(names[..k]) == names[..k]
  {
    if k > 0 {
      CleanAreKept(names, k - 1);
      KeptName(names, k - 1, names[k - 1]);
      Snoc(names, k - 1);
    }
  }

  lemma {:induction false} DistinctAreFirst(names: seq<string>)
    requires Distinct(names)
    ensures FirstOccurrences(names) == names
  {
    if names != [] {
      var front, last := names[..|names| - 1], names[|names| - 1];
      DistinctAreFirst(front);
      assert last !in front;
      assert front + [last] == names;
    }
  }

  /** Normalising again, as the service does after the schema, never raises and changes nothing. */
  lemma NormalizeIdempotent(raw: seq<string>)
    requires Normalize(raw).Names?
    ensures Normalize(Normalize(raw).names) == Normalize(raw)
  {
    var r := Normalize(raw).names;
    ResultIsNormal(raw);
    CleanAreKept(r, |r|);
    TakeAll(r);
    DistinctAreFirst(r);
    NoneLong(r);
  }
}
