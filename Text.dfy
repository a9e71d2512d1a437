/** ASCII text primitives shared by the whole model: the character classes of
    JavaScript regular expressions (restricted to ASCII), case mapping, trimming,
    whitespace collapsing, substring search, the `<` order on strings, joining,
    `[...new Set(xs)]` and the slug rule of lib/normalize.ts and lib/sessions-repo.ts. */
module Text {

  // ---------------------------------------------------------------------------
  // Character classes

  /** JavaScript `\s` restricted to ASCII: tab, line feed, vertical tab, form feed,
      carriage return and space. */
  predicate IsSpace(c: char) {
    c == ' ' || ('\t' <= c <= '\r')
  }

  predicate IsUpper(c: char) { 'A' <= c <= 'Z' }

  predicate IsLower(c: char) { 'a' <= c <= 'z' }

  /** `[A-Za-z]` */
  predicate IsLetter(c: char) { IsUpper(c) || IsLower(c) }

  /** `\d` */
  predicate IsDigit(c: char) { '0' <= c <= '9' }

  /** `\w`, the characters that decide a `\b` word boundary. */
  predicate IsWordChar(c: char) { IsLetter(c) || IsDigit(c) || c == '_' }

  function ToLower(c: char): (r: char)
    ensures !IsUpper(r)
    ensures IsLetter(c) <==> IsLetter(r)
    ensures IsDigit(c) <==> IsDigit(r)
    ensures IsSpace(c) <==> IsSpace(r)
    ensures IsWordChar(c) <==> IsWordChar(r)
    ensures !IsUpper(c) ==> r == c
  {
    if IsUpper(c) then (c as int + 32) as char else c
  }

  function ToUpper(c: char): (r: char)
    ensures !IsLower(r)
    ensures ToLower(r) == ToLower(c)
  {
    if IsLower(c) then (c as int - 32) as char else c
  }

  /** `String.prototype.toLowerCase` on ASCII text. */
  function Lower(s: string): (r: string)
    ensures |r| == |s|
    ensures forall i :: 0 <= i < |s| ==> r[i] == ToLower(s[i])
  {
    seq(|s|, i requires 0 <= i < |s| => ToLower(s[i]))
  }

  predicate NoUpper(s: string) {
    forall i :: 0 <= i < |s| ==> !IsUpper(s[i])
  }

  lemma LowerIdempotent(s: string)
    ensures Lower(Lower(s)) == Lower(s)
    ensures NoUpper(Lower(s))
  {
  }

  lemma LowerOfLower(s: string)
    requires NoUpper(s)
    ensures Lower(s) == s
  {
  }

  lemma LowerAppend(a: string, b: string)
    ensures Lower(a + b) == Lower(a) + Lower(b)
  {
  }

  // ---------------------------------------------------------------------------
  // Trimming. The functions carry only length facts; what they keep and drop
  // is stated by the `...Shape` lemmas, so that callers pay for it on demand.

  predicate AllSpace(s: string) {
    forall i :: 0 <= i < |s| ==> IsSpace(s[i])
  }

  function TrimStart(s: string): (r: string)
    ensures |r| <= |s|
  {
    if s != [] && IsSpace(s[0]) then TrimStart(s[1..]) else s
  }

  lemma {:induction false} TrimStartShape(s: string)
    ensures var r := TrimStart(s);
      && r == s[|s| - |r|..]
      && (r == [] || !IsSpace(r[0]))
      && AllSpace(s[..|s| - |r|])
  {
    if s != [] && IsSpace(s[0]) {
      TrimStartShape(s[1..]);
      var r := TrimStart(s);
      assert s[..|s| - |r|] == [s[0]] + s[1..][..|s| - 1 - |r|];
    }
  }

  function TrimEnd(s: string): (r: string)
    ensures |r| <= |s|
  {
    if s != [] && IsSpace(s[|s| - 1]) then TrimEnd(s[..|s| - 1]) else s
  }

  lemma {:induction false} TrimEndShape(s: string)
    ensures var r := TrimEnd(s);
      && r == s[..|r|]
      && (r == [] || !IsSpace(r[|r| - 1]))
      && AllSpace(s[|r|..])
  {
    if s != [] && IsSpace(s[|s| - 1]) {
      var front := s[..|s| - 1];
      TrimEndShape(front);
      var r := TrimEnd(s);
      assert s[|r|..] == front[|r|..] + [s[|s| - 1]];
    }
  }

  /** `String.prototype.trim`: drops leading and trailing whitespace. */
  function Trim(s: string): (r: string)
    ensures |r| <= |s|
  {
    TrimEnd(TrimStart(s))
  }

  /** What `trim` keeps is the slice s[k..k + |Trim(s)|]: it has no whitespace
      at either end, and everything around it is whitespace. */
  function TrimOffset(s: string): (k: nat)
    ensures var r := Trim(s);
      && k + |r| <= |s| && r == s[k..k + |r|]
      && IsTrimmed(r)
      && AllSpace(s[..k]) && AllSpace(s[k + |r|..])
  {
    var t := TrimStart(s);
    var r := TrimEnd(t);
    var k := |s| - |t|;
    TrimStartShape(s);
    TrimEndShape(t);
    assert r == t[..|r|] && t == s[k..];
    assert s[k + |r|..] == t[|r|..];
    assert r != [] ==> r[0] == t[0];
    k
  }

  /** No whitespace at either end: what `trim` leaves. */
  predicate IsTrimmed(s: string) {
    s == [] || (!IsSpace(s[0]) && !IsSpace(s[|s| - 1]))
  }

  lemma TrimShape(s: string)
    ensures IsTrimmed(Trim(s))
  {
    var k := TrimOffset(s);
  }

  lemma TrimOfTrimmed(s: string)
    requires IsTrimmed(s)
    ensures Trim(s) == s
  {
  }

  lemma TrimIsEmptyIffBlank(s: string)
    ensures Trim(s) == [] <==> AllSpace(s)
  {
    var k := TrimOffset(s);
    if Trim(s) == [] {
      assert s == s[..k] + s[k..];
    } else {
      assert !IsSpace(s[k]);
    }
  }

  // ---------------------------------------------------------------------------
  // Whitespace collapsing, `replace(/\s+/g, " ")`

  /** Every maximal run of whitespace becomes one space. */
  function CollapseSpaces(s: string): (r: string)
    ensures |r| <= |s|
    ensures r == [] <==> s == []
    decreases |s|
  {
    if s == [] then []
    else if IsSpace(s[0]) then [' '] + CollapseSpaces(TrimStart(s[1..]))
    else [s[0]] + CollapseSpaces(s[1..])
  }

  /** No two neighbouring characters of s are both c. */
  predicate NoDoubled(s: string, c: char) {
    forall i, j {:trigger s[i], s[j]} :: 0 <= i < |s| && 0 <= j < |s| && j == i + 1 ==> !(s[i] == c && s[j] == c)
  }

  /** The only whitespace is ' ', and never two in a row. */
  predicate SingleSpaced(s: string) {
    && (forall i :: 0 <= i < |s| && IsSpace(s[i]) ==> s[i] == ' ')
    && NoDoubled(s, ' ')
  }

  lemma SingleSpacedCons(c: char, t: string)
    requires SingleSpaced(t)
    requires !IsSpace(c) || (c == ' ' && (t == [] || t[0] != ' '))
    ensures SingleSpaced([c] + t)
  {
    var s := [c] + t;
    forall i, j | 0 <= i < |s| && 0 <= j < |s| && j == i + 1 ensures !(s[i] == ' ' && s[j] == ' ') {
      if i > 0 { assert s[i] == t[i - 1] && s[j] == t[j - 1]; }
    }
  }

  /** The shape `replace(/\s+/g, " ")` gives: single spaces, and a space at
      either end exactly where the input had whitespace there. */
  predicate CollapsedFrom(s: string, r: string) {
    && |r| <= |s| && (r == [] <==> s == [])
    && SingleSpaced(r)
    && (s != [] ==> (IsSpace(s[0]) <==> r[0] == ' '))
    && (s != [] ==> (IsSpace(s[|s| - 1]) <==> r[|r| - 1] == ' '))
  }

  lemma CollapseSpacesShape(s: string)
    ensures CollapsedFrom(s, CollapseSpaces(s))
  {
    CollapseLast(s);
    CollapseSingleSpaced(s);
  }

  /** The last character of the result is a space exactly when the input
      ends in whitespace. */
  lemma {:induction false} CollapseLast(s: string)
    ensures var r := CollapseSpaces(s);
      s != [] ==> (IsSpace(s[|s| - 1]) <==> r[|r| - 1] == ' ')
    decreases |s|
  {
    if s != [] {
      var r := CollapseSpaces(s);
      if IsSpace(s[0]) {
        var rest := TrimStart(s[1..]);
        TrimStartShape(s[1..]);
        CollapseLast(rest);
        if rest == [] {
          if |s| > 1 {
            assert s[1..][..|s| - 1] == s[1..];
            assert s[|s| - 1] == s[1..][|s| - 2];
          }
        } else {
          assert s[|s| - 1] == rest[|rest| - 1];
        }
      } else if |s| > 1 {
        CollapseLast(s[1..]);
        assert s[|s| - 1] == s[1..][|s| - 2];
      }
    }
  }

  lemma {:induction false} CollapseSingleSpaced(s: string)
    ensures SingleSpaced(CollapseSpaces(s))
    decreases |s|
  {
    if s != [] {
      if IsSpace(s[0]) {
        var rest := TrimStart(s[1..]);
        TrimStartShape(s[1..]);
        CollapseSingleSpaced(rest);
        SingleSpacedCons(' ', CollapseSpaces(rest));
      } else {
        CollapseSingleSpaced(s[1..]);
        SingleSpacedCons(s[0], CollapseSpaces(s[1..]));
      }
    }
  }

  lemma {:induction false} CollapseOfSingleSpaced(s: string)
    requires SingleSpaced(s)
    ensures CollapseSpaces(s) == s
    decreases |s|
  {
    if s != [] {
      assert SingleSpaced(s[1..]) by {
        var t := s[1..];
        forall i, j | 0 <= i < |t| && 0 <= j < |t| && j == i + 1 ensures !(t[i] == ' ' && t[j] == ' ') {
          assert t[i] == s[i + 1] && t[j] == s[j + 1];
        }
      }
      if IsSpace(s[0]) {
        assert |s| == 1 || !IsSpace(s[1]);
        assert TrimStart(s[1..]) == s[1..];
      }
      CollapseOfSingleSpaced(s[1..]);
    }
  }

  lemma LowerPreservesSingleSpaced(s: string)
    requires SingleSpaced(s)
    ensures SingleSpaced(Lower(s))
  {
  }

  lemma TrimPreservesSingleSpaced(s: string)
    requires SingleSpaced(s)
    ensures SingleSpaced(Trim(s))
  {
    var r := Trim(s);
    var k := TrimOffset(s);
    assert forall i :: 0 <= i < |r| ==> r[i] == s[k + i];
  }

  /** The normal form of `trim().replace(/\s+/g, " ")` and the like: single
      spaces between words, none at either end. */
  predicate IsCleanText(s: string) {
    SingleSpaced(s) && IsTrimmed(s)
  }

  lemma CleanTextFixedPoint(s: string)
    requires IsCleanText(s)
    ensures Trim(CollapseSpaces(s)) == s && CollapseSpaces(Trim(s)) == s
  {
    CollapseOfSingleSpaced(s);
    TrimOfTrimmed(s);
  }

  /** `s.trim().replace(/\s+/g, " ")`, the name cleaning of lib/sessions-repo.ts. */
  function CleanName(s: string): (r: string)
    ensures r == [] <==> Trim(s) == []
  {
    CollapseSpaces(Trim(s))
  }

  /** A cleaned name is in normal form, and cleaning it again changes nothing. */
  lemma CleanNameIsClean(s: string)
    ensures IsCleanText(CleanName(s))
    ensures CleanName(CleanName(s)) == CleanName(s)
  {
    var t := Trim(s);
    TrimShape(s);
    CollapseSpacesShape(t);
    CleanTextFixedPoint(CleanName(s));
  }

  // ---------------------------------------------------------------------------
  // Prefixes, substrings

  predicate StartsWith(s: string, p: string) {
    |p| <= |s| && s[..|p|] == p
  }

  /** `s.includes(q)`. */
  predicate Contains(s: string, q: string) {
    StartsWith(s, q) || (s != [] && Contains(s[1..], q))
  }

  lemma ContainsSelf(s: string)
    ensures Contains(s, s)
  {
    assert s[..|s|] == s;
  }

  // ---------------------------------------------------------------------------
  // The `<` order of JavaScript strings (code unit by code unit)

  predicate StrLess(a: string, b: string) {
    if a == [] then b != []
    else if b == [] then false
    else if a[0] != b[0] then a[0] < b[0]
    else StrLess(a[1..], b[1..])
  }

  lemma {:induction false} StrLessIrreflexive(a: string)
    ensures !StrLess(a, a)
  {
    if a != [] { StrLessIrreflexive(a[1..]); }
  }

  lemma {:induction false} StrLessTransitive(a: string, b: string, c: string)
    requires StrLess(a, b) && StrLess(b, c)
    ensures StrLess(a, c)
  {
    if a != [] && b != [] && c != [] && a[0] == b[0] && b[0] == c[0] {
      StrLessTransitive(a[1..], b[1..], c[1..]);
    }
  }

  lemma {:induction false} StrLessTotal(a: string, b: string)
    ensures a == b || StrLess(a, b) || StrLess(b, a)
  {
    if a != [] && b != [] && a[0] == b[0] {
      StrLessTotal(a[1..], b[1..]);
      if a[1..] == b[1..] { assert a == [a[0]] + a[1..] && b == [b[0]] + b[1..]; }
    }
  }

  lemma StrLessAsymmetric(a: string, b: string)
    requires StrLess(a, b)
    ensures !StrLess(b, a) && a != b
  {
    if StrLess(b, a) { StrLessTransitive(a, b, a); StrLessIrreflexive(a); }
    if a == b { StrLessIrreflexive(a); }
  }

  /** "May come before" in the `<` order is transitive. */
  lemma StrNotLessTransitive(a: string, b: string, c: string)
    requires !StrLess(b, a) && !StrLess(c, b)
    ensures !StrLess(c, a)
  {
    StrLessTotal(a, b);
    if StrLess(c, a) && a != b { StrLessTransitive(c, a, b); }
  }

  /** A common prefix does not decide the order. */
  lemma {:induction false} StrLessCommonPrefix(p: string, a: string, b: string)
    ensures StrLess(p + a, p + b) <==> StrLess(a, b)
  {
    if p != [] {
      assert (p + a)[1..] == p[1..] + a && (p + b)[1..] == p[1..] + b;
      StrLessCommonPrefix(p[1..], a, b);
      assert (p + a)[0] == (p + b)[0];
    } else {
      assert p + a == a && p + b == b;
    }
  }

  /** Strings of equal length that differ before position k compare as their
      first k characters do. */
  lemma {:induction false} StrLessPrefix(a: string, b: string, a': string, b': string)
    requires |a| == |b| && a != b
    ensures StrLess(a + a', b + b') <==> StrLess(a, b)
  {
    if a[0] == b[0] {
      assert (a + a')[1..] == a[1..] + a' && (b + b')[1..] == b[1..] + b';
      assert a[1..] != b[1..] by { assert a == [a[0]] + a[1..] && b == [b[0]] + b[1..]; }
      StrLessPrefix(a[1..], b[1..], a', b');
    }
  }

  // ---------------------------------------------------------------------------
  // Sequence algebra, for the steps the solver does not take by itself

  lemma Associative<T>(a: seq<T>, b: seq<T>, c: seq<T>)
    ensures a + (b + c) == (a + b) + c
  {
  }

  lemma LeftUnit<T>(a: seq<T>)
    ensures [] + a == a
  {
  }

  lemma TakeTwo<T>(s: seq<T>)
    requires 2 <= |s|
    ensures s[..2] == [s[0]] + [s[1]]
  {
  }

  lemma RightUnit<T>(a: seq<T>)
    ensures a + [] == a
  {
  }

  // ---------------------------------------------------------------------------
  // Joining

  /** `parts.join(sep)`. */
  function Join(parts: seq<string>, sep: string): (r: string)
    ensures parts == [] ==> r == []
    ensures |parts| == 1 ==> r == parts[0]
  {
    if parts == [] then []
    else if |parts| == 1 then parts[0]
    else Join(parts[..|parts| - 1], sep) + sep + parts[|parts| - 1]
  }

  // ---------------------------------------------------------------------------
  // Lists of strings

  /** `.map((x) => x.trim())` */
  function TrimAll(lines: seq<string>): (r: seq<string>)
    ensures |r| == |lines|
    ensures forall i :: 0 <= i < |r| ==> r[i] == Trim(lines[i])
  {
    seq(|lines|, i requires 0 <= i < |lines| => Trim(lines[i]))
  }

  /** `.filter((line) => line.length > 0)` */
  function DropBlank(lines: seq<string>): (r: seq<string>)
    ensures |r| <= |lines|
    ensures forall i :: 0 <= i < |r| ==> r[i] != [] && r[i] in lines
    ensures forall x :: x in lines && x != [] ==> x in r
  {
    if lines == [] then []
    else if lines[0] == [] then DropBlank(lines[1..])
    else [lines[0]] + DropBlank(lines[1..])
  }

  /** The filter works line by line: with the membership facts above (which
      settle a single line), the kept lines are in their order and each kept
      as often as it occurs. */
  lemma {:induction false} DropBlankConcat(a: seq<string>, b: seq<string>)
    ensures DropBlank(a + b) == DropBlank(a) + DropBlank(b)
  {
    if a != [] {
      assert (a + b)[0] == a[0] && (a + b)[1..] == a[1..] + b;
      DropBlankConcat(a[1..], b);
    } else {
      assert a + b == b;
    }
  }

  lemma TrimAllConcat(a: seq<string>, b: seq<string>)
    ensures TrimAll(a + b) == TrimAll(a) + TrimAll(b)
  {
  }

  /** `.map((x) => x.trim()).filter(Boolean)`: the non-blank strings, trimmed,
      in their order. */
  function TrimmedNonBlank(xs: seq<string>): (r: seq<string>)
    ensures forall i :: 0 <= i < |r| ==> r[i] != [] && IsTrimmed(r[i])
    ensures forall x :: x in r <==> x != [] && exists y :: y in xs && Trim(y) == x
  {
    var t := TrimAll(xs);
    var r := DropBlank(t);
    assert forall x :: x in t <==> exists y :: y in xs && Trim(y) == x by {
      forall x ensures x in t <==> exists y :: y in xs && Trim(y) == x {
        if x in t {
          var j :| 0 <= j < |t| && t[j] == x;
          assert xs[j] in xs && Trim(xs[j]) == x;
        }
        if exists y :: y in xs && Trim(y) == x {
          var y :| y in xs && Trim(y) == x;
          var j :| 0 <= j < |xs| && xs[j] == y;
          assert t[j] == x;
        }
      }
    }
    assert forall i :: 0 <= i < |r| ==> IsTrimmed(r[i]) by {
      forall i | 0 <= i < |r| ensures IsTrimmed(r[i]) {
        var t := TrimAll(xs);
        var j :| 0 <= j < |t| && t[j] == r[i];
        TrimShape(xs[j]);
      }
    }
    r
  }

  /** Line by line: the trimmed non-blank lines of `a + b` are those of `a`
      followed by those of `b`. */
  lemma TrimmedNonBlankConcat(a: seq<string>, b: seq<string>)
    ensures TrimmedNonBlank(a + b) == TrimmedNonBlank(a) + TrimmedNonBlank(b)
  {
    TrimAllConcat(a, b);
    DropBlankConcat(TrimAll(a), TrimAll(b));
  }

  /** One line gives its trimmed form, or nothing when it is blank. */
  lemma TrimmedNonBlankOne(x: string)
    ensures TrimmedNonBlank([x]) == if Trim(x) == [] then [] else [Trim(x)]
  {
    assert TrimAll([x]) == [Trim(x)];
    assert DropBlank([Trim(x)]) == (if Trim(x) == [] then [] else [Trim(x)]) by {
      assert [Trim(x)][1..] == [];
    }
  }

  // ---------------------------------------------------------------------------
  // `[...new Set(xs)]`: first occurrences, in order

  predicate Distinct<T(==)>(xs: seq<T>) {
    forall i, j :: 0 <= i < j < |xs| ==> xs[i] != xs[j]
  }

  function Uniq(xs: seq<string>): (r: seq<string>)
    ensures Distinct(r)
    ensures forall x :: x in r <==> x in xs
    ensures |r| <= |xs|
  {
    if xs == [] then []
    else
      var r := Uniq(xs[..|xs| - 1]);
      assert forall x :: x in xs <==> x in xs[..|xs| - 1] || x == xs[|xs| - 1];
      if xs[|xs| - 1] in r then r else r + [xs[|xs| - 1]]
  }

  /** `uniq` adds an element at the end only when it has not occurred yet. */
  lemma UniqSnoc(xs: seq<string>, x: string)
    ensures Uniq(xs + [x]) == if x in Uniq(xs) then Uniq(xs) else Uniq(xs) + [x]
  {
    assert (xs + [x])[..|xs|] == xs;
  }

  /** The index of the first occurrence of x in xs. */
  function FirstIndex<T(==)>(xs: seq<T>, x: T): (k: nat)
    requires x in xs
    ensures k < |xs| && xs[k] == x && x !in xs[..k]
  {
    if xs[0] == x then 0 else 1 + FirstIndex(xs[1..], x)
  }

  lemma {:induction false} FirstIndexIs<T>(xs: seq<T>, k: nat, x: T)
    requires k < |xs| && xs[k] == x && x !in xs[..k]
    ensures FirstIndex(xs, x) == k
  {
    if k > 0 {
      assert xs[0] in xs[..k];
      assert xs[1..][k - 1] == x && xs[1..][..k - 1] == xs[1..k];
      assert forall y :: y in xs[1..k] ==> y in xs[..k];
      FirstIndexIs(xs[1..], k - 1, x);
    }
  }

  lemma FirstIndexOfPrefix<T>(xs: seq<T>, n: nat, x: T)
    requires n <= |xs| && x in xs[..n]
    ensures FirstIndex(xs, x) == FirstIndex(xs[..n], x)
  {
    var k := FirstIndex(xs[..n], x);
    assert xs[..n][..k] == xs[..k];
    FirstIndexIs(xs, k, x);
  }

  /** `uniq` keeps the first occurrence of each element: its elements appear in
      the order of their first occurrence in the input. */
  lemma {:induction false} UniqKeepsFirstOccurrenceOrder(xs: seq<string>, i: nat, j: nat)
    requires i < j < |Uniq(xs)|
    ensures FirstIndex(xs, Uniq(xs)[i]) < FirstIndex(xs, Uniq(xs)[j])
  {
    var n := |xs| - 1;
    var front := xs[..n];
    var r := Uniq(front);
    var u := Uniq(xs);
    if j < |r| {
      assert u[i] == r[i] && u[j] == r[j];
      UniqKeepsFirstOccurrenceOrder(front, i, j);
      FirstIndexOfPrefix(xs, n, r[i]);
      FirstIndexOfPrefix(xs, n, r[j]);
    } else {
      assert u[j] == xs[n] && xs[n] !in front;
      assert u[i] == r[i] && r[i] in front;
      FirstIndexOfPrefix(xs, n, r[i]);
      FirstIndexIs(xs, n, xs[n]);
    }
  }

  lemma UniqOfDistinct(xs: seq<string>)
    requires Distinct(xs)
    ensures Uniq(xs) == xs
  {
    if xs != [] {
      var n := |xs| - 1;
      UniqOfDistinct(xs[..n]);
      assert xs[n] !in xs[..n];
      assert xs[..n] + [xs[n]] == xs;
    }
  }

  /** No element occurs twice in a list without repeats. */
  lemma {:induction false} DistinctCountsOne<T>(xs: seq<T>, x: T)
    requires Distinct(xs)
    ensures multiset(xs)[x] <= 1
  {
    if xs != [] {
      assert xs == [xs[0]] + xs[1..];
      assert Distinct(xs[1..]);
      DistinctCountsOne(xs[1..], x);
      assert xs[0] !in xs[1..];
    }
  }

  /** A list without repeats has as many elements as its set. */
  lemma {:induction false} DistinctCardinality<T>(xs: seq<T>)
    requires Distinct(xs)
    ensures |set x | x in xs| == |xs|
  {
    if xs != [] {
      var front := xs[..|xs| - 1];
      var last := xs[|xs| - 1];
      assert Distinct(front);
      DistinctCardinality(front);
      assert (set x | x in xs) == (set x | x in front) + {last};
      assert last !in (set x | x in front);
    }
  }

  /** A rearrangement of a list without repeats has none either. */
  lemma DistinctOfPermutation<T>(xs: seq<T>, ys: seq<T>)
    requires Distinct(xs) && multiset(ys) == multiset(xs)
    ensures Distinct(ys)
  {
    forall i, j | 0 <= i < j < |ys| ensures ys[i] != ys[j] {
      if ys[i] == ys[j] {
        assert ys == ys[..i] + [ys[i]] + ys[i + 1..];
        assert ys[j] in ys[i + 1..];
        assert multiset(ys)[ys[i]] >= 2;
        DistinctCountsOne(xs, ys[i]);
      }
    }
  }

  // ---------------------------------------------------------------------------
  // Slugs, `value.toLowerCase().replace(/[^a-z0-9]+/g, "-").replace(/(^-|-$)/g, "") || fallback`

  predicate IsSlugChar(c: char) { IsLower(c) || IsDigit(c) || c == '-' }

  /** The shape of every slug: non-empty, only `[a-z0-9-]`, no hyphen at either
      end and no two hyphens in a row. */
  predicate IsSlug(s: string) {
    && s != []
    && (forall i :: 0 <= i < |s| ==> IsSlugChar(s[i]))
    && s[0] != '-' && s[|s| - 1] != '-'
    && NoDoubled(s, '-')
  }

  predicate IsAlnum(c: char) { IsLower(c) || IsDigit(c) }

  function DropNonAlnum(s: string): (r: string)
    ensures |r| <= |s| && r == s[|s| - |r|..]
    ensures r == [] || IsAlnum(r[0])
  {
    if s != [] && !IsAlnum(s[0]) then DropNonAlnum(s[1..]) else s
  }

  /** The characters of `[a-z0-9]` in s, in order. */
  function Alnums(s: string): (r: string)
    ensures forall i :: 0 <= i < |r| ==> IsAlnum(r[i])
  {
    if s == [] then []
    else (if IsAlnum(s[0]) then [s[0]] else []) + Alnums(s[1..])
  }

  lemma {:induction false} AlnumsConcat(a: string, b: string)
    ensures Alnums(a + b) == Alnums(a) + Alnums(b)
  {
    if a != [] {
      assert (a + b)[0] == a[0] && (a + b)[1..] == a[1..] + b;
      AlnumsConcat(a[1..], b);
    } else {
      assert a + b == b;
    }
  }

  lemma {:induction false} AlnumsOfDropNonAlnum(s: string)
    ensures Alnums(DropNonAlnum(s)) == Alnums(s)
  {
    if s != [] && !IsAlnum(s[0]) {
      AlnumsOfDropNonAlnum(s[1..]);
    }
  }

  /** `replace(/[^a-z0-9]+/g, "-")` on an already lower-cased string: the
      letters and digits are kept, in order, and every run of other
      characters becomes one hyphen. */
  function HyphenateRuns(s: string): (r: string)
    ensures forall i :: 0 <= i < |r| ==> IsSlugChar(r[i])
    ensures NoDoubled(r, '-')
    ensures r == [] <==> s == []
    ensures s != [] ==> (r[0] == '-' <==> !IsAlnum(s[0]))
    ensures Alnums(r) == Alnums(s)
    decreases |s|
  {
    if s == [] then []
    else if IsAlnum(s[0]) then
      var t := HyphenateRuns(s[1..]);
      assert ([s[0]] + t)[1..] == t;
      [s[0]] + t
    else
      var t := HyphenateRuns(DropNonAlnum(s));
      AlnumsOfDropNonAlnum(s);
      assert (['-'] + t)[1..] == t;
      ['-'] + t
  }

  /** `replace(/(^-|-$)/g, "")`: at most one hyphen is removed at each end. */
  function TrimHyphens(s: string): (r: string)
  {
    var a := if s != [] && s[0] == '-' then s[1..] else s;
    if a != [] && a[|a| - 1] == '-' then a[..|a| - 1] else a
  }

  lemma AlnumsOfDropHyphen(s: string)
    requires s != [] && s[0] == '-'
    ensures Alnums(s[1..]) == Alnums(s)
  {
  }

  lemma AlnumsOfDropLastHyphen(a: string)
    requires a != [] && a[|a| - 1] == '-'
    ensures Alnums(a[..|a| - 1]) == Alnums(a)
  {
    var x := a[..|a| - 1];
    assert a == x + "-";
    AlnumsConcat(x, "-");
    assert Alnums("-") == [];
  }

  /** Removing a hyphen at either end keeps the letters and digits. */
  lemma AlnumsOfTrimHyphens(s: string)
    ensures Alnums(TrimHyphens(s)) == Alnums(s)
  {
    var a := if s != [] && s[0] == '-' then s[1..] else s;
    if s != [] && s[0] == '-' {
      AlnumsOfDropHyphen(s);
    }
    if a != [] && a[|a| - 1] == '-' {
      AlnumsOfDropLastHyphen(a);
    }
  }

  /** The slug of a value: its lower-cased letters and digits, in order, with
      one hyphen for each run of other characters between them; the fallback
      exactly when the value has no letter or digit. */
  function Slugify(value: string, fallback: string): (r: string)
    requires IsSlug(fallback)
    ensures IsSlug(r)
    ensures Alnums(Lower(value)) == [] ==> r == fallback
    ensures Alnums(Lower(value)) != [] ==> Alnums(r) == Alnums(Lower(value))
  {
    var h := HyphenateRuns(Lower(value));
    var t := TrimHyphens(h);
    AlnumsOfTrimHyphens(h);
    if t == [] then fallback
    else
      assert IsAlnum(t[0]) && Alnums(t) == [t[0]] + Alnums(t[1..]);
      t
  }

  lemma {:induction false} HyphenateRunsOfSlugChars(s: string)
    requires forall i :: 0 <= i < |s| ==> IsSlugChar(s[i])
    requires NoDoubled(s, '-')
    ensures HyphenateRuns(s) == s
    decreases |s|
  {
    if s != [] {
      var t := s[1..];
      assert NoDoubled(t, '-') by {
        forall i, j | 0 <= i < |t| && 0 <= j < |t| && j == i + 1 ensures !(t[i] == '-' && t[j] == '-') {
          assert t[i] == s[i + 1] && t[j] == s[j + 1];
        }
      }
      HyphenateRunsOfSlugChars(t);
      if IsAlnum(s[0]) {
        assert HyphenateRuns(s) == [s[0]] + HyphenateRuns(t);
      } else {
        assert s[0] == '-';
        assert |s| == 1 || IsAlnum(s[1]) by {
          if |s| > 1 { assert !(s[0] == '-' && s[1] == '-'); }
        }
        assert DropNonAlnum(s) == t;
        assert HyphenateRuns(s) == ['-'] + HyphenateRuns(t);
      }
      assert s == [s[0]] + t;
    }
  }

  /** A run of characters outside `[a-z0-9]`. */
  predicate NonAlnumRun(y: string) {
    forall i :: 0 <= i < |y| ==> !IsAlnum(y[i])
  }

  lemma {:induction false} DropNonAlnumConcat(a: string, b: string)
    requires a != [] && IsAlnum(a[|a| - 1])
    ensures DropNonAlnum(a + b) == DropNonAlnum(a) + b
    ensures DropNonAlnum(a) != [] && DropNonAlnum(a)[|DropNonAlnum(a)| - 1] == a[|a| - 1]
  {
    assert (a + b)[0] == a[0];
    if !IsAlnum(a[0]) {
      assert (a + b)[1..] == a[1..] + b;
      DropNonAlnumConcat(a[1..], b);
    }
  }

  lemma {:induction false} DropNonAlnumRun(y: string, b: string)
    requires NonAlnumRun(y)
    requires b == [] || IsAlnum(b[0])
    ensures DropNonAlnum(y + b) == b
  {
    if y == [] {
      assert y + b == b;
    } else {
      assert (y + b)[0] == y[0] && (y + b)[1..] == y[1..] + b;
      DropNonAlnumRun(y[1..], b);
    }
  }

  lemma HyphenateRunsCons(c: char, t: string)
    requires IsAlnum(c)
    ensures HyphenateRuns([c] + t) == [c] + HyphenateRuns(t)
  {
    assert ([c] + t)[0] == c && ([c] + t)[1..] == t;
  }

  /** One step of `HyphenateRunsConcat` at a leading letter or digit. */
  lemma HyphenateRunsConcatAlnum(c: char, t: string, b: string)
    requires IsAlnum(c)
    requires HyphenateRuns(t + b) == HyphenateRuns(t) + HyphenateRuns(b)
    ensures HyphenateRuns([c] + t + b) == HyphenateRuns([c] + t) + HyphenateRuns(b)
  {
    Associative([c], t, b);
    HyphenateRunsCons(c, t + b);
    HyphenateRunsCons(c, t);
    Associative([c], HyphenateRuns(t), HyphenateRuns(b));
  }

  /** One step of `HyphenateRunsConcat` at a leading run of other characters. */
  lemma HyphenateRunsConcatRun(a: string, b: string, d: string)
    requires a != [] && !IsAlnum(a[0])
    requires d == DropNonAlnum(a) && DropNonAlnum(a + b) == d + b
    requires HyphenateRuns(d + b) == HyphenateRuns(d) + HyphenateRuns(b)
    ensures HyphenateRuns(a + b) == HyphenateRuns(a) + HyphenateRuns(b)
  {
    assert (a + b)[0] == a[0];
    assert HyphenateRuns(a + b) == "-" + HyphenateRuns(d + b);
    assert HyphenateRuns(a) == "-" + HyphenateRuns(d);
    Associative("-", HyphenateRuns(d), HyphenateRuns(b));
  }

  /** The text up to a letter or digit is hyphenated on its own: a run never
      reaches across a letter or digit. */
  lemma {:induction false} HyphenateRunsConcat(a: string, b: string)
    requires a == [] || IsAlnum(a[|a| - 1])
    ensures HyphenateRuns(a + b) == HyphenateRuns(a) + HyphenateRuns(b)
    decreases |a|
  {
    if a == [] {
      assert a + b == b;
    } else if IsAlnum(a[0]) {
      HyphenateRunsConcat(a[1..], b);
      HyphenateRunsConcatAlnum(a[0], a[1..], b);
      assert a == [a[0]] + a[1..];
    } else {
      var d := DropNonAlnum(a);
      DropNonAlnumConcat(a, b);
      HyphenateRunsConcat(d, b);
      HyphenateRunsConcatRun(a, b, d);
    }
  }

  /** A non-empty run of other characters before a letter, a digit or the end
      becomes exactly one hyphen. */
  lemma HyphenateRunsOfRun(y: string, b: string)
    requires y != [] && NonAlnumRun(y)
    requires b == [] || IsAlnum(b[0])
    ensures HyphenateRuns(y + b) == "-" + HyphenateRuns(b)
  {
    assert (y + b)[0] == y[0];
    DropNonAlnumRun(y, b);
  }

  /** Characters that are neither ASCII letters nor digits, in either case. */
  predicate SeparatorRun(y: string) {
    forall i :: 0 <= i < |y| ==> !IsAlnum(ToLower(y[i]))
  }

  lemma LowerOfSlugAround(a: string, y: string, b: string)
    requires IsSlug(a) && IsSlug(b)
    ensures Lower(a + y + b) == a + Lower(y) + b
    ensures SeparatorRun(y) ==> NonAlnumRun(Lower(y))
  {
    LowerAppend(a + y, b);
    LowerAppend(a, y);
    LowerOfLower(a);
    LowerOfLower(b);
  }

  /** When the hyphenated text keeps a letter or digit once its end hyphens
      are trimmed, that is the slug. */
  lemma SlugifyOfHyphenated(value: string, fallback: string, h: string)
    requires IsSlug(fallback)
    requires HyphenateRuns(Lower(value)) == h
    requires TrimHyphens(h) != []
    ensures Slugify(value, fallback) == TrimHyphens(h)
  {
  }

  lemma TrimHyphensAround(head: string, a: string, tail: string)
    requires IsSlug(a)
    requires head == [] || head == "-"
    requires tail == [] || tail == "-"
    ensures TrimHyphens(head + a + tail) == a
  {
    var h := head + a + tail;
    var x := if h != [] && h[0] == '-' then h[1..] else h;
    assert x == a + tail;
    if tail != [] {
      assert x[..|x| - 1] == a;
    }
  }

  lemma HyphenateJoin(a: string, l: string, b: string)
    requires a != [] && IsAlnum(a[|a| - 1]) && HyphenateRuns(a) == a
    requires b != [] && IsAlnum(b[0]) && HyphenateRuns(b) == b
    requires l != [] && NonAlnumRun(l)
    ensures HyphenateRuns(a + l + b) == a + "-" + b
  {
    var t := l + b;
    Associative(a, l, b);
    HyphenateRunsConcat(a, t);
    HyphenateRunsOfRun(l, b);
    Associative(a, "-", b);
  }

  /** Two slugs with a run of separators between them, such as the words of
      "bench press", slugify to the two slugs joined by one hyphen. */
  lemma SlugifyJoin(a: string, y: string, b: string, fallback: string)
    requires IsSlug(a) && IsSlug(b) && IsSlug(fallback)
    requires y != [] && SeparatorRun(y)
    ensures Slugify(a + y + b, fallback) == a + "-" + b
  {
    LowerOfSlugAround(a, y, b);
    HyphenateRunsOfSlugChars(a);
    HyphenateRunsOfSlugChars(b);
    HyphenateJoin(a, Lower(y), b);
    var h := a + "-" + b;
    assert h[0] == a[0] && h[|h| - 1] == b[|b| - 1];
    assert TrimHyphens(h) == h;
    SlugifyOfHyphenated(a + y + b, fallback, h);
  }

  /** `a` hyphenated with separators after it gains one trailing hyphen. */
  lemma HyphenateTrailing(a: string, l: string)
    requires IsSlug(a) && NonAlnumRun(l)
    ensures HyphenateRuns(a + l) == a + (if l == [] then [] else "-")
  {
    HyphenateRunsOfSlugChars(a);
    HyphenateRunsConcat(a, l);
    if l != [] {
      HyphenateRunsOfRun(l, []);
      assert l + [] == l;
    }
  }

  lemma HyphenateAround(l1: string, a: string, l2: string)
    requires IsSlug(a) && NonAlnumRun(l1) && NonAlnumRun(l2)
    ensures HyphenateRuns(l1 + (a + l2)) ==
            (if l1 == [] then [] else "-") + a + (if l2 == [] then [] else "-")
  {
    HyphenateTrailing(a, l2);
    if l1 != [] {
      HyphenateRunsOfRun(l1, a + l2);
    } else {
      assert l1 + (a + l2) == a + l2;
    }
  }

  /** Separators before and after a slug are dropped. */
  lemma SlugifyStripsEnds(y1: string, a: string, y2: string, fallback: string)
    requires IsSlug(a) && IsSlug(fallback)
    requires SeparatorRun(y1) && SeparatorRun(y2)
    ensures Slugify(y1 + a + y2, fallback) == a
  {
    LowerAppend(y1 + a, y2);
    LowerAppend(y1, a);
    LowerOfLower(a);
    var l1, l2 := Lower(y1), Lower(y2);
    assert NonAlnumRun(l1) && NonAlnumRun(l2);
    assert Lower(y1 + a + y2) == l1 + (a + l2);
    HyphenateAround(l1, a, l2);
    TrimHyphensAround(if l1 == [] then [] else "-", a, if l2 == [] then [] else "-");
    SlugifyOfHyphenated(y1 + a + y2, fallback, HyphenateRuns(Lower(y1 + a + y2)));
  }

  /** A slug is left unchanged by `slugify`; with the shape guarantee of
      `Slugify`, slugifying twice is slugifying once. */
  lemma SlugifyOfSlug(s: string, fallback: string)
    requires IsSlug(s) && IsSlug(fallback)
    ensures Slugify(s, fallback) == s
  {
    LowerOfLower(s);
    assert Lower(s) == s;
    HyphenateRunsOfSlugChars(s);
    assert TrimHyphens(s) == s;
  }

  lemma SlugifyIdempotent(value: string, fallback: string)
    requires IsSlug(fallback)
    ensures Slugify(Slugify(value, fallback), fallback) == Slugify(value, fallback)
  {
    SlugifyOfSlug(Slugify(value, fallback), fallback);
  }
}
