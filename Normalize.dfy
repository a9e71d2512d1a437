/** lib/normalize.ts: turning a raw exercise line of the log into an alias
    key, a canonical exercise name and an exercise id, and inferring where a
    session took place from the prefixes of its lines. The regular
    expressions of the source are written out as functions over ASCII text. */
module Normalize {
  import opened Wrappers
  import opened Text

  /** `LocationId` */
  datatype Location = PlanetFitness | Work | Street | Unknown

  /** The string a `LocationId` is. */
  function LocationIdOf(l: Location): (r: string)
    ensures r != []
  {
    match l
    case PlanetFitness => "planet-fitness"
    case Work => "work"
    case Street => "street"
    case Unknown => "unknown"
  }

  // ---------------------------------------------------------------------------
  // Location prefixes, `/^g?work\s+/i`, `/^pf\s+/i`, `/^home\s+/i`

  /** `/^<optional>?<word>\s+/i`, both parts in lower case. */
  datatype PrefixPattern = PrefixPattern(optional: string, word: string)

  /** `LOCATION_PREFIXES`, in the order they are applied. */
  const LocationPrefixes: seq<PrefixPattern> :=
    [PrefixPattern("g", "work"), PrefixPattern("", "pf"), PrefixPattern("", "home")]

  /** s starts with the lower-case w, ignoring case. */
  predicate StartsWithIgnoringCase(s: string, w: string) {
    |w| <= |s| && Lower(s[..|w|]) == w
  }

  /** The length of the run of whitespace at index i. */
  function SpaceRun(s: string, i: nat): (n: nat)
    requires i <= |s|
    ensures i + n <= |s|
    ensures i + n == |s| || !IsSpace(s[i + n])
    decreases |s| - i
  {
    if i < |s| && IsSpace(s[i]) then 1 + SpaceRun(s, i + 1) else 0
  }

  /** The length of the match of `/^<w>\s+/i` at the start of s, 0 when none. */
  function WordPrefixMatch(s: string, w: string): (n: nat)
    ensures n <= |s|
  {
    if StartsWithIgnoringCase(s, w) && |w| < |s| && IsSpace(s[|w|]) then |w| + SpaceRun(s, |w|) else 0
  }

  /** The length of the match of the pattern at the start of s, 0 when none:
      the optional letters are tried first, then left out. The whitespace is
      taken whole, so what follows a match is not whitespace. */
  function PrefixMatch(s: string, p: PrefixPattern): (n: nat)
    ensures n <= |s|
    ensures 0 < n < |s| ==> !IsSpace(s[n])
  {
    var n := WordPrefixMatch(s, p.optional + p.word);
    if n > 0 then n else WordPrefixMatch(s, p.word)
  }

  /** The `for (const prefix of LOCATION_PREFIXES) value = value.replace(prefix, "")`
      loop: each pattern removes its match, at most once, in turn. */
  function StripPrefixes(s: string, ps: seq<PrefixPattern>): (r: string)
    ensures |r| <= |s|
  {
    if ps == [] then s else StripPrefixes(s[PrefixMatch(s, ps[0])..], ps[1..])
  }

  /** What follows a prefix match in a trimmed string is trimmed. */
  lemma AfterPrefixTrimmed(s: string, p: PrefixPattern)
    requires IsTrimmed(s)
    ensures IsTrimmed(s[PrefixMatch(s, p)..])
  {
    var n := PrefixMatch(s, p);
    var t := s[n..];
    if t != [] {
      assert t[0] == s[n] && t[|t| - 1] == s[|s| - 1];
    }
  }

  lemma SuffixOfSuffix<T>(s: seq<T>, n: nat, m: nat)
    requires n <= |s| && m <= |s| - n
    ensures s[n..][|s| - n - m..] == s[|s| - m..]
  {
  }

  /** Stripping prefixes leaves a suffix, and keeps a trimmed string trimmed. */
  lemma {:induction false} StripPrefixesShape(s: string, ps: seq<PrefixPattern>)
    requires IsTrimmed(s)
    ensures var r := StripPrefixes(s, ps);
      r == s[|s| - |r|..] && IsTrimmed(r)
  {
    if ps != [] {
      var n := PrefixMatch(s, ps[0]);
      var t := s[n..];
      var r := StripPrefixes(t, ps[1..]);
      assert StripPrefixes(s, ps) == r;
      AfterPrefixTrimmed(s, ps[0]);
      StripPrefixesShape(t, ps[1..]);
      assert |t| == |s| - n;
      SuffixOfSuffix(s, n, |r|);
    }
  }

  /** No pattern matches: stripping changes nothing. */
  lemma {:induction false} StripNoPrefix(s: string, ps: seq<PrefixPattern>)
    requires forall k :: 0 <= k < |ps| ==> PrefixMatch(s, ps[k]) == 0
    ensures StripPrefixes(s, ps) == s
  {
    if ps != [] {
      assert PrefixMatch(s, ps[0]) == 0;
      assert s[0..] == s;
      StripNoPrefix(s, ps[1..]);
    }
  }

  /** `stripLocationPrefix` */
  function StripLocationPrefix(raw: string): (r: string)
  {
    Trim(StripPrefixes(Trim(raw), LocationPrefixes))
  }


  // ---------------------------------------------------------------------------
  // Punctuation and set counts

  /** `replace(/[.]/g, "")` */
  function DropDots(s: string): (r: string)
    ensures |r| <= |s|
    ensures forall i :: 0 <= i < |r| ==> r[i] != '.'
    ensures forall c :: c in r <==> c in s && c != '.'
  {
    if s == [] then []
    else (if s[0] == '.' then [] else [s[0]]) + DropDots(s[1..])
  }

  /** Character by character: with the facts above (which settle a single
      character), only dots are removed and nothing is added or reordered. */
  lemma {:induction false} DropDotsConcat(a: string, b: string)
    ensures DropDots(a + b) == DropDots(a) + DropDots(b)
  {
    if a != [] {
      assert (a + b)[0] == a[0] && (a + b)[1..] == a[1..] + b;
      DropDotsConcat(a[1..], b);
    } else {
      assert a + b == b;
    }
  }

  lemma {:induction false} DropDotsWithoutDots(s: string)
    requires forall i :: 0 <= i < |s| ==> s[i] != '.'
    ensures DropDots(s) == s
  {
    if s != [] {
      DropDotsWithoutDots(s[1..]);
      assert s == [s[0]] + s[1..];
    }
  }

  /** `replace(/[()]/g, " ")` */
  function ParensToSpaces(s: string): (r: string)
    ensures |r| == |s|
    ensures forall i :: 0 <= i < |s| ==> r[i] == if s[i] == '(' || s[i] == ')' then ' ' else s[i]
  {
    seq(|s|, i requires 0 <= i < |s| => if s[i] == '(' || s[i] == ')' then ' ' else s[i])
  }

  /** The length of the run of digits at index i. */
  function DigitRun(s: string, i: nat): (n: nat)
    requires i <= |s|
    ensures i + n <= |s|
    decreases |s| - i
  {
    if i < |s| && IsDigit(s[i]) then 1 + DigitRun(s, i + 1) else 0
  }

  /** The length of the match of `/\b\d+\s*sets?\b/i` at index i, 0 when there
      is none. A match starts at a digit with no word character before it;
      the digits and the whitespace after them are taken whole, as giving any
      back would leave a digit or a space where "set" must start; "sets" is
      tried before "set", and either must end at a word boundary. */
  function SetsMatch(s: string, i: nat): (n: nat)
    requires i <= |s|
    ensures n == 0 || (4 <= n && i + n <= |s|)
  {
    if i < |s| && IsDigit(s[i]) && (i == 0 || !IsWordChar(s[i - 1])) then
      var j := i + DigitRun(s, i);
      var k := j + SpaceRun(s, j);
      if k + 3 <= |s| && ToLower(s[k]) == 's' && ToLower(s[k + 1]) == 'e' && ToLower(s[k + 2]) == 't' then
        if k + 3 < |s| && ToLower(s[k + 3]) == 's' && (k + 4 == |s| || !IsWordChar(s[k + 4])) then k + 4 - i
        else if k + 3 == |s| || !IsWordChar(s[k + 3]) then k + 3 - i
        else 0
      else 0
    else 0
  }

  /** `replace(/\b\d+\s*sets?\b/gi, " ")` from index i on: each match becomes
      one space and the scan goes on after it. */
  function RemoveSets(s: string, i: nat): (r: string)
    requires i <= |s|
    ensures |r| <= |s| - i
    decreases |s| - i
  {
    if i == |s| then []
    else
      var n := SetsMatch(s, i);
      if n > 0 then " " + RemoveSets(s, i + n)
      else [s[i]] + RemoveSets(s, i + 1)
  }

  /** Nowhere in s does the set-count pattern match. */
  predicate NoSetCount(s: string) {
    forall i :: 0 <= i <= |s| ==> SetsMatch(s, i) == 0
  }

  lemma {:induction false} RemoveSetsWithoutMatch(s: string, i: nat)
    requires i <= |s| && NoSetCount(s)
    ensures RemoveSets(s, i) == s[i..]
    decreases |s| - i
  {
    if i < |s| {
      assert SetsMatch(s, i) == 0;
      RemoveSetsWithoutMatch(s, i + 1);
      assert s[i..] == [s[i]] + s[i + 1..];
    }
  }

  // ---------------------------------------------------------------------------
  // `normalizeExerciseAlias`

  /** None of the characters of s is in `bad`. */
  predicate Avoids(s: string, bad: set<char>) {
    forall i :: 0 <= i < |s| ==> s[i] !in bad
  }

  const Punctuation: set<char> := {'.', '(', ')'}

  /** What every alias key looks like: lower case, single spaces between
      words and none at either end, and no `.`, `(` or `)`. */
  predicate IsAliasKey(s: string) {
    NoUpper(s) && IsCleanText(s) && Avoids(s, Punctuation)
  }

  /** The steps of `normalizeExerciseAlias` after the location prefixes. */
  function CleanAlias(value: string): string {
    Lower(Trim(CollapseSpaces(RemoveSets(ParensToSpaces(DropDots(value)), 0))))
  }

  /** `normalizeExerciseAlias` */
  function NormalizeAlias(raw: string): string {
    CleanAlias(StripPrefixes(Trim(raw), LocationPrefixes))
  }

  lemma AvoidsCons(c: char, t: string, bad: set<char>)
    requires c !in bad && Avoids(t, bad)
    ensures Avoids([c] + t, bad)
  {
    var s := [c] + t;
    forall i | 0 <= i < |s| ensures s[i] !in bad {
      if i > 0 { assert s[i] == t[i - 1]; }
    }
  }

  lemma {:induction false} RemoveSetsAvoids(s: string, i: nat, bad: set<char>)
    requires i <= |s| && ' ' !in bad && Avoids(s, bad)
    ensures Avoids(RemoveSets(s, i), bad)
    decreases |s| - i
  {
    if i < |s| {
      var n := SetsMatch(s, i);
      if n > 0 {
        RemoveSetsAvoids(s, i + n, bad);
        AvoidsCons(' ', RemoveSets(s, i + n), bad);
      } else {
        RemoveSetsAvoids(s, i + 1, bad);
        AvoidsCons(s[i], RemoveSets(s, i + 1), bad);
      }
    }
  }

  lemma {:induction false} CollapseAvoids(s: string, bad: set<char>)
    requires ' ' !in bad && Avoids(s, bad)
    ensures Avoids(CollapseSpaces(s), bad)
    decreases |s|
  {
    if s != [] {
      if IsSpace(s[0]) {
        var t := TrimStart(s[1..]);
        TrimStartShape(s[1..]);
        assert Avoids(t, bad) by {
          forall i | 0 <= i < |t| ensures t[i] !in bad {
            assert t[i] == s[|s| - |t| + i];
          }
        }
        CollapseAvoids(t, bad);
        AvoidsCons(' ', CollapseSpaces(t), bad);
      } else {
        CollapseAvoids(s[1..], bad);
        AvoidsCons(s[0], CollapseSpaces(s[1..]), bad);
      }
    }
  }

  /** The removals before the whitespace is collapsed leave no `.`, `(` or `)`. */
  lemma PunctuationRemoved(value: string)
    ensures Avoids(RemoveSets(ParensToSpaces(DropDots(value)), 0), Punctuation)
  {
    var b := ParensToSpaces(DropDots(value));
    assert Avoids(b, Punctuation);
    RemoveSetsAvoids(b, 0, Punctuation);
  }

  /** Collapsing and trimming a string free of punctuation gives clean text
      free of punctuation. */
  lemma CollapseTrimShape(c: string)
    requires Avoids(c, Punctuation)
    ensures var e := Trim(CollapseSpaces(c));
      IsCleanText(e) && Avoids(e, Punctuation)
  {
    var d := CollapseSpaces(c);
    CollapseAvoids(c, Punctuation);
    CollapseSpacesShape(c);
    var e := Trim(d);
    var k := TrimOffset(d);
    TrimPreservesSingleSpaced(d);
    assert Avoids(e, Punctuation) by {
      forall i | 0 <= i < |e| ensures e[i] !in Punctuation {
        assert e[i] == d[k + i];
      }
    }
  }

  /** Lower-casing keeps clean text clean and free of punctuation. */
  lemma LowerIsKey(e: string)
    requires IsCleanText(e) && Avoids(e, Punctuation)
    ensures IsAliasKey(Lower(e))
  {
    LowerIdempotent(e);
    LowerPreservesSingleSpaced(e);
  }

  /** Every alias key is in normal form: lower case, single-spaced, trimmed,
      and free of `.`, `(` and `)`. */
  lemma NormalizeAliasShape(raw: string)
    ensures IsAliasKey(NormalizeAlias(raw))
  {
    var v := StripPrefixes(Trim(raw), LocationPrefixes);
    var c := RemoveSets(ParensToSpaces(DropDots(v)), 0);
    PunctuationRemoved(v);
    CollapseTrimShape(c);
    LowerIsKey(Trim(CollapseSpaces(c)));
  }

  /** A string with no location prefix and no set count that is already an
      alias key is its own key. */
  lemma NormalizeAliasFixedPoint(s: string)
    requires IsAliasKey(s)
    requires forall k :: 0 <= k < |LocationPrefixes| ==> PrefixMatch(s, LocationPrefixes[k]) == 0
    requires NoSetCount(s)
    ensures NormalizeAlias(s) == s
  {
    TrimOfTrimmed(s);
    StripNoPrefix(s, LocationPrefixes);
    CleanAliasOfKey(s);
  }

  /** The steps after the prefixes leave an alias key with no set count as
      it is. */
  lemma CleanAliasOfKey(s: string)
    requires IsAliasKey(s) && NoSetCount(s)
    ensures CleanAlias(s) == s
  {
    DropDotsWithoutDots(s);
    assert ParensToSpaces(s) == s;
    RemoveSetsWithoutMatch(s, 0);
    CollapseOfSingleSpaced(s);
    TrimOfTrimmed(s);
    LowerOfLower(s);
  }

  /** So normalizing an alias key again changes nothing, provided it has no
      location prefix and no set count left. */
  lemma NormalizeAliasIdempotent(raw: string)
    requires var key := NormalizeAlias(raw);
      && (forall k :: 0 <= k < |LocationPrefixes| ==> PrefixMatch(key, LocationPrefixes[k]) == 0)
      && NoSetCount(key)
    ensures NormalizeAlias(NormalizeAlias(raw)) == NormalizeAlias(raw)
  {
    NormalizeAliasShape(raw);
    NormalizeAliasFixedPoint(NormalizeAlias(raw));
  }


  /** A pattern whose letters cannot start s does not match. */
  lemma NoPrefixMatch(s: string, p: PrefixPattern)
    requires s != [] && p.word != []
    requires ToLower(s[0]) != p.word[0]
    requires p.optional == [] || ToLower(s[0]) != p.optional[0]
    ensures PrefixMatch(s, p) == 0
  {
  }

  /** The pattern's word followed by one space and more text matches, when
      its optional letters do not. */
  lemma WordPrefixMatches(s: string, p: PrefixPattern)
    requires NoUpper(p.word) && |p.word| + 1 < |s|
    requires s[..|p.word|] == p.word && s[|p.word|] == ' ' && !IsSpace(s[|p.word| + 1])
    requires p.optional != [] && ToLower(s[0]) != p.optional[0]
    ensures PrefixMatch(s, p) == |p.word| + 1
  {
    LowerOfLower(p.word);
    assert SpaceRun(s, |p.word| + 1) == 0;
  }

  /** Only the digits of a set count can start one. */
  lemma {:induction false} RemoveSetsWithoutDigits(s: string, i: nat)
    requires i <= |s|
    requires forall k :: i <= k < |s| ==> !IsDigit(s[k])
    ensures RemoveSets(s, i) == s[i..]
    decreases |s| - i
  {
    if i < |s| {
      assert SetsMatch(s, i) == 0;
      RemoveSetsWithoutDigits(s, i + 1);
      assert s[i..] == [s[i]] + s[i + 1..];
    }
  }

  lemma NoDigitsNoSetCount(s: string)
    requires forall k :: 0 <= k < |s| ==> !IsDigit(s[k])
    ensures NoSetCount(s)
  {
  }

  lemma StripWorkWorkBench()
    ensures StripPrefixes("work work bench", LocationPrefixes) == "work bench"
  {
    var s, t := "work work bench", "work bench";
    assert s[5..] == t;
    WordPrefixMatches(s, LocationPrefixes[0]);
    NoPrefixMatch(t, LocationPrefixes[1]);
    NoPrefixMatch(t, LocationPrefixes[2]);
    StripNoPrefix(t, LocationPrefixes[1..]);
  }

  lemma StripWorkBench()
    ensures StripPrefixes("work bench", LocationPrefixes) == "bench"
  {
    var t, u := "work bench", "bench";
    assert t[5..] == u;
    WordPrefixMatches(t, LocationPrefixes[0]);
    NoPrefixMatch(u, LocationPrefixes[1]);
    NoPrefixMatch(u, LocationPrefixes[2]);
    StripNoPrefix(u, LocationPrefixes[1..]);
  }

  lemma WorkBenchKey()
    ensures IsAliasKey("work bench") && NoSetCount("work bench")
  {
    NoDigitsNoSetCount("work bench");
  }

  lemma BenchKey()
    ensures IsAliasKey("bench") && NoSetCount("bench")
  {
    NoDigitsNoSetCount("bench");
  }

  /** The prefixes are stripped once each, in their order, so "work" can
      survive one pass of `normalizeExerciseAlias` and go in the next. */
  lemma PrefixSurvivesOnePass()
    ensures NormalizeAlias("work work bench") == "work bench"
    ensures NormalizeAlias("work bench") == "bench"
  {
    NormalizeWorkWorkBench();
    NormalizeWorkBench();
  }

  lemma NormalizeWorkWorkBench()
    ensures NormalizeAlias("work work bench") == "work bench"
  {
    TrimOfTrimmed("work work bench");
    StripWorkWorkBench();
    WorkBenchKey();
    CleanAliasOfKey("work bench");
  }

  lemma NormalizeWorkBench()
    ensures NormalizeAlias("work bench") == "bench"
  {
    TrimOfTrimmed("work bench");
    StripWorkBench();
    BenchKey();
    CleanAliasOfKey("bench");
  }

  /** No prefix can match a line that does not start with one of its letters. */
  lemma NoLocationPrefix(s: string)
    requires s != [] && ToLower(s[0]) !in {'g', 'w', 'p', 'h'}
    ensures StripPrefixes(s, LocationPrefixes) == s
  {
    NoPrefixMatch(s, LocationPrefixes[0]);
    NoPrefixMatch(s, LocationPrefixes[1]);
    NoPrefixMatch(s, LocationPrefixes[2]);
    StripNoPrefix(s, LocationPrefixes);
  }

  /** A trimmed line with no prefix letter first and no punctuation goes
      straight to the set counts. */
  lemma PlainAlias(s: string)
    requires s != [] && IsTrimmed(s) && Avoids(s, Punctuation)
    requires ToLower(s[0]) !in {'g', 'w', 'p', 'h'}
    ensures NormalizeAlias(s) == Lower(Trim(CollapseSpaces(RemoveSets(s, 0))))
  {
    TrimOfTrimmed(s);
    NoLocationPrefix(s);
    DropDotsWithoutDots(s);
    assert ParensToSpaces(s) == s;
  }

  lemma NoSetsAtStart(s: string)
    requires s == "3 5 sets sets"
    ensures SetsMatch(s, 0) == 0
  {
    assert DigitRun(s, 0) == 1 && SpaceRun(s, 1) == 1;
  }

  lemma SetsInside(s: string)
    requires s == "3 5 sets sets"
    ensures SetsMatch(s, 2) == 6
  {
    assert DigitRun(s, 2) == 1 && SpaceRun(s, 3) == 1;
  }

  lemma RemoveSetsKeep(s: string, i: nat)
    requires i < |s| && SetsMatch(s, i) == 0
    ensures RemoveSets(s, i) == [s[i]] + RemoveSets(s, i + 1)
  {
  }

  lemma RemoveSetsReplace(s: string, i: nat)
    requires i < |s| && SetsMatch(s, i) > 0
    ensures RemoveSets(s, i) == " " + RemoveSets(s, i + SetsMatch(s, i))
  {
  }

  lemma RemoveSetsFromSecondCount(s: string)
    requires s == "3 5 sets sets"
    ensures RemoveSets(s, 2) == "  sets"
  {
    SetsInside(s);
    RemoveSetsWithoutDigits(s, 8);
    assert s[8..] == " sets";
    RemoveSetsReplace(s, 2);
  }

  lemma RemoveSetsKeepTwo(s: string)
    requires 2 <= |s| && SetsMatch(s, 0) == 0 && SetsMatch(s, 1) == 0
    ensures RemoveSets(s, 0) == s[..2] + RemoveSets(s, 2)
  {
    RemoveSetsKeep(s, 1);
    RemoveSetsKeep(s, 0);
    TakeTwo(s);
    Associative([s[0]], [s[1]], RemoveSets(s, 2));
  }

  lemma RemoveSetsInside(s: string)
    requires s == "3 5 sets sets"
    ensures RemoveSets(s, 0) == "3   sets"
  {
    NoSetsAtStart(s);
    assert SetsMatch(s, 1) == 0;
    RemoveSetsKeepTwo(s);
    RemoveSetsFromSecondCount(s);
    KeptPrefix(s);
  }

  lemma KeptPrefix(s: string)
    requires s == "3 5 sets sets"
    ensures s[..2] + "  sets" == "3   sets"
  {
    assert s[..2] == [s[0], s[1]];
  }

  lemma RemoveSetsWhole()
    ensures RemoveSets("3 sets", 0) == " "
  {
    var s := "3 sets";
    assert DigitRun(s, 0) == 1 && SpaceRun(s, 1) == 1;
    assert SetsMatch(s, 0) == 6;
  }

  lemma {:induction false} TrimStartTo(s: string, k: nat)
    requires k <= |s| && AllSpace(s[..k]) && (k == |s| || !IsSpace(s[k]))
    ensures TrimStart(s) == s[k..]
  {
    if k > 0 {
      assert IsSpace(s[..k][0]);
      assert s[1..][..k - 1] == s[1..k];
      TrimStartTo(s[1..], k - 1);
      assert s[1..][k - 1..] == s[k..];
    }
  }

  lemma CollapseRun(t: string)
    requires t == "   sets"
    ensures CollapseSpaces(t) == " sets"
  {
    assert t[1..][..2] == "  " && t[1..][2..] == "sets";
    TrimStartTo(t[1..], 2);
    CollapseOfSingleSpaced("sets");
  }

  lemma CollapseInside(s: string)
    requires s == "3   sets"
    ensures CollapseSpaces(s) == "3 sets"
  {
    CollapseRun(s[1..]);
    assert CollapseSpaces(s) == [s[0]] + CollapseSpaces(s[1..]);
  }

  lemma ThreeSetsKey()
    ensures IsAliasKey("3 sets")
  {
  }

  /** Removing one set count can put another together, which only the next
      pass of `normalizeExerciseAlias` removes. */
  lemma SetCountSurvivesOnePass()
    ensures NormalizeAlias("3 5 sets sets") == "3 sets"
    ensures NormalizeAlias("3 sets") == ""
  {
    PlainAlias("3 5 sets sets");
    RemoveSetsInside("3 5 sets sets");
    CollapseInside("3   sets");
    ThreeSetsKey();
    TrimOfTrimmed("3 sets");
    LowerOfLower("3 sets");
    PlainAlias("3 sets");
    RemoveSetsWhole();
    assert CollapseSpaces(" ") == " ";
    TrimIsEmptyIffBlank(" ");
  }

  /** `stripLocationPrefix` is the first half of `normalizeExerciseAlias`: its
      final trim has nothing left to remove. */
  lemma NormalizeAliasAfterStrip(raw: string)
    ensures StripLocationPrefix(raw) == StripPrefixes(Trim(raw), LocationPrefixes)
    ensures NormalizeAlias(raw) == CleanAlias(StripLocationPrefix(raw))
  {
    TrimShape(raw);
    StripPrefixesShape(Trim(raw), LocationPrefixes);
    TrimOfTrimmed(StripPrefixes(Trim(raw), LocationPrefixes));
  }

  // ---------------------------------------------------------------------------
  // Canonical names and ids

  /** `CANONICAL_BY_ALIAS`: (alias key, canonical name) pairs in the order of
      the source, which has no key twice. */
  const AliasTable: seq<(string, string)> :=
    Aliases1 + Aliases2 + Aliases3 + Aliases4 + Aliases5 + Aliases6

  /** Lines 5-20 of the table. */
  const Aliases1: seq<(string, string)> := [
    ("bench press", "Bench Press"),
    ("deadlift", "Deadlift"),
    ("shoulder press", "Shoulder Press"),
    ("back", "Back"),
    ("chest", "Chest"),
    ("squats", "Squats"),
    ("lower abs", "Lower Abs"),
    ("run", "Run"),
    ("dumbbell deadlift", "Dumbbell Deadlift"),
    ("dumbbell back", "One-Arm Dumbbell Row"),
    ("row", "Row"),
    ("pull ups", "Pull Ups"),
    ("pullups", "Pull Ups"),
    ("chest press", "Chest Press"),
    ("bicep curls barbell", "Barbell Bicep Curls"),
    ("seated leg press", "Seated Leg Press")
  ]

  /** Lines 21-36 of the table. */
  const Aliases2: seq<(string, string)> := [
    ("leg press", "Leg Press"),
    ("bicep curls", "Bicep Curls"),
    ("triceps machine", "Triceps Machine"),
    ("triceps", "Triceps Machine"),
    ("squat", "Squats"),
    ("leg curl", "Leg Curl"),
    ("inclined bench dumbbell", "Incline Dumbbell Bench Press"),
    ("back one arm dumbbell", "One-Arm Dumbbell Row"),
    ("wrist curls", "Wrist Curls"),
    ("triceps rope", "Triceps Rope Pushdown"),
    ("trapezoid barbell", "Barbell Shrugs"),
    ("shoulders dumbbell", "Dumbbell Shoulder Press"),
    ("shoulder press dumbbell", "Dumbbell Shoulder Press"),
    ("shoulder press barbell", "Barbell Shoulder Press"),
    ("seated leg curl", "Seated Leg Curl"),
    ("run 10k", "Run")
  ]

  /** Lines 37-52 of the table. */
  const Aliases3: seq<(string, string)> := [
    ("row barbell", "Barbell Row"),
    ("one arm dumbbell back", "One-Arm Dumbbell Row"),
    ("inclined dumbbell press", "Incline Dumbbell Bench Press"),
    ("dumbbell shoulder press", "Dumbbell Shoulder Press"),
    ("dips", "Dips"),
    ("deadlift dumbbell", "Dumbbell Deadlift"),
    ("biceps curls machine", "Biceps Curl Machine"),
    ("bicep curls dumbbells", "Dumbbell Bicep Curls"),
    ("barbell biceps curls", "Barbell Bicep Curls"),
    ("barbell biceps", "Barbell Bicep Curls"),
    ("back one armed dumbbell", "One-Arm Dumbbell Row"),
    ("squats with barbell", "Barbell Squats"),
    ("squats dumbbell", "Dumbbell Squats"),
    ("shoulder press machine", "Shoulder Press Machine"),
    ("shoulder", "Shoulder Press"),
    ("quads machine", "Quads Machine")
  ]

  /** Lines 53-68 of the table. */
  const Aliases4: seq<(string, string)> := [
    ("push ups at home", "Push Ups"),
    ("one-arm dumbbell row on bench", "One-Arm Dumbbell Row"),
    ("one arm dumbell bench", "One-Arm Dumbbell Row"),
    ("one arm dumbbell", "One-Arm Dumbbell Row"),
    ("machine triceps", "Triceps Machine"),
    ("leg raise abs", "Leg Raises"),
    ("leg abs", "Leg Raises"),
    ("inclined dumbbell chest press", "Incline Dumbbell Bench Press"),
    ("inclined bench press smith machine", "Incline Smith Machine Bench Press"),
    ("inclined bench press dumbbells", "Incline Dumbbell Bench Press"),
    ("inclined bench", "Incline Bench Press"),
    ("inclined bench chest", "Incline Bench Press"),
    ("inclined back one arm dumbbell", "One-Arm Dumbbell Row"),
    ("incline bench dumbbell press", "Incline Dumbbell Bench Press"),
    ("horizontal back", "Back Machine Row"),
    ("front squats", "Front Squats")
  ]

  /** Lines 69-84 of the table. */
  const Aliases5: seq<(string, string)> := [
    ("dumbbell trapezoid", "Dumbbell Shrugs"),
    ("dumbbell shrugs", "Dumbbell Shrugs"),
    ("dumbbell inclined press", "Incline Dumbbell Bench Press"),
    ("dumbbell chest", "Dumbbell Chest Press"),
    ("dumbbell biceps curls", "Dumbbell Bicep Curls"),
    ("dumbbell back one arm", "One-Arm Dumbbell Row"),
    ("butterfly chest dual adjustable pulley", "Cable Fly"),
    ("body weight squats", "Bodyweight Squats"),
    ("biceps machine", "Biceps Curl Machine"),
    ("biceps curl machine", "Biceps Curl Machine"),
    ("biceps", "Bicep Curls"),
    ("bicep curls on dual adjustable pulley", "Cable Bicep Curls"),
    ("barbell trapezoid", "Barbell Shrugs"),
    ("barbell shoulder press", "Barbell Shoulder Press"),
    ("barbell row back", "Barbell Row"),
    ("barbell biceps curl", "Barbell Bicep Curls")
  ]

  /** Lines 85-96 of the table. */
  const Aliases6: seq<(string, string)> := [
    ("barbell bicep curls", "Barbell Bicep Curls"),
    ("shoukder press barbell", "Shoulder Press"),
    ("back horizontal machine", "Back Machine Row"),
    ("back dummbell", "One-Arm Dumbbell Row"),
    ("back dumbbells", "One-Arm Dumbbell Row"),
    ("back dumbbell bench", "One-Arm Dumbbell Row"),
    ("back dumbbell", "One-Arm Dumbbell Row"),
    ("10 pullups", "Pull Ups"),
    ("calf extension", "Calf Raise Machine"),
    ("chest incline press machine", "Incline Chest Press Machine"),
    ("chest 3 sets", "Chest Press"),
    ("pf chest incline press machine", "Incline Chest Press Machine")
  ]

  /** `CANONICAL_BY_ALIAS[key]`: the name the table gives the key, if any. */
  function Lookup(key: string, table: seq<(string, string)>): (r: Option<string>)
    ensures r.Some? ==> (key, r.value) in table
    ensures r.None? ==> forall entry :: entry in table ==> entry.0 != key
  {
    if table == [] then None
    else if table[0].0 == key then Some(table[0].1)
    else Lookup(key, table[1..])
  }

  /** The first entry with the key gives its name. */
  lemma {:induction false} LookupAt(key: string, table: seq<(string, string)>, k: nat)
    requires k < |table| && table[k].0 == key
    requires forall j :: 0 <= j < k ==> table[j].0 != key
    ensures Lookup(key, table) == Some(table[k].1)
  {
    if k > 0 {
      LookupAt(key, table[1..], k - 1);
    }
  }

  lemma Aliases1NonEmpty()
    ensures NonEmptyEntries(Aliases1)
  {
  }

  lemma Aliases2NonEmpty()
    ensures NonEmptyEntries(Aliases2)
  {
  }

  lemma Aliases3NonEmpty()
    ensures NonEmptyEntries(Aliases3)
  {
  }

  lemma Aliases4NonEmpty()
    ensures NonEmptyEntries(Aliases4)
  {
  }

  lemma Aliases5NonEmpty()
    ensures NonEmptyEntries(Aliases5)
  {
  }

  lemma Aliases6NonEmpty()
    ensures NonEmptyEntries(Aliases6)
  {
  }

  /** No key and no name is empty. */
  predicate NonEmptyEntries(table: seq<(string, string)>) {
    forall i :: 0 <= i < |table| ==> table[i].0 != "" && table[i].1 != ""
  }

  lemma NonEmptyEntriesConcat(a: seq<(string, string)>, b: seq<(string, string)>)
    requires NonEmptyEntries(a) && NonEmptyEntries(b)
    ensures NonEmptyEntries(a + b)
  {
    var t := a + b;
    forall i | 0 <= i < |t| ensures t[i].0 != "" && t[i].1 != "" {
      if i >= |a| { assert t[i] == b[i - |a|]; }
    }
  }

  /** No key and no name in the table is empty; so the truthiness test on
      `CANONICAL_BY_ALIAS[key]` is the test that the key is in the table. */
  lemma AliasTableNonEmpty()
    ensures NonEmptyEntries(AliasTable)
  {
    Aliases1NonEmpty();
    Aliases2NonEmpty();
    NonEmptyEntriesConcat(Aliases1, Aliases2);
    Aliases3NonEmpty();
    NonEmptyEntriesConcat(Aliases1 + Aliases2, Aliases3);
    Aliases4NonEmpty();
    NonEmptyEntriesConcat(Aliases1 + Aliases2 + Aliases3, Aliases4);
    Aliases5NonEmpty();
    NonEmptyEntriesConcat(Aliases1 + Aliases2 + Aliases3 + Aliases4, Aliases5);
    Aliases6NonEmpty();
    NonEmptyEntriesConcat(Aliases1 + Aliases2 + Aliases3 + Aliases4 + Aliases5, Aliases6);
  }

  /** A name found in the table is never empty. */
  lemma LookupNonEmpty(key: string)
    ensures Lookup(key, AliasTable).Some? ==> key != "" && Lookup(key, AliasTable).value != ""
  {
    AliasTableNonEmpty();
  }

  /** w occurs at index i of s with no word character on either side. */
  predicate WordAt(s: string, w: string, i: nat) {
    && i + |w| <= |s| && s[i..i + |w|] == w
    && (i == 0 || !IsWordChar(s[i - 1]))
    && (i + |w| == |s| || !IsWordChar(s[i + |w|]))
  }

  /** `/\b<w>\b/.test(s)` */
  predicate HasWord(s: string, w: string) {
    exists i: nat :: i <= |s| && WordAt(s, w, i)
  }

  /** The index just past the run of characters other than ' ' at index i. */
  function WordEnd(s: string, i: nat): (j: nat)
    requires i <= |s|
    ensures i <= j <= |s|
    ensures j == |s| || s[j] == ' '
    ensures forall k :: i <= k < j ==> s[k] != ' '
    decreases |s| - i
  {
    if i < |s| && s[i] != ' ' then WordEnd(s, i + 1) else i
  }

  /** `s.split(" ").filter(Boolean)`: the maximal runs of characters other
      than ' ', in order. */
  function Words(s: string): (r: seq<string>)
    ensures forall k :: 0 <= k < |r| ==> r[k] != [] && ' ' !in r[k]
    decreases |s|
  {
    if s == [] then []
    else if s[0] == ' ' then Words(s[1..])
    else
      var j := WordEnd(s, 0);
      [s[..j]] + Words(s[j..])
  }

  /** `part[0].toUpperCase() + part.slice(1)` */
  function Capitalize(w: string): (r: string)
    requires w != []
    ensures |r| == |w|
    ensures r[0] == ToUpper(w[0]) && r[1..] == w[1..]
    ensures Lower(r) == Lower(w)
  {
    [ToUpper(w[0])] + w[1..]
  }

  function Capitalized(ws: seq<string>): (r: seq<string>)
    requires forall k :: 0 <= k < |ws| ==> ws[k] != []
    ensures |r| == |ws|
  {
    if ws == [] then [] else Capitalized(ws[..|ws| - 1]) + [Capitalize(ws[|ws| - 1])]
  }

  /** The title-case fallback of `canonicalExerciseNameForLocation`. */
  function TitleCase(s: string): string {
    Join(Capitalized(Words(s)), " ")
  }

  /** Single spaces between words and none at either end. */
  predicate SpaceSeparated(s: string) {
    s == [] || (s[0] != ' ' && s[|s| - 1] != ' ' && NoDoubled(s, ' '))
  }

  lemma {:induction false} JoinCons(w: string, ws: seq<string>, sep: string)
    requires ws != []
    ensures Join([w] + ws, sep) == w + sep + Join(ws, sep)
    decreases |ws|
  {
    var all := [w] + ws;
    if |ws| > 1 {
      var front := ws[..|ws| - 1];
      assert all[..|all| - 1] == [w] + front;
      JoinCons(w, front, sep);
    } else {
      assert all[..|all| - 1] == [w];
    }
  }

  /** Splitting a space-separated string into words and joining them back
      with single spaces gives the string again. */
  /** What follows a separating space is again space-separated, and not empty. */
  lemma SpaceSeparatedAfter(s: string, j: nat)
    requires SpaceSeparated(s) && j < |s| && s[j] == ' '
    ensures j + 1 < |s| && s[j + 1] != ' ' && SpaceSeparated(s[j + 1..])
  {
    var t := s[j + 1..];
    assert s[j + 1] != ' ';
    forall a, b | 0 <= a < |t| && 0 <= b < |t| && b == a + 1 ensures !(t[a] == ' ' && t[b] == ' ') {
      assert t[a] == s[j + 1 + a] && t[b] == s[j + 1 + b];
    }
  }

  lemma {:induction false} JoinWords(s: string)
    requires SpaceSeparated(s)
    ensures Join(Words(s), " ") == s
    decreases |s|
  {
    if s != [] {
      var j := WordEnd(s, 0);
      if j < |s| {
        var t := s[j + 1..];
        SpaceSeparatedAfter(s, j);
        assert Words(s) == [s[..j]] + Words(t) by {
          assert s[j..][1..] == t;
        }
        assert Words(t) != [] by {
          assert t[0] != ' ';
        }
        JoinWords(t);
        JoinCons(s[..j], Words(t), " ");
        assert s == s[..j] + " " + t;
      } else {
        assert s[j..] == [];
        assert s[..j] == s;
      }
    }
  }

  lemma {:induction false} LowerJoinCapitalized(ws: seq<string>)
    requires forall k :: 0 <= k < |ws| ==> ws[k] != []
    ensures Lower(Join(Capitalized(ws), " ")) == Lower(Join(ws, " "))
    decreases |ws|
  {
    if |ws| > 1 {
      var front := ws[..|ws| - 1];
      var cs := Capitalized(ws);
      assert cs[..|cs| - 1] == Capitalized(front);
      LowerJoinCapitalized(front);
      var last := ws[|ws| - 1];
      calc {
        Lower(Join(cs, " "));
        Lower(Join(Capitalized(front), " ") + " " + Capitalize(last));
        { LowerAppend(Join(Capitalized(front), " ") + " ", Capitalize(last));
          LowerAppend(Join(Capitalized(front), " "), " "); }
        Lower(Join(Capitalized(front), " ")) + Lower(" ") + Lower(Capitalize(last));
        Lower(Join(front, " ")) + Lower(" ") + Lower(last);
        { LowerAppend(Join(front, " ") + " ", last);
          LowerAppend(Join(front, " "), " "); }
        Lower(Join(ws, " "));
      }
    }
  }

  /** The character title case puts at index i: upper case at the start of
      the text and right after a space, unchanged elsewhere. */
  function TitleChar(s: string, i: nat): char
    requires i < |s|
  {
    if i == 0 || s[i - 1] == ' ' then ToUpper(s[i]) else s[i]
  }

  /** Past the separator, a + " " + b reads b. */
  lemma SpacedAt(a: string, b: string, i: nat)
    requires |a| < i < |a| + 1 + |b|
    ensures (a + " " + b)[i] == b[i - |a| - 1]
  {
  }

  /** Capitalize changes the first character only. */
  lemma CapitalizeKeepsRest(w: string, m: nat)
    requires 0 < m < |w|
    ensures Capitalize(w)[m] == w[m]
  {
    assert Capitalize(w)[m] == Capitalize(w)[1..][m - 1];
  }

  /** Appending one more word keeps title case character by character. */
  lemma JoinCapitalizedLast(jf: string, cf: string, last: string)
    requires |cf| == |jf| && last != [] && ' ' !in last
    requires forall i :: 0 <= i < |jf| ==> cf[i] == TitleChar(jf, i)
    ensures forall i :: 0 <= i < |jf + " " + last| ==>
      (cf + " " + Capitalize(last))[i] == TitleChar(jf + " " + last, i)
  {
    var j := jf + " " + last;
    var c := cf + " " + Capitalize(last);
    forall i | 0 <= i < |j| ensures c[i] == TitleChar(j, i) {
      if i < |jf| {
        assert c[i] == cf[i] && j[i] == jf[i];
        assert i > 0 ==> j[i - 1] == jf[i - 1];
      } else if i == |jf| + 1 {
        assert c[i] == Capitalize(last)[0] by { SpacedAt(cf, Capitalize(last), i); }
        assert j[i] == last[0] by { SpacedAt(jf, last, i); }
        assert j[i - 1] == ' ';
      } else if i > |jf| + 1 {
        var m := i - |jf| - 1;
        assert c[i] == last[m] by { SpacedAt(cf, Capitalize(last), i); CapitalizeKeepsRest(last, m); }
        assert j[i] == last[m] by { SpacedAt(jf, last, i); }
        assert j[i - 1] == last[m - 1] by { SpacedAt(jf, last, i - 1); }
        assert last[m - 1] in last;
      }
    }
  }

  lemma {:induction false} JoinCapitalizedChars(ws: seq<string>)
    requires forall k :: 0 <= k < |ws| ==> ws[k] != [] && ' ' !in ws[k]
    ensures |Join(Capitalized(ws), " ")| == |Join(ws, " ")|
    ensures forall i :: 0 <= i < |Join(ws, " ")| ==> Join(Capitalized(ws), " ")[i] == TitleChar(Join(ws, " "), i)
    decreases |ws|
  {
    if |ws| == 1 {
      var w := ws[0];
      assert Capitalized(ws) == [Capitalize(w)];
      forall i | 0 <= i < |w| ensures Capitalize(w)[i] == TitleChar(w, i) {
        if i > 0 {
          assert w[i - 1] in w;
          assert Capitalize(w)[i] == Capitalize(w)[1..][i - 1];
        }
      }
    } else if |ws| > 1 {
      var n := |ws| - 1;
      var front := ws[..n];
      var last := ws[n];
      var cs := Capitalized(ws);
      assert cs[..|cs| - 1] == Capitalized(front) && cs[|cs| - 1] == Capitalize(last);
      JoinCapitalizedChars(front);
      var jf := Join(front, " ");
      var cf := Join(Capitalized(front), " ");
      var j := Join(ws, " ");
      var c := Join(cs, " ");
      assert j == jf + " " + last;
      assert c == cf + " " + Capitalize(last);
      JoinCapitalizedLast(jf, cf, last);
    }
  }

  /** Title case upper-cases the first letter of every word and leaves every
      other character as it is; so lower-casing it again gives back the
      lower-cased input. */
  lemma TitleCaseOnlyChangesCase(s: string)
    requires SpaceSeparated(s)
    ensures |TitleCase(s)| == |s|
    ensures forall i :: 0 <= i < |s| ==> TitleCase(s)[i] == TitleChar(s, i)
    ensures Lower(TitleCase(s)) == Lower(s)
  {
    LowerJoinCapitalized(Words(s));
    JoinCapitalizedChars(Words(s));
    JoinWords(s);
  }

  /** The name `canonicalExerciseNameForLocation` gives an alias key: the
      "back" rule for the locations that know which back exercise is meant,
      then the table, then title case. */
  function NameForKey(key: string, location: Location): string {
    if HasWord(key, "back") && location == PlanetFitness then "Back Machine Row"
    else if HasWord(key, "back") && (location == Work || location == Unknown) then "One-Arm Dumbbell Row"
    else match Lookup(key, AliasTable)
      case Some(name) => name
      case None => TitleCase(key)
  }

  /** `canonicalExerciseNameForLocation` */
  function CanonicalNameFor(raw: string, location: Location): string {
    NameForKey(NormalizeAlias(raw), location)
  }

  /** `canonicalExerciseName`: the location is unknown. */
  function CanonicalName(raw: string): string {
    CanonicalNameFor(raw, Unknown)
  }

  /** `slugify` of lib/normalize.ts, whose fallback is "exercise". */
  function ExerciseSlug(value: string): (r: string)
    ensures IsSlug(r)
  {
    assert IsSlug("exercise");
    Slugify(value, "exercise")
  }

  /** `canonicalExerciseIdForLocation` */
  function CanonicalIdFor(raw: string, location: Location): (r: string)
    ensures IsSlug(r)
  {
    ExerciseSlug(CanonicalNameFor(raw, location))
  }

  /** `canonicalExerciseId`: the location is unknown. */
  function CanonicalId(raw: string): (r: string)
    ensures IsSlug(r)
  {
    CanonicalIdFor(raw, Unknown)
  }

  /** When neither the "back" rule nor the table applies, the name is the
      alias key with the first letter of each word in upper case. */
  lemma FallbackNameIsKey(key: string, location: Location)
    requires IsAliasKey(key)
    requires !(HasWord(key, "back") && location != Street) && Lookup(key, AliasTable).None?
    ensures |NameForKey(key, location)| == |key|
    ensures forall i :: 0 <= i < |key| ==> NameForKey(key, location)[i] == TitleChar(key, i)
    ensures Lower(NameForKey(key, location)) == key
  {
    TitleCaseOnlyChangesCase(key);
    LowerOfLower(key);
  }

  /** A line that is only punctuation, prefixes and set counts has the empty
      name and the fallback id. */
  lemma EmptyKeyName(raw: string, location: Location)
    requires NormalizeAlias(raw) == ""
    ensures CanonicalNameFor(raw, location) == ""
    ensures CanonicalIdFor(raw, location) == "exercise"
  {
    LookupNonEmpty("");
    assert !HasWord("", "back");
  }

  /** A word occurs only where its first character does. */
  lemma HasWordNeedsFirstChar(s: string, w: string)
    requires w != [] && HasWord(s, w)
    ensures w[0] in s
  {
    var i: nat :| i <= |s| && WordAt(s, w, i);
    assert s[i] == s[i..i + |w|][0];
  }

  /** The "back" rule comes before the table: every key with the word "back"
      is the machine row at Planet Fitness and the dumbbell row at work and at
      an unknown location, whatever the table says of it. */
  lemma BackRuleBeforeTable(key: string)
    requires HasWord(key, "back")
    ensures NameForKey(key, PlanetFitness) == "Back Machine Row"
    ensures NameForKey(key, Work) == "One-Arm Dumbbell Row"
    ensures NameForKey(key, Unknown) == "One-Arm Dumbbell Row"
  {
  }

  /** At work "horizontal back" is the dumbbell row, although the table makes
      it the machine row. */
  lemma BackRuleExamples()
    ensures NameForKey("horizontal back", Work) == "One-Arm Dumbbell Row"
    ensures NameForKey("dumbbell back", PlanetFitness) == "Back Machine Row"
    ensures NameForKey("back", Unknown) == "One-Arm Dumbbell Row"
  {
    assert WordAt("horizontal back", "back", 11);
    assert WordAt("dumbbell back", "back", 9);
    assert WordAt("back", "back", 0);
  }

  /** Only a street session reaches the table with a "back" key. */
  lemma StreetBackFromTable()
    ensures NameForKey("back", Street) == "Back"
  {
    assert AliasTable[..16] == Aliases1;
    assert AliasTable[3] == ("back", "Back");
    LookupAt("back", AliasTable, 3);
  }

  /** A key the table holds gets the table's name exactly. */
  lemma TableHit()
    ensures NameForKey("triceps", Unknown) == "Triceps Machine"
  {
    if HasWord("triceps", "back") {
      HasWordNeedsFirstChar("triceps", "back");
    }
    assert AliasTable[..32] == Aliases1 + Aliases2;
    assert AliasTable[19] == ("triceps", "Triceps Machine");
    LookupAt("triceps", AliasTable, 19);
  }

  // ---------------------------------------------------------------------------
  // `inferLocationIdFromExercises`

  /** A line as the inference reads it: trimmed and lower-cased. */
  function Lowered(line: string): string {
    Lower(Trim(line))
  }

  predicate AllPlanetFitness(lines: seq<string>) {
    forall i :: 0 <= i < |lines| ==> StartsWith(Lowered(lines[i]), "pf ")
  }

  predicate AllWork(lines: seq<string>) {
    forall i :: 0 <= i < |lines| ==> StartsWith(Lowered(lines[i]), "work ") || StartsWith(Lowered(lines[i]), "gwork ")
  }

  predicate AllRun(lines: seq<string>) {
    forall i :: 0 <= i < |lines| ==> StartsWith(Lowered(lines[i]), "run")
  }

  /** `inferLocationIdFromExercises` */
  function InferLocation(exercises: seq<string>): Location {
    if |exercises| == 0 then Unknown
    else if AllPlanetFitness(exercises) then PlanetFitness
    else if AllWork(exercises) then Work
    else if AllRun(exercises) then Street
    else Unknown
  }

  /** One line that starts with none of the prefixes makes the location
      unknown, whatever the other lines are. */
  lemma MismatchForcesUnknown(exercises: seq<string>, i: nat)
    requires i < |exercises|
    requires var l := Lowered(exercises[i]);
      !StartsWith(l, "pf ") && !StartsWith(l, "work ") && !StartsWith(l, "gwork ") && !StartsWith(l, "run")
    ensures InferLocation(exercises) == Unknown
  {
  }

  /** The first letters tell the prefixes apart. */
  lemma PrefixesExclusive(l: string)
    ensures StartsWith(l, "pf ") ==> !StartsWith(l, "work ") && !StartsWith(l, "gwork ") && !StartsWith(l, "run")
    ensures StartsWith(l, "run") ==> !StartsWith(l, "work ") && !StartsWith(l, "gwork ")
  {
    if StartsWith(l, "pf ") { assert l[0] == "pf "[0]; }
    if StartsWith(l, "run") { assert l[0] == "run"[0]; }
  }

  /** A session of gym lines is at an unknown location. */
  lemma GymLinesUnknown()
    ensures InferLocation(["Bench Press", "Squats"]) == Unknown
  {
    var l := Lowered("Bench Press");
    assert l[0] == 'b';
    assert l[0] != "pf "[0] && l[0] != "work "[0] && l[0] != "gwork "[0] && l[0] != "run"[0];
    MismatchForcesUnknown(["Bench Press", "Squats"], 0);
  }

  /** A session of runs is on the street. */
  lemma RunLinesStreet()
    ensures InferLocation(["Run 5k"]) == Street
  {
    var s := "Run 5k";
    TrimOfTrimmed(s);
    var l := Lower(s);
    assert l[..3] == "run";
    PrefixesExclusive(l);
    assert Lowered(s) == l;
    assert !StartsWith(l, "pf ") by { assert l[0] != "pf "[0]; }
    assert Lowered([s][0]) == l;
    assert !AllPlanetFitness([s]) && !AllWork([s]) && AllRun([s]);
  }

  lemma AllConcat(xs: seq<string>, ys: seq<string>)
    ensures AllPlanetFitness(xs + ys) <==> AllPlanetFitness(xs) && AllPlanetFitness(ys)
    ensures AllWork(xs + ys) <==> AllWork(xs) && AllWork(ys)
    ensures AllRun(xs + ys) <==> AllRun(xs) && AllRun(ys)
  {
    var zs := xs + ys;
    assert forall i :: 0 <= i < |xs| ==> zs[i] == xs[i];
    assert forall i :: 0 <= i < |ys| ==> zs[|xs| + i] == ys[i];
  }

  /** The inference is compositional: two lists of lines with the same
      location have that location together. */
  lemma InferLocationOfConcat(xs: seq<string>, ys: seq<string>)
    requires InferLocation(xs) == InferLocation(ys)
    ensures InferLocation(xs + ys) == InferLocation(xs)
  {
    AllConcat(xs, ys);
    if xs != [] && ys != [] {
      PrefixesExclusive(Lowered(xs[0]));
      PrefixesExclusive(Lowered(ys[0]));
    }
  }
}
