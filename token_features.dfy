/** The per-token feature extractor, `get_token_features`: one pass over the
    characters of a token, then nine named features with weights 0 or 1. The
    tagger's `f64` weights are all 0.0 or 1.0 here, so they are integers. */
module TokenFeatures {
  import opened Unicode

  /** A named feature for the sequence tagger (`crfs::Attribute`). */
  datatype Feature = Feature(name: string, weight: int)

  /** The two abbreviation tables; only their keys are ever consulted. */
  datatype Lexicons = Lexicons(streetNames: map<string, string>, directionals: map<string, string>)

  /** `make_replacements`: is the token a key of the table? */
  function MakeReplacements(token: string, replacements: map<string, string>): bool
  {
    token in replacements
  }

  /** `condition as u8 as f64`. */
  function Indicator(b: bool): int
  {
    if b then 1 else 0
  }

  /** `"aeiou".contains(c)`: lower-case unaccented vowels only. */
  predicate IsVowel(c: char)
  {
    c == 'a' || c == 'e' || c == 'i' || c == 'o' || c == 'u'
  }

  /** The number of numeric characters, counted left to right. */
  function NumericCount(u: Unicode, s: string): nat
  {
    if s == [] then 0
    else NumericCount(u, s[..|s| - 1]) + (if u.isNumeric(s[|s| - 1]) then 1 else 0)
  }

  /** Whether some character seen so far is a vowel. */
  function HasVowel(s: string): bool
  {
    s != [] && (HasVowel(s[..|s| - 1]) || IsVowel(s[|s| - 1]))
  }

  /** `token_clean`: the alphanumeric characters of the token, in order. */
  function CleanWord(u: Unicode, s: string): string
  {
    if s == [] then []
    else CleanWord(u, s[..|s| - 1]) + (if IsAlphanumeric(u, s[|s| - 1]) then [s[|s| - 1]] else [])
  }

  /** `token.chars().any(|c| c.is_alphabetic())`. */
  function HasAlphabetic(u: Unicode, s: string): bool
  {
    s != [] && (u.isAlphabetic(s[0]) || HasAlphabetic(u, s[1..]))
  }

  datatype DigitClass = AllDigits | SomeDigits | NoDigits

  /** The arms of the `match numeric_digits`, tried in order. */
  function ClassOf(numeric: nat, chars: nat): DigitClass
  {
    if numeric == chars then AllDigits else if numeric > 0 then SomeDigits else NoDigits
  }

  function ClassName(d: DigitClass): string
  {
    match d
    case AllDigits => "all_digits"
    case SomeDigits => "some_digits"
    case NoDigits => "no_digits"
  }

  /** The flags the last character sets; all false for the empty token. */
  predicate EndsInPunctuation(s: string) { s != [] && IsAsciiPunctuation(s[|s| - 1]) }

  predicate EndsInPeriod(s: string) { s != [] && s[|s| - 1] == '.' }

  predicate EndsInZero(s: string) { s != [] && s[|s| - 1] == '0' }

  /** `digits=<class>`, weighted by the presence of a numeric character
      whatever the class. */
  function DigitsFeature(u: Unicode, token: string): Feature
  {
    var numeric := NumericCount(u, token);
    Feature("digits=" + ClassName(ClassOf(numeric, |token|)), Indicator(numeric > 0))
  }

  /** `word=<cleaned token>`, weighted by the presence of a letter. */
  function WordFeature(u: Unicode, token: string): Feature
  {
    Feature("word=" + CleanWord(u, token), Indicator(HasAlphabetic(u, token)))
  }

  /** `length=d:<count>` for an all-digit token, else `length=w:<count>`;
      the count is the numeric count, not the length. */
  function LengthFeature(u: Unicode, token: string): Feature
  {
    var numeric := NumericCount(u, token);
    var prefix := if ClassOf(numeric, |token|) == AllDigits then "d" else "w";
    Feature("length=" + prefix + ":" + Decimal(numeric), 1)
  }

  /** The six features built from the token's shape: digit class, cleaned
      word, length class and the three last-character flags. */
  function ShapeFeatures(u: Unicode, token: string): seq<Feature>
  {
    [ DigitsFeature(u, token),
      WordFeature(u, token),
      LengthFeature(u, token),
      Feature("endsinpunc", Indicator(EndsInPunctuation(token))),
      Feature("abbrev", Indicator(EndsInPeriod(token))),
      Feature("trailing.zeros", Indicator(EndsInZero(token))) ]
  }

  /** The features of one token, in the order the extractor emits them: the
      shape features, then the two lexicon tests on the lower-cased token,
      then the vowel flag. */
  function TokenFeatureList(u: Unicode, lex: Lexicons, token: string): seq<Feature>
  {
    var lower := u.toLowercase(token);
    ShapeFeatures(u, token)
      + [Feature("street_name", Indicator(MakeReplacements(lower, lex.streetNames)))]
      + [Feature("directional", Indicator(MakeReplacements(lower, lex.directionals)))]
      + [Feature("has.vowels", Indicator(HasVowel(token)))]
  }

  /** `get_token_features`: one loop over the characters updating the
      counters, the vowel flag and the cleaned word, then the last-character
      flags, then the feature list. */
  method GetTokenFeatures(u: Unicode, lex: Lexicons, token: string) returns (features: seq<Feature>)
    ensures features == TokenFeatureList(u, lex, token)
  {
    var nChars := 0;
    var numericDigits := 0;
    var hasVowels := false;
    var endsInPunc := false;
    var endsInPeriod := false;
    var trailingZeros := false;
    var tokenClean := [];

    var i := 0;
    while i < |token|
      invariant 0 <= i <= |token|
      invariant nChars == i
      invariant numericDigits == NumericCount(u, token[..i])
      invariant hasVowels == HasVowel(token[..i])
      invariant tokenClean == CleanWord(u, token[..i])
    {
      var c := token[i];
      ScanStep(u, token, i);
      nChars := nChars + 1;
      if u.isNumeric(c) {
        numericDigits := numericDigits + 1;
      }
      if IsVowel(c) {
        hasVowels := true;
      }
      if IsAlphanumeric(u, c) {
        tokenClean := tokenClean + [c];
      }
      i := i + 1;
    }
    assert token[..i] == token;

    if |token| > 0 {
      var lastChar := token[|token| - 1];
      endsInPunc := IsAsciiPunctuation(lastChar);
      endsInPeriod := lastChar == '.';
      trailingZeros := lastChar == '0';
    }

    var digits := ClassOf(numericDigits, nChars);
    features := [
      Feature("digits=" + ClassName(digits), if numericDigits > 0 then 1 else 0),
      Feature("word=" + tokenClean, if HasAlphabetic(u, token) then 1 else 0),
      Feature("length=" + (if digits == AllDigits then "d" else "w") + ":" + Decimal(numericDigits), 1),
      Feature("endsinpunc", Indicator(endsInPunc)),
      Feature("abbrev", Indicator(endsInPeriod)),
      Feature("trailing.zeros", Indicator(trailingZeros))
    ];
    assert features == ShapeFeatures(u, token);
    var lower := u.toLowercase(token);
    features := features + [Feature("street_name", Indicator(MakeReplacements(lower, lex.streetNames)))];
    features := features + [Feature("directional", Indicator(MakeReplacements(lower, lex.directionals)))];
    features := features + [Feature("has.vowels", Indicator(hasVowels))];
  }

  /** One more character of the scan: each running value takes in exactly
      that character. */
  lemma ScanStep(u: Unicode, token: string, i: nat)
    requires i < |token|
    ensures NumericCount(u, token[..i + 1]) == NumericCount(u, token[..i]) + (if u.isNumeric(token[i]) then 1 else 0)
    ensures HasVowel(token[..i + 1]) == (HasVowel(token[..i]) || IsVowel(token[i]))
    ensures CleanWord(u, token[..i + 1]) == CleanWord(u, token[..i]) + (if IsAlphanumeric(u, token[i]) then [token[i]] else [])
  {
    assert token[..i + 1][..i] == token[..i];
  }

  /** The numeric count never exceeds the length; it equals the length
      exactly when every character is numeric and is zero exactly when none
      is. */
  lemma {:induction false} NumericCountBounds(u: Unicode, s: string)
    ensures NumericCount(u, s) <= |s|
    ensures NumericCount(u, s) == |s| <==> forall k :: 0 <= k < |s| ==> u.isNumeric(s[k])
    ensures NumericCount(u, s) == 0 <==> forall k :: 0 <= k < |s| ==> !u.isNumeric(s[k])
  {
    if s != [] {
      var init := s[..|s| - 1];
      NumericCountBounds(u, init);
      assert forall k :: 0 <= k < |init| ==> init[k] == s[k];
      if forall k :: 0 <= k < |s| ==> u.isNumeric(s[k]) {
        assert forall k :: 0 <= k < |init| ==> u.isNumeric(init[k]);
      }
      if forall k :: 0 <= k < |s| ==> !u.isNumeric(s[k]) {
        assert forall k :: 0 <= k < |init| ==> !u.isNumeric(init[k]);
      }
    }
  }

  /** The vowel flag is set exactly when some character is a lower-case
      vowel; an upper-case vowel does not count. */
  lemma {:induction false} HasVowelMeaning(s: string)
    ensures HasVowel(s) <==> exists k :: 0 <= k < |s| && IsVowel(s[k])
  {
    if s != [] {
      var init := s[..|s| - 1];
      HasVowelMeaning(init);
      if exists k :: 0 <= k < |s| && IsVowel(s[k]) {
        var k :| 0 <= k < |s| && IsVowel(s[k]);
        if k < |init| { assert IsVowel(init[k]); }
      }
      if HasVowel(init) {
        var k :| 0 <= k < |init| && IsVowel(init[k]);
        assert s[k] == init[k];
      }
    }
  }

  lemma {:induction false} HasAlphabeticMeaning(u: Unicode, s: string)
    ensures HasAlphabetic(u, s) <==> exists k :: 0 <= k < |s| && u.isAlphabetic(s[k])
  {
    if s != [] {
      HasAlphabeticMeaning(u, s[1..]);
      if exists k :: 0 <= k < |s| && u.isAlphabetic(s[k]) {
        var k :| 0 <= k < |s| && u.isAlphabetic(s[k]);
        if k > 0 { assert s[1..][k - 1] == s[k]; }
      }
    }
  }

  /** Cleaning is a filter: it distributes over concatenation and keeps a
      single character exactly when it is alphanumeric. Together these fix
      the cleaned word as the alphanumeric characters, in order, case
      preserved. */
  lemma {:induction false} CleanWordAppend(u: Unicode, s: string, t: string)
    ensures CleanWord(u, s + t) == CleanWord(u, s) + CleanWord(u, t)
    decreases |t|
  {
    if t == [] {
      assert s + t == s;
    } else {
      var t' := t[..|t| - 1];
      assert (s + t)[..|s + t| - 1] == s + t';
      CleanWordAppend(u, s, t');
    }
  }

  lemma CleanWordChar(u: Unicode, c: char)
    ensures CleanWord(u, [c]) == if IsAlphanumeric(u, c) then [c] else []
  {
    assert [c][..0] == [];
  }

  /** Every character of the cleaned word is alphanumeric, and no
      character is added. */
  lemma {:induction false} CleanWordAlphanumeric(u: Unicode, s: string)
    ensures forall k :: 0 <= k < |CleanWord(u, s)| ==> IsAlphanumeric(u, CleanWord(u, s)[k])
    ensures |CleanWord(u, s)| <= |s|
  {
    if s != [] {
      CleanWordAlphanumeric(u, s[..|s| - 1]);
    }
  }

  /** Cleaning a word made only of alphanumeric characters changes nothing. */
  lemma {:induction false} CleanWordFixed(u: Unicode, s: string)
    requires forall k :: 0 <= k < |s| ==> IsAlphanumeric(u, s[k])
    ensures CleanWord(u, s) == s
  {
    if s != [] {
      var init := s[..|s| - 1];
      assert forall k :: 0 <= k < |init| ==> init[k] == s[k];
      CleanWordFixed(u, init);
      assert init + [s[|s| - 1]] == s;
    }
  }

  /** Cleaning twice is cleaning once. */
  lemma CleanWordIdempotent(u: Unicode, s: string)
    ensures CleanWord(u, CleanWord(u, s)) == CleanWord(u, s)
  {
    CleanWordAlphanumeric(u, s);
    CleanWordFixed(u, CleanWord(u, s));
  }

  /** The digit class: `all_digits` exactly when every character is numeric
      (so also for the empty token), `some_digits` when some are and some are
      not, `no_digits` for a non-empty token without numeric characters; the
      weight is 1 exactly when some character is numeric. */
  lemma DigitClassFeature(u: Unicode, token: string)
    ensures var f := DigitsFeature(u, token);
      && (f.name == "digits=all_digits" <==> forall k :: 0 <= k < |token| ==> u.isNumeric(token[k]))
      && (f.name == "digits=some_digits" <==>
            (exists k :: 0 <= k < |token| && u.isNumeric(token[k])) &&
            (exists k :: 0 <= k < |token| && !u.isNumeric(token[k])))
      && (f.name == "digits=no_digits" <==>
            token != [] && forall k :: 0 <= k < |token| ==> !u.isNumeric(token[k]))
      && (f.weight == 1 <==> exists k :: 0 <= k < |token| && u.isNumeric(token[k]))
      && (f.weight == 0 <==> forall k :: 0 <= k < |token| ==> !u.isNumeric(token[k]))
  {
    NumericCountBounds(u, token);
    DigitsNames(ClassOf(NumericCount(u, token), |token|));
  }

  /** The three `digits=` names are told apart by their class. */
  lemma DigitsNames(d: DigitClass)
    ensures ("digits=" + ClassName(d) == "digits=all_digits") <==> d == AllDigits
    ensures ("digits=" + ClassName(d) == "digits=some_digits") <==> d == SomeDigits
    ensures ("digits=" + ClassName(d) == "digits=no_digits") <==> d == NoDigits
  {
    assert |"digits=all_digits"| == 17 && |"digits=some_digits"| == 18 && |"digits=no_digits"| == 16;
  }

  /** The length feature: `d` exactly for an all-digit token, and the number
      after the colon reads back as the numeric count. */
  lemma LengthFeatureMeaning(u: Unicode, token: string)
    ensures var f := LengthFeature(u, token);
      && f.weight == 1
      && f.name[..7] == "length=" && f.name[8] == ':'
      && (f.name[7] == 'd' <==> forall k :: 0 <= k < |token| ==> u.isNumeric(token[k]))
      && (f.name[7] == 'w' <==> exists k :: 0 <= k < |token| && !u.isNumeric(token[k]))
      && (forall k :: 9 <= k < |f.name| ==> IsAsciiDigit(f.name[k]))
      && DecimalValue(f.name[9..]) == NumericCount(u, token)
  {
    var numeric := NumericCount(u, token);
    NumericCountBounds(u, token);
    DecimalRoundTrip(numeric);
    var prefix := if ClassOf(numeric, |token|) == AllDigits then "d" else "w";
    LengthNameLayout(prefix, Decimal(numeric));
  }

  /** Where the parts of a `length=` name sit. */
  lemma LengthNameLayout(prefix: string, digits: string)
    requires |prefix| == 1
    ensures var name := "length=" + prefix + ":" + digits;
      && |name| == 9 + |digits|
      && name[..7] == "length=" && name[7] == prefix[0] && name[8] == ':'
      && name[9..] == digits
  {
    var name := "length=" + prefix + ":" + digits;
    assert name == "length=" + [prefix[0], ':'] + digits;
  }

  /** The word feature: the cleaned token, every character of it
      alphanumeric, weighted by the presence of an alphabetic character. */
  lemma WordFeatureMeaning(u: Unicode, token: string)
    ensures var f := WordFeature(u, token);
      && f.name[..5] == "word="
      && f.name[5..] == CleanWord(u, token)
      && (forall k :: 5 <= k < |f.name| ==> IsAlphanumeric(u, f.name[k]))
      && |f.name| <= 5 + |token|
      && (f.weight == 1 <==> exists k :: 0 <= k < |token| && u.isAlphabetic(token[k]))
      && (f.weight == 0 <==> forall k :: 0 <= k < |token| ==> !u.isAlphabetic(token[k]))
  {
    HasAlphabeticMeaning(u, token);
    CleanWordAlphanumeric(u, token);
    var w := CleanWord(u, token);
    assert forall k :: 5 <= k < |"word=" + w| ==> ("word=" + w)[k] == w[k - 5];
  }

  /** The last-character flags are all zero for the empty token, `abbrev`
      implies `endsinpunc`, `trailing.zeros` excludes it, and `has.vowels`
      reports lower-case vowels only. */
  lemma CharacterFlags(u: Unicode, lex: Lexicons, token: string)
    ensures var fs := TokenFeatureList(u, lex, token);
      && (token == [] ==> fs[3].weight == 0 && fs[4].weight == 0 && fs[5].weight == 0)
      && (fs[4].weight == 1 ==> fs[3].weight == 1)
      && (fs[5].weight == 1 ==> fs[3].weight == 0)
      && (fs[8].weight == 1 <==> exists k :: 0 <= k < |token| && IsVowel(token[k]))
  {
    HasVowelMeaning(token);
  }

  /** The nine positions of the feature list. */
  lemma TokenFeatureListIndex(u: Unicode, lex: Lexicons, token: string)
    ensures var fs := TokenFeatureList(u, lex, token); var lower := u.toLowercase(token);
      && |fs| == 9
      && fs[0] == DigitsFeature(u, token)
      && fs[1] == WordFeature(u, token)
      && fs[2] == LengthFeature(u, token)
      && fs[3] == Feature("endsinpunc", Indicator(EndsInPunctuation(token)))
      && fs[4] == Feature("abbrev", Indicator(EndsInPeriod(token)))
      && fs[5] == Feature("trailing.zeros", Indicator(EndsInZero(token)))
      && fs[6] == Feature("street_name", Indicator(MakeReplacements(lower, lex.streetNames)))
      && fs[7] == Feature("directional", Indicator(MakeReplacements(lower, lex.directionals)))
      && fs[8] == Feature("has.vowels", Indicator(HasVowel(token)))
  {
  }

  /** The names of the nine features, in order. */
  lemma FeatureNames(u: Unicode, lex: Lexicons, token: string)
    ensures var fs := TokenFeatureList(u, lex, token);
      && |fs| == 9
      && fs[0].name[..7] == "digits="
      && fs[1].name[..5] == "word="
      && fs[2].name[..7] == "length="
      && fs[3].name == "endsinpunc"
      && fs[4].name == "abbrev"
      && fs[5].name == "trailing.zeros"
      && fs[6].name == "street_name"
      && fs[7].name == "directional"
      && fs[8].name == "has.vowels"
  {
    TokenFeatureListIndex(u, lex, token);
    var d := DigitsFeature(u, token);
    var w := WordFeature(u, token);
    assert d.name[..7] == "digits=";
    assert w.name[..5] == "word=";
    LengthFeatureMeaning(u, token);
  }

  /** The two lexicon features test the lower-cased token. */
  lemma LexiconFeatures(u: Unicode, lex: Lexicons, token: string)
    ensures var fs := TokenFeatureList(u, lex, token);
      && (fs[6].weight == 1 <==> u.toLowercase(token) in lex.streetNames)
      && (fs[7].weight == 1 <==> u.toLowercase(token) in lex.directionals)
  {
  }

  /** Every feature weighs 0 or 1. */
  lemma FeatureWeights(u: Unicode, lex: Lexicons, token: string)
    ensures var fs := TokenFeatureList(u, lex, token);
      forall i :: 0 <= i < |fs| ==> fs[i].weight == 0 || fs[i].weight == 1
  {
    var fs := TokenFeatureList(u, lex, token);
    forall i | 0 <= i < |fs|
      ensures fs[i].weight == 0 || fs[i].weight == 1
    {
      assert fs[i] in fs;
    }
  }

  /** The fixed layout: nine features, always in the same order under the
      same names (the two lexicon tests look up the lower-cased token), every
      weight 0 or 1. */
  lemma FeatureLayout(u: Unicode, lex: Lexicons, token: string)
    ensures var fs := TokenFeatureList(u, lex, token);
      && |fs| == 9
      && fs[0].name[..7] == "digits="
      && fs[1].name[..5] == "word="
      && fs[2].name[..7] == "length="
      && fs[3].name == "endsinpunc"
      && fs[4].name == "abbrev"
      && fs[5].name == "trailing.zeros"
      && fs[6].name == "street_name"
      && fs[7].name == "directional"
      && fs[8].name == "has.vowels"
      && (fs[6].weight == 1 <==> u.toLowercase(token) in lex.streetNames)
      && (fs[7].weight == 1 <==> u.toLowercase(token) in lex.directionals)
      && (forall i :: 0 <= i < |fs| ==> fs[i].weight == 0 || fs[i].weight == 1)
  {
    FeatureNames(u, lex, token);
    LexiconFeatures(u, lex, token);
    FeatureWeights(u, lex, token);
  }

  /** A name that starts differently from both boundary markers. */
  predicate NotBoundary(name: string)
  {
    name != "address.start" && name != "address.end"
  }

  lemma NotBoundaryByHead(name: string)
    requires name != [] && name[0] != 'a'
    ensures NotBoundary(name)
  {
    assert "address.start"[0] == 'a' && "address.end"[0] == 'a';
  }

  /** No feature of a token is named like a sequence-boundary marker. */
  lemma NoBoundaryNames(u: Unicode, lex: Lexicons, token: string)
    ensures forall f :: f in TokenFeatureList(u, lex, token) ==> NotBoundary(f.name)
  {
    var fs := TokenFeatureList(u, lex, token);
    TokenFeatureListIndex(u, lex, token);
    forall k | 0 <= k < |fs|
      ensures NotBoundary(fs[k].name)
    {
      if k == 4 {
        assert |fs[4].name| == 6;
      } else {
        NotBoundaryByHead(fs[k].name);
      }
    }
  }
}
