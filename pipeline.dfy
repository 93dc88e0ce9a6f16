/** The parse pipeline: tokenize, extract per-token features, add the
    neighbour context, tag with the sequence model, zip tokens with tags.
    The trained model is a parameter: any function from a feature sequence
    to either one label per position or an error. */
module Pipeline {
  import opened Unicode
  import opened TokenFeatures
  import opened FeatureContext
  import opened Tokenizer
  import opened Grouping

  datatype Result<T, E> = Ok(value: T) | Err(error: E)

  /** The tagger backed by the trained model; its error covers both creating
      the tagger and tagging. */
  type Tagger = seq<seq<Feature>> -> Result<seq<string>, string>

  /** `tokens.iter().map(get_token_features).collect()`: the bare features
      of every token, in token order. */
  function TokenFeatureSets(u: Unicode, lex: Lexicons, tokens: seq<string>): seq<seq<Feature>>
  {
    seq(|tokens|, i requires 0 <= i < |tokens| => TokenFeatureList(u, lex, tokens[i]))
  }

  /** `get_address_features`: the features of each token, then the
      neighbour context; the sequence handed to the tagger. */
  function AddressFeatures(u: Unicode, lex: Lexicons, tokens: seq<string>): seq<seq<Feature>>
  {
    Augmented(TokenFeatureSets(u, lex, tokens))
  }

  /** One feature set per token, each extending that token's own features;
      the start marker sits only in the first set and the end marker only in
      the last, once each; every weight is 0 or 1. */
  lemma AddressFeaturesShape(u: Unicode, lex: Lexicons, tokens: seq<string>)
    ensures var xs := AddressFeatures(u, lex, tokens);
      && |xs| == |tokens|
      && (forall i :: 0 <= i < |tokens| ==> TokenFeatureList(u, lex, tokens[i]) <= xs[i])
      && (forall i :: 0 <= i < |tokens| ==>
            && Occurrences(xs[i], "address.start") == (if i == 0 then 1 else 0)
            && Occurrences(xs[i], "address.end") == (if i == |tokens| - 1 then 1 else 0))
      && (forall i :: 0 <= i < |tokens| ==> BinaryWeights(xs[i]))
  {
    var sets := TokenFeatureSets(u, lex, tokens);
    TokenSetsMarkerFree(u, lex, tokens);
    TokenSetsBinary(u, lex, tokens);
    AugmentedShape(sets);
  }

  /** No token's own features carry a boundary-marker name. */
  lemma TokenSetsMarkerFree(u: Unicode, lex: Lexicons, tokens: seq<string>)
    ensures var sets := TokenFeatureSets(u, lex, tokens);
      forall j, f :: 0 <= j < |sets| && f in sets[j] ==> NotBoundary(f.name)
  {
    var sets := TokenFeatureSets(u, lex, tokens);
    forall j, f: Feature | 0 <= j < |sets| && f in sets[j]
      ensures NotBoundary(f.name)
    {
      NoBoundaryNames(u, lex, tokens[j]);
    }
  }

  /** Every token's own features weigh 0 or 1. */
  lemma TokenSetsBinary(u: Unicode, lex: Lexicons, tokens: seq<string>)
    ensures var sets := TokenFeatureSets(u, lex, tokens);
      forall j :: 0 <= j < |sets| ==> BinaryWeights(sets[j])
  {
    var sets := TokenFeatureSets(u, lex, tokens);
    forall j | 0 <= j < |sets|
      ensures BinaryWeights(sets[j])
    {
      FeatureLayout(u, lex, tokens[j]);
    }
  }

  /** `parse`: the tokens of the address paired with the tags the model
      assigns to its feature sequence, or the tagger's error. */
  function Parse(u: Unicode, lex: Lexicons, tagger: Tagger, address: string): Result<seq<Tagged>, string>
  {
    var tokens := Tokenize(u, address);
    match tagger(AddressFeatures(u, lex, tokens))
    case Err(e) => Err(e)
    case Ok(tags) => Ok(ZipTokensAndTags(tokens, tags))
  }

  /** Parsing fails exactly when the tagger fails, with its error; otherwise
      the pairs carry the address's tokens in order, and when the tagger
      labels every position they carry every token and exactly its tags. */
  lemma ParseOutcome(u: Unicode, lex: Lexicons, tagger: Tagger, address: string)
    ensures var tokens := Tokenize(u, address);
      var tagged := tagger(AddressFeatures(u, lex, tokens));
      && (Parse(u, lex, tagger, address).Err? <==> tagged.Err?)
      && (tagged.Err? ==> Parse(u, lex, tagger, address).error == tagged.error)
      && (tagged.Ok? ==>
            var pairs := Parse(u, lex, tagger, address).value;
            && TokensOf(pairs) <= tokens
            && TagsOf(pairs) <= tagged.value
            && (|tagged.value| == |tokens| ==> TokensOf(pairs) == tokens && TagsOf(pairs) == tagged.value))
  {
    var tokens := Tokenize(u, address);
    var tagged := tagger(AddressFeatures(u, lex, tokens));
    if tagged.Ok? {
      assert Parse(u, lex, tagger, address) == Ok(ZipTokensAndTags(tokens, tagged.value));
      ZippedPrefixes(tokens, tagged.value);
    }
  }

  /** Zipping keeps a prefix of the tokens and of the tags, all of both when
      their lengths agree. */
  lemma ZippedPrefixes(tokens: seq<string>, tags: seq<string>)
    ensures var pairs := ZipTokensAndTags(tokens, tags);
      && TokensOf(pairs) <= tokens
      && TagsOf(pairs) <= tags
      && (|tags| == |tokens| ==> TokensOf(pairs) == tokens && TagsOf(pairs) == tags)
  {
    ZipUnzip(tokens, tags);
    assert tokens[..|tokens|] == tokens;
    assert tags[..|tags|] == tags;
  }

  /** Collecting results into one: all the values in order, or the first
      error met from the left. */
  function Collect<T, E>(rs: seq<Result<T, E>>): Result<seq<T>, E>
  {
    if rs == [] then Ok([])
    else match rs[0]
      case Err(e) => Err(e)
      case Ok(v) =>
        match Collect(rs[1..])
        case Err(e) => Err(e)
        case Ok(vs) => Ok([v] + vs)
  }

  /** Collecting succeeds exactly when every result is a value, and then
      holds every value at its position; otherwise its error is that of the
      first error. */
  lemma {:induction false} CollectOutcome<T, E>(rs: seq<Result<T, E>>)
    ensures var c := Collect(rs);
      && (c.Ok? <==> forall i :: 0 <= i < |rs| ==> rs[i].Ok?)
      && (c.Ok? ==>
            && |c.value| == |rs|
            && (forall i :: 0 <= i < |rs| ==> c.value[i] == rs[i].value))
      && (c.Err? ==>
            exists i :: (&& 0 <= i < |rs|
                         && (forall j :: 0 <= j < i ==> rs[j].Ok?)
                         && rs[i] == Err(c.error)))
  {
    if rs != [] {
      var rest := rs[1..];
      CollectOutcome(rest);
      var c := Collect(rs);
      if rs[0].Ok? {
        var tail := Collect(rest);
        assert forall i :: 1 <= i < |rs| ==> rs[i] == rest[i - 1];
        if tail.Err? {
          var k :| 0 <= k < |rest| && (forall j :: 0 <= j < k ==> rest[j].Ok?) && rest[k] == Err(tail.error);
          assert rs[k + 1] == Err(c.error);
        }
      } else {
        assert rs[0] == Err(c.error);
      }
    }
  }

  /** `parse_addresses`: every address parsed, collected in order. */
  function ParseAddresses(u: Unicode, lex: Lexicons, tagger: Tagger, addresses: seq<string>): Result<seq<seq<Tagged>>, string>
  {
    Collect(seq(|addresses|, i requires 0 <= i < |addresses| => Parse(u, lex, tagger, addresses[i])))
  }

  /** The batch succeeds exactly when every address parses, and then holds
      each address's result at its position; otherwise its error is that of
      the first address that fails. */
  lemma ParseAddressesOutcome(u: Unicode, lex: Lexicons, tagger: Tagger, addresses: seq<string>)
    ensures var r := ParseAddresses(u, lex, tagger, addresses);
      && (r.Ok? <==> forall i :: 0 <= i < |addresses| ==> Parse(u, lex, tagger, addresses[i]).Ok?)
      && (r.Ok? ==>
            && |r.value| == |addresses|
            && (forall i :: 0 <= i < |addresses| ==> r.value[i] == Parse(u, lex, tagger, addresses[i]).value))
      && (r.Err? ==>
            exists i :: (&& 0 <= i < |addresses|
                         && (forall j :: 0 <= j < i ==> Parse(u, lex, tagger, addresses[j]).Ok?)
                         && Parse(u, lex, tagger, addresses[i]) == Err(r.error)))
  {
    var rs := seq(|addresses|, i requires 0 <= i < |addresses| => Parse(u, lex, tagger, addresses[i]));
    var r := ParseAddresses(u, lex, tagger, addresses);
    assert r == Collect(rs);
    CollectOutcome(rs);
    if r.Ok? {
      forall i | 0 <= i < |addresses|
        ensures Parse(u, lex, tagger, addresses[i]).Ok?
        ensures r.value[i] == Parse(u, lex, tagger, addresses[i]).value
      {
        assert rs[i] == Parse(u, lex, tagger, addresses[i]);
      }
    } else {
      var i :| 0 <= i < |rs| && (forall j :: 0 <= j < i ==> rs[j].Ok?) && rs[i] == Err(r.error);
      assert Parse(u, lex, tagger, addresses[i]) == Err(r.error);
      forall j | 0 <= j < i
        ensures Parse(u, lex, tagger, addresses[j]).Ok?
      {
        assert rs[j] == Parse(u, lex, tagger, addresses[j]);
      }
    }
  }
}
