/** The normaliser and the tokenizer: `clean_address` trims the raw text and
    decomposes it (NFKD); `tokenize` pads every `&` and `#` with spaces, splits
    on space, comma, semicolon, closing parenthesis and newline, and drops the
    empty fragments. */
module Tokenizer {
  import opened Unicode

  /** `clean_address`: trim, then NFKD. Nothing else (no case folding, no
      ASCII filtering, no punctuation removal). */
  function CleanAddress(u: Unicode, address: string): string
  {
    u.nfkd(Trim(u, address))
  }

  /** Whitespace around an address does not matter: cleaning its trimmed
      text gives the same result. */
  lemma CleanAddressIgnoresTrim(u: Unicode, address: string)
    ensures CleanAddress(u, Trim(u, address)) == CleanAddress(u, address)
  {
    TrimIdempotent(u, address);
  }

  /** `clean_addresses`: `clean_address` on each address, in order. */
  function CleanAddresses(u: Unicode, addresses: seq<string>): (r: seq<string>)
    ensures |r| == |addresses|
    ensures forall i :: 0 <= i < |r| ==> r[i] == CleanAddress(u, addresses[i])
  {
    if addresses == [] then []
    else [CleanAddress(u, addresses[0])] + CleanAddresses(u, addresses[1..])
  }

  /** The characters `tokenize` splits on. */
  predicate IsSeparator(c: char)
  {
    c == ' ' || c == ',' || c == ';' || c == ')' || c == '\n'
  }

  /** `str::replace` with a character pattern: every occurrence of `c`
      replaced by `with`. */
  function ReplaceChar(s: string, c: char, with: string): string
  {
    if s == [] then []
    else (if s[0] == c then with else [s[0]]) + ReplaceChar(s[1..], c, with)
  }

  /** The text after `.replace('&', " & ").replace('#', " # ")`. */
  function Padded(s: string): string
  {
    ReplaceChar(ReplaceChar(s, '&', " & "), '#', " # ")
  }

  /** The separators of `s`, in order. */
  function Seps(s: string): seq<char>
  {
    if s == [] then []
    else (if IsSeparator(s[0]) then [s[0]] else []) + Seps(s[1..])
  }

  /** Fragments written out with one separator between each two. */
  function JoinWith(fs: seq<string>, seps: seq<char>): string
    requires |fs| == |seps| + 1
  {
    if seps == [] then fs[0]
    else fs[0] + [seps[0]] + JoinWith(fs[1..], seps[1..])
  }

  /** `str::split` on the separator set: every fragment between separators,
      empty ones included, so one more fragment than there are separators. */
  function Split(s: string): (r: seq<string>)
    ensures |r| >= 1
  {
    if s == [] then [[]]
    else
      var rest := Split(s[1..]);
      if IsSeparator(s[0]) then [[]] + rest
      else [[s[0]] + rest[0]] + rest[1..]
  }

  /** One more fragment than there are separators. */
  lemma {:induction false} SplitCount(s: string)
    ensures |Split(s)| == |Seps(s)| + 1
  {
    if s != [] {
      SplitCount(s[1..]);
    }
  }

  /** `.filter(|x| !x.is_empty())`. */
  function NonEmpty(fs: seq<string>): seq<string>
  {
    if fs == [] then []
    else NonEmpty(fs[..|fs| - 1]) + (if fs[|fs| - 1] == [] then [] else [fs[|fs| - 1]])
  }

  /** The positions of the non-empty fragments, in order. */
  function NonEmptyPositions(fs: seq<string>): seq<nat>
  {
    if fs == [] then []
    else NonEmptyPositions(fs[..|fs| - 1]) + (if fs[|fs| - 1] == [] then [] else [|fs| - 1])
  }

  /** `tokenize`. */
  function Tokenize(u: Unicode, address: string): seq<string>
  {
    NonEmpty(Split(Padded(CleanAddress(u, address))))
  }

  /** The fragments written one after the other. */
  function Concat(fs: seq<string>): string
  {
    if fs == [] then [] else fs[0] + Concat(fs[1..])
  }

  /** The characters of `s` that are not separators, in order. */
  function WithoutSeparators(s: string): string
  {
    if s == [] then []
    else (if IsSeparator(s[0]) then [] else [s[0]]) + WithoutSeparators(s[1..])
  }

  predicate NoSeparator(t: string)
  {
    forall k :: 0 <= k < |t| ==> !IsSeparator(t[k])
  }

  /** Splitting keeps every non-separator character, in order, and no
      fragment holds a separator. */
  lemma {:induction false} SplitFragments(s: string)
    ensures forall i :: 0 <= i < |Split(s)| ==> NoSeparator(Split(s)[i])
    ensures Concat(Split(s)) == WithoutSeparators(s)
  {
    if s != [] {
      var rest := Split(s[1..]);
      SplitFragments(s[1..]);
      if IsSeparator(s[0]) {
        assert ([[]] + rest)[1..] == rest;
      } else {
        var r := [[s[0]] + rest[0]] + rest[1..];
        assert r[1..] == rest[1..];
        assert Concat(rest) == rest[0] + Concat(rest[1..]);
        assert Concat(r) == [s[0]] + rest[0] + Concat(rest[1..]);
        forall i | 0 <= i < |r| ensures NoSeparator(r[i]) {
          if i > 0 { assert r[i] == rest[i]; }
        }
      }
    }
  }

  /** Every fragment of the split is bounded by separators or the ends of
      the text, and holds none; the first one starts the text and no other
      does. */
  predicate IsMaximalRun(s: string, a: int, b: int)
  {
    && 0 <= a <= b <= |s|
    && NoSeparator(s[a..b])
    && (a == 0 || IsSeparator(s[a - 1]))
    && (b == |s| || IsSeparator(s[b]))
  }

  lemma {:induction false} SplitSpan(s: string, i: nat)
    requires i < |Split(s)|
    ensures exists a, b :: IsMaximalRun(s, a, b) && Split(s)[i] == s[a..b] && (i == 0 <==> a == 0)
  {
    if s == [] {
      assert IsMaximalRun(s, 0, 0) && Split(s)[i] == s[0..0];
    } else {
      var t := s[1..];
      var rest := Split(t);
      if IsSeparator(s[0]) && i == 0 {
        assert IsMaximalRun(s, 0, 0) && Split(s)[0] == s[0..0];
      } else {
        var j := if IsSeparator(s[0]) then i - 1 else i;
        SplitSpan(t, j);
        var a, b :| IsMaximalRun(t, a, b) && rest[j] == t[a..b] && (j == 0 <==> a == 0);
        assert t[a..b] == s[a + 1..b + 1];
        if IsSeparator(s[0]) {
          assert Split(s)[i] == rest[j];
          assert IsMaximalRun(s, a + 1, b + 1);
        } else if i == 0 {
          assert Split(s)[0] == [s[0]] + rest[0];
          assert s[0..b + 1] == [s[0]] + s[1..b + 1];
          assert IsMaximalRun(s, 0, b + 1);
        } else {
          assert Split(s)[i] == rest[i];
          assert IsMaximalRun(s, a + 1, b + 1);
        }
      }
    }
  }

  /** Putting a text in front of the first fragment puts it in front of the
      whole. */
  lemma JoinWithHead(x: string, fs: seq<string>, seps: seq<char>)
    requires |fs| == |seps| + 1
    ensures JoinWith([x + fs[0]] + fs[1..], seps) == x + JoinWith(fs, seps)
  {
    var g := [x + fs[0]] + fs[1..];
    assert g[0] == x + fs[0] && g[1..] == fs[1..];
  }

  /** The fragments joined with the separators between them give back the
      text. */
  lemma {:induction false} SplitJoin(s: string)
    ensures |Split(s)| == |Seps(s)| + 1
    ensures JoinWith(Split(s), Seps(s)) == s
  {
    SplitCount(s);
    if s != [] {
      var t := s[1..];
      SplitJoin(t);
      assert s == [s[0]] + t;
      if IsSeparator(s[0]) {
        var r := [[]] + Split(t);
        assert r[0] == [] && r[1..] == Split(t);
        assert Seps(s) == [s[0]] + Seps(t);
      } else {
        var rest := Split(t);
        assert Split(s) == [[s[0]] + rest[0]] + rest[1..];
        assert Seps(s) == Seps(t);
        JoinWithHead([s[0]], rest, Seps(t));
      }
    }
  }

  lemma {:induction false} SepsAreSeparators(s: string)
    ensures forall k :: 0 <= k < |Seps(s)| ==> IsSeparator(Seps(s)[k])
  {
    if s != [] {
      SepsAreSeparators(s[1..]);
    }
  }

  /** Splitting at the first separator. */
  lemma {:induction false} SplitAtFirst(s: string, n: nat)
    requires n < |s| && NoSeparator(s[..n]) && IsSeparator(s[n])
    ensures Split(s) == [s[..n]] + Split(s[n + 1..])
    ensures Seps(s) == [s[n]] + Seps(s[n + 1..])
  {
    if n > 0 {
      var t := s[1..];
      assert t[..n - 1] == s[1..n];
      assert t[n - 1] == s[n];
      assert t[n..] == s[n + 1..];
      assert !IsSeparator(s[..n][0]);
      SplitAtFirst(t, n - 1);
      assert s[..n] == [s[0]] + s[1..n];
    }
  }

  /** `fs` cuts `s` at every separator: one more fragment than separators,
      none holding a separator, and joined with the separators of `s` they
      give back `s`. */
  predicate CutsAtSeparators(s: string, fs: seq<string>)
  {
    && |fs| == |Seps(s)| + 1
    && (forall i :: 0 <= i < |fs| ==> NoSeparator(fs[i]))
    && JoinWith(fs, Seps(s)) == s
  }

  /** The split is the only way to cut the text into separator-free
      fragments that join back to it with its own separators. */
  lemma {:induction false} SplitUnique(s: string, fs: seq<string>)
    requires CutsAtSeparators(s, fs)
    ensures fs == Split(s)
    decreases |fs|
  {
    var seps := Seps(s);
    SplitJoin(s);
    if seps == [] {
      assert fs == [fs[0]];
      assert Split(s) == [Split(s)[0]];
    } else {
      SepsAreSeparators(s);
      var n := |fs[0]|;
      var tail := JoinWith(fs[1..], seps[1..]);
      assert s == fs[0] + [seps[0]] + tail;
      assert s[..n] == fs[0] && s[n] == seps[0] && s[n + 1..] == tail;
      SplitAtFirst(s, n);
      assert Seps(tail) == seps[1..];
      assert forall i :: 0 <= i < |fs[1..]| ==> fs[1..][i] == fs[i + 1];
      SplitUnique(tail, fs[1..]);
      assert fs == [fs[0]] + fs[1..];
    }
  }

  lemma {:induction false} ConcatSnoc(fs: seq<string>, f: string)
    ensures Concat(fs + [f]) == Concat(fs) + f
  {
    if fs == [] {
      assert [] + [f] == [f] && [f][1..] == [];
    } else {
      assert (fs + [f])[1..] == fs[1..] + [f];
      ConcatSnoc(fs[1..], f);
    }
  }

  /** Dropping empty fragments keeps exactly the non-empty ones, in order:
      increasing positions pick out the output, and a position is picked
      exactly when its fragment is non-empty. */
  lemma NonEmptyFilters(fs: seq<string>)
    ensures var out := NonEmpty(fs); var pos := NonEmptyPositions(fs);
      && |pos| == |out|
      && (forall k :: 0 <= k < |pos| ==> pos[k] < |fs| && out[k] == fs[pos[k]])
      && (forall k, l :: 0 <= k < l < |pos| ==> pos[k] < pos[l])
      && (forall i :: 0 <= i < |fs| ==> (i in pos <==> fs[i] != []))
      && Concat(out) == Concat(fs)
  {
    NonEmptyPicks(fs);
    NonEmptyConcat(fs);
  }

  /** `pos` lists, in increasing order, exactly the positions of the
      non-empty fragments of `fs`, and `out` holds those fragments. */
  predicate PicksNonEmpty(fs: seq<string>, out: seq<string>, pos: seq<nat>)
  {
    && |pos| == |out|
    && (forall k :: 0 <= k < |pos| ==> pos[k] < |fs| && out[k] == fs[pos[k]])
    && (forall k, l :: 0 <= k < l < |pos| ==> pos[k] < pos[l])
    && (forall i :: 0 <= i < |fs| ==> (i in pos <==> fs[i] != []))
  }

  lemma {:induction false} NonEmptyPicks(fs: seq<string>)
    ensures PicksNonEmpty(fs, NonEmpty(fs), NonEmptyPositions(fs))
  {
    if fs != [] {
      var n := |fs| - 1;
      var init := fs[..n];
      NonEmptyPicks(init);
      assert fs == init + [fs[n]];
      if fs[n] == [] {
        PicksDrop(init, NonEmpty(init), NonEmptyPositions(init), fs[n]);
      } else {
        PicksKeep(init, NonEmpty(init), NonEmptyPositions(init), fs[n]);
      }
    }
  }

  /** An empty fragment at the end is not picked. */
  lemma PicksDrop(fs: seq<string>, out: seq<string>, pos: seq<nat>, f: string)
    requires PicksNonEmpty(fs, out, pos) && f == []
    ensures PicksNonEmpty(fs + [f], out, pos)
  {
    var g := fs + [f];
    forall i | 0 <= i < |g| ensures i in pos <==> g[i] != [] {
      if i < |fs| {
        assert g[i] == fs[i];
      } else {
        assert forall k :: 0 <= k < |pos| ==> pos[k] < i;
      }
    }
  }

  /** A non-empty fragment at the end is picked, after all the others. */
  lemma PicksKeep(fs: seq<string>, out: seq<string>, pos: seq<nat>, f: string)
    requires PicksNonEmpty(fs, out, pos) && f != []
    ensures PicksNonEmpty(fs + [f], out + [f], pos + [|fs|])
  {
    var g := fs + [f];
    var p := pos + [|fs|];
    forall k | 0 <= k < |p| ensures p[k] < |g| && (out + [f])[k] == g[p[k]] {
      if k < |pos| { assert p[k] == pos[k] && g[pos[k]] == fs[pos[k]]; }
    }
    forall i | 0 <= i < |g| ensures i in p <==> g[i] != [] {
      if i < |fs| {
        assert g[i] == fs[i];
        assert i in p <==> i in pos;
      }
    }
  }

  /** The kept fragments written one after the other are all the fragments
      written one after the other. */
  lemma {:induction false} NonEmptyConcat(fs: seq<string>)
    ensures Concat(NonEmpty(fs)) == Concat(fs)
  {
    if fs != [] {
      var init := fs[..|fs| - 1];
      var last := fs[|fs| - 1];
      NonEmptyConcat(init);
      assert fs == init + [last];
      ConcatSnoc(init, last);
      if last == [] {
        assert NonEmpty(fs) == NonEmpty(init);
        assert Concat(init) + last == Concat(init);
      } else {
        assert NonEmpty(fs) == NonEmpty(init) + [last];
        ConcatSnoc(NonEmpty(init), last);
      }
    }
  }

  /** Every token the filter keeps is a non-empty fragment. */
  lemma NonEmptyMembers(fs: seq<string>, t: string)
    requires t in NonEmpty(fs)
    ensures t != []
    ensures exists i :: 0 <= i < |fs| && fs[i] == t
  {
    NonEmptyFilters(fs);
    var pos := NonEmptyPositions(fs);
    var k :| 0 <= k < |NonEmpty(fs)| && NonEmpty(fs)[k] == t;
    assert pos[k] in pos;
  }

  lemma {:induction false} ReplaceCharAppend(a: string, b: string, c: char, with: string)
    ensures ReplaceChar(a + b, c, with) == ReplaceChar(a, c, with) + ReplaceChar(b, c, with)
  {
    if a != [] {
      assert (a + b)[1..] == a[1..] + b;
      ReplaceCharAppend(a[1..], b, c, with);
    } else {
      assert a + b == b;
    }
  }

  /** What padding turns one character into. */
  function PadUnit(c: char): string
  {
    if c == '&' then " & " else if c == '#' then " # " else [c]
  }

  lemma PaddedCons(s: string)
    requires s != []
    ensures Padded(s) == PadUnit(s[0]) + Padded(s[1..])
  {
    var inner := ReplaceChar(s, '&', " & ");
    var head := if s[0] == '&' then " & " else [s[0]];
    assert inner == head + ReplaceChar(s[1..], '&', " & ");
    ReplaceCharAppend(head, ReplaceChar(s[1..], '&', " & "), '#', " # ");
    if s[0] == '&' {
      assert ReplaceChar(" & ", '#', " # ") == " & " by {
        assert " & "[1..] == "& ";
        assert "& "[1..] == " ";
        assert " "[1..] == [];
      }
    } else {
      assert ReplaceChar([s[0]], '#', " # ") == PadUnit(s[0]) by {
        assert [s[0]][1..] == [];
      }
    }
  }

  /** Padding adds only separators. */
  lemma {:induction false} PaddedKeepsContent(s: string)
    ensures WithoutSeparators(Padded(s)) == WithoutSeparators(s)
  {
    if s != [] {
      PaddedCons(s);
      PaddedKeepsContent(s[1..]);
      WithoutSeparatorsAppend(PadUnit(s[0]), Padded(s[1..]));
      var c := s[0];
      if c == '&' || c == '#' {
        assert WithoutSeparators(PadUnit(c)) == [c] by {
          assert PadUnit(c)[1..] == [c, ' '];
          assert [c, ' '][1..] == " ";
          assert " "[1..] == [];
        }
      } else {
        assert [c][1..] == [];
      }
    }
  }

  lemma {:induction false} WithoutSeparatorsAppend(a: string, b: string)
    ensures WithoutSeparators(a + b) == WithoutSeparators(a) + WithoutSeparators(b)
  {
    if a != [] {
      assert (a + b)[1..] == a[1..] + b;
      WithoutSeparatorsAppend(a[1..], b);
    } else {
      assert a + b == b;
    }
  }

  /** Splitting a padded `&` or `#`: an empty fragment, the character alone,
      and then the fragments of what follows. */
  lemma SplitPaddedSpecial(c: char, x: string)
    requires !IsSeparator(c)
    ensures Split([' ', c, ' '] + x) == [[], [c]] + Split(x)
  {
    var s := [' ', c, ' '] + x;
    var s1 := [c, ' '] + x;
    var s2 := [' '] + x;
    assert s[1..] == s1 && s1[1..] == s2 && s2[1..] == x;
    assert Split(s2) == [[]] + Split(x);
    assert Split(s1) == [[c] + Split(s2)[0]] + Split(s2)[1..];
    assert Split(s2)[0] == [] && Split(s2)[1..] == Split(x);
    assert [c] + [] == [c];
    assert Split(s1) == [[c]] + Split(x);
    assert Split(s) == [[]] + Split(s1);
  }

  predicate IsSpecial(c: char) { c == '&' || c == '#' }

  /** After padding, a fragment holding `&` or `#` holds nothing else, and the
      first fragment holds neither. */
  lemma {:induction false} PaddedIsolatesSpecials(s: string)
    ensures var fs := Split(Padded(s));
      && (forall k :: 0 <= k < |fs[0]| ==> !IsSpecial(fs[0][k]))
      && (forall i, k :: 0 <= i < |fs| && 0 <= k < |fs[i]| && IsSpecial(fs[i][k]) ==> |fs[i]| == 1)
  {
    if s != [] {
      PaddedCons(s);
      PaddedIsolatesSpecials(s[1..]);
      var rest := Split(Padded(s[1..]));
      var c := s[0];
      var fs := Split(Padded(s));
      if IsSpecial(c) {
        SplitPaddedSpecial(c, Padded(s[1..]));
        assert fs == [[], [c]] + rest;
        forall i, k | 0 <= i < |fs| && 0 <= k < |fs[i]| && IsSpecial(fs[i][k])
          ensures |fs[i]| == 1
        {
          if i >= 2 { assert fs[i] == rest[i - 2]; }
        }
      } else {
        assert Padded(s) == [c] + Padded(s[1..]);
        assert ([c] + Padded(s[1..]))[1..] == Padded(s[1..]);
        if IsSeparator(c) {
          assert fs == [[]] + rest;
          forall i, k | 0 <= i < |fs| && 0 <= k < |fs[i]| && IsSpecial(fs[i][k])
            ensures |fs[i]| == 1
          {
            assert fs[i] == rest[i - 1];
          }
        } else {
          assert fs == [[c] + rest[0]] + rest[1..];
          forall k | 0 <= k < |fs[0]| ensures !IsSpecial(fs[0][k]) {
            assert fs[0][k] == if k == 0 then c else rest[0][k - 1];
          }
          forall i, k | 0 <= i < |fs| && 0 <= k < |fs[i]| && IsSpecial(fs[i][k])
            ensures |fs[i]| == 1
          {
            if i > 0 {
              assert fs[i] == rest[i];
            }
          }
        }
      }
    }
  }

  /** What `tokenize` promises: no empty token, no token holding a separator,
      every `&` and `#` alone in its token, every token a maximal
      separator-free stretch of the padded text, and the tokens in order
      spell out the cleaned text with its separators removed. The last
      clause pins the tokens down completely: they are exactly the non-empty
      fragments, in order, of a cut of the padded text at its separators,
      and by `SplitUnique` there is only one such cut. */
  lemma TokenizeProperties(u: Unicode, address: string)
    ensures var tokens := Tokenize(u, address); var padded := Padded(CleanAddress(u, address));
      && (forall t :: t in tokens ==> t != [] && NoSeparator(t))
      && (forall t :: t in tokens && '&' in t ==> t == "&")
      && (forall t :: t in tokens && '#' in t ==> t == "#")
      && (forall k :: 0 <= k < |tokens| ==> exists a, b :: IsMaximalRun(padded, a, b) && tokens[k] == padded[a..b])
      && Concat(tokens) == WithoutSeparators(CleanAddress(u, address))
      && exists fs :: CutsAtSeparators(padded, fs) && PicksNonEmpty(fs, tokens, NonEmptyPositions(fs))
  {
    var clean := CleanAddress(u, address);
    var padded := Padded(clean);
    var fs := Split(padded);
    var tokens := NonEmpty(fs);
    NonEmptyFilters(fs);
    SplitFragments(padded);
    SplitJoin(padded);
    NonEmptyPicks(fs);
    assert CutsAtSeparators(padded, fs) && PicksNonEmpty(fs, tokens, NonEmptyPositions(fs));
    PaddedKeepsContent(clean);
    TokensAreRuns(fs, padded);
    forall t | t in tokens ensures t != [] && NoSeparator(t)
      && ('&' in t ==> t == "&") && ('#' in t ==> t == "#")
    {
      NonEmptyMembers(fs, t);
      var i :| 0 <= i < |fs| && fs[i] == t;
      SpecialAlone(clean, i, '&');
      SpecialAlone(clean, i, '#');
    }
  }

  /** A padded fragment holding `&` or `#` is that one character. */
  lemma SpecialAlone(s: string, i: nat, c: char)
    requires i < |Split(Padded(s))| && IsSpecial(c)
    ensures c in Split(Padded(s))[i] ==> Split(Padded(s))[i] == [c]
  {
    var t := Split(Padded(s))[i];
    if c in t {
      PaddedIsolatesSpecials(s);
      var k :| 0 <= k < |t| && t[k] == c;
      assert |t| == 1;
      assert t == [t[0]];
    }
  }

  /** The kept fragments of a split are maximal separator-free stretches. */
  lemma TokensAreRuns(fs: seq<string>, s: string)
    requires fs == Split(s)
    ensures forall k :: 0 <= k < |NonEmpty(fs)| ==>
      exists a, b :: IsMaximalRun(s, a, b) && NonEmpty(fs)[k] == s[a..b]
  {
    NonEmptyFilters(fs);
    var pos := NonEmptyPositions(fs);
    forall k | 0 <= k < |NonEmpty(fs)|
      ensures exists a, b :: IsMaximalRun(s, a, b) && NonEmpty(fs)[k] == s[a..b]
    {
      SplitSpan(s, pos[k]);
    }
  }

  /** An address of nothing but whitespace (the empty one included) has no
      tokens. */
  lemma BlankAddressHasNoTokens(u: Unicode, address: string)
    requires Valid(u)
    requires forall k :: 0 <= k < |address| ==> u.isWhitespace(address[k])
    ensures Tokenize(u, address) == []
  {
    TrimAllWhitespace(u, address);
    assert IsAsciiText([]);
    assert CleanAddress(u, address) == [];
    assert Padded([]) == [];
    assert Split([]) == [[]];
    var empty: seq<string> := [[]];
    assert NonEmpty(empty) == [] by {
      assert empty[..0] == [];
    }
  }

  /** The padding rule on "A&B": the ampersand becomes a token of its own. */
  lemma AmpersandExample(u: Unicode)
    requires Valid(u)
    ensures Tokenize(u, "A&B") == ["A", "&", "B"]
  {
    TrimUnchanged(u, "A&B");
    assert IsAsciiText("A&B");
    PaddedAmpersandExample();
    SplitAmpersandExample();
    NonEmptyAmpersandExample();
  }

  lemma NonEmptyAmpersandExample()
    ensures NonEmpty(["A", "&", "B"]) == ["A", "&", "B"]
  {
    var fs := ["A", "&", "B"];
    assert fs[..2] == ["A", "&"];
    assert fs[..2][..1] == ["A"];
    assert ["A"][..0] == [];
  }

  lemma PaddedAmpersandExample()
    ensures Padded("A&B") == "A & B"
  {
    PaddedCons("A&B");
    PaddedCons("&B");
    PaddedCons("B");
    assert "A&B"[1..] == "&B";
    assert "&B"[1..] == "B";
    assert "B"[1..] == [];
    assert Padded([]) == [];
  }

  lemma SplitAmpersandExample()
    ensures Split("A & B") == ["A", "&", "B"]
  {
    assert "A & B"[1..] == " & B";
    SplitPaddedSpecial('&', "B");
    assert " & B" == [' ', '&', ' '] + "B";
    assert "B"[1..] == [];
    var empty: seq<string> := [[]];
    assert Split([]) == empty && empty[1..] == [];
    assert "B" == ['B'] + empty[0];
    assert Split("B") == ["B"];
    assert Split(" & B") == ["", "&", "B"];
    assert "A & B" == ['A'] + " & B";
    assert ['A'] + Split(" & B")[0] == "A";
    assert Split(" & B")[1..] == ["&", "B"];
  }

  /** The padding rule on "#12": the hash sign is split off the number. */
  lemma HashExample(u: Unicode)
    requires Valid(u)
    ensures Tokenize(u, "#12") == ["#", "12"]
  {
    TrimUnchanged(u, "#12");
    assert IsAsciiText("#12");
    PaddedHashExample();
    SplitHashExample();
    NonEmptyHashExample();
  }

  lemma PaddedHashExample()
    ensures Padded("#12") == " # 12"
  {
    PaddedCons("#12");
    PaddedCons("12");
    PaddedCons("2");
    assert "#12"[1..] == "12";
    assert "12"[1..] == "2";
    assert "2"[1..] == [];
  }

  lemma SplitHashExample()
    ensures Split(" # 12") == ["", "#", "12"]
  {
    SplitPaddedSpecial('#', "12");
    assert " # 12" == [' ', '#', ' '] + "12";
    var empty: seq<string> := [[]];
    assert Split([]) == empty && empty[1..] == [];
    assert "12"[1..] == "2" && "2"[1..] == [];
    assert "2" == ['2'] + empty[0];
    assert Split("2") == ["2"];
    assert "12" == ['1'] + Split("2")[0] && Split("2")[1..] == [];
    assert Split("12") == ["12"];
  }

  lemma NonEmptyHashExample()
    ensures NonEmpty(["", "#", "12"]) == ["#", "12"]
  {
    var fs := ["", "#", "12"];
    assert fs[..2] == ["", "#"];
    assert fs[..2][..1] == [""];
    assert [""][..0] == [];
  }
}
