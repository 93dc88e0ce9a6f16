/** `remove_insignificant_punctuation`, a pre-processing utility the parse
    pipeline does not call: letters, digits and whitespace stay; a hyphen,
    period or slash stays only between two numeric characters; every other
    character goes. */
module Punctuation {
  import opened Unicode

  /** `['-', '.', '/'].contains(&c)`. */
  predicate IsSignificant(c: char)
  {
    c == '-' || c == '.' || c == '/'
  }

  /** Whether the character at position `i` is pushed to the output. */
  predicate Kept(u: Unicode, s: string, i: nat)
    requires i < |s|
  {
    || IsAlphanumeric(u, s[i])
    || u.isWhitespace(s[i])
    || (0 < i < |s| - 1 && u.isNumeric(s[i - 1]) && u.isNumeric(s[i + 1]) && IsSignificant(s[i]))
  }

  /** The characters among the first `n` that are kept, in order. */
  function KeptPrefix(u: Unicode, s: string, n: nat): string
    requires n <= |s|
  {
    if n == 0 then []
    else KeptPrefix(u, s, n - 1) + (if Kept(u, s, n - 1) then [s[n - 1]] else [])
  }

  /** The positions among the first `n` that are kept, in order. */
  function KeptPositions(u: Unicode, s: string, n: nat): seq<nat>
    requires n <= |s|
  {
    if n == 0 then []
    else KeptPositions(u, s, n - 1) + (if Kept(u, s, n - 1) then [n - 1] else [])
  }

  /** `remove_insignificant_punctuation`: one indexed pass pushing the
      characters that stay. */
  method RemoveInsignificantPunctuation(u: Unicode, address: string) returns (output: string)
    ensures output == KeptPrefix(u, address, |address|)
  {
    output := [];
    var chars := address;
    for i := 0 to |chars|
      invariant output == KeptPrefix(u, chars, i)
    {
      var c := chars[i];
      if IsAlphanumeric(u, c) || u.isWhitespace(c) {
        output := output + [c];
        continue;
      }
      if i > 0 && i < |chars| - 1 {
        var prev := chars[i - 1];
        var next := chars[i + 1];
        var sigAlphanum := IsSignificant(c);
        if u.isNumeric(prev) && u.isNumeric(next) && sigAlphanum {
          output := output + [c];
          continue;
        }
      }
    }
  }

  /** The output is a subsequence of the input: the kept positions, strictly
      increasing, pick out the output characters, and a position is among
      them exactly when its character is kept. */
  lemma {:induction false} KeptIsSubsequence(u: Unicode, s: string, n: nat)
    requires n <= |s|
    ensures var out := KeptPrefix(u, s, n); var pos := KeptPositions(u, s, n);
      && |pos| == |out|
      && (forall k :: 0 <= k < |pos| ==> pos[k] < n && out[k] == s[pos[k]])
      && (forall k, l :: 0 <= k < l < |pos| ==> pos[k] < pos[l])
      && (forall i :: 0 <= i < n ==> (i in pos <==> Kept(u, s, i)))
  {
    if n > 0 {
      KeptIsSubsequence(u, s, n - 1);
      var out, pos := KeptPrefix(u, s, n - 1), KeptPositions(u, s, n - 1);
      if Kept(u, s, n - 1) {
        assert KeptPrefix(u, s, n) == out + [s[n - 1]];
        assert KeptPositions(u, s, n) == pos + [n - 1];
      } else {
        assert KeptPrefix(u, s, n) == out;
        assert KeptPositions(u, s, n) == pos;
      }
    }
  }

  /** A string all of whose characters are kept passes through unchanged. */
  lemma {:induction false} AllKeptUnchanged(u: Unicode, s: string, n: nat)
    requires n <= |s|
    requires forall i :: 0 <= i < n ==> Kept(u, s, i)
    ensures KeptPrefix(u, s, n) == s[..n]
  {
    if n > 0 {
      AllKeptUnchanged(u, s, n - 1);
      assert s[..n] == s[..n - 1] + [s[n - 1]];
    }
  }

  /** In a strictly increasing sequence, order of values is order of
      positions. */
  lemma PositionOrder(p: seq<nat>, a: nat, b: nat)
    requires forall k, l :: 0 <= k < l < |p| ==> p[k] < p[l]
    requires a < |p| && b < |p|
    ensures p[a] < p[b] ==> a < b
    ensures p[a] <= p[b] ==> a <= b
  {
  }

  /** Every character of the output is kept again by a second pass: a kept
      hyphen, period or slash had numeric neighbours, which are themselves
      kept and so remain its neighbours in the output. */
  lemma OutputCharacterKept(u: Unicode, s: string, k: nat)
    requires k < |KeptPrefix(u, s, |s|)|
    ensures Kept(u, KeptPrefix(u, s, |s|), k)
  {
    var o := KeptPrefix(u, s, |s|);
    var p := KeptPositions(u, s, |s|);
    KeptIsSubsequence(u, s, |s|);
    var i := p[k];
    assert i in p;
    if !(IsAlphanumeric(u, o[k]) || u.isWhitespace(o[k])) {
      assert 0 < i < |s| - 1 && u.isNumeric(s[i - 1]) && u.isNumeric(s[i + 1]);
      assert Kept(u, s, i - 1) && Kept(u, s, i + 1);
      assert i - 1 in p && i + 1 in p;
      var j :| 0 <= j < |p| && p[j] == i - 1;
      var m :| 0 <= m < |p| && p[m] == i + 1;
      PositionOrder(p, j, k);
      PositionOrder(p, k - 1, j);
      PositionOrder(p, k, m);
      PositionOrder(p, m, k + 1);
    }
  }

  /** Removing insignificant punctuation twice is the same as once. */
  lemma RemovalIdempotent(u: Unicode, s: string)
    ensures var o := KeptPrefix(u, s, |s|); KeptPrefix(u, o, |o|) == o
  {
    var o := KeptPrefix(u, s, |s|);
    forall k | 0 <= k < |o|
      ensures Kept(u, o, k)
    {
      OutputCharacterKept(u, s, k);
    }
    AllKeptUnchanged(u, o, |o|);
    assert o[..|o|] == o;
  }

  /** With Rust's ASCII classes: letters, digits and whitespace always stay;
      a hyphen, period or slash stays exactly when it is neither first nor
      last and both neighbours are numeric; any other ASCII punctuation
      goes. */
  lemma KeepRule(u: Unicode, s: string, i: nat)
    requires Valid(u)
    requires i < |s|
    ensures IsAlphanumeric(u, s[i]) || u.isWhitespace(s[i]) ==> Kept(u, s, i)
    ensures IsSignificant(s[i]) ==>
      (Kept(u, s, i) <==> 0 < i < |s| - 1 && u.isNumeric(s[i - 1]) && u.isNumeric(s[i + 1]))
    ensures IsAsciiPunctuation(s[i]) && !IsSignificant(s[i]) ==> !Kept(u, s, i)
  {
    var c := s[i];
    if IsAsciiPunctuation(c) {
      assert c < '\U{0080}';
      assert !IsAsciiDigit(c) && !IsAsciiLetter(c) && !IsAsciiWhitespace(c);
    }
  }
}
