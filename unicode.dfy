/** Character classes, case mapping and normalisation as the address parser
    uses them. Rust's Unicode tables are not modelled: the predicates and
    mappings are fields of a `Unicode` record, and `Valid` pins down only what
    Rust guarantees for ASCII characters. */
module Unicode {

  /** The Unicode services the parser calls: `char::is_numeric`,
      `char::is_alphabetic`, `char::is_whitespace`, `str::to_lowercase` and
      NFKD decomposition from the unicode_normalization crate. */
  datatype Unicode = Unicode(
    isNumeric: char -> bool,
    isAlphabetic: char -> bool,
    isWhitespace: char -> bool,
    toLowercase: string -> string,
    nfkd: string -> string)

  predicate IsAsciiDigit(c: char) { '0' <= c <= '9' }

  predicate IsAsciiLetter(c: char) { 'a' <= c <= 'z' || 'A' <= c <= 'Z' }

  /** The ASCII characters for which `char::is_whitespace` holds. */
  predicate IsAsciiWhitespace(c: char)
  {
    c == ' ' || c == '\t' || c == '\n' || c == '\r' || c == '\U{000B}' || c == '\U{000C}'
  }

  /** `char::is_ascii_punctuation`: the 32 printable ASCII characters that are
      neither letters, digits nor space. */
  predicate IsAsciiPunctuation(c: char)
  {
    ('!' <= c <= '/') || (':' <= c <= '@') || ('[' <= c <= '`') || ('{' <= c <= '~')
  }

  /** Every character is in the ASCII range. */
  predicate IsAsciiText(s: string)
  {
    forall k :: 0 <= k < |s| ==> s[k] < '\U{0080}'
  }

  /** What Rust's tables fix for the ASCII range: the three character
      classes, and that NFKD leaves ASCII text unchanged (no ASCII character
      has a decomposition or a non-zero combining class). */
  ghost predicate Valid(u: Unicode)
  {
    && (forall c: char :: c < '\U{0080}' ==> (u.isNumeric(c) <==> IsAsciiDigit(c)))
    && (forall c: char :: c < '\U{0080}' ==> (u.isAlphabetic(c) <==> IsAsciiLetter(c)))
    && (forall c: char :: c < '\U{0080}' ==> (u.isWhitespace(c) <==> IsAsciiWhitespace(c)))
    && (forall s: string :: IsAsciiText(s) ==> u.nfkd(s) == s)
  }

  /** `char::is_alphanumeric` is defined as alphabetic or numeric. */
  predicate IsAlphanumeric(u: Unicode, c: char)
  {
    u.isAlphabetic(c) || u.isNumeric(c)
  }

  /** Leading whitespace removed (`str::trim_start`). */
  function TrimStart(u: Unicode, s: string): string
  {
    if s != [] && u.isWhitespace(s[0]) then TrimStart(u, s[1..]) else s
  }

  /** Trailing whitespace removed (`str::trim_end`). */
  function TrimEnd(u: Unicode, s: string): string
  {
    if s != [] && u.isWhitespace(s[|s| - 1]) then TrimEnd(u, s[..|s| - 1]) else s
  }

  /** `str::trim`. */
  function Trim(u: Unicode, s: string): string
  {
    TrimEnd(u, TrimStart(u, s))
  }

  lemma {:induction false} TrimStartIsSuffix(u: Unicode, s: string)
    ensures var r := TrimStart(u, s);
      && |r| <= |s| && r == s[|s| - |r|..]
      && (forall k :: 0 <= k < |s| - |r| ==> u.isWhitespace(s[k]))
      && (r != [] ==> !u.isWhitespace(r[0]))
  {
    if s != [] && u.isWhitespace(s[0]) {
      TrimStartIsSuffix(u, s[1..]);
    }
  }

  lemma {:induction false} TrimEndIsPrefix(u: Unicode, s: string)
    ensures var r := TrimEnd(u, s);
      && |r| <= |s| && r == s[..|r|]
      && (forall k :: |r| <= k < |s| ==> u.isWhitespace(s[k]))
      && (r != [] ==> !u.isWhitespace(r[|r| - 1]))
  {
    if s != [] && u.isWhitespace(s[|s| - 1]) {
      TrimEndIsPrefix(u, s[..|s| - 1]);
    }
  }

  /** Trimming keeps a contiguous slice of the input, drops only whitespace
      around it, and leaves no whitespace at either end. */
  lemma TrimIsSlice(u: Unicode, s: string)
    ensures exists i, j :: (0 <= i <= j <= |s| && Trim(u, s) == s[i..j]
      && (forall k :: 0 <= k < i ==> u.isWhitespace(s[k]))
      && (forall k :: j <= k < |s| ==> u.isWhitespace(s[k])))
    ensures Trim(u, s) != [] ==>
      !u.isWhitespace(Trim(u, s)[0]) && !u.isWhitespace(Trim(u, s)[|Trim(u, s)| - 1])
  {
    var t := TrimStart(u, s);
    TrimStartIsSuffix(u, s);
    TrimEndIsPrefix(u, t);
    var r := TrimEnd(u, t);
    var i := |s| - |t|;
    var j := i + |r|;
    assert r == s[i..j];
    forall k | j <= k < |s| ensures u.isWhitespace(s[k]) {
      assert s[k] == t[k - i];
    }
  }

  /** Trimming a trimmed string changes nothing. */
  lemma TrimIdempotent(u: Unicode, s: string)
    ensures Trim(u, Trim(u, s)) == Trim(u, s)
  {
    var r := Trim(u, s);
    TrimIsSlice(u, s);
    if r != [] {
      assert TrimStart(u, r) == r;
      assert TrimEnd(u, r) == r;
    }
  }

  /** A string made of whitespace only trims to the empty string. */
  lemma {:induction false} TrimAllWhitespace(u: Unicode, s: string)
    requires forall k :: 0 <= k < |s| ==> u.isWhitespace(s[k])
    ensures Trim(u, s) == []
  {
    if s != [] {
      TrimAllWhitespace(u, s[1..]);
    }
  }

  /** The decimal digit for 0..9. */
  function DigitChar(d: nat): char
    requires d < 10
  {
    '0' + d as char
  }

  /** Rust's `Display` for an unsigned integer: decimal, no leading zeros. */
  function Decimal(n: nat): (r: string)
    ensures |r| >= 1
    ensures forall k :: 0 <= k < |r| ==> IsAsciiDigit(r[k])
    ensures r[0] == '0' ==> n == 0
  {
    if n < 10 then [DigitChar(n)] else Decimal(n / 10) + [DigitChar(n % 10)]
  }

  /** Reading back a string of decimal digits. */
  function DecimalValue(s: string): nat
    requires forall k :: 0 <= k < |s| ==> IsAsciiDigit(s[k])
  {
    if s == [] then 0
    else
      var d := s[|s| - 1];
      assert IsAsciiDigit(d);
      10 * DecimalValue(s[..|s| - 1]) + (d as int - '0' as int)
  }

  /** `Decimal` loses no information: its digits read back as the number. */
  lemma {:induction false} DecimalRoundTrip(n: nat)
    ensures DecimalValue(Decimal(n)) == n
  {
    if n >= 10 {
      var r := Decimal(n);
      assert r[..|r| - 1] == Decimal(n / 10);
      DecimalRoundTrip(n / 10);
    }
  }

  /** A string of letters, digits and ASCII punctuation is left alone by
      trimming. */
  lemma TrimUnchanged(u: Unicode, s: string)
    requires Valid(u)
    requires forall k :: 0 <= k < |s| ==> '!' <= s[k] <= '~'
    ensures Trim(u, s) == s
  {
    if s != [] {
      assert !u.isWhitespace(s[0]);
      assert !u.isWhitespace(s[|s| - 1]);
    }
  }
}
