/**
 * The pieces of Rust's `str` API that the response parser relies on:
 * `trim_start`, `trim`, `replace("\r\n", "\n")`, `split_once`, `split`,
 * `splitn` and `parse::<u16>`, on strings of Unicode scalar values.
 */
module Text {
  import opened Wrappers

  /** Rust's `char::is_whitespace`: the Unicode White_Space property. */
  predicate IsWhitespace(c: char) {
    || c == ' '
    || ('\t' <= c <= '\r')
    || c == '\U{85}' || c == '\U{A0}' || c == '\U{1680}'
    || ('\U{2000}' <= c <= '\U{200A}')
    || c == '\U{2028}' || c == '\U{2029}' || c == '\U{202F}' || c == '\U{205F}' || c == '\U{3000}'
  }

  /** `str::trim_start`: drop the longest all-whitespace prefix. */
  function TrimStart(s: string): (r: string)
    ensures |r| <= |s|
    ensures r == [] || !IsWhitespace(r[0])
    ensures forall i :: 0 <= i < |s| - |r| ==> IsWhitespace(s[i])
  {
    if s == [] || !IsWhitespace(s[0]) then s else TrimStart(s[1..])
  }

  /** What `trim_start` keeps is a suffix of its input. */
  lemma {:induction false} TrimStartSuffix(s: string)
    ensures TrimStart(s) == s[|s| - |TrimStart(s)|..]
  {
    if s != [] && IsWhitespace(s[0]) {
      TrimStartSuffix(s[1..]);
      assert s[1..][|s| - 1 - |TrimStart(s)|..] == s[|s| - |TrimStart(s)|..];
    }
  }

  /** `str::trim_end`: drop the longest all-whitespace suffix. */
  function TrimEnd(s: string): (r: string)
    ensures |r| <= |s| && r == s[..|r|]
    ensures r == [] || !IsWhitespace(r[|r| - 1])
    ensures forall i :: |r| <= i < |s| ==> IsWhitespace(s[i])
  {
    if s == [] || !IsWhitespace(s[|s| - 1]) then s else TrimEnd(s[..|s| - 1])
  }

  /** `str::trim`: whitespace removed at both ends. */
  function Trim(s: string): (r: string)
    ensures r == [] || (!IsWhitespace(r[0]) && !IsWhitespace(r[|r| - 1]))
    ensures forall c :: c in r ==> c in s
  {
    TrimKeepsCharacters(s);
    TrimEnd(TrimStart(s))
  }

  lemma TrimKeepsCharacters(s: string)
    ensures forall c :: c in TrimEnd(TrimStart(s)) ==> c in s
  {
    var t := TrimStart(s);
    var r := TrimEnd(t);
    forall c | c in r
      ensures c in s
    {
      var i :| 0 <= i < |r| && r[i] == c;
      assert t[i] == c;
      TrimStartSuffix(s);
      assert s[|s| - |t| + i] == c;
    }
  }

  /**
   * `trim` removes exactly the whitespace at the two ends: the result is the
   * slice of `s` that starts after the leading whitespace, and everything
   * before and after that slice is whitespace.
   */
  lemma TrimSlice(s: string)
    ensures var i := |s| - |TrimStart(s)|;
      && i + |Trim(s)| <= |s|
      && Trim(s) == s[i..i + |Trim(s)|]
      && (forall k :: 0 <= k < i ==> IsWhitespace(s[k]))
      && (forall k :: i + |Trim(s)| <= k < |s| ==> IsWhitespace(s[k]))
  {
    var t := TrimStart(s);
    var r := TrimEnd(t);
    assert Trim(s) == r;
    TrimStartSuffix(s);
    SliceOfSuffix(s, |s| - |t|, t, r);
  }

  /** A prefix `r` of the end `t == s[j..]`, and the whitespace that follows it, seen in `s`. */
  lemma SliceOfSuffix(s: string, j: nat, t: string, r: string)
    requires j <= |s| && t == s[j..]
    requires |r| <= |t| && r == t[..|r|]
    requires forall m :: |r| <= m < |t| ==> IsWhitespace(t[m])
    ensures r == s[j..j + |r|]
    ensures forall k :: j + |r| <= k < |s| ==> IsWhitespace(s[k])
  {
    forall k | j + |r| <= k < |s|
      ensures IsWhitespace(s[k])
    {
      assert s[k] == t[k - j];
    }
  }

  /** A string is left alone by `trim` exactly when neither end is whitespace. */
  lemma TrimFixpoint(s: string)
    ensures Trim(s) == s <==> (s == [] || (!IsWhitespace(s[0]) && !IsWhitespace(s[|s| - 1])))
  {
    if s != [] && !IsWhitespace(s[0]) && !IsWhitespace(s[|s| - 1]) {
      assert TrimStart(s) == s;
    }
  }

  /** Trimming twice is trimming once. */
  lemma TrimIdempotent(s: string)
    ensures Trim(Trim(s)) == Trim(s)
  {
    TrimFixpoint(Trim(s));
  }

  /** A space in front of an already trimmed string is trimmed away again. */
  lemma TrimLeadingSpace(v: string)
    requires Trim(v) == v
    ensures Trim(" " + v) == v
  {
    assert v == [] || !IsWhitespace(v[0]);
    assert TrimStart(v) == v;
    TrimStartCons(' ', v);
  }

  /** One step of `trim_start`: a whitespace head goes, anything else stops it. */
  lemma TrimStartCons(c: char, rest: string)
    ensures TrimStart([c] + rest) == if IsWhitespace(c) then TrimStart(rest) else [c] + rest
  {
    assert ([c] + rest)[1..] == rest;
  }

  /**
   * `str::replace("\r\n", "\n")`: occurrences of CR LF, found left to right
   * without overlap, each become a single LF.
   */
  function ReplaceCrlf(s: string): (r: string)
    ensures |r| <= |s|
    ensures '\r' !in s ==> r == s
    ensures forall c :: c != '\r' ==> (c in r <==> c in s)
  {
    if |s| < 2 then s
    else if s[0] == '\r' && s[1] == '\n' then "\n" + ReplaceCrlf(s[2..])
    else [s[0]] + ReplaceCrlf(s[1..])
  }

  /** Every LF written as CR LF: the line-ending convention of the wire format. */
  function ToCrlf(s: string): string
  {
    if s == [] then [] else (if s[0] == '\n' then "\r\n" else [s[0]]) + ToCrlf(s[1..])
  }

  /** Replacing CR LF by LF undoes ToCrlf on text that had no CR of its own. */
  lemma {:induction false} ReplaceCrlfUndoesToCrlf(s: string)
    requires '\r' !in s
    ensures ReplaceCrlf(ToCrlf(s)) == s
  {
    if s != [] {
      var rest := ToCrlf(s[1..]);
      ReplaceCrlfUndoesToCrlf(s[1..]);
      if s[0] == '\n' {
        assert ToCrlf(s) == "\r\n" + rest;
        ReplaceCrlfAtCrlf(rest);
      } else {
        assert ToCrlf(s) == [s[0]] + rest;
        ReplaceCrlfAtOther(s[0], rest);
      }
      assert s == [s[0]] + s[1..];
    }
  }

  lemma ReplaceCrlfAtCrlf(rest: string)
    ensures ReplaceCrlf("\r\n" + rest) == "\n" + ReplaceCrlf(rest)
  {
    assert ("\r\n" + rest)[2..] == rest;
  }

  lemma ReplaceCrlfAtOther(c: char, rest: string)
    requires c != '\r'
    ensures ReplaceCrlf([c] + rest) == [c] + ReplaceCrlf(rest)
  {
    assert ([c] + rest)[1..] == rest;
  }

  /** Leading whitespace is the same whether lines end in LF or in CR LF. */
  lemma {:induction false} TrimStartToCrlf(s: string)
    requires '\r' !in s
    ensures TrimStart(ToCrlf(s)) == ToCrlf(TrimStart(s))
  {
    if s != [] {
      var h, t := s[0], s[1..];
      assert s == [h] + t;
      TrimStartToCrlf(t);
      TrimStartToCrlfStep(h, t);
    }
  }

  /** The inductive step of TrimStartToCrlf: one more character in front. */
  lemma TrimStartToCrlfStep(h: char, t: string)
    requires h != '\r'
    requires TrimStart(ToCrlf(t)) == ToCrlf(TrimStart(t))
    ensures TrimStart(ToCrlf([h] + t)) == ToCrlf(TrimStart([h] + t))
  {
    var rest := ToCrlf(t);
    ToCrlfCons(h, t);
    TrimStartCons(h, t);
    if h == '\n' {
      TrimStartCrlf(rest);
    } else {
      TrimStartCons(h, rest);
    }
  }

  /** A leading CRLF is trimmed away like any other whitespace. */
  lemma TrimStartCrlf(rest: string)
    ensures TrimStart("\r\n" + rest) == TrimStart(rest)
  {
    assert "\r\n" + rest == ['\r'] + (['\n'] + rest);
    TrimStartCons('\r', ['\n'] + rest);
    TrimStartCons('\n', rest);
  }

  /** ToCrlf one character at a time. */
  lemma ToCrlfCons(h: char, t: string)
    ensures ToCrlf([h] + t) == (if h == '\n' then "\r\n" else [h]) + ToCrlf(t)
  {
    assert ([h] + t)[1..] == t;
  }


  /** The first index of `c` in `s`, as `str::find` with a `char` pattern. */
  function IndexOf(s: string, c: char): (r: Option<nat>)
    ensures r.None? <==> c !in s
    ensures r.Some? ==> r.value < |s| && s[r.value] == c && c !in s[..r.value]
  {
    if s == [] then None
    else if s[0] == c then Some(0)
    else match IndexOf(s[1..], c)
      case None => None
      case Some(i) =>
        assert s[..i + 1] == [s[0]] + s[1..][..i];
        Some(i + 1)
  }

  /** The first `c` in `a + [c] + b` is the one right after `a` when `a` holds none. */
  lemma IndexOfAfter(a: string, c: char, b: string)
    requires c !in a
    ensures IndexOf(a + [c] + b, c) == Some(|a|)
  {
    assert (a + [c] + b)[|a|] == c;
  }

  /** `str::split_once` with a `char` pattern: around the first `c`. */
  function SplitOnceChar(s: string, c: char): (r: Option<(string, string)>)
    ensures r.None? <==> c !in s
    ensures r.Some? ==> s == r.value.0 + [c] + r.value.1 && c !in r.value.0
  {
    match IndexOf(s, c)
    case None => None
    case Some(i) =>
      assert s == s[..i] + [c] + s[i + 1..];
      Some((s[..i], s[i + 1..]))
  }

  /** `b` is the end of `a`. */
  predicate IsSuffix(b: string, a: string)
  {
    |b| <= |a| && b == a[|a| - |b|..]
  }

  lemma SuffixTransitive(a: string, b: string, c: string)
    requires IsSuffix(b, a) && IsSuffix(c, b)
    ensures IsSuffix(c, a)
  {
    assert |a[|a| - |c|..]| == |c|;
    forall i | 0 <= i < |c|
      ensures c[i] == a[|a| - |c| + i]
    {
      assert c[i] == b[|b| - |c| + i];
    }
  }

  /** What follows the separator is the end of the text. */
  lemma SplitOnceCharSuffix(s: string, c: char)
    requires c in s
    ensures IsSuffix(SplitOnceChar(s, c).value.1, s)
  {
    var (a, b) := SplitOnceChar(s, c).value;
    assert s[|a| + 1..] == b;
  }

  /** SplitOnceChar finds the first separator, so a separator-free prefix is recovered. */
  lemma SplitOnceCharAfter(a: string, c: char, b: string)
    requires c !in a
    ensures SplitOnceChar(a + [c] + b, c) == Some((a, b))
  {
    IndexOfAfter(a, c, b);
    var s := a + [c] + b;
    assert s[..|a|] == a && s[|a| + 1..] == b;
  }

  /** `pat` occurs in `s` starting at index `i`. */
  predicate OccursAt(s: string, pat: string, i: nat) {
    i + |pat| <= |s| && s[i..i + |pat|] == pat
  }

  lemma OccursAtTail(s: string, pat: string)
    requires s != []
    ensures forall j: nat :: j >= 1 ==> (OccursAt(s, pat, j) <==> OccursAt(s[1..], pat, j - 1))
  {
    forall j: nat | j >= 1 ensures OccursAt(s, pat, j) <==> OccursAt(s[1..], pat, j - 1) {
      if j + |pat| <= |s| {
        assert s[1..][j - 1..j - 1 + |pat|] == s[j..j + |pat|];
      }
    }
  }

  /** The first occurrence of a non-empty pattern, as `str::find` with a `&str` pattern. */
  function Find(s: string, pat: string): (r: Option<nat>)
    requires pat != []
    ensures r.Some? ==> OccursAt(s, pat, r.value)
    ensures r.Some? ==> forall j: nat :: j < r.value ==> !OccursAt(s, pat, j)
    ensures r.None? ==> forall j: nat :: !OccursAt(s, pat, j)
    decreases |s|
  {
    if |s| < |pat| then None
    else if s[..|pat|] == pat then Some(0)
    else
      assert !OccursAt(s, pat, 0) by { assert s[0..|pat|] == s[..|pat|]; }
      OccursAtTail(s, pat);
      match Find(s[1..], pat)
      case None => None
      case Some(i) => Some(i + 1)
  }

  /** Find returns the first occurrence and no other. */
  lemma FindFirst(s: string, pat: string, k: nat)
    requires pat != []
    requires OccursAt(s, pat, k)
    requires forall j: nat :: j < k ==> !OccursAt(s, pat, j)
    ensures Find(s, pat) == Some(k)
  {
  }

  /** `str::split_once` with a `&str` pattern: around the first occurrence of `pat`. */
  function SplitOnce(s: string, pat: string): (r: Option<(string, string)>)
    requires pat != []
    ensures r.None? <==> forall j: nat :: !OccursAt(s, pat, j)
    ensures r.Some? ==> s == r.value.0 + pat + r.value.1
    ensures r.Some? ==> forall j: nat :: j < |r.value.0| ==> !OccursAt(s, pat, j)
  {
    match Find(s, pat)
    case None => None
    case Some(i) =>
      assert s == s[..i] + pat + s[i + |pat|..];
      Some((s[..i], s[i + |pat|..]))
  }

  /** When `a + pat` holds `pat` only at its end, SplitOnce recovers `a` and `b`. */
  lemma SplitOnceAfter(a: string, pat: string, b: string)
    requires pat != []
    requires forall j: nat :: j < |a| ==> !OccursAt(a + pat + b, pat, j)
    ensures SplitOnce(a + pat + b, pat) == Some((a, b))
  {
    var s := a + pat + b;
    assert s[|a|..|a| + |pat|] == pat;
    FindFirst(s, pat, |a|);
    assert s[..|a|] == a && s[|a| + |pat|..] == b;
  }

  /** The pieces joined back with the separator between them. */
  function Join(parts: seq<string>, sep: char): string
  {
    if parts == [] then []
    else if |parts| == 1 then parts[0]
    else parts[0] + [sep] + Join(parts[1..], sep)
  }

  /** `str::split` with a `char` pattern: every piece between separators, empty ones included. */
  function Split(s: string, sep: char): (r: seq<string>)
    ensures |r| >= 1
    ensures forall i :: 0 <= i < |r| ==> sep !in r[i]
    ensures Join(r, sep) == s
    decreases |s|
  {
    match SplitOnceChar(s, sep)
    case None => [s]
    case Some((head, tail)) =>
      var rest := Split(tail, sep);
      assert ([head] + rest)[1..] == rest;
      [head] + rest
  }

  /** An occurrence stays an occurrence, one place later, when a character is put in front. */
  lemma OccursAtCons(c: char, s: string, pat: string, k: nat)
    requires OccursAt(s, pat, k)
    ensures OccursAt([c] + s, pat, k + 1)
  {
    assert ([c] + s)[k + 1..k + 1 + |pat|] == s[k..k + |pat|];
  }

  /** A text that is empty or starts with the separator splits into an empty first piece. */
  lemma SplitLeadingSeparator(s: string, sep: char)
    requires s == [] || s[0] == sep
    ensures Split(s, sep)[0] == []
  {
    if s != [] {
      var (head, tail) := SplitOnceChar(s, sep).value;
      assert s[0] == sep;
    }
  }

  /** Splitting undoes joining pieces that hold no separator. */
  lemma {:induction false} SplitJoin(parts: seq<string>, sep: char)
    requires |parts| >= 1
    requires forall i :: 0 <= i < |parts| ==> sep !in parts[i]
    ensures Split(Join(parts, sep), sep) == parts
  {
    if |parts| == 1 {
      assert SplitOnceChar(parts[0], sep) == None;
    } else {
      var tail := Join(parts[1..], sep);
      assert Join(parts, sep) == parts[0] + [sep] + tail;
      SplitCons(parts[0], sep, tail);
      SplitJoin(parts[1..], sep);
      assert parts == [parts[0]] + parts[1..];
    }
  }

  /** A separator-free first piece is split off, and the rest is split on its own. */
  lemma SplitCons(a: string, sep: char, b: string)
    requires sep !in a
    ensures Split(a + [sep] + b, sep) == [a] + Split(b, sep)
  {
    SplitOnceCharAfter(a, sep, b);
  }

  /** Every character of a piece is in the join. */
  lemma {:induction false} PieceInJoin(parts: seq<string>, sep: char, i: nat, c: char)
    requires i < |parts| && c in parts[i]
    ensures c in Join(parts, sep)
  {
    if i > 0 {
      PieceInJoin(parts[1..], sep, i - 1, c);
    }
  }

  /** `c` is absent from a join of pieces without it, when it is not the separator. */
  lemma {:induction false} NotInJoin(parts: seq<string>, sep: char, c: char)
    requires c != sep
    requires forall i :: 0 <= i < |parts| ==> c !in parts[i]
    ensures c !in Join(parts, sep)
  {
    if |parts| > 1 {
      NotInJoin(parts[1..], sep, c);
    }
  }

  /**
   * Non-empty, separator-free pieces joined together never hold two
   * separators in a row, and the join neither starts nor ends with one.
   */
  lemma {:induction false} JoinNoDoubleSeparator(parts: seq<string>, sep: char)
    requires |parts| >= 1
    requires forall i :: 0 <= i < |parts| ==> parts[i] != [] && sep !in parts[i]
    ensures var j := Join(parts, sep);
      && j != [] && j[0] != sep && j[|j| - 1] != sep
      && forall k :: 0 <= k < |j| - 1 ==> !(j[k] == sep && j[k + 1] == sep)
  {
    if |parts| > 1 {
      JoinNoDoubleSeparator(parts[1..], sep);
      var p, t := parts[0], Join(parts[1..], sep);
      var j := p + [sep] + t;
      assert Join(parts, sep) == j;
      forall k | 0 <= k < |j| - 1
        ensures !(j[k] == sep && j[k + 1] == sep)
      {
        if k < |p| {
          assert j[k] == p[k];
        } else if k > |p| {
          assert j[k] == t[k - |p| - 1] && j[k + 1] == t[k - |p|];
        } else {
          assert j[k + 1] == t[0];
        }
      }
    }
  }

  /**
   * What `str::splitn(n, sep)` returns: no pieces for `n == 0`, otherwise
   * between 1 and `n` pieces that join back to `s`, where only a last piece
   * that fills the `n`th slot may hold the separator, and there is more than
   * one piece (for `n > 1`) exactly when `s` holds the separator.
   */
  predicate SplitNShape(s: string, n: nat, sep: char, r: seq<string>)
  {
    && (n == 0 ==> r == [])
    && (n > 0 ==> 1 <= |r| <= n && Join(r, sep) == s)
    && (forall i :: 0 <= i < |r| - 1 ==> sep !in r[i])
    && (0 < |r| < n ==> sep !in r[|r| - 1])
    && (n > 1 ==> (|r| > 1 <==> sep in s))
  }

  /** `str::splitn(n, sep)`: at most `n` pieces, the last one holding the rest. */
  function SplitN(s: string, n: nat, sep: char): (r: seq<string>)
    ensures SplitNShape(s, n, sep, r)
    decreases n
  {
    if n == 0 then []
    else if n == 1 || sep !in s then [s]
    else
      var (head, tail) := SplitOnceChar(s, sep).value;
      var rest := SplitN(tail, n - 1, sep);
      SplitNCons(head, tail, sep, n, rest);
      [head] + rest
  }

  /** One piece cut off in front of the pieces of the rest keeps the shape `splitn` promises. */
  lemma SplitNCons(head: string, tail: string, sep: char, n: nat, rest: seq<string>)
    requires n > 1 && sep !in head
    requires SplitNShape(tail, n - 1, sep, rest)
    ensures SplitNShape(head + [sep] + tail, n, sep, [head] + rest)
  {
    var r := [head] + rest;
    assert r[1..] == rest;
  }

  type U16 = x: int | 0 <= x <= 0xFFFF

  predicate IsDigit(c: char) {
    '0' <= c <= '9'
  }

  predicate AllDigits(s: string) {
    forall i :: 0 <= i < |s| ==> IsDigit(s[i])
  }

  function DigitValue(c: char): nat
    requires IsDigit(c)
  {
    c as int - '0' as int
  }

  /** The number a string of decimal digits denotes, most significant first. */
  function DigitsValue(s: string): nat
    requires AllDigits(s)
  {
    if s == [] then 0 else DigitsValue(s[..|s| - 1]) * 10 + DigitValue(s[|s| - 1])
  }

  /**
   * `<u16 as FromStr>::from_str`: an optional `+`, then one or more ASCII
   * digits whose value fits in 16 bits. The empty string, a lone sign, a
   * `-`, any other character and an overflow are all errors.
   */
  function ParseU16(s: string): (r: Option<U16>)
    ensures r.Some? ==> s != [] && s != "+"
  {
    if s == [] then None
    else
      var digits := if s[0] == '+' then s[1..] else s;
      if digits == [] || !AllDigits(digits) then None
      else if DigitsValue(digits) > 0xFFFF then None
      else Some(DigitsValue(digits))
  }

  /** The decimal representation of `n`, without leading zeros. */
  function DecimalString(n: nat): (r: string)
    ensures r != [] && AllDigits(r)
  {
    if n < 10 then [('0' as int + n) as char]
    else DecimalString(n / 10) + [('0' as int + n % 10) as char]
  }

  lemma {:induction false} DecimalStringValue(n: nat)
    ensures DigitsValue(DecimalString(n)) == n
  {
    if n >= 10 {
      DecimalStringValue(n / 10);
      var s := DecimalString(n);
      assert s[..|s| - 1] == DecimalString(n / 10);
    }
  }

  /** Parsing a decimal numeral gives its number back, exactly when it fits in 16 bits. */
  lemma ParseU16Decimal(n: nat)
    ensures ParseU16(DecimalString(n)) == if n <= 0xFFFF then Some(n) else None
    ensures ParseU16("+" + DecimalString(n)) == ParseU16(DecimalString(n))
  {
    DecimalStringValue(n);
    var s := DecimalString(n);
    assert s[0] != '+' by { assert IsDigit(s[0]); }
    assert ("+" + s)[1..] == s;
  }

  /** Any non-empty string of digits, leading zeros allowed, parses to its value exactly when that fits in 16 bits. */
  lemma ParseU16Digits(s: string)
    requires s != [] && AllDigits(s)
    ensures ParseU16(s) == if DigitsValue(s) <= 0xFFFF then Some(DigitsValue(s)) else None
    ensures ParseU16("+" + s) == ParseU16(s)
  {
    assert s[0] != '+' by { assert IsDigit(s[0]); }
    assert ("+" + s)[1..] == s;
  }

  /** A leading zero does not change the value of a string of digits. */
  lemma {:induction false} DigitsValueLeadingZero(s: string)
    requires AllDigits(s)
    ensures AllDigits("0" + s) && DigitsValue("0" + s) == DigitsValue(s)
  {
    var z := "0" + s;
    assert AllDigits(z) by {
      forall i | 0 <= i < |z| ensures IsDigit(z[i]) {
        if i > 0 { assert z[i] == s[i - 1]; }
      }
    }
    if s != [] {
      var init := s[..|s| - 1];
      DigitsValueLeadingZero(init);
      assert z[..|z| - 1] == "0" + init;
      assert z[|z| - 1] == s[|s| - 1];
    }
  }

  /** A leading zero changes nothing: `0200` parses like `200`. */
  lemma ParseU16LeadingZero(s: string)
    requires s != [] && AllDigits(s)
    ensures ParseU16("0" + s) == ParseU16(s)
  {
    DigitsValueLeadingZero(s);
    ParseU16Digits(s);
    ParseU16Digits("0" + s);
  }

  /** Any character other than a digit, save one leading `+`, makes the parse fail. */
  lemma ParseU16RejectsNonDigit(s: string, i: nat)
    requires i < |s| && !IsDigit(s[i])
    requires i > 0 || s[0] != '+'
    ensures ParseU16(s) == None
  {
    if s[0] == '+' {
      assert s[1..][i - 1] == s[i];
    }
  }
}
