/** Text primitives the server relies on: Rust's `Option`/`Result`, decimal
    rendering of integers (`{}` formatting), `str::split` with a string
    pattern, `str::trim`, UTF-8 byte length (`str::len`) and the line
    splitting of `BufRead::read_line`. */
module Text {

  datatype Option<T> = None | Some(value: T)

  datatype Result<T, E> = Ok(value: T) | Err(error: E)

  /** Appending to a buffer in two steps appends the two texts joined. */
  lemma Appended<T>(buffer: seq<T>, a: seq<T>, b: seq<T>)
    ensures buffer + a + b == buffer + (a + b)
  {
  }

  /** A sequence is the concatenation of its three slices around `i` and `j`. */
  lemma Pieces<T>(s: seq<T>, i: nat, j: nat)
    requires i <= j <= |s|
    ensures s == s[..i] + s[i..j] + s[j..]
  {
  }

  // ---------------------------------------------------------------------------
  // Decimal numbers

  predicate IsDigit(c: char) {
    '0' <= c <= '9'
  }

  predicate AllDigits(s: string) {
    forall i :: 0 <= i < |s| ==> IsDigit(s[i])
  }

  /** The form `{}` prints a non-negative integer in: digits only, no leading zero. */
  predicate IsCanonicalDecimal(s: string) {
    |s| > 0 && AllDigits(s) && (s[0] == '0' ==> |s| == 1)
  }

  function DigitChar(d: nat): (c: char)
    requires d < 10
    ensures IsDigit(c) && c as int - '0' as int == d
  {
    ('0' as int + d) as char
  }

  function NatToDecimal(n: nat): (s: string)
    ensures IsCanonicalDecimal(s)
    ensures s[0] == '0' <==> n == 0
    decreases n
  {
    if n < 10 then [DigitChar(n)] else NatToDecimal(n / 10) + [DigitChar(n % 10)]
  }

  /** `{}` of a signed integer: a minus sign before the digits of its magnitude. */
  function IntToDecimal(i: int): (s: string)
    ensures |s| > 0
    ensures s[0] == '-' <==> i < 0
  {
    if i < 0 then "-" + NatToDecimal(-i) else NatToDecimal(i)
  }

  function DigitsValue(s: string): nat
    requires AllDigits(s)
    decreases |s|
  {
    if s == "" then 0 else DigitsValue(s[..|s| - 1]) * 10 + (s[|s| - 1] as int - '0' as int)
  }

  /** Reads back exactly the strings `NatToDecimal` produces. */
  function DecimalToNat(s: string): (r: Option<nat>)
    ensures r.Some? <==> IsCanonicalDecimal(s)
  {
    if IsCanonicalDecimal(s) then Some(DigitsValue(s)) else None
  }

  /** Reads back exactly the strings `IntToDecimal` produces. */
  function DecimalToInt(s: string): (r: Option<int>)
  {
    if |s| > 0 && s[0] == '-' then
      match DecimalToNat(s[1..])
      case Some(n) =>
        var i: int := -(n as int);
        if n == 0 then None else Some(i)
      case None => None
    else
      match DecimalToNat(s)
      case Some(n) => Some(n)
      case None => None
  }

  lemma {:induction false} DigitsValueOfDecimal(n: nat)
    ensures DigitsValue(NatToDecimal(n)) == n
    decreases n
  {
    if n >= 10 {
      var s := NatToDecimal(n);
      assert s[..|s| - 1] == NatToDecimal(n / 10);
      DigitsValueOfDecimal(n / 10);
    }
  }

  lemma {:induction false} DecimalOfDigitsValue(s: string)
    requires IsCanonicalDecimal(s)
    ensures NatToDecimal(DigitsValue(s)) == s
    decreases |s|
  {
    if |s| > 1 {
      var init := s[..|s| - 1];
      assert IsCanonicalDecimal(init);
      DecimalOfDigitsValue(init);
      var v := DigitsValue(init);
      // init starts with a non-zero digit, so its value is not zero
      assert v != 0;
      assert s == init + [s[|s| - 1]];
    }
  }

  /** Decimal rendering and reading are inverse to each other, in both directions. */
  lemma NatDecimalRoundTrip(n: nat, s: string)
    ensures DecimalToNat(NatToDecimal(n)) == Some(n)
    ensures DecimalToNat(s) == Some(n) ==> NatToDecimal(n) == s
  {
    DigitsValueOfDecimal(n);
    if DecimalToNat(s) == Some(n) {
      DecimalOfDigitsValue(s);
    }
  }

  lemma IntDecimalRoundTrip(i: int, s: string)
    ensures DecimalToInt(IntToDecimal(i)) == Some(i)
    ensures DecimalToInt(s) == Some(i) ==> IntToDecimal(i) == s
  {
    if i < 0 {
      var t := IntToDecimal(i);
      assert t[1..] == NatToDecimal(-i);
      NatDecimalRoundTrip(-i, t[1..]);
    } else {
      NatDecimalRoundTrip(i, "");
    }
    if DecimalToInt(s) == Some(i) {
      if |s| > 0 && s[0] == '-' {
        NatDecimalRoundTrip(-i, s[1..]);
        assert s == "-" + s[1..];
      } else {
        NatDecimalRoundTrip(i, s);
      }
    }
  }

  // ---------------------------------------------------------------------------
  // Searching and splitting

  predicate OccursAt(s: string, pat: string, j: int) {
    0 <= j && j + |pat| <= |s| && s[j..j + |pat|] == pat
  }

  /** The first position at which `pat` occurs in `s`. */
  function IndexOf(s: string, pat: string): (r: Option<nat>)
    requires pat != ""
    ensures r.Some? ==> OccursAt(s, pat, r.value)
    ensures r.Some? ==> forall j :: 0 <= j < r.value ==> !OccursAt(s, pat, j)
    ensures r.None? ==> forall j :: !OccursAt(s, pat, j)
    decreases |s|
  {
    if |s| < |pat| then None
    else if s[..|pat|] == pat then Some(0)
    else
      match IndexOf(s[1..], pat)
      case None =>
        assert forall j :: OccursAt(s, pat, j) ==> j > 0 && OccursAt(s[1..], pat, j - 1);
        None
      case Some(k) =>
        assert OccursAt(s[1..], pat, k);
        assert forall j :: 0 < j <= k && OccursAt(s, pat, j) ==> OccursAt(s[1..], pat, j - 1);
        Some(k + 1)
  }

  /** Joins pieces with a separator between consecutive ones. */
  function Join(parts: seq<string>, sep: string): string
  {
    if |parts| == 0 then ""
    else if |parts| == 1 then parts[0]
    else parts[0] + sep + Join(parts[1..], sep)
  }

  /** Rust's `s.split(sep)` for a non-empty string pattern: the pieces between
      successive non-overlapping occurrences, searched left to right, empty
      pieces kept. */
  function Split(s: string, sep: string): (r: seq<string>)
    requires sep != ""
    ensures |r| >= 1
    // the first piece ends at the leftmost occurrence
    ensures |r| >= 2 ==> IndexOf(s, sep).Some? && r[0] == s[..IndexOf(s, sep).value]
    decreases |s|
  {
    match IndexOf(s, sep)
    case None => [s]
    case Some(i) => [s[..i]] + Split(s[i + |sep|..], sep)
  }

  /** Splitting loses nothing: joining the pieces restores the text; there is
      more than one piece exactly when the separator occurs; no piece holds it. */
  lemma {:induction false} SplitJoin(s: string, sep: string)
    requires sep != ""
    ensures Join(Split(s, sep), sep) == s
    ensures |Split(s, sep)| >= 2 <==> IndexOf(s, sep).Some?
    ensures forall k :: 0 <= k < |Split(s, sep)| ==> IndexOf(Split(s, sep)[k], sep).None?
    decreases |s|
  {
    match IndexOf(s, sep)
    case None =>
    case Some(i) =>
      var head, tail := s[..i], s[i + |sep|..];
      assert forall j :: OccursAt(head, sep, j) ==> OccursAt(s, sep, j);
      SplitJoin(tail, sep);
      assert s == head + sep + tail;
      assert Split(s, sep) == [head] + Split(tail, sep);
  }

  /** When the pattern's first character does not occur in `a`, the pattern
      is first found right after `a`. */
  lemma IndexOfAfter(a: string, pat: string, b: string)
    requires pat != "" && pat[0] !in a
    ensures IndexOf(a + pat + b, pat) == Some(|a|)
  {
    var s := a + pat + b;
    assert OccursAt(s, pat, |a|);
    assert forall j :: 0 <= j < |a| ==> s[j] == a[j];
  }

  /** When the separator's first character does not occur in `a`, the first
      piece of `a + sep + b` is exactly `a`. */
  lemma SplitAfter(a: string, sep: string, b: string)
    requires sep != "" && sep[0] !in a
    ensures Split(a + sep + b, sep) == [a] + Split(b, sep)
  {
    var s := a + sep + b;
    IndexOfAfter(a, sep, b);
    assert s[..|a|] == a && s[|a| + |sep|..] == b;
  }

  /** A one-character pattern occurs exactly when the character does. */
  lemma IndexOfChar(s: string, c: char)
    ensures IndexOf(s, [c]).None? <==> c !in s
  {
    assert forall j :: OccursAt(s, [c], j) <==> 0 <= j < |s| && s[j] == c;
  }

  lemma SplitWithout(s: string, c: char)
    requires c !in s
    ensures Split(s, [c]) == [s]
  {
    IndexOfChar(s, c);
  }

  // ---------------------------------------------------------------------------
  // Trimming

  /** Rust's `char::is_whitespace`: the Unicode White_Space property. */
  predicate IsWhitespace(c: char) {
    ('\t' <= c <= '\r') || c == ' ' || c == '\U{0085}' || c == '\U{00A0}' || c == '\U{1680}'
    || ('\U{2000}' <= c <= '\U{200A}') || c == '\U{2028}' || c == '\U{2029}'
    || c == '\U{202F}' || c == '\U{205F}' || c == '\U{3000}'
  }

  predicate AllWhitespace(s: string) {
    forall k :: 0 <= k < |s| ==> IsWhitespace(s[k])
  }

  /** Neither end of `s` is whitespace. */
  predicate IsTrimmed(s: string) {
    s == "" || (!IsWhitespace(s[0]) && !IsWhitespace(s[|s| - 1]))
  }

  function TrimStart(s: string): string
    decreases |s|
  {
    if s != "" && IsWhitespace(s[0]) then TrimStart(s[1..]) else s
  }

  function TrimEnd(s: string): string
    decreases |s|
  {
    if s != "" && IsWhitespace(s[|s| - 1]) then TrimEnd(s[..|s| - 1]) else s
  }

  /** `TrimStart` drops leading whitespace and stops at the first other character. */
  lemma {:induction false} TrimStartShape(s: string)
    ensures var r := TrimStart(s);
      |r| <= |s| && r == s[|s| - |r|..] && AllWhitespace(s[..|s| - |r|]) &&
      (r != "" ==> !IsWhitespace(r[0]))
    decreases |s|
  {
    if s != "" && IsWhitespace(s[0]) {
      TrimStartShape(s[1..]);
      var r := TrimStart(s[1..]);
      assert s[..|s| - |r|] == [s[0]] + s[1..][..|s| - 1 - |r|];
    }
  }

  /** `TrimEnd` drops trailing whitespace and stops at the last other character. */
  lemma {:induction false} TrimEndShape(s: string)
    ensures var r := TrimEnd(s);
      |r| <= |s| && r == s[..|r|] && AllWhitespace(s[|r|..]) &&
      (r != "" ==> !IsWhitespace(r[|r| - 1]))
    decreases |s|
  {
    if s != "" && IsWhitespace(s[|s| - 1]) {
      TrimEndShape(s[..|s| - 1]);
      var r := TrimEnd(s[..|s| - 1]);
      assert s[|r|..] == s[..|s| - 1][|r|..] + [s[|s| - 1]];
    }
  }

  /** Rust's `str::trim`: whitespace removed from both ends. */
  function Trim(s: string): (r: string)
    ensures IsTrimmed(r)
  {
    TrimStartShape(s);
    var t := TrimStart(s);
    TrimEndShape(t);
    var r := TrimEnd(t);
    assert r != "" ==> r[0] == t[0];
    r
  }

  lemma {:induction false} TrimStartAfter(pre: string, rest: string)
    requires AllWhitespace(pre)
    requires rest == "" || !IsWhitespace(rest[0])
    ensures TrimStart(pre + rest) == rest
    decreases |pre|
  {
    if pre == "" {
      assert pre + rest == rest;
    } else {
      assert (pre + rest)[0] == pre[0] && (pre + rest)[1..] == pre[1..] + rest;
      TrimStartAfter(pre[1..], rest);
    }
  }

  lemma {:induction false} TrimEndBefore(rest: string, post: string)
    requires AllWhitespace(post)
    requires rest == "" || !IsWhitespace(rest[|rest| - 1])
    ensures TrimEnd(rest + post) == rest
    decreases |post|
  {
    if post == "" {
      assert rest + post == rest;
    } else {
      var s := rest + post;
      assert s[|s| - 1] == post[|post| - 1] && s[..|s| - 1] == rest + post[..|post| - 1];
      TrimEndBefore(rest, post[..|post| - 1]);
    }
  }

  /** Trimming strips exactly the surrounding whitespace and nothing of the core. */
  lemma TrimAround(pre: string, core: string, post: string)
    requires AllWhitespace(pre) && AllWhitespace(post) && IsTrimmed(core)
    ensures Trim(pre + core + post) == core
  {
    if core == "" {
      assert pre + core + post == pre + post;
      TrimStartAfter(pre + post, "");
      assert pre + post + "" == pre + post;
    } else {
      assert pre + core + post == pre + (core + post);
      TrimStartAfter(pre, core + post);
      TrimEndBefore(core, post);
    }
  }

  /** A trimmed string is left as it is. */
  lemma TrimTrimmed(s: string)
    requires IsTrimmed(s)
    ensures Trim(s) == s
  {
    TrimAround("", s, "");
    assert "" + s + "" == s;
  }

  // ---------------------------------------------------------------------------
  // UTF-8 byte length

  /** Number of bytes UTF-8 spends on one Unicode scalar value. */
  function CharUtf8Len(c: char): (n: nat)
    ensures 1 <= n <= 4
    ensures n == 1 <==> c as int < 0x80
  {
    if c as int < 0x80 then 1
    else if c as int < 0x800 then 2
    else if c as int < 0x10000 then 3
    else 4
  }

  /** Rust's `str::len`: the byte length of the UTF-8 encoding. */
  function Utf8Len(s: string): (n: nat)
    ensures |s| <= n <= 4 * |s|
    decreases |s|
  {
    if s == "" then 0 else CharUtf8Len(s[0]) + Utf8Len(s[1..])
  }

  /** The byte length equals the character count exactly for ASCII text. */
  lemma {:induction false} Utf8LenAscii(s: string)
    ensures Utf8Len(s) == |s| <==> forall k :: 0 <= k < |s| ==> s[k] as int < 0x80
    decreases |s|
  {
    if s != "" {
      Utf8LenAscii(s[1..]);
      assert forall k :: 1 <= k < |s| ==> s[k] == s[1..][k - 1];
    }
  }

  lemma {:induction false} Utf8LenConcat(a: string, b: string)
    ensures Utf8Len(a + b) == Utf8Len(a) + Utf8Len(b)
    decreases |a|
  {
    if a != "" {
      assert (a + b)[0] == a[0] && (a + b)[1..] == a[1..] + b;
      Utf8LenConcat(a[1..], b);
    } else {
      assert a + b == b;
    }
  }

  /** Splits off the shortest prefix of `s` that is exactly `n` bytes long, if
      `n` falls on a character boundary within `s`. */
  function TakeBytes(s: string, n: nat): (r: Option<(string, string)>)
    ensures r.Some? ==> r.value.0 + r.value.1 == s && Utf8Len(r.value.0) == n
    decreases |s|
  {
    if n == 0 then Some(("", s))
    else if s == "" then None
    else
      var c := CharUtf8Len(s[0]);
      if c > n then None
      else
        match TakeBytes(s[1..], n - c)
        case None => None
        case Some(split) =>
          assert ([s[0]] + split.0)[1..] == split.0;
          Some(([s[0]] + split.0, split.1))
  }

  /** A byte count taken from a text's own length frames exactly that text. */
  lemma {:induction false} TakeBytesFrames(a: string, b: string)
    ensures TakeBytes(a + b, Utf8Len(a)) == Some((a, b))
    decreases |a|
  {
    if a != "" {
      assert (a + b)[0] == a[0] && (a + b)[1..] == a[1..] + b;
      TakeBytesFrames(a[1..], b);
      assert [a[0]] + a[1..] == a;
    } else {
      assert a + b == b;
    }
  }

  // ---------------------------------------------------------------------------
  // Lines

  /** `BufRead::read_line`: the text up to and including the first '\n', or
      all that is left when there is none; "" once the input is exhausted. */
  function NextLine(s: string): (r: (string, string))
    ensures r.0 + r.1 == s
    ensures s != "" ==> r.0 != ""
    ensures forall k :: 0 <= k < |r.0| - 1 ==> r.0[k] != '\n'
    ensures r.1 != "" ==> r.0[|r.0| - 1] == '\n'
    decreases |s|
  {
    if s == "" then ("", "")
    else if s[0] == '\n' then ("\n", s[1..])
    else
      var (line, rest) := NextLine(s[1..]);
      ([s[0]] + line, rest)
  }

  /** A complete line as `read_line` returns it: it ends in its only '\n'. */
  predicate IsLine(line: string) {
    line != "" && line[|line| - 1] == '\n' && forall k :: 0 <= k < |line| - 1 ==> line[k] != '\n'
  }

  /** A line that ends in its only '\n' comes off the front of any text. */
  lemma {:induction false} NextLineOf(line: string, rest: string)
    requires line != "" && line[|line| - 1] == '\n'
    requires forall k :: 0 <= k < |line| - 1 ==> line[k] != '\n'
    ensures NextLine(line + rest) == (line, rest)
    decreases |line|
  {
    var s := line + rest;
    if |line| > 1 {
      assert s[1..] == line[1..] + rest;
      NextLineOf(line[1..], rest);
      assert [line[0]] + line[1..] == line;
    }
  }
}
