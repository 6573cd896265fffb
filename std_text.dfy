/** The few pieces of Rust's standard library that the backend's string
    handling relies on: `str::find`, `str::split`, `str::trim_start_matches`,
    `u64::from_str`, `Display` for `u64`, `str::to_lowercase` and
    `HeaderValue::to_str`.

    A Rust string is modelled as a Dafny `string` holding its UTF-8 code
    units, one `char` per byte, so lengths, indices and slices count bytes
    exactly as they do in Rust. */
module StdText {
  import opened Wrappers

  /** `u64::MAX`. */
  const U64Max: nat := 0xFFFF_FFFF_FFFF_FFFF

  // ---------------------------------------------------------------------
  // str::find
  // ---------------------------------------------------------------------

  /** `needle` occurs in `hay` starting at byte `i`. */
  predicate OccursAt(hay: string, needle: string, i: int) {
    0 <= i && i + |needle| <= |hay| && hay[i..i + |needle|] == needle
  }

  /** `hay.find(needle)`: the byte index of the first occurrence of `needle`
      (see `FindFirstOccurrence`). */
  function Find(hay: string, needle: string): (r: Option<nat>)
    ensures r.Some? ==> r.value + |needle| <= |hay|
    decreases |hay|
  {
    if |hay| < |needle| then None
    else if hay[..|needle|] == needle then Some(0)
    else
      match Find(hay[1..], needle)
      case None => None
      case Some(i) => Some(i + 1)
  }

  /** `Find` returns an occurrence with none before it, and `None` only
      when `needle` does not occur at all. */
  lemma {:induction false} FindFirstOccurrence(hay: string, needle: string)
    ensures var r := Find(hay, needle);
      && (r.Some? ==> OccursAt(hay, needle, r.value))
      && (r.Some? ==> forall j :: 0 <= j < r.value ==> !OccursAt(hay, needle, j))
      && (r.None? ==> forall j :: 0 <= j ==> !OccursAt(hay, needle, j))
    decreases |hay|
  {
    if |hay| >= |needle| && hay[..|needle|] != needle {
      FindFirstOccurrence(hay[1..], needle);
      OccursAfterFirst(hay, needle);
    }
  }

  /** Occurrences in `hay` after byte 0 are the occurrences in `hay[1..]`. */
  lemma OccursAfterFirst(hay: string, needle: string)
    requires |hay| >= 1
    ensures forall j :: 1 <= j ==> (OccursAt(hay, needle, j) <==> OccursAt(hay[1..], needle, j - 1))
  {
    forall j | 1 <= j
      ensures OccursAt(hay, needle, j) <==> OccursAt(hay[1..], needle, j - 1)
    {
      OccursInSuffix(hay, needle, 1, j - 1);
    }
  }

  /** An occurrence in a suffix of `hay` is an occurrence in `hay`, shifted. */
  lemma OccursInSuffix(hay: string, needle: string, from: nat, i: int)
    requires from <= |hay|
    ensures OccursAt(hay[from..], needle, i) <==> (0 <= i && OccursAt(hay, needle, from + i))
  {
    if 0 <= i && i + |needle| <= |hay| - from {
      assert hay[from..][i..i + |needle|] == hay[from + i..from + i + |needle|];
    }
  }

  // ---------------------------------------------------------------------
  // str::split(char)
  // ---------------------------------------------------------------------

  /** `s.split(sep).collect::<Vec<&str>>()`: always at least one part. */
  function Split(s: string, sep: char): (parts: seq<string>)
    ensures |parts| >= 1
  {
    if |s| == 0 then [""]
    else if s[0] == sep then [""] + Split(s[1..], sep)
    else
      var rest := Split(s[1..], sep);
      [[s[0]] + rest[0]] + rest[1..]
  }

  /** A text without the separator is not split at all. */
  lemma {:induction false} SplitWithoutSep(s: string, sep: char)
    requires sep !in s
    ensures Split(s, sep) == [s]
  {
    if |s| > 0 {
      assert sep !in s[1..];
      SplitWithoutSep(s[1..], sep);
      assert [s[0]] + s[1..] == s;
    }
  }

  /** The first part is everything before the first separator. */
  lemma {:induction false} SplitAtFirst(a: string, sep: char, b: string)
    requires sep !in a
    ensures Split(a + [sep] + b, sep) == [a] + Split(b, sep)
  {
    if |a| == 0 {
      assert a + [sep] + b == [sep] + b;
      assert ([sep] + b)[1..] == b;
    } else {
      assert (a + [sep] + b)[1..] == a[1..] + [sep] + b;
      assert sep !in a[1..];
      SplitAtFirst(a[1..], sep, b);
      assert [a[0]] + a[1..] == a;
    }
  }

  // ---------------------------------------------------------------------
  // str::trim_start_matches(char)
  // ---------------------------------------------------------------------

  /** `s.trim_start_matches(c)`: `s` with every leading `c` removed. */
  function TrimStartMatches(s: string, c: char): (r: string)
    ensures |r| <= |s| && r == s[|s| - |r|..]
    ensures forall i :: 0 <= i < |s| - |r| ==> s[i] == c
    ensures |r| == 0 || r[0] != c
  {
    if |s| > 0 && s[0] == c then TrimStartMatches(s[1..], c) else s
  }

  // ---------------------------------------------------------------------
  // u64::from_str and Display for u64
  // ---------------------------------------------------------------------

  predicate IsDigit(ch: char) { '0' <= ch <= '9' }

  predicate AllDigits(s: string) { forall i :: 0 <= i < |s| ==> IsDigit(s[i]) }

  /** The value of a string of decimal digits, most significant first. */
  function DigitsValue(s: string): nat
    requires AllDigits(s)
  {
    if |s| == 0 then 0
    else DigitsValue(s[..|s| - 1]) * 10 + (s[|s| - 1] as int - '0' as int)
  }

  /** `s.parse::<u64>()`: an optional `+`, then one or more decimal digits
      whose value fits in 64 bits; anything else (the empty string, a sign
      alone, a `-`, any other byte, an overflow) is an error. */
  function ParseU64(s: string): (r: Option<nat>)
    ensures r.Some? ==> r.value <= U64Max
  {
    var digits := if |s| > 0 && s[0] == '+' then s[1..] else s;
    if |digits| == 0 || !AllDigits(digits) then None
    else if DigitsValue(digits) <= U64Max then Some(DigitsValue(digits))
    else None
  }

  /** A string that holds a byte which is neither a digit nor a leading `+`
      does not parse. */
  lemma ParseRejectsNonDigit(s: string, i: nat)
    requires 0 < i < |s| && !IsDigit(s[i])
    ensures ParseU64(s) == None
  {
    var digits := if |s| > 0 && s[0] == '+' then s[1..] else s;
    if s[0] == '+' {
      assert digits[i - 1] == s[i];
    } else {
      assert digits[i] == s[i];
    }
  }

  function DigitChar(d: nat): (ch: char)
    requires d < 10
    ensures IsDigit(ch) && ch as int - '0' as int == d
  {
    ('0' as int + d) as char
  }

  /** `format!("{}", n)`: the shortest decimal form of `n`. */
  function Decimal(n: nat): (s: string)
    ensures |s| >= 1 && AllDigits(s)
    ensures s[0] == '0' ==> n == 0
  {
    if n < 10 then [DigitChar(n)] else Decimal(n / 10) + [DigitChar(n % 10)]
  }

  /** Reading back a decimal numeral gives the number it was written from. */
  lemma {:induction false} DecimalValue(n: nat)
    ensures DigitsValue(Decimal(n)) == n
  {
    if n >= 10 {
      var s := Decimal(n);
      assert s[..|s| - 1] == Decimal(n / 10);
      DecimalValue(n / 10);
    }
  }

  /** `n.to_string().parse::<u64>() == Ok(n)` for every `u64`. */
  lemma ParseDecimal(n: nat)
    requires n <= U64Max
    ensures ParseU64(Decimal(n)) == Some(n)
  {
    DecimalValue(n);
  }

  /** No numeral contains a separator other than digits. */
  lemma DecimalHasNo(n: nat, ch: char)
    requires !IsDigit(ch)
    ensures ch !in Decimal(n)
  {
  }

  // ---------------------------------------------------------------------
  // str::to_lowercase (ASCII part) and HeaderValue::to_str
  // ---------------------------------------------------------------------

  function LowerChar(ch: char): char {
    if 'A' <= ch <= 'Z' then (ch as int + 32) as char else ch
  }

  /** `s.to_lowercase()` restricted to ASCII letters. */
  function AsciiLower(s: string): (r: string)
    ensures |r| == |s|
  {
    seq(|s|, i requires 0 <= i < |s| => LowerChar(s[i]))
  }

  /** Lower-casing twice is lower-casing once. */
  lemma AsciiLowerIdempotent(s: string)
    ensures AsciiLower(AsciiLower(s)) == AsciiLower(s)
  {
    var l := AsciiLower(s);
    forall i | 0 <= i < |s| ensures AsciiLower(l)[i] == l[i] {
      assert LowerChar(LowerChar(s[i])) == LowerChar(s[i]);
    }
  }

  /** The bytes a `HeaderValue` accepts in `to_str`: tab and 0x20..0x7E. */
  predicate VisibleAscii(s: string) {
    forall i :: 0 <= i < |s| ==> s[i] == '\t' || (' ' <= s[i] <= '~')
  }

  /** Joining two valid header values gives a valid header value. */
  lemma VisibleConcat(a: string, b: string)
    requires VisibleAscii(a) && VisibleAscii(b)
    ensures VisibleAscii(a + b)
  {
    forall i | 0 <= i < |a + b| ensures (a + b)[i] == '\t' || (' ' <= (a + b)[i] <= '~') {
      if i >= |a| {
        assert (a + b)[i] == b[i - |a|];
      }
    }
  }

  lemma DecimalVisible(n: nat)
    ensures VisibleAscii(Decimal(n))
  {
    var s := Decimal(n);
    assert forall i :: 0 <= i < |s| ==> IsDigit(s[i]);
  }
}
