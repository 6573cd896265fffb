/** HTTP responses and the byte-range handling that the axum asset route
    (`server.rs`) and the `asset:` URI-scheme handler (`protocol.rs`) both
    perform, written once. The code parses `Range: bytes=<start>-<end>`
    itself rather than following RFC 7233 section 2.1: a suffix range
    `bytes=-N` is read as `0-N`, and a multi-range header keeps only its
    first start, with the end falling back to the last byte. */
module Ranges {
  import opened Wrappers
  import opened StdText
  import opened Models

  const StatusOk: nat := 200
  const StatusPartialContent: nat := 206
  const StatusBadRequest: nat := 400
  const StatusForbidden: nat := 403
  const StatusNotFound: nat := 404
  const StatusRangeNotSatisfiable: nat := 416
  const StatusInternalServerError: nat := 500

  /** The headers the handlers set. `acceptRanges` stands for
      `Accept-Ranges: bytes`, `allowAnyOrigin` for
      `Access-Control-Allow-Origin: *`. */
  datatype Headers = Headers(
    contentType: Option<string>,
    contentRange: Option<string>,
    contentLength: Option<nat>,
    acceptRanges: bool,
    allowAnyOrigin: bool)

  const NoHeaders: Headers := Headers(None, None, None, false, false)

  datatype Response = Response(status: nat, headers: Headers, body: seq<byte>)

  /** The UTF-8 bytes of a message (one byte per code unit). */
  function TextBytes(s: string): (b: seq<byte>)
    ensures |b| == |s|
  {
    seq(|s|, i requires 0 <= i < |s| => (s[i] as int % 256) as byte)
  }

  /** A plain-text response without headers, as the error paths send. */
  function TextResponse(status: nat, message: string): Response {
    Response(status, NoHeaders, TextBytes(message))
  }

  /** What a request's `Range` header asks for. */
  datatype RangeChoice =
    | Whole                          // no usable header: the full body
    | Part(start: nat, end: nat)     // bytes start..=end
    | Unsatisfiable

  const BytesUnit: string := "bytes="

  /** `total_len - 1` in `u64` arithmetic. An empty body makes it wrap to
      `u64::MAX`, as a release build does. */
  function LastIndex(total: nat): (last: nat)
    requires total <= U64Max
    ensures last <= U64Max
    ensures total > 0 ==> last + 1 == total
  {
    if total == 0 then U64Max else total - 1
  }

  function Min(a: nat, b: nat): nat { if a <= b then a else b }

  /** The first value of the `Range` header (its raw bytes, if present)
      decides the response for a body of `total` bytes. */
  function ChooseRange(range: Option<string>, total: nat): (c: RangeChoice)
    requires total <= U64Max
    ensures c.Whole? <==> range.None? || !VisibleAscii(range.value) || !(BytesUnit <= range.value)
    ensures c.Part? ==> c.start <= c.end < total
    ensures total == 0 ==> !c.Part?
  {
    if range.None? || !VisibleAscii(range.value) || !(BytesUnit <= range.value) then Whole
    else
      var parts := Split(range.value[|BytesUnit|..], '-');
      var last := LastIndex(total);
      var start := ParseU64(parts[0]).GetOr(0);
      var end :=
        if |parts| > 1 && parts[1] != "" then ParseU64(parts[1]).GetOr(last) else last;
      if start <= end && start < total then Part(start, Min(end, last))
      else Unsatisfiable
  }

  /** The header a client sends for `bytes=<start>-<end>`. */
  function RangeHeader(start: nat, end: string): string {
    BytesUnit + Decimal(start) + "-" + end
  }

  /** The part of a `bytes=` header after the unit. */
  lemma RangeHeaderSpec(start: nat, end: string)
    ensures BytesUnit <= RangeHeader(start, end)
    ensures RangeHeader(start, end)[|BytesUnit|..] == Decimal(start) + ['-'] + end
    ensures Split(RangeHeader(start, end)[|BytesUnit|..], '-') == [Decimal(start)] + Split(end, '-')
  {
    var h := RangeHeader(start, end);
    assert h[..|BytesUnit|] == BytesUnit;
    assert h[|BytesUnit|..] == Decimal(start) + ['-'] + end;
    DecimalHasNo(start, '-');
    SplitAtFirst(Decimal(start), '-', end);
  }

  lemma RangeHeaderVisible(start: nat, end: string)
    requires VisibleAscii(end)
    ensures VisibleAscii(RangeHeader(start, end))
  {
    DecimalVisible(start);
    var h := RangeHeader(start, end);
    assert h == BytesUnit + Decimal(start) + "-" + end;
    forall i | 0 <= i < |h| ensures h[i] == '\t' || (' ' <= h[i] <= '~') {
      if i < |BytesUnit| {
        assert h[i] == BytesUnit[i];
      } else if i < |BytesUnit| + |Decimal(start)| {
        assert h[i] == Decimal(start)[i - |BytesUnit|];
      } else if i == |BytesUnit| + |Decimal(start)| {
        assert h[i] == '-';
      } else {
        assert h[i] == end[i - |BytesUnit| - |Decimal(start)| - 1];
      }
    }
  }

  /** `bytes=<start>-<end>` with both bounds in `u64`: served from `start`
      to `end` clamped to the last byte when `start <= end` and `start`
      lies inside the body, refused otherwise. */
  lemma ExplicitRange(start: nat, end: nat, total: nat)
    requires total <= U64Max && start <= U64Max && end <= U64Max
    ensures ChooseRange(Some(RangeHeader(start, Decimal(end))), total)
         == if start <= end && start < total then Part(start, Min(end, LastIndex(total)))
            else Unsatisfiable
  {
    RangeHeaderSpec(start, Decimal(end));
    DecimalVisible(end);
    RangeHeaderVisible(start, Decimal(end));
    DecimalHasNo(end, '-');
    SplitWithoutSep(Decimal(end), '-');
    ParseDecimal(start);
    ParseDecimal(end);
  }

  /** `bytes=<start>-`: from `start` to the last byte. */
  lemma OpenEndedRange(start: nat, total: nat)
    requires total <= U64Max && start <= U64Max
    ensures ChooseRange(Some(RangeHeader(start, "")), total)
         == if start < total then Part(start, total - 1) else Unsatisfiable
  {
    RangeHeaderSpec(start, "");
    RangeHeaderVisible(start, "");
    assert Split("", '-') == [""];
    ParseDecimal(start);
  }

  /** `bytes=-<n>` is read as `bytes=0-<n>`, not as the last `n` bytes
      (RFC 7233 section 2.1 suffix range): the empty start falls back to 0. */
  lemma SuffixRangeReadFromStart(n: nat, total: nat)
    requires 0 < total <= U64Max && n <= U64Max
    ensures ChooseRange(Some(BytesUnit + "-" + Decimal(n)), total) == Part(0, Min(n, total - 1))
  {
    SuffixHeaderShape(n);
    DecimalHasNo(n, '-');
    SplitWithoutSep(Decimal(n), '-');
    ParseDecimal(n);
    var parts := Split((BytesUnit + "-" + Decimal(n))[|BytesUnit|..], '-');
    assert parts == ["", Decimal(n)];
  }

  /** A suffix-range header is a valid header value with the unit, and
      splits after the unit into an empty start and the numeral. */
  lemma SuffixHeaderShape(n: nat)
    ensures var h := BytesUnit + "-" + Decimal(n);
      && VisibleAscii(h) && BytesUnit <= h
      && Split(h[|BytesUnit|..], '-') == [""] + Split(Decimal(n), '-')
  {
    var h := BytesUnit + "-" + Decimal(n);
    assert h[..|BytesUnit|] == BytesUnit;
    assert h[|BytesUnit|..] == "" + ['-'] + Decimal(n);
    SplitAtFirst("", '-', Decimal(n));
    DecimalVisible(n);
    forall i | 0 <= i < |h| ensures h[i] == '\t' || (' ' <= h[i] <= '~') {
      if i > |BytesUnit| {
        assert h[i] == Decimal(n)[i - |BytesUnit| - 1];
      }
    }
  }

  /** `bytes=<a>-<e>` whose start `a` is not a number is read as
      `bytes=0-<e>`: the start falls back to 0. */
  lemma UnparsableStartReadAsZero(a: string, e: string, total: nat)
    requires total <= U64Max
    requires '-' !in a && ParseU64(a) == None
    requires VisibleAscii(a) && VisibleAscii(e)
    ensures ChooseRange(Some(BytesUnit + a + "-" + e), total) == ChooseRange(Some(RangeHeader(0, e)), total)
  {
    StartHeaderShape(a, e);
    RangeHeaderSpec(0, e);
    RangeHeaderVisible(0, e);
    ParseDecimal(0);
  }

  /** `bytes=<a>-<e>` with a `-`-free `a` is a valid header value with the
      unit, and splits after the unit into `a` and the split of `e`. */
  lemma StartHeaderShape(a: string, e: string)
    requires '-' !in a && VisibleAscii(a) && VisibleAscii(e)
    ensures var h := BytesUnit + a + "-" + e;
      && VisibleAscii(h) && BytesUnit <= h
      && Split(h[|BytesUnit|..], '-') == [a] + Split(e, '-')
  {
    var h := BytesUnit + a + "-" + e;
    assert h[..|BytesUnit|] == BytesUnit;
    assert h[|BytesUnit|..] == a + ['-'] + e;
    SplitAtFirst(a, '-', e);
    UnitVisible();
    VisibleConcat(BytesUnit, a);
    VisibleConcat(BytesUnit + a, "-");
    VisibleConcat(BytesUnit + a + "-", e);
  }

  /** `bytes=<start>-<b>` whose end `b` is empty or not a number runs to
      the last byte, like `bytes=<start>-`. */
  lemma UnparsableEndRunsToLast(start: nat, b: string, total: nat)
    requires total <= U64Max && start <= U64Max
    requires '-' !in b && VisibleAscii(b)
    requires b == "" || ParseU64(b) == None
    ensures ChooseRange(Some(RangeHeader(start, b)), total)
         == if start < total then Part(start, total - 1) else Unsatisfiable
  {
    RangeHeaderSpec(start, b);
    RangeHeaderVisible(start, b);
    SplitWithoutSep(b, '-');
    ParseDecimal(start);
  }

  /** `bytes=<a>` without any `-` has no end: it runs from the start (0 if
      `a` is not a number) to the last byte. */
  lemma NoDashRunsToLast(a: string, total: nat)
    requires total <= U64Max
    requires '-' !in a && VisibleAscii(a)
    ensures var start := ParseU64(a).GetOr(0);
      ChooseRange(Some(BytesUnit + a), total)
        == if start < total then Part(start, total - 1) else Unsatisfiable
  {
    var h := BytesUnit + a;
    assert h[..|BytesUnit|] == BytesUnit;
    assert h[|BytesUnit|..] == a;
    SplitWithoutSep(a, '-');
    UnitVisible();
    VisibleConcat(BytesUnit, a);
  }

  lemma UnitVisible()
    ensures VisibleAscii(BytesUnit)
  {
    assert forall i :: 0 <= i < |BytesUnit| ==> BytesUnit[i] in "bytes=";
  }

  /** `bytes=<start>-<end>,<more>`: the second part holds a comma, does not
      parse, and the end falls back to the last byte. */
  lemma MultiRangeFallsBack(start: nat, end: nat, more: string, total: nat)
    requires total <= U64Max && start <= U64Max
    requires VisibleAscii(more)
    ensures ChooseRange(Some(RangeHeader(start, Decimal(end) + "," + more)), total)
         == if start < total then Part(start, total - 1) else Unsatisfiable
  {
    var tail := Decimal(end) + "," + more;
    RangeHeaderSpec(start, tail);
    MultiTailVisible(end, more);
    RangeHeaderVisible(start, tail);
    ParseDecimal(start);
    MultiEndUnparsable(end, more);
    var parts := Split(RangeHeader(start, tail)[|BytesUnit|..], '-');
    assert |parts| > 1 && parts[0] == Decimal(start) && parts[1] == Split(tail, '-')[0];
  }

  lemma MultiTailVisible(end: nat, more: string)
    requires VisibleAscii(more)
    ensures VisibleAscii(Decimal(end) + "," + more)
  {
    var tail := Decimal(end) + "," + more;
    DecimalVisible(end);
    forall i | 0 <= i < |tail| ensures tail[i] == '\t' || (' ' <= tail[i] <= '~') {
      if i < |Decimal(end)| {
        assert tail[i] == Decimal(end)[i];
      } else if i > |Decimal(end)| {
        assert tail[i] == more[i - |Decimal(end)| - 1];
      }
    }
  }

  /** The part after the first `-` of a multi-range header is not a number. */
  lemma MultiEndUnparsable(end: nat, more: string)
    ensures var second := Split(Decimal(end) + "," + more, '-')[0];
      second != "" && ParseU64(second) == None
  {
    var second := Split(Decimal(end) + "," + more, '-')[0];
    SecondPartKeepsComma(Decimal(end), more);
    ParseRejectsNonDigit(second, |Decimal(end)|);
  }

  /** The first part of `<digits>,<more>` split at `-` still holds the comma. */
  lemma SecondPartKeepsComma(digits: string, more: string)
    requires |digits| >= 1 && AllDigits(digits)
    ensures var first := Split(digits + "," + more, '-')[0];
      |first| > |digits| && first[|digits|] == ',' && first[..|digits|] == digits
  {
    var u := "," + more;
    assert digits + "," + more == digits + u;
    assert '-' !in digits;
    CommaPart(more);
    assert Split(u, '-')[0][0] == ',';
    PrefixKept(digits, u);
  }

  lemma CommaPart(more: string)
    ensures |Split("," + more, '-')[0]| >= 1 && Split("," + more, '-')[0][0] == ','
  {
    assert ("," + more)[1..] == more;
  }

  /** Prepending bytes without `-` prepends them to the first part. */
  lemma {:induction false} PrefixKept(a: string, u: string)
    requires '-' !in a
    ensures Split(a + u, '-')[0] == a + Split(u, '-')[0]
  {
    if |a| > 0 {
      assert (a + u)[1..] == a[1..] + u;
      assert '-' !in a[1..];
      PrefixKept(a[1..], u);
      assert [a[0]] + (a[1..] + Split(u, '-')[0]) == a + Split(u, '-')[0];
    } else {
      assert a + u == u;
    }
  }

  /** `Content-Range` of a partial response. */
  function ContentRange(start: nat, end: nat, total: nat): string {
    "bytes " + Decimal(start) + "-" + Decimal(end) + "/" + Decimal(total)
  }

  /** `Content-Range` of a 416 response. */
  function UnsatisfiedRange(total: nat): string {
    "bytes */" + Decimal(total)
  }

  /** The response both handlers build once they hold the decrypted body
      and its MIME type; `cors` adds `Access-Control-Allow-Origin: *` to
      the 200 and 206 responses, as the URI-scheme handler does. */
  function ServeBody(data: Body, mime: string, range: Option<string>, cors: bool): (r: Response)
    ensures r.status in {StatusOk, StatusPartialContent, StatusRangeNotSatisfiable}
    ensures r.status == StatusOk <==> ChooseRange(range, |data|).Whole?
    ensures r.status == StatusOk ==>
      r.body == data && r.headers == Headers(Some(mime), None, None, true, cors)
    ensures r.status == StatusPartialContent <==> ChooseRange(range, |data|).Part?
    ensures var c := ChooseRange(range, |data|);
      c.Part? ==>
      && r.body == data[c.start..c.end + 1]
      && 0 < |r.body| == c.end - c.start + 1 <= |data|
      && r.headers == Headers(Some(mime), Some(ContentRange(c.start, c.end, |data|)), Some(|r.body|), true, cors)
    ensures r.status == StatusRangeNotSatisfiable ==>
      r.body == [] && r.headers == Headers(None, Some(UnsatisfiedRange(|data|)), None, false, false)
  {
    match ChooseRange(range, |data|)
    case Whole =>
      Response(StatusOk, Headers(Some(mime), None, None, true, cors), data)
    case Part(start, end) =>
      var chunk := data[start..end + 1];
      Response(StatusPartialContent,
        Headers(Some(mime), Some(ContentRange(start, end, |data|)), Some(|chunk|), true, cors),
        chunk)
    case Unsatisfiable =>
      Response(StatusRangeNotSatisfiable, Headers(None, Some(UnsatisfiedRange(|data|)), None, false, false), [])
  }

  /** An empty body is never served in part: the wrapped `total_len - 1`
      leaves every `bytes=` request unsatisfiable. */
  lemma EmptyBodyRange(mime: string, range: Option<string>, cors: bool)
    requires range.Some? && VisibleAscii(range.value) && BytesUnit <= range.value
    ensures ServeBody([], mime, range, cors).status == StatusRangeNotSatisfiable
    ensures ServeBody([], mime, range, cors).headers.contentRange == Some("bytes */0")
  {
    assert Decimal(0) == "0";
    assert UnsatisfiedRange(0) == "bytes */0";
  }
}
