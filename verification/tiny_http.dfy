/**
 The `tiny_http` adapter's `multipart_boundary`: find the first `Content-Type`
 header, take the text after the first `boundary=` in its value up to the
 first `;`, and strip one pair of surrounding double quotes.

 The request's header list is a sequence of (field, value) pairs; the field
 match is `tiny_http`'s ASCII case-insensitive `HeaderField::equiv`.
 */
module TinyHttp {
  import opened Wrappers
  import opened Text

  datatype Header = Header(field: string, value: string)

  const BOUNDARY: string := "boundary="
  const CONTENT_TYPE: string := "Content-Type"

  predicate IsContentType(h: Header) {
    EqIgnoreAsciiCase(h.field, CONTENT_TYPE)
  }

  /** Header `i` is a `Content-Type` header and no earlier header is. */
  ghost predicate IsFirstContentType(headers: seq<Header>, i: nat) {
    i < |headers| && IsContentType(headers[i])
    && forall j :: 0 <= j < i ==> !IsContentType(headers[j])
  }

  /** `iter().find(..)` over the headers: the index of the first `Content-Type` header. */
  function FindContentType(headers: seq<Header>): (r: Option<nat>)
    ensures r.Some? ==> IsFirstContentType(headers, r.value)
    ensures r.None? <==> forall j :: 0 <= j < |headers| ==> !IsContentType(headers[j])
  {
    if |headers| == 0 then None
    else if IsContentType(headers[0]) then Some(0)
    else
      match FindContentType(headers[1..])
      case None => None
      case Some(i) => Some(i + 1)
  }

  /**
   `tok` is the raw boundary parameter that begins at `start` in `value`: it
   sits there verbatim, holds no `;`, and is followed by `;` or by the end.
   */
  predicate IsRawTokenAt(value: string, start: nat, tok: string) {
    OccursAt(value, tok, start) && ';' !in tok
    && (start + |tok| == |value| || value[start + |tok|] == ';')
  }

  /** The text after the first `boundary=`, cut at the first `;`. */
  function BoundaryParam(value: string): (r: Option<string>)
    ensures r.None? <==> !IsInfix(BOUNDARY, value)
    ensures r.Some? ==> Find(value, BOUNDARY).Some?
                        && IsRawTokenAt(value, Find(value, BOUNDARY).value + |BOUNDARY|, r.value)
  {
    match Find(value, BOUNDARY)
    case None => None
    case Some(pos) =>
      var after := value[pos + |BOUNDARY|..];
      match SplitOnce(after, ';')
      case Some((before, _)) =>
        assert after[..|before|] == before;
        assert IsRawTokenAt(value, pos + |BOUNDARY|, before);
        Some(before)
      case None =>
        assert IsRawTokenAt(value, pos + |BOUNDARY|, after);
        Some(after)
  }

  /** `s` both starts and ends with a double quote, as two distinct characters. */
  predicate IsQuoted(s: string) {
    |s| >= 2 && s[0] == '"' && s[|s| - 1] == '"'
  }

  /**
   Remove a leading quote and then a trailing one; if either is missing,
   the value is kept exactly as it was.
   */
  function Unquote(raw: string): (r: string)
    ensures IsQuoted(raw) ==> raw == ['"'] + r + ['"']
    ensures !IsQuoted(raw) ==> r == raw
  {
    match StripPrefix(raw, '"')
    case None => raw
    case Some(s) =>
      match StripSuffix(s, '"')
      case None => raw
      case Some(t) => t
  }

  /** The boundary carried by one `Content-Type` value: the cut token, unquoted. */
  function BoundaryFromValue(value: string): (r: Option<string>)
    ensures r.None? <==> !IsInfix(BOUNDARY, value)
    ensures r.Some? ==> IsInfix(r.value, value) && ';' !in r.value && |r.value| <= |value|
  {
    match BoundaryParam(value)
    case None => None
    case Some(raw) =>
      var pos := Find(value, BOUNDARY).value;
      var tok := Unquote(raw);
      if IsQuoted(raw) then
        assert raw[1..|raw| - 1] == tok;
        assert OccursAt(value, tok, pos + |BOUNDARY| + 1) by {
          assert value[pos + |BOUNDARY| + 1..pos + |BOUNDARY| + 1 + |tok|] == raw[1..|raw| - 1];
        }
        Some(tok)
      else
        assert OccursAt(value, tok, pos + |BOUNDARY|);
        Some(tok)
  }

  /** `multipart_boundary` of the `tiny_http` request. */
  function MultipartBoundary(headers: seq<Header>): (r: Option<string>)
    ensures (forall j :: 0 <= j < |headers| ==> !IsContentType(headers[j])) ==> r == None
    ensures forall i: nat :: IsFirstContentType(headers, i) ==>
              (r.Some? <==> IsInfix(BOUNDARY, headers[i].value))
    ensures r.Some? ==> exists i: nat :: IsFirstContentType(headers, i)
                                       && IsInfix(r.value, headers[i].value)
                                       && ';' !in r.value
  {
    match FindContentType(headers)
    case None => None
    case Some(i) => BoundaryFromValue(headers[i].value)
  }

  /** Only the first `Content-Type` header decides the result; later ones are ignored. */
  lemma OnlyFirstContentTypeConsulted(headers: seq<Header>, i: nat)
    requires IsFirstContentType(headers, i)
    ensures MultipartBoundary(headers) == BoundaryFromValue(headers[i].value)
  {
  }

  /** Appending headers after a `Content-Type` header never changes the boundary. */
  lemma LaterHeadersIgnored(headers: seq<Header>, more: seq<Header>, j: nat)
    requires j < |headers| && IsContentType(headers[j])
    ensures MultipartBoundary(headers + more) == MultipartBoundary(headers)
  {
    var i := FindContentType(headers).value;
    assert IsFirstContentType(headers + more, i) by {
      assert (headers + more)[i] == headers[i];
      forall j | 0 <= j < i ensures !IsContentType((headers + more)[j]) {
        assert (headers + more)[j] == headers[j];
      }
    }
    OnlyFirstContentTypeConsulted(headers + more, i);
    OnlyFirstContentTypeConsulted(headers, i);
  }

  /** The header name is matched without regard to ASCII case, and only in full. */
  lemma ContentTypeNameMatch(value: string)
    ensures IsContentType(Header("content-type", value))
    ensures IsContentType(Header("CONTENT-TYPE", value))
    ensures !IsContentType(Header("Content-Length", value))
    ensures !IsContentType(Header("Content-Type-X", value))
  {
  }

  /** No occurrence of `boundary=` starts inside `pre`, even one running past its end. */
  ghost predicate NoBoundaryIn(pre: string) {
    forall j: nat :: j < |pre| ==> !OccursAt(pre + BOUNDARY, BOUNDARY, j)
  }

  /** A prefix without the letter `b` cannot hide a `boundary=`. */
  lemma NoBoundaryInWithoutB(pre: string)
    requires 'b' !in pre
    ensures NoBoundaryIn(pre)
  {
    forall j: nat | j < |pre| ensures !OccursAt(pre + BOUNDARY, BOUNDARY, j) {
      assert (pre + BOUNDARY)[j] == pre[j];
    }
  }

  /** In `pre + "boundary=" + rest` the first `boundary=` is the one after `pre`. */
  lemma FirstBoundaryAfter(pre: string, rest: string)
    requires NoBoundaryIn(pre)
    ensures Find(pre + BOUNDARY + rest, BOUNDARY) == Some(|pre|)
  {
    var v := pre + BOUNDARY + rest;
    assert OccursAt(v, BOUNDARY, |pre|) by {
      assert v[|pre|..|pre| + |BOUNDARY|] == BOUNDARY;
    }
    assert v[..|pre| + |BOUNDARY|] == pre + BOUNDARY;
    forall j: nat | j < |pre| ensures !OccursAt(v, BOUNDARY, j) {
      assert !OccursAt(pre + BOUNDARY, BOUNDARY, j);
      assert v[j..j + |BOUNDARY|] == (pre + BOUNDARY)[j..j + |BOUNDARY|];
    }
  }

  /** At a given start there is at most one raw boundary token. */
  lemma RawTokenUnique(value: string, start: nat, a: string, b: string)
    requires IsRawTokenAt(value, start, a) && IsRawTokenAt(value, start, b)
    ensures a == b
  {
    assert a == value[start..start + |a|];
  }

  /** A raw token written after `boundary=` and closed by `;` or the end is read back verbatim. */
  lemma RawParamRoundTrip(pre: string, raw: string, rest: string)
    requires NoBoundaryIn(pre) && ';' !in raw
    requires rest == [] || rest[0] == ';'
    ensures BoundaryParam(pre + BOUNDARY + raw + rest) == Some(raw)
  {
    var v := pre + BOUNDARY + raw + rest;
    assert v == pre + BOUNDARY + (raw + rest);
    FirstBoundaryAfter(pre, raw + rest);
    var start := |pre| + |BOUNDARY|;
    assert IsRawTokenAt(v, start, raw) by {
      assert v[start..start + |raw|] == raw;
      if rest != [] {
        assert v[start + |raw|] == rest[0];
      }
    }
    assert IsInfix(BOUNDARY, v) by {
      assert OccursAt(v, BOUNDARY, |pre|);
    }
    RawTokenUnique(v, start, BoundaryParam(v).value, raw);
  }

  /** An unquoted boundary comes back exactly, whitespace and all. */
  lemma PlainTokenRoundTrip(pre: string, tok: string, rest: string)
    requires NoBoundaryIn(pre) && ';' !in tok && !IsQuoted(tok)
    requires rest == [] || rest[0] == ';'
    ensures BoundaryFromValue(pre + BOUNDARY + tok + rest) == Some(tok)
  {
    RawParamRoundTrip(pre, tok, rest);
  }

  /** A quoted boundary comes back with exactly one pair of quotes removed. */
  lemma QuotedTokenRoundTrip(pre: string, tok: string, rest: string)
    requires NoBoundaryIn(pre) && ';' !in tok
    requires rest == [] || rest[0] == ';'
    ensures BoundaryFromValue(pre + BOUNDARY + "\"" + tok + "\"" + rest) == Some(tok)
  {
    var raw := "\"" + tok + "\"";
    assert pre + BOUNDARY + "\"" + tok + "\"" + rest == pre + BOUNDARY + raw + rest;
    RawParamRoundTrip(pre, raw, rest);
    assert IsQuoted(raw);
    var u := Unquote(raw);
    assert raw == ['"'] + u + ['"'];
    assert u == raw[1..|raw| - 1];
  }

  /** An empty token before a `;` is `Some("")`, not `None`. */
  lemma EmptyTokenBeforeSemicolon(pre: string)
    requires NoBoundaryIn(pre)
    ensures BoundaryFromValue(pre + BOUNDARY + ";x") == Some("")
  {
    var e: string := [];
    assert pre + BOUNDARY + e + ";x" == pre + BOUNDARY + ";x";
    PlainTokenRoundTrip(pre, e, ";x");
  }

  /** A value that ends in `boundary=` yields `Some("")`. */
  lemma EmptyTokenAtEnd(pre: string)
    requires NoBoundaryIn(pre)
    ensures BoundaryFromValue(pre + BOUNDARY) == Some("")
  {
    var e: string := [];
    assert pre + BOUNDARY + e + e == pre + BOUNDARY;
    PlainTokenRoundTrip(pre, e, e);
  }

  /** `boundary=""` yields `Some("")`. */
  lemma EmptyQuotedToken(pre: string)
    requires NoBoundaryIn(pre)
    ensures BoundaryFromValue(pre + BOUNDARY + "\"\"") == Some("")
  {
    var e: string := [];
    assert pre + BOUNDARY + "\"" + e + "\"" + e == pre + BOUNDARY + "\"\"";
    QuotedTokenRoundTrip(pre, e, e);
  }

  /** A lone quote is kept: stripping needs two distinct quote characters. */
  lemma LoneQuoteKept(pre: string)
    requires NoBoundaryIn(pre)
    ensures BoundaryFromValue(pre + BOUNDARY + "\"") == Some("\"")
  {
    var e: string := [];
    assert pre + BOUNDARY + "\"" + e == pre + BOUNDARY + "\"";
    PlainTokenRoundTrip(pre, "\"", e);
  }

  /** A token with an opening quote but no closing one is kept whole, quote included. */
  lemma OpeningQuoteOnlyKept(pre: string, tok: string)
    requires NoBoundaryIn(pre) && ';' !in tok && '"' !in tok
    ensures BoundaryFromValue(pre + BOUNDARY + "\"" + tok + ";") == Some("\"" + tok)
  {
    var raw := "\"" + tok;
    assert pre + BOUNDARY + "\"" + tok + ";" == pre + BOUNDARY + raw + ";";
    assert !IsQuoted(raw) by {
      if |raw| >= 2 {
        assert raw[|raw| - 1] == tok[|tok| - 1];
      }
    }
    PlainTokenRoundTrip(pre, raw, ";");
  }

  /** Only one pair of quotes is stripped. */
  lemma OnlyOnePairStripped(pre: string, tok: string)
    requires NoBoundaryIn(pre) && ';' !in tok
    ensures BoundaryFromValue(pre + BOUNDARY + "\"\"" + tok + "\"\"") == Some("\"" + tok + "\"")
  {
    var inner := "\"" + tok + "\"";
    var e: string := [];
    assert pre + BOUNDARY + "\"\"" + tok + "\"\"" == pre + BOUNDARY + "\"" + inner + "\"" + e;
    QuotedTokenRoundTrip(pre, inner, e);
  }
}
