/** Validation of the adapter's target address: the input text is trimmed,
    parsed as an absolute URI, and accepted only when it has no fragment and
    its scheme is `ws` or `wss` (section 3 of RFC 6455). URI parsing itself
    is an oracle `parse` supplied by the caller. */
module UriValidation {
  import opened Results

  /** The characters .NET's Char.IsWhiteSpace accepts: U+0009..U+000D, U+0085
      and the Unicode space, line and paragraph separators. All lie in the
      basic multilingual plane, so UTF-16 code units and scalar values agree. */
  predicate IsWhiteSpace(c: char) {
    var n := c as int;
    || 0x09 <= n <= 0x0D
    || n == 0x20 || n == 0x85 || n == 0xA0 || n == 0x1680
    || 0x2000 <= n <= 0x200A
    || n == 0x2028 || n == 0x2029 || n == 0x202F || n == 0x205F || n == 0x3000
  }

  predicate AllWhiteSpace(s: string) {
    forall i :: 0 <= i < |s| ==> IsWhiteSpace(s[i])
  }

  /** Removes leading white space: what is dropped is white space, and what
      remains is a suffix that does not start with white space. */
  function TrimStart(s: string): (r: string)
    ensures |r| <= |s| && r == s[|s| - |r|..]
    ensures AllWhiteSpace(s[..|s| - |r|])
    ensures r != [] ==> !IsWhiteSpace(r[0])
    decreases |s|
  {
    if |s| > 0 && IsWhiteSpace(s[0]) then
      var r := TrimStart(s[1..]);
      assert s[..|s| - |r|] == [s[0]] + s[1..][..|s| - 1 - |r|];
      r
    else
      s
  }

  /** Removes trailing white space: what is dropped is white space, and what
      remains is a prefix that does not end with white space. */
  function TrimEnd(s: string): (r: string)
    ensures |r| <= |s| && r == s[..|r|]
    ensures AllWhiteSpace(s[|r|..])
    ensures r != [] ==> !IsWhiteSpace(r[|r| - 1])
    decreases |s|
  {
    if |s| > 0 && IsWhiteSpace(s[|s| - 1]) then
      var r := TrimEnd(s[..|s| - 1]);
      assert s[|r|..] == s[..|s| - 1][|r|..] + [s[|s| - 1]];
      r
    else
      s
  }

  /** `r` sits in `s` at offset `i`, with only white space before and after it. */
  predicate PaddedInfix(s: string, r: string, i: int) {
    && 0 <= i <= |s| - |r| && r == s[i..i + |r|]
    && AllWhiteSpace(s[..i]) && AllWhiteSpace(s[i + |r|..])
  }

  /** String.Trim: the longest infix of `s` that neither starts nor ends with
      white space, obtained by dropping white space only. */
  function Trim(s: string): (r: string)
    ensures |r| <= |s|
    ensures r != [] ==> !IsWhiteSpace(r[0]) && !IsWhiteSpace(r[|r| - 1])
    ensures exists i :: PaddedInfix(s, r, i)
  {
    var t := TrimStart(s);
    var r := TrimEnd(t);
    var i := |s| - |t|;
    assert t == s[i..];
    assert r == t[..|r|];
    assert s[i..i + |r|] == t[..|r|];
    assert s[i + |r|..] == t[|r|..];
    assert PaddedInfix(s, r, i);
    assert r != [] ==> r[0] == t[0];
    r
  }

  /** The parts of an absolute URI the adapter inspects. `fragment` is the text
      the URI class reports for it (empty when there is none); `rest` stands
      for everything else (authority, path, query), which validation passes
      through untouched. */
  datatype Uri = Uri(scheme: string, fragment: string, rest: string)

  /** The three construction-time failures, one per check. */
  datatype AddressError = InvalidUri | FragmentNotSupported | UnsupportedScheme

  predicate IsWebSocketScheme(scheme: string) {
    scheme == "ws" || scheme == "wss"
  }

  /** A WebSocket URI in the sense of section 3 of RFC 6455. */
  predicate IsWebSocketUri(u: Uri) {
    u.fragment == "" && IsWebSocketScheme(u.scheme)
  }

  /** The constructor's address check. The trimmed text is parsed first; a
      parse failure is reported before a fragment, and a fragment before a
      wrong scheme. An accepted URI is the parser's own answer, unchanged. */
  function TryGetUri(uriString: string, parse: string -> Option<Uri>): (r: Result<Uri, AddressError>)
    ensures parse(Trim(uriString)).None? ==> r == Err(InvalidUri)
    ensures (parse(Trim(uriString)).Some? && parse(Trim(uriString)).value.fragment != "")
              ==> r == Err(FragmentNotSupported)
    ensures (parse(Trim(uriString)).Some? && parse(Trim(uriString)).value.fragment == ""
             && !IsWebSocketScheme(parse(Trim(uriString)).value.scheme))
              ==> r == Err(UnsupportedScheme)
    ensures r.Ok? <==> parse(Trim(uriString)).Some? && IsWebSocketUri(parse(Trim(uriString)).value)
    ensures r.Ok? ==> parse(Trim(uriString)) == Some(r.value)
  {
    match parse(Trim(uriString))
    case None => Err(InvalidUri)
    case Some(u) =>
      if u.fragment != "" then Err(FragmentNotSupported)
      else if u.scheme != "ws" && u.scheme != "wss" then Err(UnsupportedScheme)
      else Ok(u)
  }

  /** Leading white space makes no difference to TrimStart. */
  lemma {:induction false} TrimStartSkipsWhiteSpace(p: string, x: string)
    requires AllWhiteSpace(p)
    ensures TrimStart(p + x) == TrimStart(x)
    decreases |p|
  {
    if p != [] {
      assert (p + x)[0] == p[0];
      assert (p + x)[1..] == p[1..] + x;
      TrimStartSkipsWhiteSpace(p[1..], x);
    } else {
      assert p + x == x;
    }
  }

  /** Trailing white space makes no difference to TrimEnd. */
  lemma {:induction false} TrimEndSkipsWhiteSpace(x: string, q: string)
    requires AllWhiteSpace(q)
    ensures TrimEnd(x + q) == TrimEnd(x)
    decreases |q|
  {
    if q != [] {
      var q' := q[..|q| - 1];
      assert (x + q)[|x + q| - 1] == q[|q| - 1];
      assert (x + q)[..|x + q| - 1] == x + q';
      assert forall i :: 0 <= i < |q'| ==> q'[i] == q[i];
      TrimEndSkipsWhiteSpace(x, q');
    } else {
      assert x + q == x;
    }
  }

  /** TrimStart of a concatenation: once the first part holds a non-white
      character, the second part is carried along unchanged. */
  lemma {:induction false} TrimStartAppend(s: string, q: string)
    ensures TrimStart(s) != [] ==> TrimStart(s + q) == TrimStart(s) + q
    ensures TrimStart(s) == [] ==> TrimStart(s + q) == TrimStart(q)
    decreases |s|
  {
    if s == [] {
      assert s + q == q;
    } else if IsWhiteSpace(s[0]) {
      assert (s + q)[1..] == s[1..] + q;
      TrimStartAppend(s[1..], q);
    } else {
      assert (s + q)[0] == s[0];
    }
  }

  /** A string that neither starts nor ends with white space is its own trim. */
  lemma TrimKeepsUnpadded(s: string)
    requires s != [] ==> !IsWhiteSpace(s[0]) && !IsWhiteSpace(s[|s| - 1])
    ensures Trim(s) == s
  {
  }

  /** Surrounding white space never changes the trimmed text. */
  lemma TrimIgnoresPadding(p: string, s: string, q: string)
    requires AllWhiteSpace(p) && AllWhiteSpace(q)
    ensures Trim(p + s + q) == Trim(s)
  {
    assert p + s + q == p + (s + q);
    TrimStartSkipsWhiteSpace(p, s + q);
    TrimStartAppend(s, q);
    if TrimStart(s) == [] {
      TrimStartSkipsWhiteSpace(q, []);
      assert q + [] == q;
    } else {
      TrimEndSkipsWhiteSpace(TrimStart(s), q);
    }
  }

  /** The address check sees only the trimmed text, so padding the input with
      white space on either side yields the same verdict and the same URI. */
  lemma TryGetUriIgnoresPadding(p: string, s: string, q: string, parse: string -> Option<Uri>)
    requires AllWhiteSpace(p) && AllWhiteSpace(q)
    ensures TryGetUri(p + s + q, parse) == TryGetUri(s, parse)
  {
    TrimIgnoresPadding(p, s, q);
  }
}
