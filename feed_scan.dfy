/** The two character scanners of src/family_album_client.rs: the
    authenticity token of the login page and the bracket-balanced JSON
    payload after `gon.media=` on a listing page.

    Both scanners locate a pattern with `str::find`, which answers with a BYTE
    offset, and then skip that many CHARACTERS of `chars()`. The two agree
    only while the text before the pattern is ASCII. The `AsWritten` members
    below keep the code's arithmetic; the methods use the character index the
    code evidently means (see the comment beside the payload loop). */
module FeedScan {
  import opened Wrappers
  import opened Text
  import opened Failures
  import opened Media

  const TokenPattern: string := "name=\"authenticity_token\" value=\""
  const MediaMarker: string := "gon.media="

  // ---- where a scan starts ---------------------------------------------------

  /** Character index just past the first occurrence of `pattern`. */
  function StartAfter(text: string, pattern: string): (r: Option<nat>)
    ensures r.Some? <==> Find(text, pattern).Some?
    ensures r.Some? ==> |pattern| <= r.value <= |text| && OccursAt(text, pattern, r.value - |pattern|)
    ensures r.Some? ==> forall k :: 0 <= k < r.value - |pattern| ==> !OccursAt(text, pattern, k)
  {
    match Find(text, pattern)
    case None => None
    case Some(i) => Some(i + |pattern|)
  }

  /** As written: the byte offset of the match plus the pattern's byte length,
      later used as a number of characters to skip. */
  function StartAfterAsWritten(text: string, pattern: string): Option<nat> {
    match Find(text, pattern)
    case None => None
    case Some(i) => Some(Utf8Length(text[..i]) + Utf8Length(pattern))
  }

  /** The byte-offset start never lies before the intended one, and coincides
      with it exactly when the text up to the end of the pattern is ASCII. */
  lemma AsWrittenStartOvershoots(text: string, pattern: string)
    requires Find(text, pattern).Some?
    ensures StartAfterAsWritten(text, pattern).value >= StartAfter(text, pattern).value
    ensures StartAfterAsWritten(text, pattern).value == StartAfter(text, pattern).value
        <==> AllAscii(text[..Find(text, pattern).value]) && AllAscii(pattern)
  {
    var i := Find(text, pattern).value;
    Utf8LengthVsChars(text[..i]);
    Utf8LengthVsChars(pattern);
  }

  /** Both patterns are plain ASCII, so their byte length is their length. */
  lemma PatternsAscii()
    ensures AllAscii(TokenPattern) && AllAscii(MediaMarker)
    ensures Utf8Length(TokenPattern) == |TokenPattern| && Utf8Length(MediaMarker) == |MediaMarker|
  {
    Utf8LengthVsChars(TokenPattern);
    Utf8LengthVsChars(MediaMarker);
  }

  /** What `chars().skip(n)` leaves of `text`. */
  function Skip(text: string, n: nat): string {
    if n <= |text| then text[n..] else []
  }

  // ---- the authenticity token ------------------------------------------------

  /** The longest prefix of `s` without a double quote. */
  function QuoteFreePrefix(s: string): (r: string)
    ensures |r| <= |s| && r == s[..|r|]
    ensures '"' !in r
    ensures |r| == |s| || s[|r|] == '"'
  {
    if s == [] || s[0] == '"' then []
    else
      var t := QuoteFreePrefix(s[1..]);
      assert [s[0]] + t == s[..|t| + 1];
      [s[0]] + t
  }

  /** The three properties above determine the prefix: there is no other
      quote-free prefix that ends at a quote or at the end. */
  lemma {:induction false} QuoteFreePrefixUnique(s: string, t: string)
    requires |t| <= |s| && t == s[..|t|] && '"' !in t && (|t| == |s| || s[|t|] == '"')
    ensures t == QuoteFreePrefix(s)
  {
    if s != [] && s[0] != '"' {
      assert t[0] == s[0];
      assert t[1..] == s[1..][..|t| - 1];
      assert '"' !in t[1..] by { forall k | 0 <= k < |t| - 1 ensures t[1..][k] != '"' { assert t[1..][k] == t[k + 1]; } }
      if |t| < |s| { assert s[1..][|t| - 1] == s[|t|]; }
      QuoteFreePrefixUnique(s[1..], t[1..]);
      assert t == [s[0]] + t[1..];
    }
  }

  /** The token the login step sends back: the characters after the first
      `name="authenticity_token" value="` up to the next quote, or to the end
      of the page. A page without the pattern stops the login. */
  function AuthToken(page: string): (r: Result<string, Failure>)
    ensures r.Err? <==> Find(page, TokenPattern).None?
    ensures r.Err? ==> r.error == TokenPatternMissing
    ensures r.Ok? ==> '"' !in r.value
  {
    match StartAfter(page, TokenPattern)
    case None => Err(TokenPatternMissing)
    case Some(s) => Ok(QuoteFreePrefix(page[s..]))
  }

  /** The token as the code computes it, skipping a byte count of characters. */
  function AuthTokenAsWritten(page: string): (r: Result<string, Failure>)
    ensures r.Err? <==> Find(page, TokenPattern).None?
    ensures r.Err? ==> r.error == TokenPatternMissing
    ensures r.Ok? ==> '"' !in r.value
  {
    match StartAfterAsWritten(page, TokenPattern)
    case None => Err(TokenPatternMissing)
    case Some(s) => Ok(QuoteFreePrefix(Skip(page, s)))
  }

  /** The token is the maximal quote-free run right after the pattern: it may
      be empty, and it reaches the end of the page when no quote follows. */
  lemma AuthTokenIsMaximalRun(page: string)
    requires AuthToken(page).Ok?
    ensures var s := StartAfter(page, TokenPattern).value;
            var t := AuthToken(page).value;
            OccursAt(page, TokenPattern, s - |TokenPattern|) &&
            (forall k :: 0 <= k < s - |TokenPattern| ==> !OccursAt(page, TokenPattern, k)) &&
            s + |t| <= |page| && page[s..s + |t|] == t && '"' !in t &&
            (s + |t| == |page| || page[s + |t|] == '"')
  {
    var s := StartAfter(page, TokenPattern).value;
    var t := QuoteFreePrefix(page[s..]);
    assert page[s..][..|t|] == page[s..s + |t|];
    if s + |t| < |page| { assert page[s..][|t|] == page[s + |t|]; }
  }

  /** `login`'s loop: collect characters from `start` until the first quote. */
  method ScanToken(page: string, start: nat) returns (token: string)
    requires start <= |page|
    ensures token == QuoteFreePrefix(page[start..])
  {
    token := [];
    var i := start;
    while i < |page|
      invariant start <= i <= |page|
      invariant token == page[start..i]
      invariant '"' !in token
    {
      if page[i] == '"' {
        break;
      }
      token := token + [page[i]];
      i := i + 1;
    }
    QuoteFreePrefixUnique(page[start..], token);
  }

  /** Token extraction of `login`, from the intended start. */
  method ExtractAuthToken(page: string) returns (r: Result<string, Failure>)
    ensures r == AuthToken(page)
  {
    var start := StartAfter(page, TokenPattern);
    if start.None? {
      return Err(TokenPatternMissing);
    }
    var token := ScanToken(page, start.value);
    r := Ok(token);
  }

  /** A multi-byte character before the pattern makes the code skip too far:
      `é` takes two bytes, so the first character of the token is lost. */
  lemma AsWrittenTokenTruncated()
    ensures AuthToken("é" + TokenPattern + "abc\"") == Ok("abc")
    ensures AuthTokenAsWritten("é" + TokenPattern + "abc\"") == Ok("bc")
  {
    var page := "é" + TokenPattern + "abc\"";
    FirstMatchAfterOne(page, TokenPattern, "é");
    PatternsAscii();
    assert page[..1] == "é";
    assert Utf8Length("é") == 2 by { assert "é"[..0] == []; }
    Utf8LengthVsChars(TokenPattern);
    assert page[1 + |TokenPattern|..] == "abc\"";
    assert page[2 + |TokenPattern|..] == "bc\"";
    assert QuoteFreePrefix("abc\"") == "abc" by {
      QuoteFreePrefixUnique("abc\"", "abc");
    }
    assert QuoteFreePrefix("bc\"") == "bc" by {
      QuoteFreePrefixUnique("bc\"", "bc");
    }
  }

  /** With a one-character lead-in that cannot start the pattern, the first
      match is right after it. */
  lemma FirstMatchAfterOne(page: string, pattern: string, lead: string)
    requires |lead| == 1 && pattern != [] && lead[0] != pattern[0]
    requires 1 <= |page| && page[..1] == lead && OccursAt(page, pattern, 1)
    ensures Find(page, pattern) == Some(1)
  {
    assert !OccursAt(page, pattern, 0) by {
      if |pattern| <= |page| { assert page[0..|pattern|][0] == page[0] == lead[0]; }
    }
  }

  // ---- the media payload -----------------------------------------------------

  predicate IsOpener(c: char) {
    c == '{' || c == '['
  }

  predicate IsCloser(c: char) {
    c == '}' || c == ']'
  }

  /** Net bracket depth of `s`: `{` and `[` count one up, `}` and `]` one down. */
  function Depth(s: string): int {
    if s == [] then 0
    else Depth(s[..|s| - 1]) + (if IsOpener(s[|s| - 1]) then 1 else if IsCloser(s[|s| - 1]) then -1 else 0)
  }

  /** Index `j` closes the payload that starts at `start`: a closing bracket
      after which the depth counted from `start` is back at zero. */
  predicate ClosesPayload(text: string, start: nat, j: nat) {
    start <= j < |text| && IsCloser(text[j]) && Depth(text[start..j + 1]) == 0
  }

  /** The first index at or after `from` that closes the payload. */
  function FirstClose(text: string, start: nat, from: nat): (r: Option<nat>)
    decreases |text| - from
    ensures r.Some? ==> from <= r.value && ClosesPayload(text, start, r.value)
    ensures r.Some? ==> forall k :: from <= k < r.value ==> !ClosesPayload(text, start, k)
    ensures r.None? ==> forall k :: from <= k ==> !ClosesPayload(text, start, k)
  {
    if from >= |text| then None
    else if ClosesPayload(text, start, from) then Some(from)
    else FirstClose(text, start, from + 1)
  }

  /** End index of the payload starting at `start`, if the depth ever returns
      to zero. */
  function PayloadEnd(text: string, start: nat): Option<nat> {
    FirstClose(text, start, start)
  }

  /** A payload is at least two characters long: a lone closing bracket takes
      the depth to -1, not 0. So the code's "no end found" value 0 can never
      be a real end. */
  lemma PayloadEndAfterStart(text: string, start: nat)
    requires PayloadEnd(text, start).Some?
    ensures PayloadEnd(text, start).value > start
  {
    var j := PayloadEnd(text, start).value;
    assert !ClosesPayload(text, start, start) by {
      if start < |text| && IsCloser(text[start]) {
        var x := text[start..start + 1];
        assert x[..|x| - 1] == [] && x[|x| - 1] == text[start];
        assert Depth(x) == -1;
      }
    }
  }

  /** The end found after the marker is at least the marker's length, so it
      is never confused with the "not found" value 0; this holds for the
      as-written start as well. */
  lemma SentinelNeverCollides(page: string)
    ensures forall s :: StartAfter(page, MediaMarker) == Some(s) && PayloadEnd(page, s).Some? ==>
              PayloadEnd(page, s).value > s >= |MediaMarker|
    ensures forall s :: StartAfterAsWritten(page, MediaMarker) == Some(s) && PayloadEnd(page, s).Some? ==>
              PayloadEnd(page, s).value > s >= |MediaMarker|
  {
    Utf8LengthVsChars(MediaMarker);
    forall s | PayloadEnd(page, s).Some? ensures PayloadEnd(page, s).value > s {
      PayloadEndAfterStart(page, s);
    }
  }

  /** The listing page decoded, scanning from a given start. `decode` stands
      for serde's decoding of the payload into a page record. */
  function MediaModelFrom(page: string, start: Option<nat>, decode: string -> Option<Root>): (r: Result<Root, Failure>)
    ensures r == Err(MarkerMissing) <==> start.None?
    ensures r.Err? ==> ScanFailure(r.error)
  {
    match start
    case None => Err(MarkerMissing)
    case Some(s) =>
      match PayloadEnd(page, s)
      case None => Err(PayloadUnterminated)
      case Some(j) =>
        var json := page[s..j + 1];
        match decode(json)
        case None => Err(MalformedPayload(json))
        case Some(root) => Ok(root)
  }

  /** The ways the scan of a listing page can fail. */
  predicate ScanFailure(f: Failure) {
    f == MarkerMissing || f == PayloadUnterminated || f.MalformedPayload?
  }

  /** `fetch_media_model` after the HTTP exchange, from the intended start:
      a page decodes only when it holds the marker, and otherwise fails in
      the scan. */
  function MediaModel(page: string, decode: string -> Option<Root>): (r: Result<Root, Failure>)
    ensures r.Ok? ==> Find(page, MediaMarker).Some? && PayloadEnd(page, StartAfter(page, MediaMarker).value).Some?
    ensures r.Err? ==> ScanFailure(r.error)
  {
    MediaModelFrom(page, StartAfter(page, MediaMarker), decode)
  }

  /** `fetch_media_model` as written. It still fails without the marker,
      and only in the scan. */
  function MediaModelAsWritten(page: string, decode: string -> Option<Root>): (r: Result<Root, Failure>)
    ensures r == Err(MarkerMissing) <==> Find(page, MediaMarker).None?
    ensures r.Err? ==> ScanFailure(r.error)
  {
    MediaModelFrom(page, StartAfterAsWritten(page, MediaMarker), decode)
  }

  /** The error cases of the listing scan, both ways, and what is decoded:
      the shortest balanced run that starts right after the first marker. */
  lemma MediaModelCases(page: string, decode: string -> Option<Root>)
    ensures MediaModel(page, decode) == Err(MarkerMissing) <==> Find(page, MediaMarker).None?
    ensures MediaModel(page, decode) == Err(PayloadUnterminated) <==>
      Find(page, MediaMarker).Some? && PayloadEnd(page, StartAfter(page, MediaMarker).value).None?
    ensures MediaModel(page, decode).Ok? ==>
      exists j :: var s := StartAfter(page, MediaMarker).value;
        ClosesPayload(page, s, j) && (forall k :: s <= k < j ==> !ClosesPayload(page, s, k)) &&
        decode(page[s..j + 1]) == Some(MediaModel(page, decode).value)
  {
    if MediaModel(page, decode).Ok? {
      var s := StartAfter(page, MediaMarker).value;
      var j := PayloadEnd(page, s).value;
      assert ClosesPayload(page, s, j);
    }
  }

  /** Text after the payload does not matter, once the payload is complete. */
  lemma {:induction false} FirstCloseAppend(text: string, rest: string, start: nat, from: nat)
    requires FirstClose(text, start, from).Some?
    ensures FirstClose(text + rest, start, from) == FirstClose(text, start, from)
    decreases |text| - from
  {
    var t := text + rest;
    if start <= from {
      assert t[start..from + 1] == text[start..from + 1];
    }
    assert ClosesPayload(t, start, from) == ClosesPayload(text, start, from);
    if !ClosesPayload(text, start, from) {
      FirstCloseAppend(text, rest, start, from + 1);
    }
  }

  /** Whatever follows a complete payload on the page, the scan and the
      decoded page are the same. */
  lemma TrailingContentIgnored(page: string, rest: string, decode: string -> Option<Root>)
    requires MediaModel(page, decode) != Err(MarkerMissing)
    requires MediaModel(page, decode) != Err(PayloadUnterminated)
    ensures MediaModel(page + rest, decode) == MediaModel(page, decode)
  {
    FindFromAppend(page, rest, MediaMarker, 0);
    var s := StartAfter(page, MediaMarker).value;
    assert StartAfter(page + rest, MediaMarker) == Some(s);
    ScanFromAppend(page, rest, s, decode);
  }

  /** A payload that is complete in `page` scans and decodes the same with
      `rest` appended. */
  lemma ScanFromAppend(page: string, rest: string, s: nat, decode: string -> Option<Root>)
    requires PayloadEnd(page, s).Some?
    ensures MediaModelFrom(page + rest, Some(s), decode) == MediaModelFrom(page, Some(s), decode)
  {
    FirstCloseAppend(page, rest, s, s);
    var j := PayloadEnd(page, s).value;
    assert (page + rest)[s..j + 1] == page[s..j + 1];
  }

  /** A listing page as reqwest hands it over: the URL it ended at after
      redirects, and its text. */
  datatype Listing = Listing(url: string, text: string)

  /** `fetch_media_model` for one page: the request itself, the redirect
      check and the scan. The status of the reply is not consulted. */
  function ListingPage(reply: Response<Listing>, decode: string -> Option<Root>): (r: Result<Root, Failure>)
    ensures reply.NoResponse? ==> r == Err(Transport)
    ensures r == Err(SentToLogin) <==> reply.Response? && Find(reply.body.url, "login").Some?
    ensures r.Ok? ==> reply.Response? && r == MediaModel(reply.body.text, decode)
  {
    match reply
    case NoResponse => Err(Transport)
    case Response(_, listing) =>
      if Find(listing.url, "login").Some? then Err(SentToLogin)
      else MediaModel(listing.text, decode)
  }

  /** The bracket-counting loop of `fetch_media_model`: collect characters
      from `start`, and stop at the first closing bracket that brings the
      depth back to zero. `end` is 0 when there is none. */
  method ScanPayload(text: string, start: nat) returns (json: string, end: nat)
    ensures end == 0 <==> PayloadEnd(text, start).None?
    ensures end != 0 ==> PayloadEnd(text, start) == Some(end) && json == text[start..end + 1]
  {
    json := [];
    end := 0;
    var depth := 0;
    var i := start;
    while i < |text|
      invariant start <= i && (start <= |text| ==> i <= |text|)
      invariant start <= |text| ==> json == text[start..i] && depth == Depth(json)
      invariant forall k :: start <= k < i ==> !ClosesPayload(text, start, k)
      invariant end == 0
    {
      var c := text[i];
      assert text[start..i + 1] == json + [c];
      json := json + [c];
      if IsOpener(c) {
        depth := depth + 1;
      } else if IsCloser(c) {
        depth := depth - 1;
        if depth == 0 {
          assert ClosesPayload(text, start, i);
          end := i;
          break;
        }
      }
      i := i + 1;
    }
  }

  /** `fetch_media_model`: give up on a missing reply or a redirect to the
      login page, then find the marker, scan the payload and decode it. */
  method FetchMediaModel(reply: Response<Listing>, decode: string -> Option<Root>) returns (r: Result<Root, Failure>)
    ensures r == ListingPage(reply, decode)
    ensures reply.Response? && Find(reply.body.url, "login").None? ==> r == MediaModel(reply.body.text, decode)
  {
    if reply.NoResponse? {
      return Err(Transport);
    }
    if Find(reply.body.url, "login").Some? {
      return Err(SentToLogin);
    }
    var page := reply.body.text;
    var start := StartAfter(page, MediaMarker);
    if start.None? {
      return Err(MarkerMissing);
    }
    var json, end := ScanPayload(page, start.value);
    if end == 0 {
      return Err(PayloadUnterminated);
    }
    var root := decode(json);
    if root.None? {
      return Err(MalformedPayload(json));
    }
    r := Ok(root.value);
  }

  /** On a page whose text before the marker is ASCII, the code as written
      decodes the same page (and finds the same token) as the intended one. */
  lemma AsWrittenAgreesOnAsciiPrefix(page: string, decode: string -> Option<Root>)
    ensures Find(page, MediaMarker).Some? && AllAscii(page[..Find(page, MediaMarker).value]) ==>
      MediaModelAsWritten(page, decode) == MediaModel(page, decode)
    ensures Find(page, TokenPattern).Some? && AllAscii(page[..Find(page, TokenPattern).value]) ==>
      AuthTokenAsWritten(page) == AuthToken(page)
  {
    PatternsAscii();
    if Find(page, MediaMarker).Some? {
      AsWrittenStartOvershoots(page, MediaMarker);
      PatternsAscii();
    }
    if Find(page, TokenPattern).Some? {
      AsWrittenStartOvershoots(page, TokenPattern);
      PatternsAscii();
    }
  }

  /** One multi-byte character before the marker: the code skips the opening
      brace and never sees the depth return to zero, while the intended scan
      finds the payload `{}`. */
  lemma AsWrittenPayloadMisplaced(decode: string -> Option<Root>)
    ensures MediaModelAsWritten("é" + MediaMarker + "{}", decode) == Err(PayloadUnterminated)
    ensures PayloadEnd("é" + MediaMarker + "{}", 11) == Some(12)
    ensures MediaModel("é" + MediaMarker + "{}", decode) ==
      (if decode("{}").Some? then Ok(decode("{}").value) else Err(MalformedPayload("{}")))
  {
    var page := "é" + MediaMarker + "{}";
    FirstMatchAfterOne(page, MediaMarker, "é");
    assert Utf8Length("é") == 2 by { assert "é"[..0] == []; }
    assert page[..1] == "é";
    Utf8LengthVsChars(MediaMarker);
    PatternsAscii();
    assert StartAfterAsWritten(page, MediaMarker) == Some(12);
    // from 12 on only `}` is left: the depth goes to -1
    assert page[12..13] == "}" && Depth("}") == -1;
    assert FirstClose(page, 12, 13) == None;
    assert !ClosesPayload(page, 12, 12);
    // from 11 on: `{` then `}` brings the depth back to zero
    assert page[11..13] == "{}";
    assert Depth("{}") == 0 by { assert "{}"[..1] == "{"; assert "{"[..0] == []; }
    assert page[11..12] == "{" && !ClosesPayload(page, 11, 11);
    assert ClosesPayload(page, 11, 12);
  }
}
