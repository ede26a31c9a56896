/** Authentication tokens: printing, parsing and the checks made on what was parsed. */
module Token {
  import opened Prelude
  import opened Base64
  import opened Integers

  datatype TokenError = ValueError | DateOutOfRange | InvalidToken | Unauthorized | RecordNotFound

  // String functions.

  /** `s.find('.')`; -1 when there is none. */
  function Find(s: Text): (i: int)
    ensures -1 <= i < |s|
    ensures i >= 0 ==> s[i] == DOT
  {
    if s == [] then -1
    else if s[0] == DOT then 0
    else
      var i := Find(s[1..]);
      if i == -1 then -1 else i + 1
  }

  /** The index of the last dot, -1 when there is none. */
  function FindLast(s: Text): (i: int)
    ensures -1 <= i < |s|
    ensures i >= 0 ==> s[i] == DOT
  {
    if s == [] then -1
    else if s[|s| - 1] == DOT then |s| - 1
    else FindLast(s[..|s| - 1])
  }

  /** `s.split(b'.', n)`. */
  function Split(s: Bytes, n: nat): seq<Bytes>
    decreases n, s
  {
    var i := Find(s);
    if n == 0 || i == -1 then [s] else [s[..i]] + Split(s[i + 1..], n - 1)
  }

  /** `token[:token.find('.')]`, which drops the last character when there is no dot. */
  function BeforeDot(s: Text): Text {
    var i := Find(s);
    if i >= 0 then s[..i] else if s == [] then [] else s[..|s| - 1]
  }

  // Parsing.

  /** The fields of a token, and the exact text that its signature covers. */
  datatype Fields = Fields(
    content: Text,
    signature: Text,
    algorithm: Bytes,
    keyId: nat,
    expires: nat,
    userId: nat,
    guid: Bytes,
    data: Bytes)

  function DecodeInt(b: Bytes): Option<nat> {
    var d := B64Decode(b);
    if d.None? then None else Some(IntFromBytes(d.value))
  }

  /** The library's formats: UTF-8 text, timestamps within the calendar, JSON documents. */
  datatype Formats = Formats(utf8: Bytes -> bool, date: nat -> bool, json: Bytes -> bool)

  function ParseFields(content: Text, signature: Text, parts: seq<Bytes>, formats: Formats)
    : Result<Fields, TokenError>
  {
    if |parts| != 6 || !formats.utf8(parts[0]) then Err(ValueError)
    else
      var keyId, expires, userId := DecodeInt(parts[1]), DecodeInt(parts[2]), DecodeInt(parts[3]);
      var guid := B64Decode(parts[4]);
      if keyId.None? || expires.None? then Err(ValueError)
      else if !formats.date(expires.value) then Err(DateOutOfRange)
      else if userId.None? || guid.None? || |guid.value| != 16 then Err(ValueError)
      else Ok(Fields(content, signature, parts[0], keyId.value, expires.value, userId.value, guid.value, parts[5]))
  }

  function ParseLoad(content: Text, signature: Text, load: Option<Bytes>, formats: Formats): Result<Fields, TokenError> {
    if load.None? then Err(ValueError) else ParseFields(content, signature, Split(load.value, 5), formats)
  }

  /** Splitting and decoding in `v1token`. */
  function ParseV1(token: Text, formats: Formats): Result<Fields, TokenError> {
    var last := FindLast(token);
    if last == -1 then Err(ValueError)
    else
      var content := token[..last];
      ParseLoad(content, token[last + 1..], B64DecodeText(content[Find(content) + 1..]), formats)
  }

  /** The metadata that the server keeps for a token. */
  datatype Metadata = Metadata(active: bool, algorithm: Bytes, expires: nat, keyId: nat)

  /** The world outside: the clock, the formats, the signature check with the fetched key, the token store. */
  datatype World = World(
    now: real,
    formats: Formats,
    verified: (nat, Bytes, Bytes, Text) -> bool,     // key id, algorithm, signature, content
    record: Bytes -> Option<Metadata>)

  /** The checks of `v1token` and the decoding of the data, in their order. */
  function Check(f: Fields, w: World): Result<Fields, TokenError> {
    if f.keyId <= 0 then Err(Unauthorized)
    else if w.now > f.expires as real then Err(Unauthorized)
    else
      var signature := B64DecodeText(f.signature);
      if signature.None? || !w.verified(f.keyId, f.algorithm, signature.value, f.content) then Err(Unauthorized)
      else
        match w.record(f.guid)
        case None => Err(RecordNotFound)
        case Some(m) =>
          if !m.active || m.algorithm != f.algorithm || m.expires != f.expires || m.keyId != f.keyId
          then Err(Unauthorized)
          else if !w.formats.json(f.data) then Err(ValueError)
          else Ok(f)
  }

  /** The body of `verifyToken`: dispatch on the version, of which there is one, the byte `1`. */
  function VerifyToken(token: Text, w: World): Result<Fields, TokenError> {
    Dispatch(B64DecodeText(BeforeDot(token)), ParseV1(token, w.formats), w)
  }

  function Dispatch(version: Option<Bytes>, parsed: Result<Fields, TokenError>, w: World): Result<Fields, TokenError> {
    if version.None? then Err(ValueError)
    else if version.value != [49] then Err(InvalidToken)
    else if parsed.Err? then parsed
    else Check(parsed.value, w)
  }

  // Printing.

  function EncodeInt(n: nat): Bytes {
    IntRoundTrip(n);
    B64Encode(IntToBytes(n).value)
  }

  /** `b'.'.join(parts)`. */
  function Dotted(parts: seq<Bytes>): Bytes {
    if parts == [] then []
    else if |parts| == 1 then parts[0]
    else parts[0] + [DOT] + Dotted(parts[1..])
  }

  function LoadParts(algorithm: Bytes, keyId: nat, expires: nat, userId: nat, guid: Bytes, data: Bytes)
    : (parts: seq<Bytes>)
    ensures |parts| == 6
  {
    [algorithm, EncodeInt(keyId), EncodeInt(expires), EncodeInt(userId), B64Encode(guid), data]
  }

  function Load(algorithm: Bytes, keyId: nat, expires: nat, userId: nat, guid: Bytes, data: Bytes): Bytes {
    Dotted(LoadParts(algorithm, keyId, expires, userId, guid, data))
  }

  /** What is signed: the version and the load. */
  function Content(version: Bytes, load: Bytes): Bytes {
    B64Encode(version) + [DOT] + B64Encode(load)
  }

  function PrintToken(content: Bytes, signature: Bytes): Bytes {
    content + [DOT] + B64Encode(signature)
  }

  // Round trip.

  ghost predicate DotFree(s: Text) {
    forall i :: 0 <= i < |s| ==> s[i] != DOT
  }

  lemma {:induction false} FindFirst(a: Text, b: Text)
    requires DotFree(a)
    ensures Find(a + [DOT] + b) == |a|
    decreases |a|
  {
    var s := a + [DOT] + b;
    if a == [] {
    } else {
      assert s[1..] == a[1..] + [DOT] + b;
      FindFirst(a[1..], b);
    }
  }

  lemma {:induction false} FindLastDot(a: Text, b: Text)
    requires DotFree(b)
    ensures FindLast(a + [DOT] + b) == |a|
    decreases |b|
  {
    var s := a + [DOT] + b;
    if b == [] {
    } else {
      assert s[..|s| - 1] == a + [DOT] + b[..|b| - 1];
      FindLastDot(a, b[..|b| - 1]);
    }
  }

  lemma SplitFirst(a: Bytes, b: Bytes, n: nat)
    requires DotFree(a) && n > 0
    ensures Split(a + [DOT] + b, n) == [a] + Split(b, n - 1)
  {
    var s := a + [DOT] + b;
    FindFirst(a, b);
    assert s[..|a|] == a && s[|a| + 1..] == b;
  }

  lemma EncodedDotFree(b: Bytes)
    ensures DotFree(B64Encode(b))
  {
    DecodeEncode(b);
  }

  lemma SplitStep(first: Bytes, rest: Bytes, parts: seq<Bytes>, n: nat)
    requires DotFree(first) && n > 0 && Split(rest, n - 1) == parts
    ensures Split(first + [DOT] + rest, n) == [first] + parts
  {
    SplitFirst(first, rest, n);
  }

  ghost predicate AllButLastDotFree(parts: seq<Bytes>) {
    forall i :: 0 <= i < |parts| - 1 ==> DotFree(parts[i])
  }

  lemma RestDotFree(parts: seq<Bytes>)
    requires |parts| > 1 && AllButLastDotFree(parts)
    ensures AllButLastDotFree(parts[1..]) && parts == [parts[0]] + parts[1..]
  {
    assert forall i :: 0 <= i < |parts[1..]| ==> parts[1..][i] == parts[i + 1];
  }

  /** Dot-free parts and a last one that may hold dots come back from the joined text. */
  lemma {:induction false} SplitDotted(parts: seq<Bytes>)
    requires parts != [] && AllButLastDotFree(parts)
    ensures Split(Dotted(parts), |parts| - 1) == parts
    decreases |parts|
  {
    if |parts| == 1 {
      assert parts == [parts[0]];
    } else {
      var first, rest := parts[0], parts[1..];
      RestDotFree(parts);
      SplitDotted(rest);
      SplitStep(first, Dotted(rest), rest, |parts| - 1);
    }
  }

  lemma IntDotFree(n: nat)
    ensures DotFree(EncodeInt(n))
  {
    IntRoundTrip(n);
    EncodedDotFree(IntToBytes(n).value);
  }

  /** The load splits back into its six fields; dots in the data stay in the data. */
  lemma LoadSplits(algorithm: Bytes, keyId: nat, expires: nat, userId: nat, guid: Bytes, data: Bytes)
    requires DotFree(algorithm)
    ensures Split(Load(algorithm, keyId, expires, userId, guid, data), 5)
         == [algorithm, EncodeInt(keyId), EncodeInt(expires), EncodeInt(userId), B64Encode(guid), data]
  {
    IntDotFree(keyId);
    IntDotFree(expires);
    IntDotFree(userId);
    EncodedDotFree(guid);
    SplitDotted(LoadParts(algorithm, keyId, expires, userId, guid, data));
  }

  lemma DecodeEncodeInt(n: nat)
    ensures DecodeInt(EncodeInt(n)) == Some(n)
  {
    IntRoundTrip(n);
    DecodeEncode(IntToBytes(n).value);
  }

  lemma ContentParts(version: Bytes, load: Bytes)
    ensures var content := Content(version, load);
      Find(content) == |B64Encode(version)| && content[Find(content) + 1..] == B64Encode(load)
  {
    EncodedDotFree(version);
    FindFirst(B64Encode(version), B64Encode(load));
  }

  lemma FourParts(v: Bytes, l: Bytes, s: Bytes)
    ensures v + [DOT] + l + [DOT] + s == v + [DOT] + (l + [DOT] + s)
  {
  }

  /** The parts of a printed token: content, signature and version. */
  lemma TokenParts(version: Bytes, load: Bytes, signature: Bytes)
    ensures var content := Content(version, load);
      var token := PrintToken(content, signature);
      && FindLast(token) == |content|
      && token[..|content|] == content && token[|content| + 1..] == B64Encode(signature)
      && BeforeDot(token) == B64Encode(version)
  {
    var v, l, s := B64Encode(version), B64Encode(load), B64Encode(signature);
    EncodedDotFree(version);
    EncodedDotFree(signature);
    FindLastDot(Content(version, load), s);
    FourParts(v, l, s);
    FindFirst(v, l + [DOT] + s);
  }

  /** A printed token is parsed by splitting its load. */
  lemma PrintedSplits(version: Bytes, load: Bytes, signature: Bytes, formats: Formats)
    ensures var content := Content(version, load);
      ParseV1(PrintToken(content, signature), formats)
      == ParseFields(content, B64Encode(signature), Split(load, 5), formats)
  {
    ContentParts(version, load);
    TokenParts(version, load, signature);
    DecodeEncode(load);
  }

  /** What the parser makes of the six fields as they were printed. */
  lemma FieldsParse(content: Text, signature: Text, algorithm: Bytes, keyId: nat, expires: nat, userId: nat,
                    guid: Bytes, data: Bytes, formats: Formats)
    ensures ParseFields(content, signature, LoadParts(algorithm, keyId, expires, userId, guid, data), formats)
      == if !formats.utf8(algorithm) then Err(ValueError)
         else if !formats.date(expires) then Err(DateOutOfRange)
         else if |guid| != 16 then Err(ValueError)
         else Ok(Fields(content, signature, algorithm, keyId, expires, userId, guid, data))
  {
    DecodeEncodeInt(keyId);
    DecodeEncodeInt(expires);
    DecodeEncodeInt(userId);
    DecodeEncode(guid);
  }

  /**
   Printing then parsing: any token with a dot-free algorithm name gives back every field, the
   signature text and the exact bytes that were signed, or the error for the first field that
   has no meaning: a name that is not UTF-8, an expiry outside the calendar, a guid of another
   length.
   */
  lemma ParsePrinted(algorithm: Bytes, keyId: nat, expires: nat, userId: nat, guid: Bytes, data: Bytes,
                     version: Bytes, signature: Bytes, formats: Formats)
    requires DotFree(algorithm)
    ensures var content := Content(version, Load(algorithm, keyId, expires, userId, guid, data));
      ParseV1(PrintToken(content, signature), formats)
      == if !formats.utf8(algorithm) then Err(ValueError)
         else if !formats.date(expires) then Err(DateOutOfRange)
         else if |guid| != 16 then Err(ValueError)
         else Ok(Fields(content, B64Encode(signature), algorithm, keyId, expires, userId, guid, data))
  {
    var load := Load(algorithm, keyId, expires, userId, guid, data);
    PrintedSplits(version, load, signature, formats);
    LoadSplits(algorithm, keyId, expires, userId, guid, data);
    FieldsParse(Content(version, load), B64Encode(signature), algorithm, keyId, expires, userId, guid, data, formats);
  }

  /** The version and the signature bytes come back too. */
  lemma PrintedVersion(version: Bytes, load: Bytes, signature: Bytes)
    ensures B64DecodeText(BeforeDot(PrintToken(Content(version, load), signature))) == Some(version)
    ensures B64DecodeText(B64Encode(signature)) == Some(signature)
  {
    TokenParts(version, load, signature);
    DecodeEncode(version);
    DecodeEncode(signature);
  }

  /** What the checks of `v1token` establish. */
  ghost predicate Authentic(f: Fields, w: World) {
    && B64DecodeText(f.signature).Some?
    && w.verified(f.keyId, f.algorithm, B64DecodeText(f.signature).value, f.content)
    && f.keyId > 0 && w.now <= f.expires as real
    && w.record(f.guid) == Some(Metadata(true, f.algorithm, f.expires, f.keyId))
    && w.formats.json(f.data)
  }

  lemma CheckedIsAuthentic(f: Fields, w: World)
    ensures Check(f, w) == Ok(f) <==> Authentic(f, w)
    ensures Check(f, w).Ok? ==> Check(f, w) == Ok(f)
  {
  }

  lemma VerifyParsed(token: Text, w: World, f: Fields, version: Bytes)
    requires B64DecodeText(BeforeDot(token)) == Some(version) && ParseV1(token, w.formats) == Ok(f)
    ensures VerifyToken(token, w) == Ok(f) <==> version == [49] && Authentic(f, w)
    ensures VerifyToken(token, w).Ok? ==> VerifyToken(token, w) == Ok(f)
  {
    CheckedIsAuthentic(f, w);
    assert version == [49] ==> VerifyToken(token, w) == Check(f, w);
  }

  lemma FieldsKeep(content: Text, signature: Text, parts: seq<Bytes>, formats: Formats)
    ensures var r := ParseFields(content, signature, parts, formats);
      r.Ok? ==> |parts| == 6 && r.value.content == content && r.value.signature == signature
                && r.value.algorithm == parts[0]
  {
  }

  lemma LoadKeeps(content: Text, signature: Text, load: Option<Bytes>, formats: Formats)
    ensures var r := ParseLoad(content, signature, load, formats);
      r.Ok? ==> r.value.content == content && r.value.signature == signature && DotFree(r.value.algorithm)
  {
    if load.Some? {
      FieldsKeep(content, signature, Split(load.value, 5), formats);
      SplitDotFree(load.value, 5);
    }
  }

  lemma CutAtLastDot(token: Text)
    requires FindLast(token) >= 0
    ensures var last := FindLast(token);
      token == token[..last] + [DOT] + token[last + 1..] && DotFree(token[last + 1..])
  {
    FindLastIsLast(token);
  }

  lemma ParsedPieces(token: Text, formats: Formats)
    ensures var r, last := ParseV1(token, formats), FindLast(token);
      r.Ok? ==> last >= 0 && r.value.content == token[..last] && r.value.signature == token[last + 1..]
                && DotFree(r.value.algorithm)
  {
    var last := FindLast(token);
    if last >= 0 {
      var content := token[..last];
      LoadKeeps(content, token[last + 1..], B64DecodeText(content[Find(content) + 1..]), formats);
    }
  }

  /** The parsed content, a dot and the parsed signature are the whole text. */
  lemma ParsedText(token: Text, formats: Formats)
    ensures ParseV1(token, formats).Ok? ==>
      var f := ParseV1(token, formats).value;
      token == f.content + [DOT] + f.signature && DotFree(f.signature) && DotFree(f.algorithm)
  {
    ParsedPieces(token, formats);
    if FindLast(token) >= 0 {
      CutAtLastDot(token);
    }
  }

  lemma VerifyIsCheck(token: Text, w: World)
    ensures VerifyToken(token, w).Ok? ==>
      ParseV1(token, w.formats).Ok? && VerifyToken(token, w) == Check(ParseV1(token, w.formats).value, w)
  {
  }

  /**
   Whatever text is presented: if checking it succeeds, it is the parsed content, a dot and
   the parsed signature, the signature was verified over exactly that content for the parsed
   key and algorithm, the token has not expired, and its record is active and agrees.
   */
  lemma AcceptedTokensAreSigned(token: Text, w: World)
    ensures VerifyToken(token, w).Ok? ==>
      var f := VerifyToken(token, w).value;
      token == f.content + [DOT] + f.signature && DotFree(f.signature) && Authentic(f, w)
  {
    if VerifyToken(token, w).Ok? {
      VerifyIsCheck(token, w);
      var f := ParseV1(token, w.formats).value;
      CheckedIsAuthentic(f, w);
      ParsedText(token, w.formats);
      assert VerifyToken(token, w).value == f;
    }
  }

  lemma {:induction false} FindLastIsLast(s: Text)
    ensures forall j :: FindLast(s) < j < |s| ==> s[j] != DOT
    decreases |s|
  {
    if s == [] {
    } else if s[|s| - 1] != DOT {
      FindLastIsLast(s[..|s| - 1]);
      forall j | FindLast(s) < j < |s| ensures s[j] != DOT {
        if j < |s| - 1 { assert s[j] == s[..|s| - 1][j]; }
      }
    }
  }

  lemma LoadInjective(a: Bytes, k: nat, e: nat, u: nat, g: Bytes, d: Bytes,
                      a': Bytes, k': nat, e': nat, u': nat, g': Bytes, d': Bytes)
    requires DotFree(a) && DotFree(a')
    requires Load(a, k, e, u, g, d) == Load(a', k', e', u', g', d')
    ensures (a, k, e, u, g, d) == (a', k', e', u', g', d')
  {
    LoadSplits(a, k, e, u, g, d);
    LoadSplits(a', k', e', u', g', d');
    var p, q := LoadParts(a, k, e, u, g, d), LoadParts(a', k', e', u', g', d');
    assert p == q && p[0] == q[0] && p[1] == q[1] && p[2] == q[2] && p[3] == q[3] && p[4] == q[4] && p[5] == q[5];
    DecodeEncodeInt(k);
    DecodeEncodeInt(k');
    DecodeEncodeInt(e);
    DecodeEncodeInt(e');
    DecodeEncodeInt(u);
    DecodeEncodeInt(u');
    DecodeEncode(g);
    DecodeEncode(g');
  }

  /** Different fields never have the same signed content. */
  lemma ContentInjective(a: Bytes, k: nat, e: nat, u: nat, g: Bytes, d: Bytes, v: Bytes,
                         a': Bytes, k': nat, e': nat, u': nat, g': Bytes, d': Bytes, v': Bytes)
    requires DotFree(a) && DotFree(a')
    requires Content(v, Load(a, k, e, u, g, d)) == Content(v', Load(a', k', e', u', g', d'))
    ensures (a, k, e, u, g, d, v) == (a', k', e', u', g', d', v')
  {
    PrintedVersion(v, Load(a, k, e, u, g, d), []);
    PrintedVersion(v', Load(a', k', e', u', g', d'), []);
    ContentParts(v, Load(a, k, e, u, g, d));
    ContentParts(v', Load(a', k', e', u', g', d'));
    DecodeEncode(Load(a, k, e, u, g, d));
    DecodeEncode(Load(a', k', e', u', g', d'));
    LoadInjective(a, k, e, u, g, d, a', k', e', u', g', d');
  }

  /**
   A token parses back to what was printed if and only if its name is dot-free UTF-8, its
   expiry a date, and its guid fits.
   */
  lemma RoundTripIff(algorithm: Bytes, keyId: nat, expires: nat, userId: nat, guid: Bytes, data: Bytes,
                     version: Bytes, signature: Bytes, formats: Formats)
    ensures var content := Content(version, Load(algorithm, keyId, expires, userId, guid, data));
      ParseV1(PrintToken(content, signature), formats)
      == Ok(Fields(content, B64Encode(signature), algorithm, keyId, expires, userId, guid, data))
      <==> DotFree(algorithm) && formats.utf8(algorithm) && formats.date(expires) && |guid| == 16
  {
    if !DotFree(algorithm) {
      var content := Content(version, Load(algorithm, keyId, expires, userId, guid, data));
      ParsedText(PrintToken(content, signature), formats);
    } else {
      ParsePrinted(algorithm, keyId, expires, userId, guid, data, version, signature, formats);
    }
  }

  /** A printed token is accepted as what was printed exactly when every condition on it holds. */
  lemma AcceptedIff(algorithm: Bytes, keyId: nat, expires: nat, userId: nat, guid: Bytes, data: Bytes,
                    version: Bytes, signature: Bytes, w: World)
    ensures var content := Content(version, Load(algorithm, keyId, expires, userId, guid, data));
      VerifyToken(PrintToken(content, signature), w)
      == Ok(Fields(content, B64Encode(signature), algorithm, keyId, expires, userId, guid, data))
      <==> && DotFree(algorithm) && |guid| == 16
           && w.formats.utf8(algorithm) && w.formats.date(expires) && w.formats.json(data)
           && version == [49] && keyId > 0 && w.now <= expires as real
           && w.verified(keyId, algorithm, signature, content)
           && w.record(guid) == Some(Metadata(true, algorithm, expires, keyId))
  {
    var content := Content(version, Load(algorithm, keyId, expires, userId, guid, data));
    var token := PrintToken(content, signature);
    var f := Fields(content, B64Encode(signature), algorithm, keyId, expires, userId, guid, data);
    RoundTripIff(algorithm, keyId, expires, userId, guid, data, version, signature, w.formats);
    if ParseV1(token, w.formats) == Ok(f) {
      PrintedVersion(version, Load(algorithm, keyId, expires, userId, guid, data), signature);
      VerifyParsed(token, w, f, version);
    } else {
      VerifyIsCheck(token, w);
      CheckKeeps(token, w);
    }
  }

  lemma CheckKeeps(token: Text, w: World)
    ensures VerifyToken(token, w).Ok? ==> VerifyToken(token, w) == ParseV1(token, w.formats)
  {
    if VerifyToken(token, w).Ok? {
      VerifyIsCheck(token, w);
      CheckedIsAuthentic(ParseV1(token, w.formats).value, w);
    }
  }

  // What a rejected token is answered.

  /** The store's record is for an active token with these fields. */
  predicate Agrees(m: Metadata, f: Fields) {
    m.active && m.algorithm == f.algorithm && m.expires == f.expires && m.keyId == f.keyId
  }

  /** Key id, expiry and signature are in order, so that the record is looked at. */
  predicate Genuine(f: Fields, w: World) {
    && f.keyId > 0 && w.now <= f.expires as real
    && B64DecodeText(f.signature).Some?
    && w.verified(f.keyId, f.algorithm, B64DecodeText(f.signature).value, f.content)
  }

  /** Each answer of the checks, exactly when it is given. */
  lemma CheckErrorsIff(f: Fields, w: World)
    ensures Check(f, w) == Err(Unauthorized) <==>
      !Genuine(f, w) || (w.record(f.guid).Some? && !Agrees(w.record(f.guid).value, f))
    ensures Check(f, w) == Err(RecordNotFound) <==> Genuine(f, w) && w.record(f.guid).None?
    ensures Check(f, w) == Err(ValueError) <==>
      Genuine(f, w) && w.record(f.guid).Some? && Agrees(w.record(f.guid).value, f) && !w.formats.json(f.data)
    ensures Check(f, w).Err? ==> Check(f, w).error in {Unauthorized, RecordNotFound, ValueError}
  {
  }

  /** Parsing fails with one of two errors, and without a dot with the first. */
  lemma ParseErrors(token: Text, formats: Formats)
    ensures ParseV1(token, formats).Err? ==> ParseV1(token, formats).error in {ValueError, DateOutOfRange}
    ensures DOT !in token ==> ParseV1(token, formats) == Err(ValueError)
  {
    var last := FindLast(token);
    if last >= 0 {
      DotAtLast(token);
      var content := token[..last];
      LoadErrors(content, token[last + 1..], B64DecodeText(content[Find(content) + 1..]), formats);
    }
  }

  lemma DotAtLast(token: Text)
    requires FindLast(token) >= 0
    ensures DOT in token
  {
    CutAtLastDot(token);
    assert DOT in token[..FindLast(token)] + [DOT] + token[FindLast(token) + 1..];
  }

  lemma LoadErrors(content: Text, signature: Text, load: Option<Bytes>, formats: Formats)
    ensures ParseLoad(content, signature, load, formats).Err? ==>
      ParseLoad(content, signature, load, formats).error in {ValueError, DateOutOfRange}
  {
  }

  /**
   Whatever text is presented, each error exactly when it is answered: first for the version,
   then for what does not parse, then for the first check that fails.
   */
  lemma RejectedIff(token: Text, w: World)
    ensures var r, version, parsed := VerifyToken(token, w), B64DecodeText(BeforeDot(token)), ParseV1(token, w.formats);
      var known := version == Some([49]);
      && (r == Err(InvalidToken) <==> version.Some? && !known)
      && (r == Err(DateOutOfRange) <==> known && parsed == Err(DateOutOfRange))
      && (r == Err(RecordNotFound) <==>
           known && parsed.Ok? && Genuine(parsed.value, w) && w.record(parsed.value.guid).None?)
      && (r == Err(Unauthorized) <==>
           && known && parsed.Ok?
           && (!Genuine(parsed.value, w)
               || (w.record(parsed.value.guid).Some? && !Agrees(w.record(parsed.value.guid).value, parsed.value))))
      && (r == Err(ValueError) <==>
           || version.None?
           || (known && parsed == Err(ValueError))
           || (known && parsed.Ok? && Genuine(parsed.value, w) && w.record(parsed.value.guid).Some?
               && Agrees(w.record(parsed.value.guid).value, parsed.value) && !w.formats.json(parsed.value.data)))
  {
    ParseErrors(token, w.formats);
    if ParseV1(token, w.formats).Ok? {
      CheckErrorsIff(ParseV1(token, w.formats).value, w);
    }
  }

  /** What is wrong with a printed token of version 1, if anything: the first of these. */
  function Fault(algorithm: Bytes, keyId: nat, expires: nat, guid: Bytes, data: Bytes, verified: bool, w: World)
    : Option<TokenError>
  {
    if !w.formats.utf8(algorithm) then Some(ValueError)
    else if !w.formats.date(expires) then Some(DateOutOfRange)
    else if |guid| != 16 then Some(ValueError)
    else if keyId == 0 || w.now > expires as real || !verified then Some(Unauthorized)
    else if w.record(guid) == None then Some(RecordNotFound)
    else if w.record(guid) != Some(Metadata(true, algorithm, expires, keyId)) then Some(Unauthorized)
    else if !w.formats.json(data) then Some(ValueError)
    else None
  }

  lemma CheckedFault(f: Fields, signature: Bytes, w: World)
    requires B64DecodeText(f.signature) == Some(signature)
    requires w.formats.utf8(f.algorithm) && w.formats.date(f.expires) && |f.guid| == 16
    ensures Check(f, w) ==
      match Fault(f.algorithm, f.keyId, f.expires, f.guid, f.data, w.verified(f.keyId, f.algorithm, signature, f.content), w)
      case Some(e) => Err(e)
      case None => Ok(f)
  {
  }

  lemma Dispatched(token: Text, w: World, version: Bytes, parsed: Result<Fields, TokenError>)
    requires B64DecodeText(BeforeDot(token)) == Some(version) && ParseV1(token, w.formats) == parsed
    ensures VerifyToken(token, w) ==
      if version != [49] then Err(InvalidToken) else if parsed.Err? then parsed else Check(parsed.value, w)
  {
  }

  /** A printed token with a dot-free name is answered with its first fault. */
  lemma PrintedFault(algorithm: Bytes, keyId: nat, expires: nat, userId: nat, guid: Bytes, data: Bytes,
                     version: Bytes, signature: Bytes, content: Bytes, w: World)
    requires DotFree(algorithm) && content == Content(version, Load(algorithm, keyId, expires, userId, guid, data))
    ensures VerifyToken(PrintToken(content, signature), w) ==
      if version != [49] then Err(InvalidToken)
      else
        match Fault(algorithm, keyId, expires, guid, data, w.verified(keyId, algorithm, signature, content), w)
        case Some(e) => Err(e)
        case None => Ok(Fields(content, B64Encode(signature), algorithm, keyId, expires, userId, guid, data))
  {
    var token := PrintToken(content, signature);
    ParsePrinted(algorithm, keyId, expires, userId, guid, data, version, signature, w.formats);
    PrintedVersion(version, Load(algorithm, keyId, expires, userId, guid, data), signature);
    Dispatched(token, w, version, ParseV1(token, w.formats));
    if ParseV1(token, w.formats).Ok? {
      CheckedFault(ParseV1(token, w.formats).value, signature, w);
    }
  }

  /** A printed token with a dot-free name is never accepted as anything else. */
  lemma AcceptedAsPrinted(algorithm: Bytes, keyId: nat, expires: nat, userId: nat, guid: Bytes, data: Bytes,
                          version: Bytes, signature: Bytes, w: World)
    requires DotFree(algorithm)
    ensures var content := Content(version, Load(algorithm, keyId, expires, userId, guid, data));
      var r := VerifyToken(PrintToken(content, signature), w);
      r.Ok? ==> r.value == Fields(content, B64Encode(signature), algorithm, keyId, expires, userId, guid, data)
  {
    var content := Content(version, Load(algorithm, keyId, expires, userId, guid, data));
    CheckKeeps(PrintToken(content, signature), w);
    ParsePrinted(algorithm, keyId, expires, userId, guid, data, version, signature, w.formats);
  }

  /** A piece that splitting has cut off holds no dot. */
  lemma SplitDotFree(s: Bytes, n: nat)
    ensures |Split(s, n)| > 1 ==> DotFree(Split(s, n)[0])
  {
    FindIsFirst(s);
  }

  lemma {:induction false} FindIsFirst(s: Text)
    ensures var i := Find(s); forall j :: 0 <= j < (if i == -1 then |s| else i) ==> s[j] != DOT
    decreases |s|
  {
    if s == [] {
    } else if s[0] != DOT {
      FindIsFirst(s[1..]);
      var i := Find(s);
      forall j | 0 <= j < (if i == -1 then |s| else i) ensures s[j] != DOT {
        if j > 0 { assert s[j] == s[1..][j - 1]; }
      }
    }
  }
}
