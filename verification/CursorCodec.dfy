/**
 * The feed cursor as a token: JSON, base64url (section 5 of RFC 4648), a dot, and a keyed hash of
 * the text before the dot. JSON and the keyed hash (section 2 of RFC 2104) are functions here.
 */
module CursorCodec {
  import opened Sequences
  import Feed
  import Personalized

  type Byte = n: int | 0 <= n < 256

  type Sextet = n: int | 0 <= n < 64

  // ---- base64url ----

  function CharOf(n: Sextet): char {
    if n < 26 then 'A' + n as char
    else if n < 52 then 'a' + (n - 26) as char
    else if n < 62 then '0' + (n - 52) as char
    else if n == 62 then '-' else '_'
  }

  function ValueOf(c: char): Option<Sextet> {
    if 'A' <= c <= 'Z' then Some(c as int - 'A' as int)
    else if 'a' <= c <= 'z' then Some(c as int - 'a' as int + 26)
    else if '0' <= c <= '9' then Some(c as int - '0' as int + 52)
    else if c == '-' then Some(62)
    else if c == '_' then Some(63)
    else None
  }

  lemma ValueOfChar(n: Sextet)
    ensures ValueOf(CharOf(n)) == Some(n) && CharOf(n) != '=' && CharOf(n) != '.'
  {
  }

  /** Four characters for three bytes; a shorter rest is padded with '='. */
  function EncodeGroup(b: seq<Byte>): string
    requires 1 <= |b| <= 3
  {
    var b1 := if |b| > 1 then b[1] else 0;
    var b2 := if |b| > 2 then b[2] else 0;
    [CharOf(b[0] / 4), CharOf(b[0] % 4 * 16 + b1 / 16)]
    + [if |b| > 1 then CharOf(b1 % 16 * 4 + b2 / 64) else '=']
    + [if |b| > 2 then CharOf(b2 % 64) else '=']
  }

  function Encode64(bytes: seq<Byte>): string {
    if bytes == [] then []
    else EncodeGroup(bytes[..Min(3, |bytes|)]) + Encode64(bytes[Min(3, |bytes|)..])
  }

  function DecodeGroup(s: string): Option<seq<Byte>>
    requires |s| == 4
  {
    var v0, v1, v2, v3 := ValueOf(s[0]), ValueOf(s[1]), ValueOf(s[2]), ValueOf(s[3]);
    if v0.None? || v1.None? then None
    else
      var first := v0.value * 4 + v1.value / 16;
      if s[2] == '=' && s[3] == '=' then Some([first])
      else if v2.None? then None
      else
        var second := v1.value % 16 * 16 + v2.value / 4;
        if s[3] == '=' then Some([first, second])
        else if v3.None? then None
        else Some([first, second, v2.value % 4 * 64 + v3.value])
  }

  /** Padding ends the text. */
  function Decode64(s: string): Option<seq<Byte>> {
    if s == [] then Some([])
    else if |s| < 4 then None
    else
      var group := DecodeGroup(s[..4]);
      if group.None? then None
      else if |group.value| < 3 then (if |s| == 4 then group else None)
      else
        var rest := Decode64(s[4..]);
        if rest.None? then None else Some(group.value + rest.value)
  }

  /** Three bytes and four sextets hold the same 24 bits. */
  lemma Regroup(b0: Byte, b1: Byte, b2: Byte)
    ensures var q1, q2 := b0 % 4 * 16 + b1 / 16, b1 % 16 * 4 + b2 / 64;
            && 0 <= q1 < 64 && 0 <= q2 < 64
            && b0 / 4 * 4 + q1 / 16 == b0 && q1 % 16 * 16 + q2 / 4 == b1 && q2 % 4 * 64 + b2 % 64 == b2
  {
  }

  lemma DecodeChars(q0: Sextet, q1: Sextet, q2: Sextet, q3: Sextet)
    ensures DecodeGroup([CharOf(q0), CharOf(q1), '=', '=']) == Some([q0 * 4 + q1 / 16])
    ensures DecodeGroup([CharOf(q0), CharOf(q1), CharOf(q2), '=']) == Some([q0 * 4 + q1 / 16, q1 % 16 * 16 + q2 / 4])
    ensures DecodeGroup([CharOf(q0), CharOf(q1), CharOf(q2), CharOf(q3)])
            == Some([q0 * 4 + q1 / 16, q1 % 16 * 16 + q2 / 4, q2 % 4 * 64 + q3])
  {
    ValueOfChar(q0);
    ValueOfChar(q1);
    ValueOfChar(q2);
    ValueOfChar(q3);
  }

  lemma GroupRoundTrip(b: seq<Byte>)
    requires 1 <= |b| <= 3
    ensures DecodeGroup(EncodeGroup(b)) == Some(b)
  {
    var b1 := if |b| > 1 then b[1] else 0;
    var b2 := if |b| > 2 then b[2] else 0;
    if |b| == 1 {
      OneByte(b[0]);
      assert b == [b[0]];
    } else if |b| == 2 {
      TwoBytes(b[0], b1);
      assert b == [b[0], b1];
    } else {
      ThreeBytes(b[0], b1, b2);
      assert b == [b[0], b1, b2];
    }
  }

  lemma OneByte(b0: Byte)
    ensures DecodeGroup(EncodeGroup([b0])) == Some([b0])
  {
    var q0, q1 := b0 / 4, b0 % 4 * 16;
    DecodeChars(q0, q1, 0, 0);
    assert EncodeGroup([b0]) == [CharOf(q0), CharOf(q1), '=', '='];
  }

  lemma TwoBytes(b0: Byte, b1: Byte)
    ensures DecodeGroup(EncodeGroup([b0, b1])) == Some([b0, b1])
  {
    var q0, q1, q2 := b0 / 4, b0 % 4 * 16 + b1 / 16, b1 % 16 * 4;
    Regroup(b0, b1, 0);
    DecodeChars(q0, q1, q2, 0);
    assert EncodeGroup([b0, b1]) == [CharOf(q0), CharOf(q1), CharOf(q2), '='];
  }

  lemma EncodeThree(b0: Byte, b1: Byte, b2: Byte)
    ensures EncodeGroup([b0, b1, b2])
            == [CharOf(b0 / 4), CharOf(b0 % 4 * 16 + b1 / 16), CharOf(b1 % 16 * 4 + b2 / 64), CharOf(b2 % 64)]
  {
  }

  lemma ThreeBytes(b0: Byte, b1: Byte, b2: Byte)
    ensures DecodeGroup(EncodeGroup([b0, b1, b2])) == Some([b0, b1, b2])
  {
    Regroup(b0, b1, b2);
    DecodeChars(b0 / 4, b0 % 4 * 16 + b1 / 16, b1 % 16 * 4 + b2 / 64, b2 % 64);
    EncodeThree(b0, b1, b2);
  }

  lemma DecodeFirst(s: string, group: seq<Byte>, rest: seq<Byte>)
    requires |s| >= 4 && DecodeGroup(s[..4]) == Some(group) && Decode64(s[4..]) == Some(rest)
    requires |group| == 3 || |s| == 4
    ensures Decode64(s) == Some(group + rest)
  {
    if |s| == 4 {
      assert group + rest == group;
    }
  }

  lemma FirstGroup(bytes: seq<Byte>, n: nat)
    requires bytes != [] && n == Min(3, |bytes|)
    ensures var s := Encode64(bytes);
            && |s| >= 4 && s[..4] == EncodeGroup(bytes[..n]) && s[4..] == Encode64(bytes[n..])
            && (n == 3 || |s| == 4)
  {
    assert n < 3 ==> bytes[n..] == [];
  }

  lemma {:induction false} Base64RoundTrip(bytes: seq<Byte>)
    ensures Decode64(Encode64(bytes)) == Some(bytes)
  {
    if bytes != [] {
      var n := Min(3, |bytes|);
      GroupRoundTrip(bytes[..n]);
      Base64RoundTrip(bytes[n..]);
      FirstGroup(bytes, n);
      DecodeFirst(Encode64(bytes), bytes[..n], bytes[n..]);
      assert bytes[..n] + bytes[n..] == bytes;
    }
  }

  // ---- JSON ----

  datatype Json =
    | Null
    | Bool(b: bool)
    | Int(n: int)
    | Float(x: int)
    | Str(text: string)
    | List(items: seq<Json>)
    | Object(fields: map<string, Json>)

  /** `json.dumps` writes ASCII; `json.loads` reads bytes and may raise; `sign` is the keyed hash in hex. */
  datatype Library = Library(dumps: map<string, Json> -> seq<Byte>, loads: seq<Byte> -> Option<Json>,
          sign: string -> string)

  predicate Ascii(s: string) {
    forall c :: c in s ==> c < 128 as char
  }

  ghost predicate Lawful(lib: Library) {
    && (forall m :: lib.dumps(m) != [] && lib.loads(lib.dumps(m)) == Some(Object(m)))
    && (forall s :: '.' !in lib.sign(s) && Ascii(lib.sign(s)))
  }

  // ---- the cursor ----

  const MAX_SESSION_ID_LEN: nat := 64

  /** Fields hold whatever JSON value was decoded; validation looks at the first six. */
  datatype Cursor = Cursor(sessionId: Json, seed: Json, page: Json, mode: Json, personalizedOffset: Json,
          collaborativeOffset: Json,
                           popularLastScore: Json, popularLastBookId: Json, newLastId: Json, explorationLastKey: Json)

  /** A cursor, the error the client sees, or an exception of another kind. */
  datatype Result = Ok(cursor: Cursor) | InvalidRecoCursor | Raised

  /** `isinstance(x, int)`, which holds of a boolean too. */
  predicate IsInt(j: Json) {
    j.Int? || j.Bool?
  }

  predicate IsCount(j: Json) {
    (j.Int? && j.n >= 0) || j.Bool?
  }

  predicate Valid(c: Cursor) {
    && c.sessionId.Str? && 0 < |c.sessionId.text| <= MAX_SESSION_ID_LEN
    && IsInt(c.seed) && IsCount(c.page)
    && (c.mode == Str("vector") || c.mode == Str("collaborative"))
    && IsCount(c.personalizedOffset) && IsCount(c.collaborativeOffset)
  }

  function Data(c: Cursor): map<string, Json> {
    map["sid" := c.sessionId, "s" := c.seed, "p" := c.page, "pm" := c.mode,
        "po" := c.personalizedOffset, "co" := c.collaborativeOffset,
        "ps" := c.popularLastScore, "pb" := c.popularLastBookId, "nl" := c.newLastId, "er" := c.explorationLastKey]
  }

  function Encode(lib: Library, c: Cursor): string {
    var payload := Encode64(lib.dumps(Data(c)));
    payload + "." + lib.sign(payload)
  }

  /** `rpartition(".")`: what is before and after the last dot. */
  function LastDot(token: string): Option<nat> {
    if token == [] then None
    else if token[|token| - 1] == '.' then Some(|token| - 1)
    else LastDot(token[..|token| - 1])
  }

  function Get(data: map<string, Json>, key: string, default: Json): Json {
    if key in data then data[key] else default
  }

  function FromData(data: map<string, Json>): Result {
    if "sid" !in data || "s" !in data || "p" !in data then InvalidRecoCursor
    else
      var c := Cursor(data["sid"], data["s"], data["p"],
                      Get(data, "pm", Str("vector")), Get(data, "po", Int(0)), Get(data, "co", Int(0)),
                      Get(data, "ps", Null), Get(data, "pb", Null), Get(data, "nl", Null), Get(data, "er", Null));
      if Valid(c) then Ok(c) else InvalidRecoCursor
  }

  /** Decoding a payload whose signature is right. */
  function Read(lib: Library, payload: string): Result {
    var bytes := Decode64(payload);
    if bytes.None? then InvalidRecoCursor
    else
      var json := lib.loads(bytes.value);
      if json.None? || !json.value.Object? then InvalidRecoCursor
      else FromData(json.value.fields)
  }

  /** `hmac.compare_digest` raises on a text that is not ASCII, outside the `try`. */
  function Decode(lib: Library, token: string): Result {
    var dot := LastDot(token);
    if dot.None? || dot.value >= |token| then InvalidRecoCursor
    else
      var payload, signature := token[..dot.value], token[dot.value + 1..];
      if payload == [] then InvalidRecoCursor
      else if !Ascii(signature) then Raised
      else if lib.sign(payload) != signature then InvalidRecoCursor
      else Read(lib, payload)
  }

  lemma {:induction false} LastDotFound(payload: string, signature: string)
    requires '.' !in signature
    ensures LastDot(payload + "." + signature) == Some(|payload|)
    decreases |signature|
  {
    var token := payload + "." + signature;
    if signature != [] {
      var n := |signature| - 1;
      assert token[..|token| - 1] == payload + "." + signature[..n];
      assert signature[n] in signature;
      LastDotFound(payload, signature[..n]);
    }
  }

  /** A properly signed token is read as the object that was written. */
  lemma TokenReads(lib: Library, data: map<string, Json>)
    requires Lawful(lib)
    ensures var payload := Encode64(lib.dumps(data));
            Decode(lib, payload + "." + lib.sign(payload)) == FromData(data)
  {
    var bytes := lib.dumps(data);
    var payload := Encode64(bytes);
    var token := payload + "." + lib.sign(payload);
    Base64RoundTrip(bytes);
    LastDotFound(payload, lib.sign(payload));
    assert token[..|payload|] == payload && token[|payload| + 1..] == lib.sign(payload);
    assert lib.loads(bytes) == Some(Object(data));
  }

  lemma DataReads(c: Cursor)
    requires Valid(c)
    ensures FromData(Data(c)) == Ok(c)
  {
  }

  /** Every valid cursor survives the trip to the client and back, empty fields included. */
  lemma CursorRoundTrips(lib: Library, c: Cursor)
    requires Lawful(lib) && Valid(c)
    ensures Decode(lib, Encode(lib, c)) == Ok(c)
  {
    TokenReads(lib, Data(c));
    DataReads(c);
  }

  /** What is accepted carries a true signature and passes validation. */
  lemma AcceptedIsSignedAndValid(lib: Library, token: string)
    requires Decode(lib, token).Ok?
    ensures Valid(Decode(lib, token).cursor)
    ensures exists payload :: token == payload + "." + lib.sign(payload)
  {
    var dot := LastDot(token).value;
    var payload := token[..dot];
    LastDotIsDot(token);
    assert token == payload + "." + lib.sign(payload);
  }

  lemma {:induction false} LastDotIsDot(token: string)
    ensures LastDot(token).Some? ==>
              var dot := LastDot(token).value;
              && dot < |token| && token[dot] == '.'
              && '.' !in token[dot + 1..] && token == token[..dot] + "." + token[dot + 1..]
  {
    if token != [] && token[|token| - 1] != '.' {
      var front := token[..|token| - 1];
      LastDotIsDot(front);
      if LastDot(front).Some? {
        var dot := LastDot(front).value;
        assert token[dot + 1..] == front[dot + 1..] + [token[|token| - 1]];
      }
    }
  }

  /** The parts before and after the last dot. */
  ghost predicate SplitsInto(token: string, payload: string, signature: string) {
    token == payload + "." + signature && '.' !in signature
  }

  lemma DecodeSplit(lib: Library, token: string, payload: string, signature: string)
    requires SplitsInto(token, payload, signature)
    ensures Decode(lib, token)
            == if payload == [] then InvalidRecoCursor
               else if !Ascii(signature) then Raised
               else if lib.sign(payload) != signature then InvalidRecoCursor
               else Read(lib, payload)
  {
    LastDotFound(payload, signature);
    assert token[..|payload|] == payload && token[|payload| + 1..] == signature;
  }

  /**
   * Every token there is: it raises if and only if something stands before its last dot and a character
   * that is not ASCII after it; it is accepted if and only if it is a payload with the payload's own
   * signature and the payload reads as a valid cursor; all other tokens are the client's error.
   */
  lemma DecodeExactly(lib: Library, token: string)
    requires Lawful(lib)
    ensures Decode(lib, token).Raised? <==>
              exists payload, signature :: SplitsInto(token, payload, signature) && payload != [] && !Ascii(signature)
    ensures Decode(lib, token).Ok? <==>
              exists payload :: SplitsInto(token, payload, lib.sign(payload)) && payload != [] && Read(lib, payload).Ok?
  {
    LastDotIsDot(token);
    if LastDot(token).Some? {
      var dot := LastDot(token).value;
      DecodeSplit(lib, token, token[..dot], token[dot + 1..]);
      assert SplitsInto(token, token[..dot], token[dot + 1..]);
    }
    forall payload, signature | SplitsInto(token, payload, signature)
      ensures Decode(lib, token)
              == if payload == [] then InvalidRecoCursor
                 else if !Ascii(signature) then Raised
                 else if lib.sign(payload) != signature then InvalidRecoCursor
                 else Read(lib, payload)
    {
      DecodeSplit(lib, token, payload, signature);
    }
  }

  /** An integer from 0, or a boolean, which Python takes for one; a missing value is as given. */
  predicate CountAt(data: map<string, Json>, key: string, whenMissing: bool) {
    if key !in data then whenMissing
    else match data[key]
      case Int(n) => n >= 0
      case Bool(_) => true
      case _ => false
  }

  /**
   * A signed object is accepted if and only if it has a session id of 1 to 64 characters, an integer seed,
   * a page and offsets from 0, and one of the two modes, the offsets and the mode being optional; each field
   * of the cursor is then the value under its name, or its default.
   */
  lemma SignedObjectReadsExactly(lib: Library, data: map<string, Json>)
    requires Lawful(lib)
    ensures var payload := Encode64(lib.dumps(data));
            var r := Decode(lib, payload + "." + lib.sign(payload));
            && (r.Ok? <==>
                  && "sid" in data && data["sid"].Str? && 1 <= |data["sid"].text| <= 64
                  && "s" in data && (data["s"].Int? || data["s"].Bool?)
                  && CountAt(data, "p", false) && CountAt(data, "po", true) && CountAt(data, "co", true)
                  && ("pm" in data ==> data["pm"] in {Str("vector"), Str("collaborative")}))
            && (!r.Ok? ==> r == InvalidRecoCursor)
            && (r.Ok? ==>
                  var c := r.cursor;
                  && c.sessionId == data["sid"] && c.seed == data["s"] && c.page == data["p"]
                  && c.mode == (if "pm" in data then data["pm"] else Str("vector"))
                  && c.personalizedOffset == (if "po" in data then data["po"] else Int(0))
                  && c.collaborativeOffset == (if "co" in data then data["co"] else Int(0))
                  && c.popularLastScore == (if "ps" in data then data["ps"] else Null)
                  && c.popularLastBookId == (if "pb" in data then data["pb"] else Null)
                  && c.newLastId == (if "nl" in data then data["nl"] else Null)
                  && c.explorationLastKey == (if "er" in data then data["er"] else Null))
  {
    TokenReads(lib, data);
  }

  /** A token written before the optional fields existed reads as the start of that session's feed. */
  lemma OlderTokensStillRead(lib: Library, sessionId: string, seed: int, page: nat)
    requires Lawful(lib) && 0 < |sessionId| <= MAX_SESSION_ID_LEN
    ensures var payload := Encode64(lib.dumps(map["sid" := Str(sessionId), "s" := Int(seed), "p" := Int(page)]));
            Decode(lib, payload + "." + lib.sign(payload)) == Ok(Wire(Feed.InitialCursor(seed, sessionId).(page := page)))
  {
    TokenReads(lib, map["sid" := Str(sessionId), "s" := Int(seed), "p" := Int(page)]);
  }

  // ---- the cursor the feed works with ----

  function Optional(n: Option<int>): Json {
    if n.Some? then Int(n.value) else Null
  }

  /** The popularity score travels as a float, in units of its fourth decimal. */
  function Score(n: Option<int>): Json {
    if n.Some? then Float(n.value) else Null
  }

  function Wire(c: Feed.Cursor): Cursor {
    Cursor(Str(c.sessionId), Int(c.seed), Int(c.page),
           Str(if c.personalized.mode == Personalized.Vector then "vector" else "collaborative"),
           Int(c.personalized.offset), Int(c.personalized.collaborativeOffset),
           Score(c.popularLastScore), Optional(c.popularLastId), Optional(c.newLastId), Optional(c.explorationLastKey))
  }

  /** A feed cursor comes back as itself, and no two feed cursors share a token. */
  lemma FeedCursorRoundTrips(lib: Library, c: Feed.Cursor, d: Feed.Cursor)
    requires Lawful(lib) && 0 < |c.sessionId| <= MAX_SESSION_ID_LEN && 0 < |d.sessionId| <= MAX_SESSION_ID_LEN
    ensures Decode(lib, Encode(lib, Wire(c))) == Ok(Wire(c))
    ensures Encode(lib, Wire(c)) == Encode(lib, Wire(d)) ==> c == d
  {
    CursorRoundTrips(lib, Wire(c));
    CursorRoundTrips(lib, Wire(d));
    if Wire(c) == Wire(d) {
      WireInjective(c, d);
    }
  }

  lemma WireInjective(c: Feed.Cursor, d: Feed.Cursor)
    requires Wire(c) == Wire(d)
    ensures c == d
  {
    assert Score(c.popularLastScore) == Score(d.popularLastScore);
    ScoreInjective(c.popularLastScore, d.popularLastScore);
    assert |"vector"| != |"collaborative"|;
    assert Str(c.sessionId).text == Str(d.sessionId).text;
  }

  lemma ScoreInjective(a: Option<int>, b: Option<int>)
    requires Score(a) == Score(b)
    ensures a == b
  {
  }
}
