/**
 Signed cursors: a payload's JSON bytes in base64url, a dot, and the tag of that text. The tag function, the JSON
 text and its parsing with the schema check are parameters.
 */
module CursorCodec {
  import opened Wrappers
  import opened Base64Url
  import P = Pagination
  import CanonicalQuery

  datatype Codec<!P> = Codec(mac: string -> seq<Byte>, json: P -> seq<Byte>, parse: seq<Byte> -> Option<P>)

  datatype Error = InvalidCursor

  function Sign<P>(codec: Codec<P>, text: string): string {
    Encode(codec.mac(text))
  }

  function EncodeCursor<P>(codec: Codec<P>, payload: P): string {
    var encodedPayload := Encode(codec.json(payload));
    encodedPayload + "." + Sign(codec, encodedPayload)
  }

  /** raw.split('.') */
  function SplitDots(raw: string): (parts: seq<string>)
    ensures parts != []
  {
    if raw == "" then [""]
    else
      var rest := SplitDots(raw[1..]);
      if raw[0] == '.' then [""] + rest else [[raw[0]] + rest[0]] + rest[1..]
  }

  function DecodeCursor<P>(codec: Codec<P>, raw: string): Result<P, Error> {
    var parts := SplitDots(raw);
    if |parts| != 2 || parts[0] == "" || parts[1] == "" then Err(InvalidCursor)
    else if parts[1] != Sign(codec, parts[0]) then Err(InvalidCursor)
    else
      var parsed := codec.parse(Decode(parts[0]));
      if parsed.None? then Err(InvalidCursor) else Ok(parsed.value)
  }

  /** A cursor is the payload's bytes in base64url, a dot, and the tag of that text in base64url. */
  lemma CursorText<P>(codec: Codec<P>, payload: P)
    ensures var text := Encode(codec.json(payload));
            EncodeCursor(codec, payload) == text + "." + Encode(codec.mac(text))
  {
  }

  lemma {:induction false} NoDotOnePart(text: string)
    requires '.' !in text
    ensures SplitDots(text) == [text]
  {
    if text != "" {
      assert text[0] in text && text == [text[0]] + text[1..];
      NoDotOnePart(text[1..]);
    }
  }

  lemma {:induction false} OneDotTwoParts(a: string, b: string)
    requires '.' !in a && '.' !in b
    ensures SplitDots(a + "." + b) == [a, b]
  {
    if a == "" {
      assert (a + "." + b)[1..] == b;
      NoDotOnePart(b);
    } else {
      assert (a + "." + b)[1..] == a[1..] + "." + b && (a + "." + b)[0] == a[0];
      assert a[0] in a && a == [a[0]] + a[1..];
      OneDotTwoParts(a[1..], b);
    }
  }

  lemma {:induction false} PartsRebuild(raw: string)
    ensures forall part :: part in SplitDots(raw) ==> '.' !in part
    ensures |SplitDots(raw)| == 1 ==> raw == SplitDots(raw)[0]
    ensures |SplitDots(raw)| == 2 ==> raw == SplitDots(raw)[0] + "." + SplitDots(raw)[1]
  {
    if raw != "" {
      PartsRebuild(raw[1..]);
      var rest := SplitDots(raw[1..]);
      assert raw == [raw[0]] + raw[1..] && rest[0] in rest;
      assert forall part :: part in rest[1..] ==> part in rest;
    }
  }

  /** A cursor that was handed out decodes to its payload. */
  lemma DecodeUndoesEncode<P>(codec: Codec<P>, payload: P)
    requires codec.parse(codec.json(payload)) == Some(payload)
    requires codec.json(payload) != [] && forall text :: codec.mac(text) != []
    ensures DecodeCursor(codec, EncodeCursor(codec, payload)) == Ok(payload)
  {
    var encodedPayload := Encode(codec.json(payload));
    RoundTrip(codec.json(payload));
    RoundTrip(codec.mac(encodedPayload));
    OneDotTwoParts(encodedPayload, Sign(codec, encodedPayload));
  }

  /** What is accepted: a nonempty text, a dot and exactly that text's tag, where the text's bytes parse. */
  lemma AcceptedExactlyWhen<P>(codec: Codec<P>, raw: string, payload: P)
    requires forall text :: codec.mac(text) != []
    ensures DecodeCursor(codec, raw) == Ok(payload) <==>
            exists text :: text != "" && '.' !in text && raw == text + "." + Encode(codec.mac(text)) &&
                           codec.parse(Decode(text)) == Some(payload)
  {
    var parts := SplitDots(raw);
    PartsRebuild(raw);
    if DecodeCursor(codec, raw) == Ok(payload) {
      var text := parts[0];
      assert text != "" && '.' !in text && raw == text + "." + Sign(codec, text);
    }
    if text :| text != "" && '.' !in text && raw == text + "." + Encode(codec.mac(text)) &&
               codec.parse(Decode(text)) == Some(payload)
    {
      RoundTrip(codec.mac(text));
      OneDotTwoParts(text, Sign(codec, text));
    }
  }

  // ---- Cursors of a list request ----

  datatype Payload = Payload(key: P.SortKey, q: string)

  /** assertCursorMatchesQuery, with the JSON text of the canonical query as a parameter. */
  function AcceptCursor(codec: Codec<Payload>, locale: CanonicalQuery.Locale, text: CanonicalQuery.Json -> string,
                        raw: string, query: CanonicalQuery.Json): Option<P.SortKey>
  {
    match DecodeCursor(codec, raw)
    case Err(_) => None
    case Ok(payload) => if payload.q == text(CanonicalQuery.Canon(locale, query)) then Some(payload.key) else None
  }

  /**
   The cursor of a page is accepted, and yields the key it was made from, exactly on requests whose query is the
   same up to the order of filters and of their values.
   */
  lemma NextCursorAcceptedExactlyWhen(codec: Codec<Payload>, locale: CanonicalQuery.Locale,
                                      text: CanonicalQuery.Json -> string, key: P.SortKey,
                                      query: CanonicalQuery.Json, query': CanonicalQuery.Json)
    requires CanonicalQuery.Lawful(locale)
    requires CanonicalQuery.Separable(locale, query) && CanonicalQuery.Separable(locale, query')
    requires var issued := Payload(key, text(CanonicalQuery.Canon(locale, query)));
             codec.parse(codec.json(issued)) == Some(issued) && codec.json(issued) != []
    requires forall t :: codec.mac(t) != []
    requires text(CanonicalQuery.Canon(locale, query)) == text(CanonicalQuery.Canon(locale, query')) ==>
               CanonicalQuery.Canon(locale, query) == CanonicalQuery.Canon(locale, query')
    ensures var raw := EncodeCursor(codec, Payload(key, text(CanonicalQuery.Canon(locale, query))));
            AcceptCursor(codec, locale, text, raw, query') ==
            if CanonicalQuery.Reordered(locale, query, query') then Some(key) else None
  {
    DecodeUndoesEncode(codec, Payload(key, text(CanonicalQuery.Canon(locale, query))));
    CanonicalQuery.SameCanonExactlyWhen(locale, query, query');
  }
}
