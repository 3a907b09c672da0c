/**
 * JSON values as they travel, SQL values as they are stored, and the two
 * conversions between them. BLOBs travel as a one-entry object holding
 * lowercase hex (section 8 of RFC 4648).
 */
module Values {
  import opened Common

  type Byte = n: nat | n < 256

  datatype Field = Field(name: string, value: Json)

  datatype Json =
    | JNull
    | JBool(b: bool)
    | JNumber(n: int)
    | JString(s: string)
    | JArray(items: seq<Json>)
    | JObject(fields: seq<Field>)

  datatype SqlValue =
    | Null
    | Integer(i: int)
    | Text(s: string)
    | Blob(bytes: seq<Byte>)

  const BLOB_HEX_TAG := "$blob_hex"
  const I64_MIN: int := -0x8000_0000_0000_0000
  const I64_MAX: int := 0x7FFF_FFFF_FFFF_FFFF

  predicate FitsI64(n: int) {
    I64_MIN <= n <= I64_MAX
  }

  function HexDigit(n: nat): char
    requires n < 16
  {
    if n < 10 then '0' + n as char else 'a' + (n - 10) as char
  }

  /** The value of a lowercase hex digit. */
  function Nibble(c: char): (r: Option<nat>)
    ensures r.Some? ==> r.value < 16
  {
    if '0' <= c <= '9' then Some((c - '0') as nat)
    else if 'a' <= c <= 'f' then Some((c - 'a') as nat + 10)
    else None
  }

  lemma NibbleInvertsHexDigit(n: nat)
    requires n < 16
    ensures Nibble(HexDigit(n)) == Some(n)
  {
  }

  lemma HexDigitInvertsNibble(c: char)
    requires Nibble(c).Some?
    ensures HexDigit(Nibble(c).value) == c
  {
  }

  function HexOf(bytes: seq<Byte>): string {
    if bytes == [] then ""
    else HexOf(bytes[..|bytes| - 1]) + [HexDigit(bytes[|bytes| - 1] / 16), HexDigit(bytes[|bytes| - 1] % 16)]
  }

  method EncodeHex(bytes: seq<Byte>) returns (s: string)
    ensures s == HexOf(bytes)
    ensures DecodeHex(s) == Some(bytes)
  {
    s := "";
    for i := 0 to |bytes|
      invariant s == HexOf(bytes[..i])
    {
      assert bytes[..i + 1][..i] == bytes[..i];
      s := s + [HexDigit(bytes[i] / 16), HexDigit(bytes[i] % 16)];
    }
    assert bytes[..|bytes|] == bytes;
    DecodeInvertsEncode(bytes);
  }

  /** Fails on an odd length and on any character outside `0-9a-f`. */
  function DecodeHex(s: string): Option<seq<Byte>> {
    if s == "" then Some([])
    else if |s| == 1 then None
    else
      match (DecodeHex(s[..|s| - 2]), Nibble(s[|s| - 2]), Nibble(s[|s| - 1]))
      case (Some(front), Some(hi), Some(lo)) => Some(front + [hi * 16 + lo])
      case _ => None
  }

  lemma {:induction false} DecodeInvertsEncode(bytes: seq<Byte>)
    ensures DecodeHex(HexOf(bytes)) == Some(bytes)
  {
    if bytes != [] {
      var front, last := bytes[..|bytes| - 1], bytes[|bytes| - 1];
      DecodeInvertsEncode(front);
      NibbleInvertsHexDigit(last / 16);
      NibbleInvertsHexDigit(last % 16);
      var s := HexOf(bytes);
      assert s[..|s| - 2] == HexOf(front);
      assert front + [last] == bytes;
    }
  }

  lemma ByteNibbles(hi: nat, lo: nat)
    requires hi < 16 && lo < 16
    ensures (hi * 16 + lo) / 16 == hi && (hi * 16 + lo) % 16 == lo
  {
  }

  lemma HexOfAppend(front: seq<Byte>, last: Byte)
    ensures HexOf(front + [last]) == HexOf(front) + [HexDigit(last / 16), HexDigit(last % 16)]
  {
    assert (front + [last])[..|front|] == front;
  }

  lemma {:induction false} EncodeInvertsDecode(s: string)
    requires DecodeHex(s).Some?
    ensures HexOf(DecodeHex(s).value) == s
  {
    if s != "" {
      var front, hi, lo := s[..|s| - 2], Nibble(s[|s| - 2]).value, Nibble(s[|s| - 1]).value;
      EncodeInvertsDecode(front);
      HexDigitInvertsNibble(s[|s| - 2]);
      HexDigitInvertsNibble(s[|s| - 1]);
      ByteNibbles(hi, lo);
      HexOfAppend(DecodeHex(front).value, hi * 16 + lo);
    }
  }

  /**
   * What an inbound JSON value is stored as; `None` is the malformed BLOB tag.
   * `render` stands for the external JSON printer.
   */
  function ToSql(render: Json -> string, j: Json): Option<SqlValue> {
    match j
    case JNull => Some(Null)
    case JBool(b) => Some(Integer(if b then 1 else 0))
    case JNumber(n) => Some(if FitsI64(n) then Integer(n) else Text(render(j)))
    case JString(s) => Some(Text(s))
    case JObject(fields) =>
      if |fields| == 1 && fields[0].name == BLOB_HEX_TAG then
        if fields[0].value.JString? then
          match DecodeHex(fields[0].value.s)
          case Some(bytes) => Some(Blob(bytes))
          case None => None
        else None
      else Some(Text(render(j)))
    case JArray(_) => Some(Text(render(j)))
  }

  function ToJson(v: SqlValue): Json {
    match v
    case Null => JNull
    case Integer(i) => JNumber(i)
    case Text(s) => JString(s)
    case Blob(bytes) => JObject([Field(BLOB_HEX_TAG, JString(HexOf(bytes)))])
  }

  /** A BLOB tag around anything but an even number of lowercase hex digits. */
  ghost predicate MalformedBlob(j: Json) {
    && j.JObject? && |j.fields| == 1 && j.fields[0].name == "$blob_hex"
    && !exists bytes: seq<Byte> :: j.fields[0].value == JString(HexOf(bytes))
  }

  /** Only a malformed BLOB tag is refused; every other value is stored as its own kind, or else as its JSON text. */
  lemma InboundValueMeans(render: Json -> string, j: Json)
    ensures ToSql(render, j).None? <==> MalformedBlob(j)
    ensures ToSql(render, j) == Some(Null) <==> j == JNull
    ensures forall i: int :: ToSql(render, j) == Some(Integer(i)) <==>
              (j == JBool(true) && i == 1) || (j == JBool(false) && i == 0)
              || (j == JNumber(i) && -0x8000_0000_0000_0000 <= i < 0x8000_0000_0000_0000)
    ensures forall s :: j == JString(s) ==> ToSql(render, j) == Some(Text(s))
    ensures j.JArray? || (j.JObject? && !(|j.fields| == 1 && j.fields[0].name == "$blob_hex"))
            || (j.JNumber? && !(-0x8000_0000_0000_0000 <= j.n < 0x8000_0000_0000_0000)) ==>
              ToSql(render, j) == Some(Text(render(j)))
  {
    hide DecodeHex, HexOf;
    if j.JObject? && |j.fields| == 1 && j.fields[0].name == BLOB_HEX_TAG && j.fields[0].value.JString? {
      var s := j.fields[0].value.s;
      if DecodeHex(s).Some? {
        EncodeInvertsDecode(s);
      }
      forall bytes | s == HexOf(bytes)
        ensures DecodeHex(s) == Some(bytes)
      {
        DecodeInvertsEncode(bytes);
      }
    }
  }

  /** A stored value survives the trip to a peer unchanged. */
  lemma StoredValueRoundTrip(render: Json -> string, v: SqlValue)
    requires v.Integer? ==> FitsI64(v.i)
    ensures ToSql(render, ToJson(v)) == Some(v)
  {
    if v.Blob? {
      DecodeInvertsEncode(v.bytes);
    }
  }

  /** One BLOB has exactly one JSON spelling. */
  lemma BlobSpellingIsUnique(render: Json -> string, j: Json, bytes: seq<Byte>)
    ensures ToSql(render, j) == Some(Blob(bytes)) <==> j == ToJson(Blob(bytes))
  {
    if ToSql(render, j) == Some(Blob(bytes)) {
      EncodeInvertsDecode(j.fields[0].value.s);
      assert j.fields == [j.fields[0]];
    }
    DecodeInvertsEncode(bytes);
  }
}
