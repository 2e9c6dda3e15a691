/**
 * The property-metadata URI of the Hardhat test helper `generateUri`: a
 * fixed-layout JSON object with the property's attributes, encoded in
 * Base64 and wrapped in a `data:application/json;base64,` URI (RFC 2397),
 * together with the way the web front end reads it back.
 */
module PropertyMetadata {
  import opened Wrappers
  import Base64
  import Decimal

  /** Number.MAX_SAFE_INTEGER: up to here a JavaScript number holds every integer exactly. */
  const MaxSafeInteger: int := 9007199254740991

  type SafeInteger = n: int | -MaxSafeInteger <= n <= MaxSafeInteger

  /** Printable ASCII other than `"` and `\`: characters which `JSON.stringify` copies into a string literal unchanged. */
  predicate IsPlainJsonChar(c: char) {
    ' ' <= c <= '~' && c != '"' && c != '\\'
  }

  predicate IsPlainJsonText(s: string) {
    forall i :: 0 <= i < |s| ==> IsPlainJsonChar(s[i])
  }

  predicate IsAsciiText(s: string) {
    forall i :: 0 <= i < |s| ==> s[i] as int < 128
  }

  /** `"" + n` for an integer-valued JavaScript number: an optional minus sign and the decimal numeral of |n|. */
  function NumberToString(n: SafeInteger): (r: string)
    ensures |r| >= 1 && IsPlainJsonText(r)
    ensures (r[0] == '-') == (n < 0)
    ensures var digits := if n < 0 then r[1..] else r;
      Decimal.IsDigits(digits) && Decimal.Value(digits) == (if n < 0 then -n else n) &&
      (|digits| > 1 ==> digits[0] != '0')
  {
    if n < 0 then
      var d := Decimal.NatToDecimal(-n);
      var r := "-" + d;
      assert r[1..] == d;
      r
    else
      Decimal.NatToDecimal(n)
  }

  /** A JSON string literal whose contents need no escaping. */
  function JsonString(s: string): string
    requires IsPlainJsonText(s)
  {
    "\"" + s + "\""
  }

  const NameKey := "{\"name\":"
  const DescriptionKey := ",\"description\":"
  const ImageKey := ",\"image\":"
  const RoomsKey := ",\"attributes\":{\"rooms\":"
  const SquareFootKey := ",\"squareFoot\":"
  const PropertyAddressKey := ",\"propertyAddress\":"
  const ListPriceKey := ",\"listPrice\":"
  const Closing := "}}"

  /**
   * `JSON.stringify` applied to the object literal in `generateUri`: keys
   * in declaration order, no white space, the three numeric attributes as
   * strings. The JSON text is ASCII, so its UTF-8 bytes are its character
   * codes.
   */
  function MetadataJson(rooms: SafeInteger, squareFoot: SafeInteger, propertyAddress: string, listPrice: SafeInteger): (json: string)
    requires IsPlainJsonText(propertyAddress)
    ensures IsAsciiText(json)
  {
    FixedTextAscii();
    LayoutAscii("Property", "Property Description", "",
      NumberToString(rooms), NumberToString(squareFoot), propertyAddress, NumberToString(listPrice));
    Layout("Property", "Property Description", "",
      NumberToString(rooms), NumberToString(squareFoot), propertyAddress, NumberToString(listPrice))
  }

  /**
   * The metadata object's layout, filled with the seven string values: one
   * '{' opens it and "}}" closes it, the attributes object included.
   */
  function Layout(name: string, description: string, image: string,
                  rooms: string, squareFoot: string, propertyAddress: string, listPrice: string): (json: string)
    requires IsPlainJsonText(name) && IsPlainJsonText(description) && IsPlainJsonText(image)
    requires IsPlainJsonText(rooms) && IsPlainJsonText(squareFoot) && IsPlainJsonText(propertyAddress) && IsPlainJsonText(listPrice)
    ensures |json| >= |NameKey| + |Closing| && json[..|NameKey|] == NameKey && json[|json| - |Closing|..] == Closing
  {
    NameKey + (JsonString(name) +
    (DescriptionKey + (JsonString(description) +
    (ImageKey + (JsonString(image) +
    (RoomsKey + (JsonString(rooms) +
    (SquareFootKey + (JsonString(squareFoot) +
    (PropertyAddressKey + (JsonString(propertyAddress) +
    (ListPriceKey + (JsonString(listPrice) +
    Closing)))))))))))))
  }

  lemma AsciiAppend(a: string, b: string)
    requires IsAsciiText(a) && IsAsciiText(b)
    ensures IsAsciiText(a + b)
  {
    forall i | 0 <= i < |a + b| ensures (a + b)[i] as int < 128 {
      if i >= |a| { assert (a + b)[i] == b[i - |a|]; }
    }
  }

  lemma PlainIsAscii(s: string)
    requires IsPlainJsonText(s)
    ensures IsAsciiText(s)
  {
  }

  lemma JsonStringAscii(s: string)
    requires IsPlainJsonText(s)
    ensures IsAsciiText(JsonString(s))
  {
    var q := "\"";
    PlainIsAscii(s);
    AsciiAppend(q, s);
    AsciiAppend(q + s, q);
  }

  lemma FixedTextAscii()
    ensures IsAsciiText(NameKey) && IsAsciiText(DescriptionKey) && IsAsciiText(ImageKey) && IsAsciiText(RoomsKey)
    ensures IsAsciiText(SquareFootKey) && IsAsciiText(PropertyAddressKey) && IsAsciiText(ListPriceKey) && IsAsciiText(Closing)
    ensures IsPlainJsonText("Property") && IsPlainJsonText("Property Description") && IsPlainJsonText("")
  {
    LeadingKeysAscii();
    AttributeKeysAscii();
    FixedValuesPlain();
  }

  lemma LeadingKeysAscii()
    ensures IsAsciiText(NameKey) && IsAsciiText(DescriptionKey) && IsAsciiText(ImageKey) && IsAsciiText(Closing)
  {
  }

  lemma AttributeKeysAscii()
    ensures IsAsciiText(RoomsKey) && IsAsciiText(SquareFootKey) && IsAsciiText(PropertyAddressKey) && IsAsciiText(ListPriceKey)
  {
  }

  lemma FixedValuesPlain()
    ensures IsPlainJsonText("Property") && IsPlainJsonText("Property Description") && IsPlainJsonText("")
  {
  }

  lemma LayoutAscii(name: string, description: string, image: string,
                    rooms: string, squareFoot: string, propertyAddress: string, listPrice: string)
    requires IsPlainJsonText(name) && IsPlainJsonText(description) && IsPlainJsonText(image)
    requires IsPlainJsonText(rooms) && IsPlainJsonText(squareFoot) && IsPlainJsonText(propertyAddress) && IsPlainJsonText(listPrice)
    requires IsAsciiText(NameKey) && IsAsciiText(DescriptionKey) && IsAsciiText(ImageKey) && IsAsciiText(RoomsKey)
    requires IsAsciiText(SquareFootKey) && IsAsciiText(PropertyAddressKey) && IsAsciiText(ListPriceKey) && IsAsciiText(Closing)
    ensures IsAsciiText(Layout(name, description, image, rooms, squareFoot, propertyAddress, listPrice))
  {
    var t := Closing;
    JsonStringAscii(listPrice); AsciiAppend(JsonString(listPrice), t); t := JsonString(listPrice) + t;
    AsciiAppend(ListPriceKey, t); t := ListPriceKey + t;
    JsonStringAscii(propertyAddress); AsciiAppend(JsonString(propertyAddress), t); t := JsonString(propertyAddress) + t;
    AsciiAppend(PropertyAddressKey, t); t := PropertyAddressKey + t;
    JsonStringAscii(squareFoot); AsciiAppend(JsonString(squareFoot), t); t := JsonString(squareFoot) + t;
    AsciiAppend(SquareFootKey, t); t := SquareFootKey + t;
    JsonStringAscii(rooms); AsciiAppend(JsonString(rooms), t); t := JsonString(rooms) + t;
    AsciiAppend(RoomsKey, t); t := RoomsKey + t;
    JsonStringAscii(image); AsciiAppend(JsonString(image), t); t := JsonString(image) + t;
    AsciiAppend(ImageKey, t); t := ImageKey + t;
    JsonStringAscii(description); AsciiAppend(JsonString(description), t); t := JsonString(description) + t;
    AsciiAppend(DescriptionKey, t); t := DescriptionKey + t;
    JsonStringAscii(name); AsciiAppend(JsonString(name), t); t := JsonString(name) + t;
    AsciiAppend(NameKey, t); t := NameKey + t;
  }

  /** `Buffer.from(s)` encodes as UTF-8, which for ASCII text is one byte per character. */
  function AsciiBytes(s: string): (b: seq<Base64.Byte>)
    requires IsAsciiText(s)
    ensures |b| == |s| && forall i :: 0 <= i < |s| ==> b[i] == s[i] as int
  {
    seq(|s|, i requires 0 <= i < |s| => s[i] as int)
  }

  /** `atob` returns a "binary string": one character per decoded byte. */
  function BinaryString(b: seq<Base64.Byte>): (s: string)
    ensures |s| == |b| && forall i :: 0 <= i < |b| ==> s[i] as int == b[i]
  {
    seq(|b|, i requires 0 <= i < |b| => b[i] as char)
  }

  lemma BinaryStringOfAscii(s: string)
    requires IsAsciiText(s)
    ensures BinaryString(AsciiBytes(s)) == s
  {
  }

  /** The media type and encoding of the data URI, before its one ','. */
  const DataUriHead := "data:application/json;base64"
  const DataUriPrefix := DataUriHead + ","

  /**
   * `generateUri`: the data URI of the JSON text of the property's
   * metadata. It starts with `data:application/json;base64,`, and what
   * follows decodes to exactly the bytes of that JSON text and has zero
   * pad bits, which makes it the Base64 encoding of those bytes.
   */
  function GenerateUri(rooms: SafeInteger, squareFoot: SafeInteger, propertyAddress: string, listPrice: SafeInteger): (uri: string)
    requires IsPlainJsonText(propertyAddress)
    ensures |uri| > |DataUriPrefix| && uri[..|DataUriPrefix|] == DataUriPrefix
    ensures Base64.Decode(uri[|DataUriPrefix|..]) == Some(AsciiBytes(MetadataJson(rooms, squareFoot, propertyAddress, listPrice)))
    ensures Base64.PadBitsZero(uri[|DataUriPrefix|..])
  {
    var json := MetadataJson(rooms, squareFoot, propertyAddress, listPrice);
    JsonNotEmpty(json);
    TextDataUri(json)
  }

  /** Only an empty text has an empty data URI payload. */
  lemma JsonNotEmpty(json: string)
    requires IsAsciiText(json) && |json| >= 1
    ensures |TextDataUri(json)| > |DataUriPrefix|
  {
  }

  /**
   * The data URI of an ASCII text: the fixed prefix, then the padded Base64
   * encoding of the text's bytes. For a text of n characters the payload
   * has 4 * ceil(n / 3) characters, is alphabet characters followed by the
   * padding n calls for, decodes to exactly the text's bytes and has zero
   * pad bits.
   */
  function TextDataUri(json: string): (uri: string)
    requires IsAsciiText(json)
    ensures |uri| == |DataUriPrefix| + 4 * ((|json| + 2) / 3)
    ensures uri[..|DataUriPrefix|] == DataUriPrefix
    ensures Base64.IsPaddedText(uri[|DataUriPrefix|..], Base64.Padding(|json|))
    ensures Base64.Decode(uri[|DataUriPrefix|..]) == Some(AsciiBytes(json))
    ensures Base64.PadBitsZero(uri[|DataUriPrefix|..])
  {
    var bytes := AsciiBytes(json);
    assert |bytes| == |json|;
    DataUri(bytes)
  }

  /**
   * A `data:application/json;base64,` URI carrying `bytes`: the payload
   * after the prefix has length 4 * ceil(n / 3) for n bytes, holds alphabet
   * characters and trailing '=' only, decodes to the bytes and leaves the
   * pad bits zero, so it is their encoding (`Base64.CanonicalEncoding`); the only
   * ',' of the URI is the one that ends the prefix.
   */
  function DataUri(bytes: seq<Base64.Byte>): (uri: string)
    ensures |uri| >= |DataUriPrefix| && uri[..|DataUriPrefix|] == DataUriPrefix
    ensures |uri| == |DataUriPrefix| + 4 * ((|bytes| + 2) / 3)
    ensures Base64.IsPaddedText(uri[|DataUriPrefix|..], Base64.Padding(|bytes|))
    ensures Base64.Decode(uri[|DataUriPrefix|..]) == Some(bytes)
    ensures Base64.PadBitsZero(uri[|DataUriPrefix|..])
    ensures forall i :: 0 <= i < |uri| ==> (uri[i] == ',' <==> i == |DataUriHead|)
  {
    var payload := Base64.Encode(bytes);
    Base64.EncodeShape(bytes);
    Base64.DecodeEncode(bytes);
    Base64.PadBitsZeroOfEncode(bytes);
    PrefixedPayload(payload, Base64.Padding(|bytes|));
    DataUriPrefix + payload
  }

  /** Prefixing Base64 text: the prefix and the text can be cut apart again, and the prefix's ',' is the only one. */
  lemma PrefixedPayload(payload: string, pad: nat)
    requires Base64.IsPaddedText(payload, pad)
    ensures var uri := DataUriPrefix + payload;
      uri[..|DataUriPrefix|] == DataUriPrefix && uri[|DataUriPrefix|..] == payload &&
      forall i :: 0 <= i < |uri| ==> (uri[i] == ',' <==> i == |DataUriHead|)
  {
    var uri := DataUriPrefix + payload;
    assert uri[..|DataUriPrefix|] == DataUriPrefix && uri[|DataUriPrefix|..] == payload;
    HeadHasNoComma();
    PaddedTextHasNoComma(payload, pad);
    forall i | 0 <= i < |uri| ensures uri[i] == ',' <==> i == |DataUriHead| {
      if i < |DataUriHead| {
        assert uri[i] == DataUriHead[i];
      } else if i > |DataUriHead| {
        assert uri[i] == payload[i - |DataUriPrefix|];
      }
    }
  }

  lemma HeadHasNoComma()
    ensures ',' !in DataUriHead
    ensures DataUriPrefix == DataUriHead + [',']
  {
    assert forall i :: 0 <= i < |DataUriHead| ==> DataUriHead[i] != ',';
  }

  /** Base64 text holds alphabet characters and '=' only, so never a ','. */
  lemma PaddedTextHasNoComma(t: string, pad: nat)
    requires Base64.IsPaddedText(t, pad)
    ensures ',' !in t
  {
    forall i | 0 <= i < |t|
      ensures t[i] != ','
    {
      if t[i] != '=' {
        assert Base64.IsAlphabetChar(t[i]);
      }
    }
  }

  // ---------------------------------------------------------------------
  // Reading the URI back, as the property listing page does: take the part
  // after the ',' (`uri.split(",")[1]`), Base64-decode it (`atob`) and
  // read the JSON object (`JSON.parse`, here for this object's layout).
  // ---------------------------------------------------------------------

  /**
   * `s.split(sep)`: the pieces between occurrences of `sep`; always at least
   * one, more than one exactly when `sep` occurs, and none holding `sep`.
   */
  function Split(s: string, sep: char): (parts: seq<string>)
    ensures |parts| >= 1
    ensures |parts| >= 2 <==> sep in s
    ensures forall k :: 0 <= k < |parts| ==> sep !in parts[k]
    decreases |s|
  {
    if s == [] then
      [""]
    else
      var rest := Split(s[1..], sep);
      assert s == [s[0]] + s[1..];
      if s[0] == sep then
        [""] + rest
      else
        var parts := [[s[0]] + rest[0]] + rest[1..];
        assert forall k :: 1 <= k < |parts| ==> parts[k] == rest[k];
        parts
  }

  lemma {:induction false} SplitNoSeparator(s: string, sep: char)
    requires sep !in s
    ensures Split(s, sep) == [s]
    decreases |s|
  {
    if s != [] {
      SplitNoSeparator(s[1..], sep);
      assert [s[0]] + s[1..] == s;
    }
  }

  lemma {:induction false} SplitAtFirst(a: string, sep: char, b: string)
    requires sep !in a
    ensures Split(a + [sep] + b, sep) == [a] + Split(b, sep)
    decreases |a|
  {
    var s := a + [sep] + b;
    if a == [] {
      assert s[1..] == b;
    } else {
      assert s[1..] == a[1..] + [sep] + b;
      SplitAtFirst(a[1..], sep, b);
      assert [a[0]] + a[1..] == a;
    }
  }

  /** `uri.split(",")[1]`: present exactly when the URI holds a ',', and without a ',' of its own. */
  function PayloadOf(uri: string): (p: Option<string>)
    ensures p.Some? <==> ',' in uri
    ensures p.Some? ==> ',' !in p.value
  {
    var parts := Split(uri, ',');
    if |parts| >= 2 then Some(parts[1]) else None
  }

  /** The attributes as the page reads them back: all four are strings. */
  datatype Attributes = Attributes(rooms: string, squareFoot: string, propertyAddress: string, listPrice: string)

  datatype Metadata = Metadata(name: string, description: string, image: string, attributes: Attributes)

  /** The characters of a string literal up to its closing '"', and the text after it. */
  function ReadChars(s: string): (r: Option<(string, string)>)
    ensures r.Some? ==> IsPlainJsonText(r.value.0)
    decreases |s|
  {
    if s == [] then None
    else if s[0] == '"' then Some(("", s[1..]))
    else if !IsPlainJsonChar(s[0]) then None
    else match ReadChars(s[1..])
      case None => None
      case Some(p) => Some(([s[0]] + p.0, p.1))
  }

  /** A key (with the punctuation before it) followed by a string value. */
  function ReadField(key: string, s: string): (r: Option<(string, string)>)
    ensures r.Some? ==> |key| < |s| && s[..|key|] == key && IsPlainJsonText(r.value.0)
  {
    if |key| < |s| && s[..|key|] == key && s[|key|] == '"' then ReadChars(s[|key| + 1..]) else None
  }

  /** `JSON.parse` of text of the metadata object's layout. */
  function ParseMetadata(text: string): (r: Option<Metadata>)
    ensures r.Some? ==> |text| > |NameKey| && text[..|NameKey|] == NameKey
    ensures r.Some? ==> IsPlainJsonText(r.value.name) && IsPlainJsonText(r.value.description) && IsPlainJsonText(r.value.image)
    ensures r.Some? ==> var a := r.value.attributes;
      IsPlainJsonText(a.rooms) && IsPlainJsonText(a.squareFoot) && IsPlainJsonText(a.propertyAddress) && IsPlainJsonText(a.listPrice)
  {
    var name :- ReadField(NameKey, text);
    var description :- ReadField(DescriptionKey, name.1);
    var image :- ReadField(ImageKey, description.1);
    var rooms :- ReadField(RoomsKey, image.1);
    var squareFoot :- ReadField(SquareFootKey, rooms.1);
    var propertyAddress :- ReadField(PropertyAddressKey, squareFoot.1);
    var listPrice :- ReadField(ListPriceKey, propertyAddress.1);
    if listPrice.1 == Closing then
      Some(Metadata(name.0, description.0, image.0, Attributes(rooms.0, squareFoot.0, propertyAddress.0, listPrice.0)))
    else
      None
  }

  /** How the page reads a metadata URI: split, decode, parse. */
  function ReadMetadata(uri: string): (r: Option<Metadata>)
    ensures r.Some? ==> ',' in uri && |PayloadOf(uri).value| % 4 == 0 && Base64.Decode(PayloadOf(uri).value).Some?
    ensures r.Some? ==> IsPlainJsonText(r.value.name) && IsPlainJsonText(r.value.attributes.propertyAddress)
  {
    var payload :- PayloadOf(uri);
    var bytes :- Base64.Decode(payload);
    ParseMetadata(BinaryString(bytes))
  }

  lemma {:induction false} ReadCharsOf(v: string, rest: string)
    requires IsPlainJsonText(v)
    ensures ReadChars(v + "\"" + rest) == Some((v, rest))
    decreases |v|
  {
    var s := v + "\"" + rest;
    if v == [] {
      assert s[0] == '"' && s[1..] == rest;
    } else {
      assert s[0] == v[0] && s[1..] == v[1..] + "\"" + rest;
      ReadCharsOf(v[1..], rest);
      assert [v[0]] + v[1..] == v;
    }
  }

  /** Reading a field gives back the value that was written and the text after it. */
  lemma ReadFieldOf(key: string, v: string, rest: string)
    requires IsPlainJsonText(v)
    ensures ReadField(key, key + (JsonString(v) + rest)) == Some((v, rest))
  {
    var s := key + (JsonString(v) + rest);
    assert s[..|key|] == key && s[|key|] == '"';
    assert s[|key| + 1..] == v + "\"" + rest;
    ReadCharsOf(v, rest);
  }

  /** The metadata `generateUri` writes for the given attributes, as strings. */
  function Written(rooms: SafeInteger, squareFoot: SafeInteger, propertyAddress: string, listPrice: SafeInteger): Metadata
  {
    Metadata("Property", "Property Description", "",
      Attributes(NumberToString(rooms), NumberToString(squareFoot), propertyAddress, NumberToString(listPrice)))
  }

  /** Reading the layout back gives the seven values, in order. */
  lemma ParseLayout(name: string, description: string, image: string,
                    rooms: string, squareFoot: string, propertyAddress: string, listPrice: string)
    requires IsPlainJsonText(name) && IsPlainJsonText(description) && IsPlainJsonText(image)
    requires IsPlainJsonText(rooms) && IsPlainJsonText(squareFoot) && IsPlainJsonText(propertyAddress) && IsPlainJsonText(listPrice)
    ensures ParseMetadata(Layout(name, description, image, rooms, squareFoot, propertyAddress, listPrice)) ==
      Some(Metadata(name, description, image, Attributes(rooms, squareFoot, propertyAddress, listPrice)))
  {
    var t6 := ListPriceKey + (JsonString(listPrice) + Closing);
    var t5 := PropertyAddressKey + (JsonString(propertyAddress) + t6);
    var t4 := SquareFootKey + (JsonString(squareFoot) + t5);
    var t3 := RoomsKey + (JsonString(rooms) + t4);
    var t2 := ImageKey + (JsonString(image) + t3);
    var t1 := DescriptionKey + (JsonString(description) + t2);
    ReadFieldOf(NameKey, name, t1);
    ReadFieldOf(DescriptionKey, description, t2);
    ReadFieldOf(ImageKey, image, t3);
    ReadFieldOf(RoomsKey, rooms, t4);
    ReadFieldOf(SquareFootKey, squareFoot, t5);
    ReadFieldOf(PropertyAddressKey, propertyAddress, t6);
    ReadFieldOf(ListPriceKey, listPrice, Closing);
  }

  /**
   * The JSON text holds, in this order, name "Property", description
   * "Property Description", image "" and the attributes rooms, squareFoot,
   * propertyAddress and listPrice, the numbers written as decimal strings
   * and the address verbatim.
   */
  lemma ParseMetadataJson(rooms: SafeInteger, squareFoot: SafeInteger, propertyAddress: string, listPrice: SafeInteger)
    requires IsPlainJsonText(propertyAddress)
    ensures ParseMetadata(MetadataJson(rooms, squareFoot, propertyAddress, listPrice)) == Some(Written(rooms, squareFoot, propertyAddress, listPrice))
  {
    FixedTextAscii();
    ParseLayout("Property", "Property Description", "",
      NumberToString(rooms), NumberToString(squareFoot), propertyAddress, NumberToString(listPrice));
  }

  /** `uri.split(",")[1]` of a data URI is its whole payload. */
  lemma PayloadOfDataUri(bytes: seq<Base64.Byte>)
    ensures PayloadOf(DataUri(bytes)) == Some(DataUri(bytes)[|DataUriPrefix|..])
  {
    var uri := DataUri(bytes);
    var payload := uri[|DataUriPrefix|..];
    HeadHasNoComma();
    assert uri == DataUriHead + [','] + payload by {
      assert uri == uri[..|DataUriPrefix|] + payload;
    }
    PaddedTextHasNoComma(payload, Base64.Padding(|bytes|));
    SplitAtFirst(DataUriHead, ',', payload);
    SplitNoSeparator(payload, ',');
  }

  /**
   * End to end: the page reading a URI made by `generateUri` gets back
   * name, description and image as written and the four attributes
   * exactly: the numbers as their decimal strings, the address verbatim.
   */
  lemma ReadGeneratedUri(rooms: SafeInteger, squareFoot: SafeInteger, propertyAddress: string, listPrice: SafeInteger)
    requires IsPlainJsonText(propertyAddress)
    ensures ReadMetadata(GenerateUri(rooms, squareFoot, propertyAddress, listPrice)) == Some(Written(rooms, squareFoot, propertyAddress, listPrice))
  {
    ReadTextDataUri(MetadataJson(rooms, squareFoot, propertyAddress, listPrice));
    ParseMetadataJson(rooms, squareFoot, propertyAddress, listPrice);
  }

  /** Reading the data URI of an ASCII text parses exactly that text. */
  lemma ReadTextDataUri(json: string)
    requires IsAsciiText(json)
    ensures ReadMetadata(TextDataUri(json)) == ParseMetadata(json)
  {
    var bytes := AsciiBytes(json);
    assert TextDataUri(json) == DataUri(bytes);
    PayloadOfDataUri(bytes);
    BinaryStringOfAscii(json);
  }
}
