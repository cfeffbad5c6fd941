/** Loading what was saved gives the mesh back, in either byte order and whatever unknown elements stand around it. */
module PlyRoundTrip {
  import opened Wrappers
  import opened PlyText
  import opened Ply

  // ----- the header is read back

  /** One written line is one line read, with the same tokens. */
  lemma LineReads(tokens: seq<string>, rest: Bytes)
    requires AreTokens(tokens)
    ensures IsAscii(Line(tokens))
    ensures var data := Encode(Line(tokens)) + rest; var n := LineLength(data);
            && n > 0 && data[..n] == Encode(Line(tokens)) && data[n..] == rest
            && Decode(data[..n]) == Some(Line(tokens)) && Split(Line(tokens)) == tokens
  {
    hide IsToken, Decode, Split, LineLength, Join;
    var text := Join(tokens);
    LineAscii(tokens);
    JoinAscii(tokens);
    SplitJoin(tokens);
    DecodeEncode(Line(tokens));
    assert Encode(Line(tokens)) == Encode(text) + [NEWLINE];
    assert forall i :: 0 <= i < |text| ==> text[i] != '\n' by {
      assert forall i :: 0 <= i < |text| ==> text[i] in text;
    }
    assert NEWLINE !in Encode(text);
    LineOf(Encode(text), rest);
  }

  lemma HeaderStep(tokens: seq<string>, rest: Bytes, h: Partial)
    requires AreTokens(tokens)
    ensures IsAscii(Line(tokens))
    ensures HeaderLine(tokens, h).End? ==> HeaderLines(Encode(Line(tokens)) + rest, h) == Ok((h, rest))
    ensures HeaderLine(tokens, h).Next? ==>
              HeaderLines(Encode(Line(tokens)) + rest, h) == HeaderLines(rest, HeaderLine(tokens, h).partial)
  {
    hide IsToken, HeaderLine, Decode, Split, LineLength, Line, Encode;
    LineReads(tokens, rest);
  }

  ghost function WithProperties(h: Partial, properties: seq<Property>): Partial
    requires h.current.Some?
  {
    h.(current := Some(h.current.value.(properties := h.current.value.properties + properties)))
  }

  lemma PropertyReads(p: Property, h: Partial)
    requires IsProperty(p) && h.current.Some?
    ensures HeaderLine(PropertyTokens(p), h) == Next(WithProperty(h, p))
  {
    hide IsToken;
  }

  lemma EncodeFirst(s: string, t: string, rest: Bytes)
    requires IsAscii(s) && IsAscii(t)
    ensures IsAscii(s + t) && Encode(s + t) + rest == Encode(s) + (Encode(t) + rest)
  {
    EncodeAppend(s, t);
  }

  lemma {:induction false} PropertiesRead(properties: seq<Property>, rest: Bytes, h: Partial)
    requires (forall i :: 0 <= i < |properties| ==> IsProperty(properties[i])) && h.current.Some?
    ensures IsAscii(PropertyText(properties))
    ensures HeaderLines(Encode(PropertyText(properties)) + rest, h) == HeaderLines(rest, WithProperties(h, properties))
  {
    hide IsProperty, PropertyTokens, Line, Encode, HeaderLines, HeaderLine, IsAscii;
    PropertiesAscii(properties);
    if |properties| == 0 {
      EmptyText(rest);
      assert h.current.value.properties + [] == h.current.value.properties;
    } else {
      var p, more := properties[0], properties[1..];
      PropertyIsTokens(p);
      LineAscii(PropertyTokens(p));
      PropertiesAscii(more);
      EncodeFirst(Line(PropertyTokens(p)), PropertyText(more), rest);
      HeaderStep(PropertyTokens(p), Encode(PropertyText(more)) + rest, h);
      PropertyReads(p, h);
      PropertiesRead(more, rest, WithProperty(h, p));
      assert h.current.value.properties + [p] + more == h.current.value.properties + properties;
    }
  }

  lemma EmptyText(rest: Bytes)
    ensures IsAscii("") && Encode("") + rest == rest
  {
  }

  lemma ElementLineReads(e: Element, h: Partial)
    requires e.count >= 0
    ensures HeaderLine(["element", e.name, Decimal(e.count)], h)
            == Next(Partial(h.format, Closed(h), Some(Element(e.name, e.count, []))))
  {
    hide Decimal, ParseInt, IsToken;
    DecimalIsToken(e.count);
  }

  lemma ElementReads(e: Element, rest: Bytes, h: Partial)
    requires IsElement(e)
    ensures IsAscii(ElementText(e))
    ensures HeaderLines(Encode(ElementText(e)) + rest, h) == HeaderLines(rest, Partial(h.format, Closed(h), Some(e)))
  {
    hide IsProperty, PropertyText, Line, Encode, HeaderLines, HeaderLine, IsAscii, Decimal, IsToken, Closed;
    var tokens := ["element", e.name, Decimal(e.count)];
    ElementLineIsTokens(e);
    LineAscii(tokens);
    PropertiesAscii(e.properties);
    EncodeFirst(Line(tokens), PropertyText(e.properties), rest);
    HeaderStep(tokens, Encode(PropertyText(e.properties)) + rest, h);
    ElementLineReads(e, h);
    PropertiesRead(e.properties, rest, Partial(h.format, Closed(h), Some(Element(e.name, e.count, []))));
    assert [] + e.properties == e.properties;
  }

  /** The reader's state after some elements. */
  ghost function Opened(h: Partial, elements: seq<Element>): (g: Partial)
    ensures g.format == h.format && Closed(g) == Closed(h) + elements
    decreases |elements|
  {
    assert Closed(h) + [] == Closed(h);
    if |elements| == 0 then h
    else
      assert Closed(h) + [elements[0]] + elements[1..] == Closed(h) + elements;
      Opened(Partial(h.format, Closed(h), Some(elements[0])), elements[1..])
  }

  lemma {:induction false} ElementsRead(elements: seq<Element>, rest: Bytes, h: Partial)
    requires AreElements(elements)
    ensures Counted(elements) && IsAscii(ElementsText(elements))
    ensures HeaderLines(Encode(ElementsText(elements)) + rest, h) == HeaderLines(rest, Opened(h, elements))
  {
    hide IsElement, ElementText, Encode, HeaderLines, IsAscii, Closed;
    ElementsAscii(elements);
    if |elements| == 0 {
      EmptyText(rest);
    } else {
      var e, more := elements[0], elements[1..];
      ElementsAscii(more);
      ElementReads(e, Encode(ElementsText(more)) + rest, h);
      EncodeFirst(ElementText(e), ElementsText(more), rest);
      ElementsRead(more, rest, Partial(h.format, Closed(h), Some(e)));
    }
  }

  lemma FormatReads(h: Partial, format: string)
    requires format in FORMATS
    ensures HeaderLine(["format", format, "1.0"], h) == Next(h.(format := Some(format)))
    ensures HeaderLine(["end_header"], h) == End
  {
  }

  /** The header is read back: its format, its elements, and where the body starts. */
  lemma HeaderReads(elements: seq<Element>, format: string, body: Bytes)
    requires AreElements(elements) && format in FORMATS
    ensures Counted(elements) && IsAscii(HeaderOf(elements, format))
    ensures ParseHeader(Encode(HeaderOf(elements, format)) + body) == Ok(Header(format, elements, body))
  {
    hide IsElement, ElementsText, Encode, HeaderLines, HeaderLine, IsAscii, Line, Strip, LineLength, IsToken;
    var line := ["format", format, "1.0"];
    var start := Partial(None, [], None);
    KeywordsAreTokens();
    ElementsAscii(elements);
    LineAscii(["ply"]);
    LineAscii(line);
    LineAscii(["end_header"]);
    EncodeAppend(ElementsText(elements), Line(["end_header"]));
    EncodeAppend(Line(line), ElementsText(elements) + Line(["end_header"]));
    EncodeFirst(ElementsText(elements), Line(["end_header"]), body);
    var afterElements := Encode(Line(["end_header"])) + body;
    var afterFormat := Encode(ElementsText(elements)) + afterElements;
    EncodeFirst(Line(line), ElementsText(elements) + Line(["end_header"]), body);
    var afterMagic := Encode(Line(line)) + afterFormat;
    EncodeFirst(Line(["ply"]), Line(line) + (ElementsText(elements) + Line(["end_header"])), body);
    MagicReads(afterMagic);
    HeaderStep(line, afterFormat, start);
    FormatReads(start, format);
    var g := start.(format := Some(format));
    ElementsRead(elements, afterElements, g);
    HeaderStep(["end_header"], body, Opened(g, elements));
    FormatReads(Opened(g, elements), format);
    assert Closed(g) + elements == elements;
  }

  lemma MagicReads(rest: Bytes)
    ensures IsAscii(Line(["ply"]))
    ensures var data := Encode(Line(["ply"])) + rest; var n := LineLength(data);
            Strip(data[..n]) == Encode("ply") && data[n..] == rest
  {
    hide LineLength, IsToken;
    KeywordsAreTokens();
    LineReads(["ply"], rest);
    var line := Encode(Line(["ply"]));
    assert line == Encode("ply") + [NEWLINE];
    assert Strip(line) == Strip(line[..3]);
    assert line[..3] == Encode("ply");
  }

  // ----- the vertices are read back

  function Floats(row: seq<Word>): seq<Number> {
    seq(|row|, i requires 0 <= i < |row| => Number(FLOAT, row[i]))
  }

  function AsRead(rows: seq<seq<Word>>): seq<seq<Number>> {
    seq(|rows|, i requires 0 <= i < |rows| => Floats(rows[i]))
  }

  lemma XyzLayout()
    ensures VertexSize(XYZ) == Ok(12) && DistinctNames(XYZ) && HasName(XYZ, "x") && HasName(XYZ, "y")
            && HasName(XYZ, "z")
    ensures XYZ[1..] == [Scalar("float", "y"), Scalar("float", "z")] && XYZ[1..][1..] == [Scalar("float", "z")]
            && XYZ[1..][1..][1..] == []
  {
    assert XYZ[0].name == "x" && XYZ[1].name == "y" && XYZ[2].name == "z";
    assert XYZ[1..] == [Scalar("float", "y"), Scalar("float", "z")] && XYZ[1..][1..] == [Scalar("float", "z")];
    assert VertexSize(XYZ[1..][1..]) == Ok(4);
    assert VertexSize(XYZ[1..]) == Ok(8);
  }

  /** Putting bytes in an order twice is putting them back. */
  lemma {:induction false} OrderedTwice(b: Bytes, endian: Endian)
    ensures Ordered(Ordered(b, endian), endian) == b
  {
    if endian.Big? {
      ReverseTwice(b);
    }
  }

  lemma {:induction false} ReverseTwice(b: Bytes)
    ensures Reverse(Reverse(b)) == b
  {
    if |b| > 0 {
      ReverseAppend(Reverse(b[1..]), b[0]);
      ReverseTwice(b[1..]);
    }
  }

  lemma {:induction false} ReverseAppend(b: Bytes, x: Byte)
    ensures Reverse(b + [x]) == [x] + Reverse(b)
  {
    if |b| == 0 {
      assert [] + [x] == [x];
      assert [x][1..] == [];
    } else {
      assert (b + [x])[1..] == b[1..] + [x];
      ReverseAppend(b[1..], x);
    }
  }

  lemma VertexReads(x: Bytes, y: Bytes, z: Bytes, endian: Endian)
    requires |x| == 4 && |y| == 4 && |z| == 4
    ensures VertexOf(x + y + z, XYZ, endian)
            == Some([Number(FLOAT, Ordered(x, endian)), Number(FLOAT, Ordered(y, endian)),
                Number(FLOAT, Ordered(z, endian))])
  {
    hide Ordered;
    XyzLayout();
    var record := x + y + z;
    assert record[..4] == x && record[4..] == y + z && record[4..][..4] == y && record[4..][4..] == z && z[..4] == z;
    assert Field(record, XYZ, "x", endian) == Some(Number(FLOAT, Ordered(x, endian)));
    assert Field(record[4..], XYZ[1..], "y", endian) == Some(Number(FLOAT, Ordered(y, endian)));
    assert Field(record, XYZ, "y", endian) == Some(Number(FLOAT, Ordered(y, endian)));
    assert Field(z, XYZ[1..][1..], "z", endian) == Some(Number(FLOAT, Ordered(z, endian)));
    assert Field(record[4..], XYZ[1..], "z", endian) == Some(Number(FLOAT, Ordered(z, endian)));
    assert Field(record, XYZ, "z", endian) == Some(Number(FLOAT, Ordered(z, endian)));
  }

  lemma {:induction false} VertexRecords(rows: seq<seq<Word>>, endian: Endian) returns (records: seq<Bytes>)
    requires Triples(rows)
    ensures |VertexBytes(rows, endian)| == 12 * |rows|
    ensures Chunks(VertexBytes(rows, endian), 12) == Some(records)
            && Vertices(records, XYZ, endian) == Some(AsRead(rows))
  {
    hide VertexOf, Ordered;
    if |rows| == 0 {
      records := [];
    } else {
      var more := VertexRecords(rows[1..], endian);
      var x, y, z := Ordered(rows[0][0], endian), Ordered(rows[0][1], endian), Ordered(rows[0][2], endian);
      var data := VertexBytes(rows, endian);
      assert data == (x + y + z) + VertexBytes(rows[1..], endian);
      assert data[..12] == x + y + z && data[12..] == VertexBytes(rows[1..], endian);
      VertexReads(x, y, z, endian);
      OrderedTwice(rows[0][0], endian);
      OrderedTwice(rows[0][1], endian);
      OrderedTwice(rows[0][2], endian);
      records := [x + y + z] + more;
      assert records[1..] == more;
      assert Floats(rows[0]) == [Number(FLOAT, rows[0][0]), Number(FLOAT, rows[0][1]), Number(FLOAT, rows[0][2])];
      assert AsRead(rows) == [Floats(rows[0])] + AsRead(rows[1..]);
    }
  }

  lemma VerticesRead(rows: seq<seq<Word>>, endian: Endian, rest: Bytes)
    requires Triples(rows)
    ensures ReadVertices(VertexBytes(rows, endian) + rest, VertexElement(|rows|), endian) == Ok((AsRead(rows), rest))
  {
    hide VertexSize, DistinctNames, HasName, Chunks, Vertices, AsRead, VertexBytes;
    XyzLayout();
    var records := VertexRecords(rows, endian);
    var data := VertexBytes(rows, endian) + rest;
    assert data[..12 * |rows|] == VertexBytes(rows, endian) && data[12 * |rows|..] == rest;
  }

  // ----- the faces are read back

  function Wrapped(row: seq<int>): seq<int> {
    seq(|row|, i requires 0 <= i < |row| => Wrap32(row[i]))
  }

  function WrappedAll(rows: seq<seq<int>>): seq<seq<int>> {
    seq(|rows|, i requires 0 <= i < |rows| => Wrapped(rows[i]))
  }

  lemma Int32Reads(n: int, endian: Endian)
    ensures IntOf(INT, Ordered(Int32Bytes(n, endian), endian)) == Wrap32(n) && Wrap32(Wrap32(n)) == Wrap32(n)
  {
    hide Ordered;
    assert Power256(4) == TWO_TO_32 by {
      assert Power256(1) == 256;
      assert Power256(2) == 0x1_0000;
      assert Power256(3) == 0x100_0000;
    }
    OrderedTwice(ToBytes(n % TWO_TO_32, 4), endian);
    FromToBytes(n % TWO_TO_32, 4);
  }

  lemma FaceReads(row: seq<int>, endian: Endian)
    requires |row| == 3
    ensures FaceOf([3] + Int32Bytes(row[0], endian) + Int32Bytes(row[1], endian) + Int32Bytes(row[2], endian),
                   UCHAR, INT, endian) == Some(Wrapped(row))
  {
    hide Int32Bytes, IntOf, Wrap32, Ordered;
    var a, b, c := Int32Bytes(row[0], endian), Int32Bytes(row[1], endian), Int32Bytes(row[2], endian);
    var record: Bytes := [3] + a + b + c;
    assert record[0..1] == [3] && record[1..5] == a && record[5..9] == b && record[9..13] == c;
    Int32Reads(row[0], endian);
    Int32Reads(row[1], endian);
    Int32Reads(row[2], endian);
    CountReads(endian);
    assert Wrapped(row) == [Wrap32(row[0]), Wrap32(row[1]), Wrap32(row[2])];
  }

  lemma CountReads(endian: Endian)
    ensures IntOf(UCHAR, Ordered([3], endian)) == 3
  {
    assert [3][1..] == [] && Reverse([3]) == [3];
    assert FromBytes([3]) == 3;
  }

  lemma {:induction false} FaceRecords(rows: seq<seq<int>>, endian: Endian) returns (records: seq<Bytes>)
    requires Triples(rows)
    ensures |FaceBytes(rows, endian)| == 13 * |rows|
    ensures Chunks(FaceBytes(rows, endian), 13) == Some(records)
            && Faces(records, UCHAR, INT, endian) == Some(WrappedAll(rows))
  {
    hide FaceOf, Int32Bytes, Wrapped;
    if |rows| == 0 {
      records := [];
    } else {
      var more := FaceRecords(rows[1..], endian);
      var record := [3] + Int32Bytes(rows[0][0], endian) + Int32Bytes(rows[0][1], endian)
          + Int32Bytes(rows[0][2], endian);
      var data := FaceBytes(rows, endian);
      assert data == record + FaceBytes(rows[1..], endian);
      assert data[..13] == record && data[13..] == FaceBytes(rows[1..], endian);
      FaceReads(rows[0], endian);
      records := [record] + more;
      assert records[1..] == more;
      assert WrappedAll(rows) == [Wrapped(rows[0])] + WrappedAll(rows[1..]);
    }
  }

  lemma IndicesLayout()
    ensures FirstList(INDICES) == Some(List("uchar", "int", "vertex_indices"))
    ensures KindOf("uchar") == Some(UCHAR) && KindOf("int") == Some(INT)
  {
  }

  lemma FacesRead(rows: seq<seq<int>>, endian: Endian, rest: Bytes)
    requires Triples(rows)
    ensures ReadFaces(FaceBytes(rows, endian) + rest, FaceElement(|rows|), endian) == Ok((WrappedAll(rows), rest))
  {
    hide Chunks, Faces, WrappedAll, FaceBytes, FirstList, KindOf, Taken;
    IndicesLayout();
    var records := FaceRecords(rows, endian);
    TakenPrefix(FaceBytes(rows, endian), rest);
    assert FaceElement(|rows|).count * 13 == |FaceBytes(rows, endian)|;
  }

  lemma TakenPrefix(data: Bytes, rest: Bytes)
    ensures Taken(data + rest, |data|) == |data| && (data + rest)[..|data|] == data && (data + rest)[|data|..] == rest
  {
  }

  // ----- unknown elements are skipped

  /** A value of an unknown element: a scalar's bytes, or a list's count and bytes. */
  datatype Cell = Value(data: Bytes) | Values(count: nat, data: Bytes)

  datatype Extra = Extra(name: string, properties: seq<Property>, rows: seq<seq<Cell>>)

  predicate FitsIn(count: nat, kind: Kind) {
    kind.integer && (if kind.signed then 2 * count else count) < Power256(kind.size)
  }

  /** A cell of a property's kind. */
  predicate CellOk(p: Property, c: Cell) {
    match p
    case Scalar(kind, _) =>
      KindOf(kind).Some? && c.Value? && |c.data| == KindOf(kind).value.size
    case List(countKind, indexKind, _) =>
      KindOf(countKind).Some? && KindOf(indexKind).Some? && c.Values? && FitsIn(c.count, KindOf(countKind).value)
      && |c.data| == c.count * KindOf(indexKind).value.size
  }

  predicate RowOk(properties: seq<Property>, row: seq<Cell>) {
    |row| == |properties| && forall i :: 0 <= i < |row| ==> CellOk(properties[i], row[i])
  }

  predicate KindKnown(p: Property) {
    match p
    case Scalar(kind, _) => KindOf(kind).Some?
    case List(countKind, indexKind, _) => KindOf(countKind).Some? && KindOf(indexKind).Some?
  }

  predicate ExtraOk(x: Extra) {
    && IsElement(ExtraElement(x))
    && (forall i :: 0 <= i < |x.properties| ==> KindKnown(x.properties[i]))
    && (forall i :: 0 <= i < |x.rows| ==> RowOk(x.properties, x.rows[i]))
  }

  function ExtraElement(x: Extra): Element {
    Element(x.name, |x.rows|, x.properties)
  }

  function CellBytes(p: Property, c: Cell, endian: Endian): Bytes {
    if p.List? && c.Values? && KindOf(p.countKind).Some? then
      Ordered(ToBytes(c.count, KindOf(p.countKind).value.size), endian) + c.data
    else c.data
  }

  function RowBytes(properties: seq<Property>, row: seq<Cell>, endian: Endian): Bytes {
    if |properties| == 0 || |row| == 0 then []
    else CellBytes(properties[0], row[0], endian) + RowBytes(properties[1..], row[1..], endian)
  }

  function RowsBytes(properties: seq<Property>, rows: seq<seq<Cell>>, endian: Endian): Bytes {
    if |rows| == 0 then [] else RowBytes(properties, rows[0], endian) + RowsBytes(properties, rows[1..], endian)
  }

  lemma CountRead(count: nat, kind: Kind, endian: Endian)
    requires FitsIn(count, kind)
    ensures IntOf(kind, Ordered(Ordered(ToBytes(count, kind.size), endian), endian)) == count
  {
    OrderedTwice(ToBytes(count, kind.size), endian);
    FromToBytes(count, kind.size);
  }

  /** A value is skipped by exactly its bytes. */
  lemma CellSkipped(p: Property, c: Cell, endian: Endian, rest: Bytes)
    requires CellOk(p, c)
    ensures SkipValue(CellBytes(p, c, endian) + rest, p, endian) == Ok(rest)
  {
    hide KindOf, IntOf, ToBytes, FitsIn, Ordered;
    match p
    case Scalar(kind, _) =>
      assert (c.data + rest)[|c.data|..] == rest;
    case List(countKind, indexKind, _) =>
      var kind := KindOf(countKind).value;
      CountRead(c.count, kind, endian);
      FitsInteger(c.count, kind);
      var head := Ordered(ToBytes(c.count, kind.size), endian);
      var data := CellBytes(p, c, endian) + rest;
      assert data == head + (c.data + rest);
      assert data[..kind.size] == head && data[kind.size..] == c.data + rest;
      assert (c.data + rest)[|c.data|..] == rest;
  }

  lemma FitsInteger(count: nat, kind: Kind)
    ensures FitsIn(count, kind) ==> kind.integer
  {
  }

  lemma {:induction false} RowSkipped(properties: seq<Property>, row: seq<Cell>, endian: Endian, rest: Bytes)
    requires RowOk(properties, row)
    ensures SkipRow(RowBytes(properties, row, endian) + rest, properties, endian) == Ok(rest)
  {
    hide CellOk, CellBytes, SkipValue;
    if |properties| == 0 {
      assert [] + rest == rest;
    } else {
      var more := RowBytes(properties[1..], row[1..], endian);
      assert RowBytes(properties, row, endian) + rest == CellBytes(properties[0], row[0], endian) + (more + rest);
      CellSkipped(properties[0], row[0], endian, more + rest);
      RowSkipped(properties[1..], row[1..], endian, rest);
    }
  }

  lemma {:induction false} RowsSkipped(properties: seq<Property>, rows: seq<seq<Cell>>, endian: Endian, rest: Bytes)
    requires forall i :: 0 <= i < |rows| ==> RowOk(properties, rows[i])
    ensures SkipRows(RowsBytes(properties, rows, endian) + rest, properties, |rows|, endian) == Ok(rest)
  {
    hide RowOk, RowBytes, SkipRow;
    if |rows| == 0 {
      assert [] + rest == rest;
    } else {
      var more := RowsBytes(properties, rows[1..], endian);
      assert RowsBytes(properties, rows, endian) + rest == RowBytes(properties, rows[0], endian) + (more + rest);
      RowSkipped(properties, rows[0], endian, more + rest);
      RowsSkipped(properties, rows[1..], endian, rest);
    }
  }

  /** A row of scalars takes the stride the reader computes. */
  lemma {:induction false} ScalarRow(properties: seq<Property>, row: seq<Cell>, endian: Endian)
    requires AllScalar(properties) && RowOk(properties, row)
    ensures VertexSize(properties) == Ok(|RowBytes(properties, row, endian)|)
  {
    hide KindOf;
    if |properties| > 0 {
      assert CellOk(properties[0], row[0]);
      ScalarRow(properties[1..], row[1..], endian);
    }
  }

  lemma {:induction false} ScalarRows(properties: seq<Property>, rows: seq<seq<Cell>>, endian: Endian, stride: nat)
    requires AllScalar(properties) && VertexSize(properties) == Ok(stride) && forall i :: 0 <= i < |rows| ==>
               RowOk(properties, rows[i])
    ensures |RowsBytes(properties, rows, endian)| == |rows| * stride
  {
    hide RowOk, RowBytes, VertexSize, AllScalar;
    if |rows| > 0 {
      ScalarRow(properties, rows[0], endian);
      ScalarRows(properties, rows[1..], endian, stride);
      OneMore(|rows|, stride);
    }
  }

  lemma OneMore(n: nat, k: nat)
    requires n > 0
    ensures n * k == k + (n - 1) * k
  {
  }

  lemma {:induction false} ScalarsHaveStride(properties: seq<Property>)
    requires AllScalar(properties) && forall i :: 0 <= i < |properties| ==> KindKnown(properties[i])
    ensures VertexSize(properties).Ok?
  {
    hide KindOf;
    if |properties| > 0 {
      assert KindKnown(properties[0]);
      ScalarsHaveStride(properties[1..]);
    }
  }

  /** Skipping an unknown element moves past exactly its bytes, by either of the reader's two ways. */
  lemma ExtraSkipped(x: Extra, endian: Endian, rest: Bytes)
    requires ExtraOk(x)
    ensures SkipElement(RowsBytes(x.properties, x.rows, endian) + rest, ExtraElement(x), endian) == Ok(rest)
  {
    hide RowOk, RowsBytes, VertexSize, AllScalar, SkipRows, KindKnown, IsElement;
    if AllScalar(x.properties) {
      ScalarsHaveStride(x.properties);
      var stride := VertexSize(x.properties).value;
      ScalarRows(x.properties, x.rows, endian, stride);
      var data := RowsBytes(x.properties, x.rows, endian) + rest;
      assert data[|x.rows| * stride..] == rest;
    } else {
      RowsSkipped(x.properties, x.rows, endian, rest);
    }
  }

  // ----- the whole file

  /** A stretch of the body: the mesh's vertices, its faces, or an element nobody needs. */
  datatype Block = VertexBlock(vertices: seq<seq<Word>>) | FaceBlock(faces: seq<seq<int>>) | Unknown(extra: Extra)

  ghost predicate BlockOk(b: Block) {
    match b
    case VertexBlock(rows) => Triples(rows)
    case FaceBlock(rows) => Triples(rows)
    case Unknown(x) => ExtraOk(x)
  }

  function BlockElement(b: Block): Element {
    match b
    case VertexBlock(rows) => VertexElement(|rows|)
    case FaceBlock(rows) => FaceElement(|rows|)
    case Unknown(x) => ExtraElement(x)
  }

  function BlockBytes(b: Block, endian: Endian): Bytes
    requires BlockOk(b)
  {
    match b
    case VertexBlock(rows) => VertexBytes(rows, endian)
    case FaceBlock(rows) => FaceBytes(rows, endian)
    case Unknown(x) => RowsBytes(x.properties, x.rows, endian)
  }

  function ElementsOf(blocks: seq<Block>): (es: seq<Element>)
    ensures |es| == |blocks| && forall i :: 0 <= i < |es| ==> es[i] == BlockElement(blocks[i])
  {
    seq(|blocks|, i requires 0 <= i < |blocks| => BlockElement(blocks[i]))
  }

  function BodyOf(blocks: seq<Block>, endian: Endian): Bytes
    requires forall i :: 0 <= i < |blocks| ==> BlockOk(blocks[i])
  {
    if |blocks| == 0 then [] else BlockBytes(blocks[0], endian) + BodyOf(blocks[1..], endian)
  }

  /** One mesh, at `v` and `f`, among unknown elements in any order; none of its names comes again later. */
  ghost predicate OneMesh(blocks: seq<Block>, v: nat, f: nat) {
    && v < |blocks| && f < |blocks| && blocks[v].VertexBlock? && blocks[f].FaceBlock?
    && (forall i :: 0 <= i < |blocks| ==> BlockOk(blocks[i]))
    && (forall i :: 0 <= i < |blocks| && i != v && i != f ==> blocks[i].Unknown?)
    && (forall i :: v < i < |blocks| ==> BlockElement(blocks[i]).name != "vertex")
    && (forall i :: f < i < |blocks| ==> BlockElement(blocks[i]).name != "face")
  }

  lemma MeshIsFound(blocks: seq<Block>, v: nat, f: nat)
    requires OneMesh(blocks, v, f)
    ensures AreElements(ElementsOf(blocks))
    ensures LastNamed(ElementsOf(blocks), "vertex") == Some(v) && LastNamed(ElementsOf(blocks), "face") == Some(f)
  {
    hide LastNamed, IsElement, KindKnown, RowOk;
    MeshElements(|blocks[v].vertices|, |blocks[f].faces|);
    var es := ElementsOf(blocks);
    var first, second := LastNamed(es, "vertex"), LastNamed(es, "face");
    assert es[v].name == "vertex" && es[f].name == "face";
  }

  /** The mesh once the blocks from the `k`-th on are read. */
  ghost function MeshFrom(blocks: seq<Block>, v: nat, f: nat, k: nat, mesh: Mesh): Mesh
    requires OneMesh(blocks, v, f)
  {
    Mesh(if k <= v then Some(AsRead(blocks[v].vertices)) else mesh.vertices,
         if k <= f then Some(WrappedAll(blocks[f].faces)) else mesh.faces)
  }

  lemma BlockReads(b: Block, endian: Endian, rest: Bytes)
    requires BlockOk(b)
    ensures var data, e := BlockBytes(b, endian) + rest, BlockElement(b);
            && (b.VertexBlock? ==> ReadVertices(data, e, endian) == Ok((AsRead(b.vertices), rest)))
            && (b.FaceBlock? ==> ReadFaces(data, e, endian) == Ok((WrappedAll(b.faces), rest)))
            && (b.Unknown? ==> SkipElement(data, e, endian) == Ok(rest))
  {
    hide ReadVertices, ReadFaces, SkipElement, VertexBytes, FaceBytes, RowsBytes, AsRead, WrappedAll, VertexElement,
      FaceElement, ExtraElement;
    match b
    case VertexBlock(rows) => VerticesRead(rows, endian, rest);
    case FaceBlock(rows) => FacesRead(rows, endian, rest);
    case Unknown(x) => ExtraSkipped(x, endian, rest);
  }

  lemma {:induction false} BlocksRead(blocks: seq<Block>, v: nat, f: nat, k: nat, endian: Endian, trailing: Bytes,
        mesh: Mesh)
    requires OneMesh(blocks, v, f) && k <= |blocks|
    ensures ReadElements(BodyOf(blocks[k..], endian) + trailing, ElementsOf(blocks), k, v, f, endian, mesh)
            == Ok(MeshFrom(blocks, v, f, k, mesh))
    decreases |blocks| - k
  {
    hide BlockOk, BlockElement, BlockBytes, ReadVertices, ReadFaces, SkipElement, AsRead, WrappedAll;
    var es := ElementsOf(blocks);
    if k < |blocks| {
      var b, more := blocks[k], BodyOf(blocks[k + 1..], endian) + trailing;
      assert blocks[k..][1..] == blocks[k + 1..];
      assert BodyOf(blocks[k..], endian) + trailing == BlockBytes(b, endian) + more;
      BlockReads(b, endian, more);
      var next := if k == v then mesh.(vertices := Some(AsRead(b.vertices)))
                  else if k == f then mesh.(faces := Some(WrappedAll(b.faces)))
                  else mesh;
      BlocksRead(blocks, v, f, k + 1, endian, trailing, next);
    }
  }

  /** A file in either byte order, with a mesh, unknown elements and anything after them. */
  function FileOf(blocks: seq<Block>, endian: Endian, trailing: Bytes): Bytes
    requires forall i :: 0 <= i < |blocks| ==> BlockOk(blocks[i])
    requires Counted(ElementsOf(blocks)) && IsAscii(HeaderOf(ElementsOf(blocks), FormatOf(endian)))
  {
    Encode(HeaderOf(ElementsOf(blocks), FormatOf(endian))) + (BodyOf(blocks, endian) + trailing)
  }

  /**
   * Unknown elements anywhere, the order of vertices and faces, the byte order, and trailing bytes do not
   * change what is loaded.
   */
  lemma UnknownElementsIgnored(blocks: seq<Block>, v: nat, f: nat, endian: Endian, trailing: Bytes)
    requires OneMesh(blocks, v, f)
    ensures Counted(ElementsOf(blocks)) && IsAscii(HeaderOf(ElementsOf(blocks), FormatOf(endian)))
    ensures Load(FileOf(blocks, endian, trailing))
            == Ok(Mesh(Some(AsRead(blocks[v].vertices)), Some(WrappedAll(blocks[f].faces))))
  {
    hide ReadElements, LastNamed, HeaderOf, ParseHeader, Encode, IsAscii, AsRead, WrappedAll, BodyOf, BlockOk,
      BlockElement;
    MeshIsFound(blocks, v, f);
    HeaderReads(ElementsOf(blocks), FormatOf(endian), BodyOf(blocks, endian) + trailing);
    assert blocks[0..] == blocks;
    BlocksRead(blocks, v, f, 0, endian, trailing, Mesh(None, None));
    FormatsDiffer();
  }

  lemma FormatsDiffer()
    ensures FormatOf(Little) != "binary_big_endian" && forall endian :: FormatOf(endian) != "ascii"
  {
    assert |FormatOf(Little)| == 20 && |FormatOf(Big)| == 17;
  }

  /** Indices survive exactly when they are 32-bit integers; others come back wrapped. */
  lemma WrappedIsSame(faces: seq<seq<int>>)
    ensures WrappedAll(faces) == faces
            <==> forall i, j :: 0 <= i < |faces| && 0 <= j < |faces[i]| ==> FitsInt32(faces[i][j])
  {
    forall i, j | 0 <= i < |faces| && 0 <= j < |faces[i]|
      ensures Wrapped(faces[i])[j] == Wrap32(faces[i][j])
      ensures Wrap32(faces[i][j]) == faces[i][j] <==> FitsInt32(faces[i][j])
    {
    }
    if forall i, j :: 0 <= i < |faces| && 0 <= j < |faces[i]| ==> FitsInt32(faces[i][j]) {
      forall i | 0 <= i < |faces|
        ensures WrappedAll(faces)[i] == faces[i]
      {
        assert Wrapped(faces[i]) == faces[i];
      }
      assert WrappedAll(faces) == faces;
    }
    if WrappedAll(faces) == faces {
      assert forall i :: 0 <= i < |faces| ==> WrappedAll(faces)[i] == Wrapped(faces[i]);
    }
  }

  /** Loading what was saved gives back every vertex word and every index, wrapped to 32 bits. */
  lemma SaveThenLoad(vertices: Matrix<Word>, faces: Matrix<int>)
    requires vertices.Valid() && faces.Valid()
    ensures Save(vertices, faces).Ok? <==> vertices.columns == 3 && faces.columns == 3
    ensures Save(vertices, faces).Ok? ==>
              Load(Save(vertices, faces).value) == Ok(Mesh(Some(AsRead(vertices.rows)), Some(WrappedAll(faces.rows))))
  {
    hide Load, AsRead, WrappedAll, HeaderOf, VertexBytes, FaceBytes;
    if vertices.columns == 3 && faces.columns == 3 {
      var blocks := [VertexBlock(vertices.rows), FaceBlock(faces.rows)];
      UnknownElementsIgnored(blocks, 0, 1, Little, []);
      assert ElementsOf(blocks) == [VertexElement(|vertices.rows|), FaceElement(|faces.rows|)];
      TwoBlocks(vertices.rows, faces.rows);
      assert FileOf(blocks, Little, []) == Save(vertices, faces).value;
    }
  }

  lemma TwoBlocks(vertices: seq<seq<Word>>, faces: seq<seq<int>>)
    requires Triples(vertices) && Triples(faces)
    ensures BodyOf([VertexBlock(vertices), FaceBlock(faces)], Little)
            == VertexBytes(vertices, Little) + FaceBytes(faces, Little)
  {
    hide VertexBytes, FaceBytes;
    var blocks := [VertexBlock(vertices), FaceBlock(faces)];
    assert blocks[1..] == [FaceBlock(faces)] && blocks[1..][1..] == [];
    assert BodyOf(blocks[1..], Little) == FaceBytes(faces, Little) + [];
  }
}
