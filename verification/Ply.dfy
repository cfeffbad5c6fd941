/**
 Binary PLY triangle meshes (src/physics/alpasim_physics/ply_io.py): the reader as functions of the
 bytes still to be read, the writer, and the round trip between them.
 */
module Ply {
  import opened Wrappers
  import opened PlyText

  datatype Property =
    | Scalar(kind: string, name: string)
    | List(countKind: string, indexKind: string, name: string)

  datatype Element = Element(name: string, count: int, properties: seq<Property>)

  datatype Error =
    | NotPly | UnexpectedEnd | NotAscii | BadFormat | MissingToken | BadCount | StrayProperty | NoFormat
    | NoVertexElement | NoFaceElement | UnknownKind | ListInVertex | BadLayout | BadSize
    | NoListProperty | FloatIndices | NotTriangles | ShortCount | BadShape | BadNumber | WideIndex

  // ----- the header

  datatype Partial = Partial(format: Option<string>, elements: seq<Element>, current: Option<Element>)

  datatype Effect = Next(partial: Partial) | End | Fail(error: Error)

  const FORMATS := {"ascii", "binary_little_endian", "binary_big_endian"}

  function Closed(h: Partial): seq<Element> {
    h.elements + if h.current.Some? then [h.current.value] else []
  }

  function WithProperty(h: Partial, p: Property): Partial
    requires h.current.Some?
  {
    h.(current := Some(h.current.value.(properties := h.current.value.properties + [p])))
  }

  /** What one header line does. */
  function HeaderLine(tokens: seq<string>, h: Partial): Effect {
    if |tokens| == 0 || tokens[0] == "comment" || tokens[0] == "obj_info" then Next(h)
    else if tokens[0] == "end_header" then End
    else if tokens[0] == "format" then
      if |tokens| < 2 then Fail(MissingToken)
      else if tokens[1] !in FORMATS then Fail(BadFormat)
      else Next(h.(format := Some(tokens[1])))
    else if tokens[0] == "element" then
      if |tokens| < 3 then Fail(MissingToken)
      else
        match ParseInt(tokens[2])
        case None => Fail(BadCount)
        case Some(n) => Next(Partial(h.format, Closed(h), Some(Element(tokens[1], n, []))))
    else if tokens[0] == "property" then
      if h.current.None? then Fail(StrayProperty)
      else if |tokens| < 2 then Fail(MissingToken)
      else if tokens[1] == "list" then
        if |tokens| < 5 then Fail(MissingToken) else Next(WithProperty(h, List(tokens[2], tokens[3], tokens[4])))
      else
        if |tokens| < 3 then Fail(MissingToken) else Next(WithProperty(h, Scalar(tokens[1], tokens[2])))
    else Next(h)
  }

  /** Empty lines, comments and lines with an unknown first word change nothing. */
  lemma IgnoredLines(tokens: seq<string>, h: Partial)
    requires |tokens| == 0 || tokens[0] !in {"end_header", "format", "element", "property"}
    ensures HeaderLine(tokens, h) == Next(h)
  {
  }

  /** What a line that is not ignored does, and why it fails. */
  lemma DeclaringLines(tokens: seq<string>, h: Partial)
    requires |tokens| > 0
    ensures tokens[0] == "end_header" ==> HeaderLine(tokens, h) == End
    ensures tokens[0] == "format" ==>
              HeaderLine(tokens, h) ==
              if |tokens| < 2 then Fail(MissingToken)
              else if tokens[1] in {"ascii", "binary_little_endian", "binary_big_endian"} then
                Next(Partial(Some(tokens[1]), h.elements, h.current))
              else Fail(BadFormat)
    ensures tokens[0] == "element" ==>
              HeaderLine(tokens, h) ==
              if |tokens| < 3 then Fail(MissingToken)
              else if ParseInt(tokens[2]).None? then Fail(BadCount)
              else Next(Partial(h.format, h.elements + (if h.current.Some? then [h.current.value] else []),
                                Some(Element(tokens[1], ParseInt(tokens[2]).value, []))))
    ensures tokens[0] == "property" && h.current.None? ==> HeaderLine(tokens, h) == Fail(StrayProperty)
    ensures tokens[0] == "property" && h.current.Some? && |tokens| > 1 && tokens[1] == "list" ==>
              HeaderLine(tokens, h) == if |tokens| < 5 then Fail(MissingToken)
                                       else Next(WithProperty(h, List(tokens[2], tokens[3], tokens[4])))
    ensures tokens[0] == "property" && h.current.Some? && |tokens| > 2 && tokens[1] != "list" ==>
              HeaderLine(tokens, h) == Next(WithProperty(h, Scalar(tokens[1], tokens[2])))
  {
    hide ParseInt;
  }

  /** The header lines up to end_header, and the bytes after it. */
  function HeaderLines(rest: Bytes, h: Partial): Result<(Partial, Bytes), Error>
    decreases |rest|
  {
    var n := LineLength(rest);
    if n == 0 then Err(UnexpectedEnd)
    else
      match Decode(rest[..n])
      case None => Err(NotAscii)
      case Some(text) =>
        match HeaderLine(Split(text), h)
        case Fail(e) => Err(e)
        case End => Ok((h, rest[n..]))
        case Next(g) => HeaderLines(rest[n..], g)
  }

  datatype Header = Header(format: string, elements: seq<Element>, body: Bytes)

  function ParseHeader(data: Bytes): Result<Header, Error> {
    var n := LineLength(data);
    if Strip(data[..n]) != Encode("ply") then Err(NotPly)
    else
      match HeaderLines(data[n..], Partial(None, [], None))
      case Err(e) => Err(e)
      case Ok((h, body)) =>
        if h.format.None? then Err(NoFormat) else Ok(Header(h.format.value, Closed(h), body))
  }

  /** The last element with a name. */
  function LastNamed(elements: seq<Element>, name: string): (r: Option<nat>)
    ensures r.Some? ==> r.value < |elements| && elements[r.value].name == name
    ensures forall i :: 0 <= i < |elements| && elements[i].name == name ==> r.Some? && i <= r.value
  {
    if |elements| == 0 then None
    else if elements[|elements| - 1].name == name then Some(|elements| - 1)
    else LastNamed(elements[..|elements| - 1], name)
  }

  // ----- numbers

  datatype Kind = Kind(size: nat, integer: bool, signed: bool)

  const FLOAT := Kind(4, false, true)
  const INT := Kind(4, true, true)
  const UCHAR := Kind(1, true, false)

  function KindOf(name: string): (k: Option<Kind>)
    ensures k.Some? ==> 1 <= k.value.size <= 8
  {
    match name
    case "char" => Some(Kind(1, true, true))
    case "uchar" => Some(UCHAR)
    case "short" => Some(Kind(2, true, true))
    case "ushort" => Some(Kind(2, true, false))
    case "int" => Some(INT)
    case "uint" => Some(Kind(4, true, false))
    case "float" => Some(FLOAT)
    case "double" => Some(Kind(8, false, true))
    case "int8" => Some(Kind(1, true, true))
    case "uint8" => Some(UCHAR)
    case "int16" => Some(Kind(2, true, true))
    case "uint16" => Some(Kind(2, true, false))
    case "int32" => Some(INT)
    case "uint32" => Some(Kind(4, true, false))
    case "float32" => Some(FLOAT)
    case "float64" => Some(Kind(8, false, true))
    case _ => None
  }

  datatype Endian = Little | Big

  function Reverse(b: Bytes): (r: Bytes)
    ensures |r| == |b|
  {
    if |b| == 0 then [] else Reverse(b[1..]) + [b[0]]
  }

  /**
   * A number's bytes from their order in a file to least significant first, and from there to their order in a
   * file.
   */
  function Ordered(b: Bytes, endian: Endian): (r: Bytes)
    ensures |r| == |b|
  {
    if endian.Big? then Reverse(b) else b
  }

  function IntOf(kind: Kind, b: Bytes): int {
    var v := FromBytes(b);
    if kind.signed && 2 * v >= Power256(|b|) then v - Power256(|b|) else v
  }

  const TWO_TO_32 := 0x1_0000_0000

  /** Conversion to a signed 32-bit integer. */
  function Wrap32(n: int): int {
    var m := n % TWO_TO_32;
    if 2 * m >= TWO_TO_32 then m - TWO_TO_32 else m
  }

  /** A coordinate as stored: its kind and its bytes, least significant first, or its text. */
  datatype Number = Number(kind: Kind, data: Bytes) | Text(token: string)

  // ----- the body

  /** How many bytes stream.read(n) returns; a negative n reads everything. */
  function Taken(rest: Bytes, n: int): (k: nat)
    ensures k <= |rest|
  {
    if n < 0 || n > |rest| then |rest| else n
  }

  /** The records of a buffer, absent when its length is not a multiple of the record size. */
  function Chunks(raw: Bytes, size: nat): Option<seq<Bytes>>
    requires size > 0
  {
    if |raw| == 0 then Some([])
    else if |raw| < size then None
    else
      match Chunks(raw[size..], size)
      case None => None
      case Some(more) => Some([raw[..size]] + more)
  }

  /** The size of a vertex record. */
  function VertexSize(properties: seq<Property>): Result<nat, Error> {
    if |properties| == 0 then Ok(0)
    else
      match properties[0]
      case List(_, _, _) => Err(ListInVertex)
      case Scalar(kind, _) =>
        match KindOf(kind)
        case None => Err(UnknownKind)
        case Some(k) =>
          match VertexSize(properties[1..])
          case Err(e) => Err(e)
          case Ok(n) => Ok(k.size + n)
  }

  predicate DistinctNames(properties: seq<Property>) {
    forall i, j :: 0 <= i < j < |properties| ==> properties[i].name != properties[j].name
  }

  /** A named field of a record. */
  function Field(record: Bytes, properties: seq<Property>, name: string, endian: Endian): Option<Number> {
    if |properties| == 0 || properties[0].List? || KindOf(properties[0].kind).None? then None
    else
      var k := KindOf(properties[0].kind).value;
      if |record| < k.size then None
      else if properties[0].name == name then Some(Number(k, Ordered(record[..k.size], endian)))
      else Field(record[k.size..], properties[1..], name, endian)
  }

  function VertexOf(record: Bytes, properties: seq<Property>, endian: Endian): Option<seq<Number>> {
    var x, y, z := Field(record, properties, "x", endian), Field(record, properties, "y", endian),
        Field(record, properties, "z", endian);
    if x.Some? && y.Some? && z.Some? then Some([x.value, y.value, z.value]) else None
  }

  function Vertices(records: seq<Bytes>, properties: seq<Property>, endian: Endian): Option<seq<seq<Number>>> {
    if |records| == 0 then Some([])
    else
      var first, more := VertexOf(records[0], properties, endian), Vertices(records[1..], properties, endian);
      if first.Some? && more.Some? then Some([first.value] + more.value) else None
  }

  predicate HasName(properties: seq<Property>, name: string) {
    exists i :: 0 <= i < |properties| && properties[i].name == name
  }

  function ReadVertices(rest: Bytes, e: Element, endian: Endian): Result<(seq<seq<Number>>, Bytes), Error> {
    match VertexSize(e.properties)
    case Err(error) => Err(error)
    case Ok(size) =>
      if !DistinctNames(e.properties) || size == 0 then Err(BadLayout)
      else
        var n := Taken(rest, e.count * size);
        match Chunks(rest[..n], size)
        case None => Err(BadSize)
        case Some(records) =>
          if !HasName(e.properties, "x") || !HasName(e.properties, "y") || !HasName(e.properties, "z") then
            Err(BadLayout)
          else
            match Vertices(records, e.properties, endian)
            case None => Err(BadLayout)
            case Some(vertices) => Ok((vertices, rest[n..]))
  }

  function FirstList(properties: seq<Property>): (r: Option<Property>)
    ensures r.Some? ==> r.value.List?
  {
    if |properties| == 0 then None
    else if properties[0].List? then Some(properties[0])
    else FirstList(properties[1..])
  }

  function NumberAt(record: Bytes, at: nat, kind: Kind, endian: Endian): int {
    if at + kind.size <= |record| then IntOf(kind, Ordered(record[at..at + kind.size], endian)) else 0
  }

  /** A face record: its three indices, when its count is 3. */
  function FaceOf(record: Bytes, count: Kind, index: Kind, endian: Endian): Option<seq<int>> {
    if NumberAt(record, 0, count, endian) != 3 then None
    else Some([Wrap32(NumberAt(record, count.size, index, endian)),
               Wrap32(NumberAt(record, count.size + index.size, index, endian)),
               Wrap32(NumberAt(record, count.size + 2 * index.size, index, endian))])
  }

  function Faces(records: seq<Bytes>, count: Kind, index: Kind, endian: Endian): Option<seq<seq<int>>> {
    if |records| == 0 then Some([])
    else
      var first, more := FaceOf(records[0], count, index, endian), Faces(records[1..], count, index, endian);
      if first.Some? && more.Some? then Some([first.value] + more.value) else None
  }

  function ReadFaces(rest: Bytes, e: Element, endian: Endian): Result<(seq<seq<int>>, Bytes), Error> {
    match FirstList(e.properties)
    case None => Err(NoListProperty)
    case Some(p) =>
      var count, index := KindOf(p.countKind), KindOf(p.indexKind);
      if count.None? || index.None? then Err(UnknownKind)
      else if !count.value.integer || !index.value.integer then Err(FloatIndices)
      else
        var size := count.value.size + 3 * index.value.size;
        var n := Taken(rest, e.count * size);
        match Chunks(rest[..n], size)
        case None => Err(BadSize)
        case Some(records) =>
          match Faces(records, count.value, index.value, endian)
          case None => Err(NotTriangles)
          case Some(faces) => Ok((faces, rest[n..]))
  }

  predicate AllScalar(properties: seq<Property>) {
    forall i :: 0 <= i < |properties| ==> properties[i].Scalar?
  }

  /** One value of an element nobody needs: a scalar, or a list with its count. */
  function SkipValue(rest: Bytes, p: Property, endian: Endian): Result<Bytes, Error> {
    match p
    case Scalar(kind, _) =>
      if KindOf(kind).None? then Err(UnknownKind) else Ok(rest[Taken(rest, KindOf(kind).value.size)..])
    case List(countKind, indexKind, _) =>
      if KindOf(countKind).None? then Err(UnknownKind)
      else
        var count := KindOf(countKind).value;
        if |rest| < count.size then Err(ShortCount)
        else if KindOf(indexKind).None? then Err(UnknownKind)
        else if !count.integer then Err(FloatIndices)
        else
          var n := IntOf(count, Ordered(rest[..count.size], endian));
          var after := rest[count.size..];
          Ok(after[Taken(after, n * KindOf(indexKind).value.size)..])
  }

  function SkipRow(rest: Bytes, properties: seq<Property>, endian: Endian): Result<Bytes, Error>
    decreases |properties|
  {
    if |properties| == 0 then Ok(rest)
    else
      match SkipValue(rest, properties[0], endian)
      case Err(e) => Err(e)
      case Ok(after) => SkipRow(after, properties[1..], endian)
  }

  function SkipRows(rest: Bytes, properties: seq<Property>, rows: int, endian: Endian): Result<Bytes, Error>
    decreases rows
  {
    if rows <= 0 then Ok(rest)
    else
      match SkipRow(rest, properties, endian)
      case Err(e) => Err(e)
      case Ok(after) => SkipRows(after, properties, rows - 1, endian)
  }

  /** Skipping an element: in one read when its rows all have the same size, row by row otherwise. */
  function SkipElement(rest: Bytes, e: Element, endian: Endian): Result<Bytes, Error> {
    if AllScalar(e.properties) then
      match VertexSize(e.properties)
      case Err(error) => Err(error)
      case Ok(stride) => Ok(rest[Taken(rest, e.count * stride)..])
    else SkipRows(rest, e.properties, e.count, endian)
  }

  datatype Mesh = Mesh(vertices: Option<seq<seq<Number>>>, faces: Option<seq<seq<int>>>)

  /** The elements from the `i`-th on; `v` and `f` are the vertex and the face element. */
  function ReadElements(rest: Bytes, elements: seq<Element>, i: nat, v: nat, f: nat, endian: Endian, mesh: Mesh)
    : Result<Mesh, Error>
    requires i <= |elements|
    decreases |elements| - i
  {
    if i == |elements| then Ok(mesh)
    else if i == v then
      match ReadVertices(rest, elements[i], endian)
      case Err(e) => Err(e)
      case Ok((vertices, after)) =>
        ReadElements(after, elements, i + 1, v, f, endian, mesh.(vertices := Some(vertices)))
    else if i == f then
      match ReadFaces(rest, elements[i], endian)
      case Err(e) => Err(e)
      case Ok((faces, after)) => ReadElements(after, elements, i + 1, v, f, endian, mesh.(faces := Some(faces)))
    else
      match SkipElement(rest, elements[i], endian)
      case Err(e) => Err(e)
      case Ok(after) => ReadElements(after, elements, i + 1, v, f, endian, mesh)
  }

  // ----- the body of an ASCII file

  predicate FitsInt32(n: int) {
    -0x8000_0000 <= n < 0x8000_0000
  }

  /** The tokens of the next line, and what follows it; after the end there are none. */
  function LineTokens(rest: Bytes): Result<(seq<string>, Bytes), Error> {
    var n := LineLength(rest);
    match Decode(rest[..n])
    case None => Err(NotAscii)
    case Some(text) => Ok((Split(text), rest[n..]))
  }

  /** The names of the scalar properties: lists are passed over, though their values stand in the lines too. */
  function ScalarNames(properties: seq<Property>): seq<string> {
    if |properties| == 0 then []
    else (if properties[0].Scalar? then [properties[0].name] else []) + ScalarNames(properties[1..])
  }

  /** The first entry equal to `name`. */
  function IndexOf(names: seq<string>, name: string): (i: Option<nat>)
    ensures i.Some? ==> i.value < |names| && names[i.value] == name && name !in names[..i.value]
    ensures i.None? ==> name !in names
  {
    if |names| == 0 then None
    else if names[0] == name then Some(0)
    else
      match IndexOf(names[1..], name)
      case None => None
      case Some(i) => Some(i + 1)
  }

  function Coordinate(tokens: seq<string>, i: nat): Result<Number, Error> {
    if i >= |tokens| then Err(MissingToken)
    else if !IsFloat(tokens[i]) then Err(BadNumber)
    else Ok(Text(tokens[i]))
  }

  /** The columns of x, y and z. */
  datatype Columns = Columns(x: nat, y: nat, z: nat)

  function AsciiVertex(tokens: seq<string>, at: Columns): Result<seq<Number>, Error> {
    var x, y, z := Coordinate(tokens, at.x), Coordinate(tokens, at.y), Coordinate(tokens, at.z);
    if x.Err? then Err(x.error)
    else if y.Err? then Err(y.error)
    else if z.Err? then Err(z.error)
    else Ok([x.value, y.value, z.value])
  }

  /** `n` more vertices after those already read. */
  function AsciiVertices(rest: Bytes, n: int, at: Columns, read: seq<seq<Number>>)
    : Result<(seq<seq<Number>>, Bytes), Error>
    decreases n
  {
    if n <= 0 then Ok((read, rest))
    else
      match LineTokens(rest)
      case Err(e) => Err(e)
      case Ok((tokens, after)) =>
        match AsciiVertex(tokens, at)
        case Err(e) => Err(e)
        case Ok(vertex) => AsciiVertices(after, n - 1, at, read + [vertex])
  }

  function ColumnsOf(e: Element): Option<Columns> {
    var names := ScalarNames(e.properties);
    var x, y, z := IndexOf(names, "x"), IndexOf(names, "y"), IndexOf(names, "z");
    if x.None? || y.None? || z.None? then None else Some(Columns(x.value, y.value, z.value))
  }

  function ReadAsciiVertices(rest: Bytes, e: Element): Result<(seq<seq<Number>>, Bytes), Error> {
    var at := ColumnsOf(e);
    if at.None? then Err(BadLayout)
    else if e.count < 0 then Err(BadCount)
    else AsciiVertices(rest, e.count, at.value, [])
  }

  function Index(tokens: seq<string>, i: nat): Result<int, Error> {
    if i >= |tokens| then Err(MissingToken)
    else
      match ParseInt(tokens[i])
      case None => Err(BadNumber)
      case Some(n) => Ok(n)
  }

  /** A line's face; unlike in a binary file, an index that does not fit is an error. */
  function AsciiFace(tokens: seq<string>): Result<seq<int>, Error> {
    var n := Index(tokens, 0);
    if n.Err? then Err(n.error)
    else if n.value != 3 then Err(NotTriangles)
    else
      var a, b, c := Index(tokens, 1), Index(tokens, 2), Index(tokens, 3);
      if a.Err? then Err(a.error)
      else if b.Err? then Err(b.error)
      else if c.Err? then Err(c.error)
      else if !FitsInt32(a.value) || !FitsInt32(b.value) || !FitsInt32(c.value) then Err(WideIndex)
      else Ok([a.value, b.value, c.value])
  }

  function AsciiFaces(rest: Bytes, n: int, read: seq<seq<int>>): Result<(seq<seq<int>>, Bytes), Error>
    decreases n
  {
    if n <= 0 then Ok((read, rest))
    else
      match LineTokens(rest)
      case Err(e) => Err(e)
      case Ok((tokens, after)) =>
        match AsciiFace(tokens)
        case Err(e) => Err(e)
        case Ok(face) => AsciiFaces(after, n - 1, read + [face])
  }

  function ReadAsciiFaces(rest: Bytes, e: Element): Result<(seq<seq<int>>, Bytes), Error> {
    if e.count < 0 then Err(BadCount) else AsciiFaces(rest, e.count, [])
  }

  function SkipLines(rest: Bytes, n: int): Bytes
    decreases n
  {
    if n <= 0 then rest else SkipLines(rest[LineLength(rest)..], n - 1)
  }

  /** `_load_ascii` from the `i`-th element on. */
  function ReadAscii(rest: Bytes, elements: seq<Element>, i: nat, v: nat, f: nat, mesh: Mesh): Result<Mesh, Error>
    requires i <= |elements|
    decreases |elements| - i
  {
    if i == |elements| then Ok(mesh)
    else if i == v then
      match ReadAsciiVertices(rest, elements[i])
      case Err(e) => Err(e)
      case Ok((vertices, after)) => ReadAscii(after, elements, i + 1, v, f, mesh.(vertices := Some(vertices)))
    else if i == f then
      match ReadAsciiFaces(rest, elements[i])
      case Err(e) => Err(e)
      case Ok((faces, after)) => ReadAscii(after, elements, i + 1, v, f, mesh.(faces := Some(faces)))
    else ReadAscii(SkipLines(rest, elements[i].count), elements, i + 1, v, f, mesh)
  }

  /** `load_mesh_vf` */
  function Load(data: Bytes): Result<Mesh, Error> {
    match ParseHeader(data)
    case Err(e) => Err(e)
    case Ok(h) =>
      var v, f := LastNamed(h.elements, "vertex"), LastNamed(h.elements, "face");
      if v.None? then Err(NoVertexElement)
      else if f.None? then Err(NoFaceElement)
      else if h.format == "ascii" then ReadAscii(h.body, h.elements, 0, v.value, f.value, Mesh(None, None))
      else
        var endian := if h.format == "binary_big_endian" then Big else Little;
        ReadElements(h.body, h.elements, 0, v.value, f.value, endian, Mesh(None, None))
  }

  // ----- writing

  type Word = b: Bytes | |b| == 4 witness [0, 0, 0, 0]

  /** A two-dimensional array. */
  datatype Matrix<T> = Matrix(columns: nat, rows: seq<seq<T>>) {
    predicate Valid() {
      forall i :: 0 <= i < |rows| ==> |rows[i]| == columns
    }
  }

  predicate Triples<T>(rows: seq<seq<T>>) {
    forall i :: 0 <= i < |rows| ==> |rows[i]| == 3
  }

  function VertexBytes(rows: seq<seq<Word>>, endian: Endian): Bytes
    requires Triples(rows)
  {
    if |rows| == 0 then []
    else
      Ordered(rows[0][0], endian) + Ordered(rows[0][1], endian) + Ordered(rows[0][2], endian)
        + VertexBytes(rows[1..], endian)
  }

  function Int32Bytes(n: int, endian: Endian): (b: Bytes)
    ensures |b| == 4
  {
    Ordered(ToBytes(n % TWO_TO_32, 4), endian)
  }

  function FaceBytes(rows: seq<seq<int>>, endian: Endian): Bytes
    requires Triples(rows)
  {
    if |rows| == 0 then []
    else
      [3] + Int32Bytes(rows[0][0], endian) + Int32Bytes(rows[0][1], endian) + Int32Bytes(rows[0][2], endian)
        + FaceBytes(rows[1..], endian)
  }

  function Line(tokens: seq<string>): string {
    Join(tokens) + "\n"
  }

  function PropertyTokens(p: Property): seq<string> {
    match p
    case Scalar(kind, name) => ["property", kind, name]
    case List(countKind, indexKind, name) => ["property", "list", countKind, indexKind, name]
  }

  function PropertyText(properties: seq<Property>): string {
    if |properties| == 0 then "" else Line(PropertyTokens(properties[0])) + PropertyText(properties[1..])
  }

  function ElementText(e: Element): string
    requires e.count >= 0
  {
    Line(["element", e.name, Decimal(e.count)]) + PropertyText(e.properties)
  }

  predicate Counted(elements: seq<Element>) {
    forall i :: 0 <= i < |elements| ==> elements[i].count >= 0
  }

  function ElementsText(elements: seq<Element>): string
    requires Counted(elements)
  {
    if |elements| == 0 then "" else ElementText(elements[0]) + ElementsText(elements[1..])
  }

  function FormatOf(endian: Endian): (format: string)
    ensures format in FORMATS
  {
    if endian.Big? then "binary_big_endian" else "binary_little_endian"
  }

  function HeaderOf(elements: seq<Element>, format: string): string
    requires Counted(elements)
  {
    Line(["ply"]) + (Line(["format", format, "1.0"]) + (ElementsText(elements) + Line(["end_header"])))
  }

  const XYZ := [Scalar("float", "x"), Scalar("float", "y"), Scalar("float", "z")]
  const INDICES := [List("uchar", "int", "vertex_indices")]

  function VertexElement(n: nat): Element {
    Element("vertex", n, XYZ)
  }

  function FaceElement(n: nat): Element {
    Element("face", n, INDICES)
  }

  predicate IsProperty(p: Property) {
    match p
    case Scalar(kind, name) => IsToken(kind) && kind != "list" && IsToken(name)
    case List(countKind, indexKind, name) => IsToken(countKind) && IsToken(indexKind) && IsToken(name)
  }

  /** An element a header line can declare. */
  predicate IsElement(e: Element) {
    e.count >= 0 && IsToken(e.name) && forall i :: 0 <= i < |e.properties| ==> IsProperty(e.properties[i])
  }

  predicate AreElements(elements: seq<Element>) {
    forall i :: 0 <= i < |elements| ==> IsElement(elements[i])
  }

  lemma KeywordsAreTokens()
    ensures IsToken("element") && IsToken("property") && IsToken("list") && IsToken("end_header")
    ensures AreTokens(["ply"]) && forall format :: format in FORMATS ==> AreTokens(["format", format, "1.0"])
  {
    hide IsToken;
    BodyKeywords();
    FormatKeywords();
  }

  lemma BodyKeywords()
    ensures IsToken("element") && IsToken("property") && IsToken("list") && IsToken("end_header")
  {
  }

  lemma FormatKeywords()
    ensures IsToken("ply") && IsToken("format") && IsToken("1.0")
    ensures forall format :: format in FORMATS ==> IsToken(format)
  {
  }

  lemma PropertyIsTokens(p: Property)
    requires IsProperty(p)
    ensures AreTokens(PropertyTokens(p))
  {
    hide IsToken;
    KeywordsAreTokens();
  }

  lemma LineAscii(tokens: seq<string>)
    requires AreTokens(tokens)
    ensures IsAscii(Line(tokens))
  {
    hide IsToken;
    JoinAscii(tokens);
  }

  lemma {:induction false} PropertiesAscii(properties: seq<Property>)
    requires forall i :: 0 <= i < |properties| ==> IsProperty(properties[i])
    ensures IsAscii(PropertyText(properties))
  {
    hide IsToken, IsProperty, PropertyTokens, Line;
    if |properties| > 0 {
      PropertyIsTokens(properties[0]);
      LineAscii(PropertyTokens(properties[0]));
      PropertiesAscii(properties[1..]);
    }
  }

  lemma ElementLineIsTokens(e: Element)
    requires IsElement(e)
    ensures AreTokens(["element", e.name, Decimal(e.count)])
  {
    hide IsToken, IsProperty, Decimal;
    KeywordsAreTokens();
    DecimalIsToken(e.count);
  }

  lemma {:induction false} ElementsAscii(elements: seq<Element>)
    requires AreElements(elements)
    ensures Counted(elements) && IsAscii(ElementsText(elements))
  {
    hide IsToken, IsProperty, Line, Decimal;
    if |elements| > 0 {
      var e := elements[0];
      ElementLineIsTokens(e);
      LineAscii(["element", e.name, Decimal(e.count)]);
      PropertiesAscii(e.properties);
      ElementsAscii(elements[1..]);
    }
  }

  lemma HeaderOfIsAscii(elements: seq<Element>, format: string)
    requires AreElements(elements) && format in FORMATS
    ensures Counted(elements) && IsAscii(HeaderOf(elements, format))
  {
    hide IsToken, Line;
    KeywordsAreTokens();
    LineAscii(["ply"]);
    LineAscii(["format", format, "1.0"]);
    LineAscii(["end_header"]);
    ElementsAscii(elements);
  }

  lemma MeshElements(vertices: nat, faces: nat)
    ensures IsElement(VertexElement(vertices)) && IsElement(FaceElement(faces))
  {
    hide IsToken;
    MeshNamesAreTokens();
  }

  lemma MeshNamesAreTokens()
    ensures IsToken("vertex") && IsToken("face") && IsToken("float") && IsToken("x") && IsToken("y") && IsToken("z")
    ensures IsToken("uchar") && IsToken("int") && IsToken("vertex_indices")
  {
  }

  /** The header of the writer: just the vertices and the faces. */
  function MeshHeader(vertices: nat, faces: nat): (s: string)
    ensures IsAscii(s)
  {
    var elements := [VertexElement(vertices), FaceElement(faces)];
    MeshElements(vertices, faces);
    HeaderOfIsAscii(elements, FormatOf(Little));
    HeaderOf(elements, FormatOf(Little))
  }

  /** `save_mesh_vf`; vertices are given as the words their float32 conversion stores. */
  function Save(vertices: Matrix<Word>, faces: Matrix<int>): Result<Bytes, Error>
    requires vertices.Valid() && faces.Valid()
  {
    if vertices.columns != 3 || faces.columns != 3 then Err(BadShape)
    else
      Ok(Encode(MeshHeader(|vertices.rows|, |faces.rows|)) + VertexBytes(vertices.rows, Little)
          + FaceBytes(faces.rows, Little))
  }
}
