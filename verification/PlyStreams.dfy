/** The PLY reader as it works on a stream, proved against the reader on bytes. */
module PlyStreams {
  import opened Wrappers
  import opened PlyText
  import P = Ply

  /** io.BytesIO, for reading. */
  class Stream {
    const data: Bytes
    var pos: nat

    ghost predicate Valid()
      reads this
    {
      pos <= |data|
    }

    ghost function Rest(): Bytes
      requires Valid()
      reads this
    {
      data[pos..]
    }

    constructor (data: Bytes)
      ensures Valid() && Rest() == data
    {
      this.data, pos := data, 0;
    }

    method Read(n: int) returns (b: Bytes)
      requires Valid()
      modifies this
      ensures Valid()
      ensures var k := P.Taken(old(Rest()), n); b == old(Rest())[..k] && Rest() == old(Rest())[k..]
    {
      var end := if n < 0 || pos + n > |data| then |data| else pos + n;
      b := data[pos..end];
      pos := end;
    }

    method ReadLine() returns (b: Bytes)
      requires Valid()
      modifies this
      ensures Valid()
      ensures var k := LineLength(old(Rest())); b == old(Rest())[..k] && Rest() == old(Rest())[k..]
    {
      var end := pos;
      while end < |data| && data[end] != NEWLINE
        invariant pos <= end <= |data| && LineLength(data[pos..]) == end - pos + LineLength(data[end..])
      {
        assert data[end..][1..] == data[end + 1..];
        end := end + 1;
      }
      if end < |data| {
        end := end + 1;
      }
      b := data[pos..end];
      assert data[pos..][..end - pos] == b && data[pos..][end - pos..] == data[end..];
      pos := end;
    }
  }

  /** A reader's outcome: the stream stands where the reader on bytes says, or the same error. */
  ghost predicate Ends(s: Stream, problem: Option<P.Error>, spec: Result<Bytes, P.Error>)
    requires s.Valid()
    reads s
  {
    if spec.Ok? then problem.None? && s.Rest() == spec.value else problem == Some(spec.error)
  }

  lemma HeaderLinesStep(rest: Bytes, h: P.Partial)
    ensures var n := LineLength(rest);
            && (n == 0 ==> P.HeaderLines(rest, h) == Err(P.UnexpectedEnd))
            && (n > 0 && Decode(rest[..n]).None? ==> P.HeaderLines(rest, h) == Err(P.NotAscii))
            && (n > 0 && Decode(rest[..n]).Some? ==>
                  var effect := P.HeaderLine(Split(Decode(rest[..n]).value), h);
                  && (effect.Fail? ==> P.HeaderLines(rest, h) == Err(effect.error))
                  && (effect.End? ==> P.HeaderLines(rest, h) == Ok((h, rest[n..])))
                  && (effect.Next? ==> P.HeaderLines(rest, h) == P.HeaderLines(rest[n..], effect.partial)))
  {
    hide LineLength, Decode, Split, P.HeaderLine;
  }

  /** The loop of `_parse_header`. */
  method ReadHeaderLines(s: Stream) returns (r: Result<P.Partial, P.Error>)
    requires s.Valid()
    modifies s
    ensures s.Valid()
    ensures var spec := P.HeaderLines(old(s.Rest()), P.Partial(None, [], None));
            if spec.Ok? then r == Ok(spec.value.0) && s.Rest() == spec.value.1 else r == Err(spec.error)
  {
    hide LineLength, Decode, Split, P.HeaderLine, P.HeaderLines;
    var h := P.Partial(None, [], None);
    while true
      invariant s.Valid() && P.HeaderLines(old(s.Rest()), P.Partial(None, [], None)) == P.HeaderLines(s.Rest(), h)
      decreases |s.Rest()|
    {
      HeaderLinesStep(s.Rest(), h);
      var line := s.ReadLine();
      if |line| == 0 {
        return Err(P.UnexpectedEnd);
      }
      var text := Decode(line);
      if text.None? {
        return Err(P.NotAscii);
      }
      match P.HeaderLine(Split(text.value), h) {
        case Fail(e) => return Err(e);
        case End => return Ok(h);
        case Next(g) => h := g;
      }
    }
  }

  lemma ParseHeaderIs(data: Bytes)
    ensures var n := LineLength(data); var h := P.HeaderLines(data[n..], P.Partial(None, [], None));
            && (Strip(data[..n]) != Encode("ply") ==> P.ParseHeader(data) == Err(P.NotPly))
            && (Strip(data[..n]) == Encode("ply") ==>
                  && (h.Err? ==> P.ParseHeader(data) == Err(h.error))
                  && (h.Ok? && h.value.0.format.None? ==> P.ParseHeader(data) == Err(P.NoFormat))
                  && (h.Ok? && h.value.0.format.Some? ==>
                        P.ParseHeader(data) == Ok(P.Header(h.value.0.format.value, P.Closed(h.value.0), h.value.1))))
  {
    hide LineLength, Strip, Encode, P.HeaderLines, P.Closed;
  }

  method ParseHeader(s: Stream) returns (r: Result<(string, seq<P.Element>), P.Error>)
    requires s.Valid()
    modifies s
    ensures s.Valid()
    ensures var h := P.ParseHeader(old(s.Rest()));
            if h.Ok? then r == Ok((h.value.format, h.value.elements)) && s.Rest() == h.value.body else r == Err(h.error)
  {
    hide LineLength, Strip, Encode, P.HeaderLines, P.Closed, P.ParseHeader;
    ParseHeaderIs(s.Rest());
    var magic := s.ReadLine();
    if Strip(magic) != Encode("ply") {
      return Err(P.NotPly);
    }
    var h := ReadHeaderLines(s);
    if h.Err? {
      return Err(h.error);
    }
    if h.value.format.None? {
      return Err(P.NoFormat);
    }
    return Ok((h.value.format.value, P.Closed(h.value)));
  }

  /** The loop that builds a vertex record's layout. */
  method VertexSize(properties: seq<P.Property>) returns (r: Result<nat, P.Error>)
    ensures r == P.VertexSize(properties)
  {
    hide P.VertexSize, P.KindOf;
    var size: nat := 0;
    assert properties[0..] == properties;
    for i := 0 to |properties|
      invariant P.VertexSize(properties) == Plus(size, P.VertexSize(properties[i..]))
    {
      var p := properties[i];
      SizeStep(properties, i);
      if p.List? {
        return Err(P.ListInVertex);
      }
      var kind := P.KindOf(p.kind);
      if kind.None? {
        return Err(P.UnknownKind);
      }
      size := size + kind.value.size;
    }
    SizeEnd(properties);
    r := Ok(size);
  }

  method ReadVertices(s: Stream, e: P.Element, endian: P.Endian) returns (r: Result<seq<seq<P.Number>>, P.Error>)
    requires s.Valid()
    modifies s
    ensures s.Valid()
    ensures var v := P.ReadVertices(old(s.Rest()), e, endian);
            if v.Ok? then r == Ok(v.value.0) && s.Rest() == v.value.1 else r == Err(v.error)
  {
    hide P.VertexSize, P.DistinctNames, P.HasName, P.Chunks, P.Vertices, P.Taken;
    var layout := VertexSize(e.properties);
    if layout.Err? {
      return Err(layout.error);
    }
    var size := layout.value;
    if !P.DistinctNames(e.properties) || size == 0 {
      return Err(P.BadLayout);
    }
    var raw := s.Read(e.count * size);
    var records := P.Chunks(raw, size);
    if records.None? {
      return Err(P.BadSize);
    }
    if !P.HasName(e.properties, "x") || !P.HasName(e.properties, "y") || !P.HasName(e.properties, "z") {
      return Err(P.BadLayout);
    }
    var vertices := P.Vertices(records.value, e.properties, endian);
    r := if vertices.None? then Err(P.BadLayout) else Ok(vertices.value);
  }

  ghost function Plus(n: nat, r: Result<nat, P.Error>): Result<nat, P.Error> {
    if r.Ok? then Ok(n + r.value) else r
  }

  lemma SizeStep(properties: seq<P.Property>, i: nat)
    requires i < |properties|
    ensures var p := properties[i]; var rest := P.VertexSize(properties[i + 1..]);
            P.VertexSize(properties[i..]) == if p.List? then Err(P.ListInVertex)
                                             else if P.KindOf(p.kind).None? then Err(P.UnknownKind)
                                             else Plus(P.KindOf(p.kind).value.size, rest)
  {
    assert properties[i..][1..] == properties[i + 1..];
  }

  lemma SizeEnd(properties: seq<P.Property>)
    ensures P.VertexSize(properties[|properties|..]) == Ok(0)
  {
  }

  method ReadFaces(s: Stream, e: P.Element, endian: P.Endian) returns (r: Result<seq<seq<int>>, P.Error>)
    requires s.Valid()
    modifies s
    ensures s.Valid()
    ensures var f := P.ReadFaces(old(s.Rest()), e, endian);
            if f.Ok? then r == Ok(f.value.0) && s.Rest() == f.value.1 else r == Err(f.error)
  {
    hide P.FirstList, P.KindOf, P.Chunks, P.Faces, P.Taken;
    var p := P.FirstList(e.properties);
    if p.None? {
      return Err(P.NoListProperty);
    }
    var count, index := P.KindOf(p.value.countKind), P.KindOf(p.value.indexKind);
    if count.None? || index.None? {
      return Err(P.UnknownKind);
    }
    if !count.value.integer || !index.value.integer {
      return Err(P.FloatIndices);
    }
    var size := count.value.size + 3 * index.value.size;
    var raw := s.Read(e.count * size);
    var records := P.Chunks(raw, size);
    if records.None? {
      return Err(P.BadSize);
    }
    var faces := P.Faces(records.value, count.value, index.value, endian);
    r := if faces.None? then Err(P.NotTriangles) else Ok(faces.value);
  }

  method SkipValue(s: Stream, p: P.Property, endian: P.Endian) returns (problem: Option<P.Error>)
    requires s.Valid()
    modifies s
    ensures s.Valid() && Ends(s, problem, P.SkipValue(old(s.Rest()), p, endian))
  {
    hide P.KindOf, P.IntOf, P.Ordered;
    match p
    case Scalar(kind, _) =>
      if P.KindOf(kind).None? {
        return Some(P.UnknownKind);
      }
      var _ := s.Read(P.KindOf(kind).value.size);
      return None;
    case List(countKind, indexKind, _) =>
      if P.KindOf(countKind).None? {
        return Some(P.UnknownKind);
      }
      var count := P.KindOf(countKind).value;
      var raw := s.Read(count.size);
      if |raw| < count.size {
        return Some(P.ShortCount);
      }
      if P.KindOf(indexKind).None? {
        return Some(P.UnknownKind);
      }
      if !count.integer {
        return Some(P.FloatIndices);
      }
      var _ := s.Read(P.IntOf(count, P.Ordered(raw, endian)) * P.KindOf(indexKind).value.size);
      return None;
  }

  method SkipRow(s: Stream, properties: seq<P.Property>, endian: P.Endian) returns (problem: Option<P.Error>)
    requires s.Valid()
    modifies s
    ensures s.Valid() && Ends(s, problem, P.SkipRow(old(s.Rest()), properties, endian))
  {
    hide P.SkipValue;
    assert properties[0..] == properties;
    for i := 0 to |properties|
      invariant s.Valid()
                && P.SkipRow(s.Rest(), properties[i..], endian) == P.SkipRow(old(s.Rest()), properties, endian)
    {
      assert properties[i..][1..] == properties[i + 1..];
      problem := SkipValue(s, properties[i], endian);
      if problem.Some? {
        return;
      }
    }
    return None;
  }

  /** `_skip_binary_element` */
  method SkipElement(s: Stream, e: P.Element, endian: P.Endian) returns (problem: Option<P.Error>)
    requires s.Valid()
    modifies s
    ensures s.Valid() && Ends(s, problem, P.SkipElement(old(s.Rest()), e, endian))
  {
    hide P.SkipRow, P.VertexSize, P.AllScalar, P.Taken;
    if P.AllScalar(e.properties) {
      var stride := VertexSize(e.properties);
      if stride.Err? {
        return Some(stride.error);
      }
      var _ := s.Read(e.count * stride.value);
      return None;
    }
    var n := e.count;
    while n > 0
      invariant s.Valid()
                && P.SkipRows(s.Rest(), e.properties, n, endian)
                   == P.SkipRows(old(s.Rest()), e.properties, e.count, endian)
    {
      problem := SkipRow(s, e.properties, endian);
      if problem.Some? {
        return;
      }
      n := n - 1;
    }
    return None;
  }

  /** `_load_binary` */
  method LoadBinary(s: Stream, elements: seq<P.Element>, v: nat, f: nat, endian: P.Endian)
      returns (r: Result<P.Mesh, P.Error>)
    requires s.Valid()
    modifies s
    ensures r == P.ReadElements(old(s.Rest()), elements, 0, v, f, endian, P.Mesh(None, None))
  {
    hide P.ReadVertices, P.ReadFaces, P.SkipElement;
    var mesh := P.Mesh(None, None);
    for i := 0 to |elements|
      invariant s.Valid()
      invariant P.ReadElements(s.Rest(), elements, i, v, f, endian, mesh)
                == P.ReadElements(old(s.Rest()), elements, 0, v, f, endian, P.Mesh(None, None))
    {
      if i == v {
        var vertices := ReadVertices(s, elements[i], endian);
        if vertices.Err? {
          return Err(vertices.error);
        }
        mesh := mesh.(vertices := Some(vertices.value));
      } else if i == f {
        var faces := ReadFaces(s, elements[i], endian);
        if faces.Err? {
          return Err(faces.error);
        }
        mesh := mesh.(faces := Some(faces.value));
      } else {
        var problem := SkipElement(s, elements[i], endian);
        if problem.Some? {
          return Err(problem.value);
        }
      }
    }
    return Ok(mesh);
  }

  /** The next line's tokens. */
  method NextTokens(s: Stream) returns (r: Result<seq<string>, P.Error>)
    requires s.Valid()
    modifies s
    ensures s.Valid()
    ensures var spec := P.LineTokens(old(s.Rest()));
            if spec.Ok? then r == Ok(spec.value.0) && s.Rest() == spec.value.1 else r == Err(spec.error)
  {
    hide Decode, Split, LineLength;
    var line := s.ReadLine();
    var text := Decode(line);
    if text.None? {
      return Err(P.NotAscii);
    }
    return Ok(Split(text.value));
  }

  method ReadAsciiVertices(s: Stream, e: P.Element) returns (r: Result<seq<seq<P.Number>>, P.Error>)
    requires s.Valid()
    modifies s
    ensures s.Valid()
    ensures var spec := P.ReadAsciiVertices(old(s.Rest()), e);
            if spec.Ok? then r == Ok(spec.value.0) && s.Rest() == spec.value.1 else r == Err(spec.error)
  {
    hide P.LineTokens, P.AsciiVertex, P.ColumnsOf;
    var at := P.ColumnsOf(e);
    if at.None? {
      return Err(P.BadLayout);
    }
    if e.count < 0 {
      return Err(P.BadCount);
    }
    var read: seq<seq<P.Number>> := [];
    for i := 0 to e.count
      invariant s.Valid()
      invariant P.AsciiVertices(s.Rest(), e.count - i, at.value, read)
                == P.AsciiVertices(old(s.Rest()), e.count, at.value, [])
    {
      var tokens := NextTokens(s);
      if tokens.Err? {
        return Err(tokens.error);
      }
      var vertex := P.AsciiVertex(tokens.value, at.value);
      if vertex.Err? {
        return Err(vertex.error);
      }
      read := read + [vertex.value];
    }
    return Ok(read);
  }

  method ReadAsciiFaces(s: Stream, e: P.Element) returns (r: Result<seq<seq<int>>, P.Error>)
    requires s.Valid()
    modifies s
    ensures s.Valid()
    ensures var spec := P.ReadAsciiFaces(old(s.Rest()), e);
            if spec.Ok? then r == Ok(spec.value.0) && s.Rest() == spec.value.1 else r == Err(spec.error)
  {
    hide P.LineTokens, P.AsciiFace;
    if e.count < 0 {
      return Err(P.BadCount);
    }
    var read: seq<seq<int>> := [];
    for i := 0 to e.count
      invariant s.Valid() && P.AsciiFaces(s.Rest(), e.count - i, read) == P.AsciiFaces(old(s.Rest()), e.count, [])
    {
      var tokens := NextTokens(s);
      if tokens.Err? {
        return Err(tokens.error);
      }
      var face := P.AsciiFace(tokens.value);
      if face.Err? {
        return Err(face.error);
      }
      read := read + [face.value];
    }
    return Ok(read);
  }

  method SkipLines(s: Stream, n: int)
    requires s.Valid()
    modifies s
    ensures s.Valid() && s.Rest() == P.SkipLines(old(s.Rest()), n)
  {
    hide LineLength;
    var i := n;
    while i > 0
      invariant s.Valid() && P.SkipLines(s.Rest(), i) == P.SkipLines(old(s.Rest()), n)
    {
      var _ := s.ReadLine();
      i := i - 1;
    }
  }

  /** `_load_ascii` */
  method LoadAscii(s: Stream, elements: seq<P.Element>, v: nat, f: nat) returns (r: Result<P.Mesh, P.Error>)
    requires s.Valid()
    modifies s
    ensures r == P.ReadAscii(old(s.Rest()), elements, 0, v, f, P.Mesh(None, None))
  {
    hide P.ReadAsciiVertices, P.ReadAsciiFaces, P.SkipLines;
    var mesh := P.Mesh(None, None);
    for i := 0 to |elements|
      invariant s.Valid()
      invariant P.ReadAscii(s.Rest(), elements, i, v, f, mesh)
                == P.ReadAscii(old(s.Rest()), elements, 0, v, f, P.Mesh(None, None))
    {
      if i == v {
        var vertices := ReadAsciiVertices(s, elements[i]);
        if vertices.Err? {
          return Err(vertices.error);
        }
        mesh := mesh.(vertices := Some(vertices.value));
      } else if i == f {
        var faces := ReadAsciiFaces(s, elements[i]);
        if faces.Err? {
          return Err(faces.error);
        }
        mesh := mesh.(faces := Some(faces.value));
      } else {
        SkipLines(s, elements[i].count);
      }
    }
    return Ok(mesh);
  }

  /** `_find_elements`: the last vertex and the last face element. */
  method FindElements(elements: seq<P.Element>) returns (v: Option<nat>, f: Option<nat>)
    ensures v == P.LastNamed(elements, "vertex") && f == P.LastNamed(elements, "face")
  {
    hide P.LastNamed;
    v, f := None, None;
    NamedNone(elements);
    for i := 0 to |elements|
      invariant v == P.LastNamed(elements[..i], "vertex") && f == P.LastNamed(elements[..i], "face")
    {
      NamedStep(elements, i, "vertex");
      NamedStep(elements, i, "face");
      if elements[i].name == "vertex" {
        v := Some(i);
      } else if elements[i].name == "face" {
        f := Some(i);
      }
    }
    assert elements[..|elements|] == elements;
  }

  lemma NamedNone(elements: seq<P.Element>)
    ensures P.LastNamed(elements[..0], "vertex") == None && P.LastNamed(elements[..0], "face") == None
  {
  }

  lemma NamedStep(elements: seq<P.Element>, i: nat, name: string)
    requires i < |elements|
    ensures P.LastNamed(elements[..i + 1], name) == if elements[i].name == name then Some(i)
            else P.LastNamed(elements[..i], name)
  {
    assert elements[..i + 1][..i] == elements[..i];
  }

  /** `load_mesh_vf` */
  method LoadMesh(data: Bytes) returns (r: Result<P.Mesh, P.Error>)
    ensures r == P.Load(data)
  {
    hide P.ParseHeader, P.ReadElements, P.ReadAscii, P.LastNamed;
    var s := new Stream(data);
    var header := ParseHeader(s);
    if header.Err? {
      return Err(header.error);
    }
    var (format, elements) := header.value;
    var v, f := FindElements(elements);
    if v.None? {
      return Err(P.NoVertexElement);
    }
    if f.None? {
      return Err(P.NoFaceElement);
    }
    if format == "ascii" {
      r := LoadAscii(s, elements, v.value, f.value);
      return;
    }
    r := LoadBinary(s, elements, v.value, f.value, if format == "binary_big_endian" then P.Big else P.Little);
  }
}
