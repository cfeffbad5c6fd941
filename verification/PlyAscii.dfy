/** Loading an ASCII file gives what its lines say. */
module PlyAscii {
  import opened Wrappers
  import opened PlyText
  import opened Ply
  import opened PlyRoundTrip

  /** An element, and one line of tokens for each of its rows. */
  datatype Section = Section(element: Element, lines: seq<seq<string>>)

  predicate TokenLines(lines: seq<seq<string>>) {
    forall i :: 0 <= i < |lines| ==> AreTokens(lines[i])
  }

  ghost predicate SectionOk(x: Section) {
    IsElement(x.element) && |x.lines| == x.element.count && TokenLines(x.lines)
  }

  function LineBytes(tokens: seq<string>): Bytes
    requires AreTokens(tokens)
  {
    LineAscii(tokens);
    Encode(Line(tokens))
  }

  function LinesBytes(lines: seq<seq<string>>): Bytes
    requires TokenLines(lines)
  {
    if |lines| == 0 then [] else LineBytes(lines[0]) + LinesBytes(lines[1..])
  }

  lemma LineIsTokens(tokens: seq<string>, rest: Bytes)
    requires AreTokens(tokens)
    ensures var data := LineBytes(tokens) + rest;
            LineTokens(data) == Ok((tokens, rest)) && data[LineLength(data)..] == rest
  {
    hide AreTokens, Line, IsAscii, Encode, Decode, Split, LineLength;
    LineReads(tokens, rest);
  }

  lemma MoreLines(lines: seq<seq<string>>)
    requires |lines| > 0 && TokenLines(lines)
    ensures AreTokens(lines[0]) && TokenLines(lines[1..])
  {
    hide AreTokens;
  }

  /** The next line's bytes are read as its tokens. */
  lemma TokensRead(lines: seq<seq<string>>, rest: Bytes)
    requires |lines| > 0 && TokenLines(lines)
    ensures TokenLines(lines[1..])
    ensures var data := LinesBytes(lines) + rest;
            && LineTokens(data) == Ok((lines[0], LinesBytes(lines[1..]) + rest))
            && data[LineLength(data)..] == LinesBytes(lines[1..]) + rest
  {
    hide *;
    MoreLines(lines);
    FirstLine(lines, rest);
    LineIsTokens(lines[0], LinesBytes(lines[1..]) + rest);
  }

  lemma FirstLine(lines: seq<seq<string>>, rest: Bytes)
    requires |lines| > 0 && TokenLines(lines)
    ensures AreTokens(lines[0]) && TokenLines(lines[1..])
    ensures LinesBytes(lines) + rest == LineBytes(lines[0]) + (LinesBytes(lines[1..]) + rest)
  {
    hide AreTokens, LineBytes, TokenLines;
    MoreLines(lines);
  }

  // ----- the vertices

  /** Every line has a float in each of the three columns. */
  predicate VertexLines(lines: seq<seq<string>>, at: Columns) {
    forall i :: 0 <= i < |lines| ==> AsciiVertex(lines[i], at).Ok?
  }

  function Written(lines: seq<seq<string>>, at: Columns): (r: seq<seq<Number>>)
    requires VertexLines(lines, at)
    ensures |r| == |lines|
    ensures forall i :: 0 <= i < |r| ==>
              var t := lines[i];
              && at.x < |t| && at.y < |t| && at.z < |t|
              && r[i] == [Text(t[at.x]), Text(t[at.y]), Text(t[at.z])]
  {
    seq(|lines|, i requires 0 <= i < |lines| => AsciiVertex(lines[i], at).value)
  }

  lemma NoLines(lines: seq<seq<string>>, rest: Bytes)
    requires |lines| == 0 && TokenLines(lines)
    ensures LinesBytes(lines) + rest == rest
  {
  }

  lemma NoVertices(lines: seq<seq<string>>, at: Columns, read: seq<seq<Number>>)
    requires |lines| == 0 && VertexLines(lines, at)
    ensures read + Written(lines, at) == read
  {
  }

  lemma FirstVertex(lines: seq<seq<string>>, at: Columns, read: seq<seq<Number>>)
    requires |lines| > 0 && VertexLines(lines, at)
    ensures VertexLines(lines[1..], at) && AsciiVertex(lines[0], at).Ok?
    ensures read + [AsciiVertex(lines[0], at).value] + Written(lines[1..], at) == read + Written(lines, at)
  {
    hide AsciiVertex;
    assert Written(lines, at) == [AsciiVertex(lines[0], at).value] + Written(lines[1..], at);
  }

  lemma {:induction false} AsciiVerticesRead(lines: seq<seq<string>>, at: Columns, rest: Bytes, read: seq<seq<Number>>)
    requires TokenLines(lines) && VertexLines(lines, at)
    ensures AsciiVertices(LinesBytes(lines) + rest, |lines|, at, read) == Ok((read + Written(lines, at), rest))
  {
    hide TokenLines, LineTokens, AsciiVertex, LineLength, VertexLines, Written, LinesBytes;
    if |lines| == 0 {
      NoLines(lines, rest);
      NoVertices(lines, at, read);
    } else {
      FirstVertex(lines, at, read);
      var more, vertex := lines[1..], AsciiVertex(lines[0], at).value;
      TokensRead(lines, rest);
      AsciiVerticesRead(more, at, rest, read + [vertex]);
    }
  }

  /** A line is a vertex exactly when the three columns are there and hold floats. */
  lemma VertexLineExactlyWhen(tokens: seq<string>, at: Columns)
    ensures AsciiVertex(tokens, at).Ok? <==>
            forall i :: i in {at.x, at.y, at.z} ==> i < |tokens| && IsFloat(tokens[i])
    ensures AsciiVertex(tokens, at).Ok? ==>
              AsciiVertex(tokens, at).value == [Text(tokens[at.x]), Text(tokens[at.y]), Text(tokens[at.z])]
  {
    hide IsFloat;
  }

  /** How many of the first `i` properties are scalars. */
  function ScalarsBefore(properties: seq<Property>, i: nat): nat
    requires i <= |properties|
  {
    if i == 0 then 0 else ScalarsBefore(properties, i - 1) + if properties[i - 1].Scalar? then 1 else 0
  }

  /** `c` is the place among the scalars of the first one with that name. */
  ghost predicate IsColumn(properties: seq<Property>, name: string, c: nat) {
    exists i :: 0 <= i < |properties| && FirstScalar(properties, name, i) && c == ScalarsBefore(properties, i)
  }

  ghost predicate FirstScalar(properties: seq<Property>, name: string, i: nat)
    requires i < |properties|
  {
    && properties[i].Scalar? && properties[i].name == name
    && forall j :: 0 <= j < i && properties[j].Scalar? ==> properties[j].name != name
  }

  /** The columns of the coordinates count scalars only; each name must be that of a scalar. */
  lemma ColumnsAre(e: Element, at: Columns)
    ensures ColumnsOf(e) == Some(at) <==>
            && IsColumn(e.properties, "x", at.x) && IsColumn(e.properties, "y", at.y)
            && IsColumn(e.properties, "z", at.z)
  {
    hide ScalarNames, IsColumn, IndexOf;
    ColumnIs(e.properties, "x", at.x);
    ColumnIs(e.properties, "y", at.y);
    ColumnIs(e.properties, "z", at.z);
  }

  lemma {:induction false} ColumnIs(properties: seq<Property>, name: string, c: nat)
    ensures IndexOf(ScalarNames(properties), name) == Some(c) <==> IsColumn(properties, name, c)
  {
    hide IsColumn, IndexOf, ScalarNames;
    if |properties| == 0 {
      NoNames(name);
      NoColumn(properties, name, c);
    } else {
      var p, more := properties[0], properties[1..];
      IndexStep(properties, name);
      if p.Scalar? && p.name == name {
        ColumnHere(properties, name, c);
      } else {
        var one := if p.Scalar? then 1 else 0;
        if c >= one {
          ColumnIs(more, name, c - one);
        }
        ColumnLater(properties, name, c);
      }
    }
  }

  lemma NoNames(name: string)
    ensures IndexOf(ScalarNames([]), name) == None
  {
  }

  lemma IndexStep(properties: seq<Property>, name: string)
    requires |properties| > 0
    ensures var p, later := properties[0], IndexOf(ScalarNames(properties[1..]), name);
            IndexOf(ScalarNames(properties), name)
            == if p.List? then later
               else if p.name == name then Some(0)
               else if later.None? then None
               else Some(later.value + 1)
  {
    var p, more := properties[0], ScalarNames(properties[1..]);
    assert ([p.name] + more)[1..] == more && [] + more == more;
  }

  lemma NoColumn(properties: seq<Property>, name: string, c: nat)
    requires |properties| == 0
    ensures !IsColumn(properties, name, c)
  {
  }

  lemma ColumnHere(properties: seq<Property>, name: string, c: nat)
    requires |properties| > 0 && properties[0].Scalar? && properties[0].name == name
    ensures IsColumn(properties, name, c) <==> c == 0
  {
    assert FirstScalar(properties, name, 0);
  }

  lemma ColumnLater(properties: seq<Property>, name: string, c: nat)
    requires |properties| > 0 && !(properties[0].Scalar? && properties[0].name == name)
    ensures var one := if properties[0].Scalar? then 1 else 0;
            IsColumn(properties, name, c) <==> c >= one && IsColumn(properties[1..], name, c - one)
  {
    var one, more := if properties[0].Scalar? then 1 else 0, properties[1..];
    forall i | 1 <= i < |properties|
      ensures FirstScalar(properties, name, i) <==> FirstScalar(more, name, i - 1)
      ensures ScalarsBefore(properties, i) == one + ScalarsBefore(more, i - 1)
    {
      FirstLater(properties, name, i);
      ScalarsTail(properties, i);
    }
    if i :| 0 <= i < |properties| && FirstScalar(properties, name, i) && c == ScalarsBefore(properties, i) {
      assert FirstScalar(more, name, i - 1);
    }
    if c >= one && IsColumn(more, name, c - one) {
      var i :| 0 <= i < |more| && FirstScalar(more, name, i) && c - one == ScalarsBefore(more, i);
      assert FirstScalar(properties, name, i + 1);
    }
  }

  lemma FirstLater(properties: seq<Property>, name: string, i: nat)
    requires 1 <= i < |properties| && !(properties[0].Scalar? && properties[0].name == name)
    ensures FirstScalar(properties, name, i) <==> FirstScalar(properties[1..], name, i - 1)
  {
    var more := properties[1..];
    assert forall j :: 0 <= j < |more| ==> more[j] == properties[j + 1];
    assert FirstScalar(more, name, i - 1) ==> forall j :: 1 <= j < i ==> properties[j] == more[j - 1];
  }

  lemma {:induction false} ScalarsTail(properties: seq<Property>, i: nat)
    requires 1 <= i <= |properties|
    ensures ScalarsBefore(properties, i)
            == (if properties[0].Scalar? then 1 else 0) + ScalarsBefore(properties[1..], i - 1)
  {
    if i > 1 {
      ScalarsTail(properties, i - 1);
    }
  }

  // ----- the faces

  /** Every line has a three and then three integers of 32 bits. */
  predicate FaceLines(lines: seq<seq<string>>) {
    forall i :: 0 <= i < |lines| ==> AsciiFace(lines[i]).Ok?
  }

  /** A line is a face exactly when it starts with a three and has three integers of 32 bits after it. */
  lemma FaceLineExactlyWhen(tokens: seq<string>)
    ensures AsciiFace(tokens).Ok? <==>
            && |tokens| >= 4 && ParseInt(tokens[0]) == Some(3)
            && forall i :: 1 <= i < 4 ==>
                 ParseInt(tokens[i]).Some? && -2147483648 <= ParseInt(tokens[i]).value < 2147483648
  {
    hide ParseInt;
  }

  function Indices(lines: seq<seq<string>>): (r: seq<seq<int>>)
    requires FaceLines(lines)
    ensures |r| == |lines|
    ensures forall i :: 0 <= i < |r| ==>
              var t := lines[i];
              && |t| >= 4 && ParseInt(t[0]) == Some(3) && |r[i]| == 3
              && forall k :: 0 <= k < 3 ==> ParseInt(t[k + 1]) == Some(r[i][k]) && FitsInt32(r[i][k])
  {
    seq(|lines|, i requires 0 <= i < |lines| => AsciiFace(lines[i]).value)
  }

  lemma NoFaces(lines: seq<seq<string>>, read: seq<seq<int>>)
    requires |lines| == 0 && FaceLines(lines)
    ensures read + Indices(lines) == read
  {
  }

  lemma FirstFace(lines: seq<seq<string>>, read: seq<seq<int>>)
    requires |lines| > 0 && FaceLines(lines)
    ensures FaceLines(lines[1..]) && AsciiFace(lines[0]).Ok?
    ensures read + [AsciiFace(lines[0]).value] + Indices(lines[1..]) == read + Indices(lines)
  {
    hide AsciiFace, ParseInt, Indices;
    FaceAt(lines, 0);
    var first, more := [AsciiFace(lines[0]).value], Indices(lines[1..]);
    forall i | 1 <= i < |lines|
      ensures Indices(lines)[i] == more[i - 1]
    {
      FaceAt(lines, i);
      FaceAt(lines[1..], i - 1);
    }
    assert Indices(lines) == first + more;
    assert read + first + more == read + (first + more);
  }

  lemma FaceAt(lines: seq<seq<string>>, i: nat)
    requires i < |lines| && FaceLines(lines)
    ensures AsciiFace(lines[i]).Ok? && Indices(lines)[i] == AsciiFace(lines[i]).value
  {
    hide AsciiFace, ParseInt;
  }

  lemma {:induction false} AsciiFacesRead(lines: seq<seq<string>>, rest: Bytes, read: seq<seq<int>>)
    requires TokenLines(lines) && FaceLines(lines)
    ensures AsciiFaces(LinesBytes(lines) + rest, |lines|, read) == Ok((read + Indices(lines), rest))
  {
    hide TokenLines, LineTokens, AsciiFace, LineLength, ParseInt, FaceLines, Indices, LinesBytes;
    if |lines| == 0 {
      NoLines(lines, rest);
      NoFaces(lines, read);
    } else {
      FirstFace(lines, read);
      var more, face := lines[1..], AsciiFace(lines[0]).value;
      TokensRead(lines, rest);
      AsciiFacesRead(more, rest, read + [face]);
    }
  }

  // ----- the rest

  lemma {:induction false} LinesSkipped(lines: seq<seq<string>>, rest: Bytes)
    requires TokenLines(lines)
    ensures SkipLines(LinesBytes(lines) + rest, |lines|) == rest
  {
    hide TokenLines, LineLength, LineTokens, LinesBytes;
    if |lines| == 0 {
      NoLines(lines, rest);
    } else {
      TokensRead(lines, rest);
      LinesSkipped(lines[1..], rest);
    }
  }

  // ----- the whole file

  function ElementsIn(sections: seq<Section>): (es: seq<Element>)
    ensures |es| == |sections| && forall i :: 0 <= i < |es| ==> es[i] == sections[i].element
  {
    seq(|sections|, i requires 0 <= i < |sections| => sections[i].element)
  }

  /** A mesh in the sections `v` and `f`, the last ones of their names, with lines that can be read. */
  ghost predicate OneMeshIn(sections: seq<Section>, v: nat, f: nat) {
    && v < |sections| && f < |sections|
    && (forall i :: 0 <= i < |sections| ==> SectionOk(sections[i]))
    && LastNamed(ElementsIn(sections), "vertex") == Some(v) && LastNamed(ElementsIn(sections), "face") == Some(f)
    && ColumnsOf(sections[v].element).Some?
    && VertexLines(sections[v].lines, ColumnsOf(sections[v].element).value) && FaceLines(sections[f].lines)
  }

  function SectionsBytes(sections: seq<Section>): Bytes
    requires forall i :: 0 <= i < |sections| ==> SectionOk(sections[i])
  {
    if |sections| == 0 then []
    else
      assert SectionOk(sections[0]);
      LinesBytes(sections[0].lines) + SectionsBytes(sections[1..])
  }

  ghost function MeshIn(sections: seq<Section>, v: nat, f: nat, k: nat, mesh: Mesh): Mesh
    requires OneMeshIn(sections, v, f)
  {
    Mesh(if k <= v then Some(Written(sections[v].lines, ColumnsOf(sections[v].element).value)) else mesh.vertices,
         if k <= f then Some(Indices(sections[f].lines)) else mesh.faces)
  }

  lemma SectionReads(sections: seq<Section>, v: nat, f: nat, k: nat, rest: Bytes)
    requires OneMeshIn(sections, v, f) && k < |sections|
    ensures var x := sections[k];
            && (k == v ==> ReadAsciiVertices(LinesBytes(x.lines) + rest, x.element)
                           == Ok((Written(x.lines, ColumnsOf(x.element).value), rest)))
            && (k == f ==> ReadAsciiFaces(LinesBytes(x.lines) + rest, x.element) == Ok((Indices(x.lines), rest)))
            && SkipLines(LinesBytes(x.lines) + rest, x.element.count) == rest
  {
    hide IsElement, TokenLines, LineTokens, LastNamed, AsciiVertices, AsciiFaces, SkipLines, ColumnsOf,
      LinesBytes, VertexLines, FaceLines, Written, Indices;
    var x := sections[k];
    LinesSkipped(x.lines, rest);
    if k == v {
      AsciiVerticesRead(x.lines, ColumnsOf(x.element).value, rest, []);
      NothingBefore(Written(x.lines, ColumnsOf(x.element).value));
    }
    if k == f {
      AsciiFacesRead(x.lines, rest, []);
      NothingBefore(Indices(x.lines));
    }
  }

  lemma NothingBefore<T>(s: seq<T>)
    ensures [] + s == s
  {
  }

  lemma VertexIsNotFace(sections: seq<Section>, v: nat, f: nat)
    requires OneMeshIn(sections, v, f)
    ensures v != f
  {
    hide SectionOk, ColumnsOf, VertexLines, FaceLines;
    assert "vertex"[0] != "face"[0];
  }

  lemma {:induction false} SectionsRead(sections: seq<Section>, v: nat, f: nat, k: nat, trailing: Bytes, mesh: Mesh)
    requires OneMeshIn(sections, v, f) && k <= |sections|
    ensures ReadAscii(SectionsBytes(sections[k..]) + trailing, ElementsIn(sections), k, v, f, mesh)
            == Ok(MeshIn(sections, v, f, k, mesh))
    decreases |sections| - k
  {
    hide TokenLines, IsElement, LinesBytes, ReadAsciiVertices, ReadAsciiFaces, SkipLines, LastNamed, ColumnsOf,
      VertexLines, FaceLines,
      Written, Indices;
    if k < |sections| {
      var x, more := sections[k], SectionsBytes(sections[k + 1..]) + trailing;
      VertexIsNotFace(sections, v, f);
      SectionReads(sections, v, f, k, more);
      assert sections[k..][1..] == sections[k + 1..];
      assert SectionsBytes(sections[k..]) + trailing == LinesBytes(x.lines) + more;
      var next := if k == v then mesh.(vertices := Some(Written(x.lines, ColumnsOf(x.element).value)))
                  else if k == f then mesh.(faces := Some(Indices(x.lines)))
                  else mesh;
      SectionsRead(sections, v, f, k + 1, trailing, next);
    } else {
      assert SectionsBytes(sections[k..]) + trailing == trailing;
    }
  }

  lemma SectionElements(sections: seq<Section>)
    requires forall i :: 0 <= i < |sections| ==> SectionOk(sections[i])
    ensures AreElements(ElementsIn(sections))
  {
    hide IsElement;
  }

  /** The coordinates are the tokens in the columns of x, y and z, and the indices what their tokens read as. */
  lemma AsciiLoads(sections: seq<Section>, v: nat, f: nat, trailing: Bytes)
    requires OneMeshIn(sections, v, f)
    ensures Counted(ElementsIn(sections)) && IsAscii(HeaderOf(ElementsIn(sections), "ascii"))
    ensures Load(Encode(HeaderOf(ElementsIn(sections), "ascii")) + (SectionsBytes(sections) + trailing))
            == Ok(Mesh(Some(Written(sections[v].lines, ColumnsOf(sections[v].element).value)),
                Some(Indices(sections[f].lines))))
  {
    hide ReadAscii, ReadElements, LastNamed, HeaderOf, ParseHeader, Encode, IsAscii, SectionOk, SectionsBytes,
      ColumnsOf,
      VertexLines, FaceLines, Written, Indices;
    SectionElements(sections);
    HeaderReads(ElementsIn(sections), "ascii", SectionsBytes(sections) + trailing);
    assert sections[0..] == sections;
    SectionsRead(sections, v, f, 0, trailing, Mesh(None, None));
  }
}
