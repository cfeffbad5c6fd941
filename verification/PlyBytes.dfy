/** Where each byte of a mesh stands in a file, and what numbers bytes stand for, in either byte order. */
module PlyBytes {
  import opened Wrappers
  import opened PlyText
  import opened Ply

  // ----- numbers as sums

  /** The byte at `i` counts for 256 to the power of its place from the start. */
  function LittleSum(b: Bytes): nat {
    if |b| == 0 then 0 else LittleSum(b[..|b| - 1]) + b[|b| - 1] * Power256(|b| - 1)
  }

  /** The byte at `i` counts for 256 to the power of its place from the end. */
  function BigSum(b: Bytes): nat {
    if |b| == 0 then 0 else b[0] * Power256(|b| - 1) + BigSum(b[1..])
  }

  lemma {:induction false} FromAppend(b: Bytes, x: Byte)
    ensures FromBytes(b + [x]) == FromBytes(b) + x * Power256(|b|)
  {
    if |b| == 0 {
      assert [x][1..] == [] && b + [x] == [x];
    } else {
      assert (b + [x])[1..] == b[1..] + [x];
      FromAppend(b[1..], x);
      Shift(x, Power256(|b| - 1));
    }
  }

  lemma Shift(x: int, p: int)
    ensures 256 * (x * p) == x * (256 * p)
  {
  }

  lemma {:induction false} FromIsLittle(b: Bytes)
    ensures FromBytes(b) == LittleSum(b)
  {
    if |b| > 0 {
      var front := b[..|b| - 1];
      FromIsLittle(front);
      FromAppend(front, b[|b| - 1]);
      assert b == front + [b[|b| - 1]];
    }
  }

  lemma {:induction false} FromIsBig(b: Bytes)
    ensures FromBytes(Reverse(b)) == BigSum(b)
  {
    if |b| > 0 {
      FromIsBig(b[1..]);
      FromAppend(Reverse(b[1..]), b[0]);
    }
  }

  function SumOf(b: Bytes, endian: Endian): nat {
    if endian.Big? then BigSum(b) else LittleSum(b)
  }

  /** A field of a record reads as the sum of its bytes; when it is signed, as the number of that class around zero. */
  lemma FieldReads(record: Bytes, at: nat, kind: Kind, endian: Endian)
    requires at + kind.size <= |record|
    ensures var sum, whole := SumOf(record[at..at + kind.size], endian), Power256(kind.size);
            var n := NumberAt(record, at, kind, endian);
            && (!kind.signed ==> n == sum)
            && (kind.signed ==> (n == sum || n == sum - whole) && -(whole as int) <= 2 * n < whole)
  {
    var b := record[at..at + kind.size];
    FromIsLittle(b);
    FromIsBig(b);
    SumBelow(b, endian);
  }

  lemma {:induction false} FromBelow(b: Bytes)
    ensures FromBytes(b) < Power256(|b|)
  {
    if |b| > 0 {
      FromBelow(b[1..]);
    }
  }

  lemma SumBelow(b: Bytes, endian: Endian)
    ensures SumOf(b, endian) < Power256(|b|)
  {
    FromIsLittle(b);
    FromIsBig(b);
    FromBelow(b);
    FromBelow(Reverse(b));
  }

  /** A coordinate keeps its bytes: in the order of a little-endian file, in the opposite one of a big-endian file. */
  lemma {:induction false} OrderedAt(b: Bytes, endian: Endian, i: nat)
    requires i < |b|
    ensures Ordered(b, endian)[i] == if endian.Big? then b[|b| - 1 - i] else b[i]
  {
    if endian.Big? {
      ReverseAt(b, i);
    }
  }

  lemma {:induction false} ReverseAt(b: Bytes, i: nat)
    requires i < |b|
    ensures Reverse(b)[i] == b[|b| - 1 - i]
  {
    if i < |b| - 1 {
      ReverseAt(b[1..], i);
    }
  }

  // ----- records of any layout

  /** Scalars of known kinds only. */
  predicate AllKnown(properties: seq<Property>) {
    forall i :: 0 <= i < |properties| ==> properties[i].Scalar? && KindOf(properties[i].kind).Some?
  }

  /** Where the `i`-th property starts in a record. */
  function Offset(properties: seq<Property>, i: nat): nat
    requires AllKnown(properties) && i <= |properties|
  {
    if i == 0 then 0 else Offset(properties, i - 1) + KindOf(properties[i - 1].kind).value.size
  }

  lemma {:induction false} OffsetTail(properties: seq<Property>, i: nat)
    requires AllKnown(properties) && 0 < i <= |properties|
    ensures AllKnown(properties[1..])
    ensures Offset(properties, i) == KindOf(properties[0].kind).value.size + Offset(properties[1..], i - 1)
  {
    hide KindOf;
    if i > 1 {
      OffsetTail(properties, i - 1);
    }
  }

  lemma {:induction false} SizeIsOffset(properties: seq<Property>)
    requires AllKnown(properties)
    ensures VertexSize(properties) == Ok(Offset(properties, |properties|))
  {
    hide KindOf;
    if |properties| > 0 {
      OffsetTail(properties, |properties|);
      SizeIsOffset(properties[1..]);
    }
  }

  /** A named field has the kind of its property, and the bytes at the property's place. */
  lemma {:induction false} FieldIs(record: Bytes, properties: seq<Property>, endian: Endian, i: nat)
    requires AllKnown(properties) && DistinctNames(properties) && i < |properties|
    requires |record| >= Offset(properties, i) + KindOf(properties[i].kind).value.size
    ensures var k, at := KindOf(properties[i].kind).value, Offset(properties, i);
            Field(record, properties, properties[i].name, endian)
              == Some(Number(k, Ordered(record[at..at + k.size], endian)))
  {
    hide KindOf, Ordered;
    if i > 0 {
      var k, tail := KindOf(properties[0].kind).value, properties[1..];
      OffsetTail(properties, i);
      FieldIs(record[k.size..], tail, endian, i - 1);
      var size, at := KindOf(properties[i].kind).value.size, Offset(tail, i - 1);
      assert tail[i - 1] == properties[i];
      assert record[k.size..][at..at + size] == record[k.size + at..k.size + at + size];
    }
  }

  /** A face's count and indices stand one after the other; the indices come out wrapped to 32 bits. */
  lemma FaceIs(record: Bytes, count: Kind, index: Kind, endian: Endian)
    ensures var face := FaceOf(record, count, index, endian);
            && (face.Some? <==> NumberAt(record, 0, count, endian) == 3)
            && (face.Some? ==>
                  && |face.value| == 3
                  && forall k {:trigger face.value[k]} :: 0 <= k < 3 ==>
                       var n := NumberAt(record, count.size + k * index.size, index, endian);
                       FitsInt32(face.value[k]) && (face.value[k] - n) % 0x1_0000_0000 == 0)
  {
    hide NumberAt;
    var i, s := count.size, index.size;
    WrapIs(NumberAt(record, i + 0 * s, index, endian));
    WrapIs(NumberAt(record, i + 1 * s, index, endian));
    WrapIs(NumberAt(record, i + 2 * s, index, endian));
  }

  /** The `i`-th record of a buffer. */
  function RecordAt(raw: Bytes, size: nat, i: nat): Bytes
    requires (i + 1) * size <= |raw| && i * size <= |raw|
  {
    raw[i * size..(i + 1) * size]
  }

  /** A buffer splits into records exactly when its length is a multiple of theirs. */
  lemma {:induction false} ChunksAre(raw: Bytes, size: nat, i: nat)
    requires size > 0
    ensures Chunks(raw, size).Some? <==> |raw| % size == 0
    ensures Chunks(raw, size).Some? ==> |Chunks(raw, size).value| * size == |raw|
    ensures Chunks(raw, size).Some? && i < |Chunks(raw, size).value| ==>
              (i + 1) * size <= |raw| && i * size <= |raw| && Chunks(raw, size).value[i] == RecordAt(raw, size, i)
    decreases |raw|
  {
    if |raw| >= size {
      var more := raw[size..];
      ChunksAre(more, size, if i > 0 then i - 1 else 0);
      OneLess(|raw|, size);
      if Chunks(raw, size).Some? {
        var n := |Chunks(more, size).value|;
        Grow(n, size);
        if 0 < i < n + 1 {
          Grow(i - 1, size);
          Grow(i, size);
          AtMost(i + 1, n + 1, size);
          assert more[(i - 1) * size..i * size] == raw[i * size..(i + 1) * size];
        }
      }
    } else if |raw| > 0 {
      QuotientIs(|raw|, size, 0, |raw|);
    }
  }

  lemma Grow(n: int, size: nat)
    ensures (n + 1) * size == n * size + size && 0 * size == 0 && 1 * size == size
  {
  }

  lemma AtMost(a: nat, b: nat, size: nat)
    requires a <= b
    ensures a * size <= b * size
  {
  }

  lemma OneLess(n: nat, size: nat)
    requires 0 < size <= n
    ensures (n - size) % size == n % size
  {
    QuotientIs(n - size, size, n / size - 1, n % size);
  }

  lemma {:induction false} VerticesAre(records: seq<Bytes>, properties: seq<Property>, endian: Endian, i: nat)
    ensures Vertices(records, properties, endian).Some? <==>
            forall k :: 0 <= k < |records| ==> VertexOf(records[k], properties, endian).Some?
    ensures var r := Vertices(records, properties, endian);
            r.Some? ==>
              && |r.value| == |records|
              && (i < |records| ==> Some(r.value[i]) == VertexOf(records[i], properties, endian))
  {
    hide VertexOf;
    if |records| > 0 {
      VerticesAre(records[1..], properties, endian, if i > 0 then i - 1 else 0);
      assert forall k :: 1 <= k < |records| ==> records[k] == records[1..][k - 1];
    }
  }

  lemma {:induction false} FacesAre(records: seq<Bytes>, count: Kind, index: Kind, endian: Endian, i: nat)
    ensures Faces(records, count, index, endian).Some? <==>
            forall k :: 0 <= k < |records| ==> FaceOf(records[k], count, index, endian).Some?
    ensures var r := Faces(records, count, index, endian);
            r.Some? ==>
              && |r.value| == |records|
              && (i < |records| ==> Some(r.value[i]) == FaceOf(records[i], count, index, endian))
  {
    hide FaceOf;
    if |records| > 0 {
      FacesAre(records[1..], count, index, endian, if i > 0 then i - 1 else 0);
      assert forall k :: 1 <= k < |records| ==> records[k] == records[1..][k - 1];
    }
  }

  /** How much of the rest a block of `count` records takes: no more than there is, and all of it below zero. */
  function BlockLength(rest: Bytes, count: int, size: nat): nat {
    if 0 <= count * size <= |rest| then count * size else |rest|
  }

  /**
   * Vertices of any scalar layout: they are read unless what is there is no whole number of records, and each has
   * the fields named x, y and z of its record, wherever they stand in it.
   */
  lemma VerticesOfAnyLayout(rest: Bytes, e: Element, endian: Endian, i: nat, x: nat, y: nat, z: nat)
    requires AllKnown(e.properties) && DistinctNames(e.properties)
    requires x < |e.properties| && e.properties[x].name == "x"
    requires y < |e.properties| && e.properties[y].name == "y"
    requires z < |e.properties| && e.properties[z].name == "z"
    ensures var r, size := ReadVertices(rest, e, endian), Offset(e.properties, |e.properties|);
            var n := BlockLength(rest, e.count, size);
            && size > 0 && (r.Ok? <==> n % size == 0) && (r.Err? ==> r == Err(BadSize))
            && (r.Ok? ==> |r.value.0| * size == n && r.value.1 == rest[n..])
            && (r.Ok? && i < |r.value.0| ==>
                  && (i + 1) * size <= n && i * size <= n
                  && var record := RecordAt(rest[..n], size, i);
                     && Some(r.value.0[i]) == VertexOf(record, e.properties, endian) && |record| == size)
  {
    hide KindOf, VertexOf, Chunks, Vertices, DistinctNames, VertexSize, Offset, RecordAt;
    var size := Offset(e.properties, |e.properties|);
    SizeIsOffset(e.properties);
    OffsetsGrow(e.properties, x, |e.properties|);
    var n := BlockLength(rest, e.count, size);
    assert Taken(rest, e.count * size) == n;
    ChunksAre(rest[..n], size, i);
    if n % size == 0 {
      WholeRecords(rest[..n], size, i);
      WholeVertices(Chunks(rest[..n], size).value, e.properties, endian, i, x, y, z);
    }
  }

  ghost predicate Named(properties: seq<Property>, name: string) {
    exists i :: 0 <= i < |properties| && properties[i].name == name
  }

  ghost predicate WholeBlock(rest: Bytes, e: Element)
    requires AllKnown(e.properties)
  {
    var size := Offset(e.properties, |e.properties|);
    size > 0 && BlockLength(rest, e.count, size) % size == 0
  }

  /**
   * Vertices are read exactly when their properties are scalars of known kinds, with names of their own and x, y
   * and z among these, and what is there is a whole number of records.
   */
  lemma VerticesExactlyWhen(rest: Bytes, e: Element, endian: Endian)
    ensures ReadVertices(rest, e, endian).Ok? <==>
            && AllKnown(e.properties)
            && (forall i, j :: 0 <= i < j < |e.properties| ==> e.properties[i].name != e.properties[j].name)
            && Named(e.properties, "x") && Named(e.properties, "y") && Named(e.properties, "z")
            && WholeBlock(rest, e)
  {
    hide KindOf, Chunks, Vertices, VertexSize, Offset, BlockLength, AllKnown;
    SizeExactlyWhen(e.properties);
    if AllKnown(e.properties) && DistinctNames(e.properties)
       && Named(e.properties, "x") && Named(e.properties, "y") && Named(e.properties, "z")
    {
      var x :| 0 <= x < |e.properties| && e.properties[x].name == "x";
      var y :| 0 <= y < |e.properties| && e.properties[y].name == "y";
      var z :| 0 <= z < |e.properties| && e.properties[z].name == "z";
      hide ReadVertices, DistinctNames;
      VerticesOfAnyLayout(rest, e, endian, 0, x, y, z);
    }
  }

  lemma {:induction false} SizeExactlyWhen(properties: seq<Property>)
    ensures VertexSize(properties).Ok? <==> AllKnown(properties)
  {
    hide KindOf;
    if |properties| > 0 {
      SizeExactlyWhen(properties[1..]);
      assert AllKnown(properties) ==> AllKnown(properties[1..]);
      assert AllKnown(properties[1..]) ==> forall i :: 1 <= i < |properties| ==>
               properties[i] == properties[1..][i - 1];
    }
  }

  /** The records of a buffer all have the size of one. */
  lemma WholeRecords(raw: Bytes, size: nat, i: nat)
    requires size > 0 && Chunks(raw, size).Some?
    ensures forall k :: 0 <= k < |Chunks(raw, size).value| ==> |Chunks(raw, size).value[k]| == size
  {
    hide Chunks;
    var records := Chunks(raw, size).value;
    forall k | 0 <= k < |records|
      ensures |records[k]| == size
    {
      ChunksAre(raw, size, k);
      Grow(k, size);
    }
  }

  lemma WholeVertices(records: seq<Bytes>, properties: seq<Property>, endian: Endian, i: nat, x: nat, y: nat, z: nat)
    requires AllKnown(properties) && DistinctNames(properties)
    requires x < |properties| && properties[x].name == "x" && y < |properties| && properties[y].name == "y"
    requires z < |properties| && properties[z].name == "z"
    requires forall k :: 0 <= k < |records| ==> |records[k]| == Offset(properties, |properties|)
    ensures var r := Vertices(records, properties, endian);
            && r.Some? && |r.value| == |records|
            && (i < |records| ==> Some(r.value[i]) == VertexOf(records[i], properties, endian))
  {
    hide KindOf, Vertices, VertexOf, DistinctNames, Offset;
    forall k | 0 <= k < |records|
      ensures VertexOf(records[k], properties, endian).Some?
    {
      WholeVertex(records[k], properties, endian, x, y, z);
    }
    VerticesAre(records, properties, endian, i);
  }

  lemma {:induction false} OffsetsGrow(properties: seq<Property>, i: nat, j: nat)
    requires AllKnown(properties) && i < j <= |properties|
    ensures Offset(properties, i) + KindOf(properties[i].kind).value.size <= Offset(properties, j)
    ensures KindOf(properties[i].kind).value.size >= 1
  {
    hide KindOf;
    if i + 1 < j {
      OffsetsGrow(properties, i, j - 1);
    }
  }

  /** A whole record has its three coordinates. */
  lemma WholeVertex(record: Bytes, properties: seq<Property>, endian: Endian, x: nat, y: nat, z: nat)
    requires AllKnown(properties) && DistinctNames(properties) && |record| == Offset(properties, |properties|)
    requires x < |properties| && properties[x].name == "x" && y < |properties| && properties[y].name == "y"
    requires z < |properties| && properties[z].name == "z"
    ensures VertexOf(record, properties, endian).Some?
  {
    hide KindOf, Field, Ordered;
    OffsetsGrow(properties, x, |properties|);
    OffsetsGrow(properties, y, |properties|);
    OffsetsGrow(properties, z, |properties|);
    FieldIs(record, properties, endian, x);
    FieldIs(record, properties, endian, y);
    FieldIs(record, properties, endian, z);
  }

  /**
   * Faces of any integer kinds: they are read exactly when what is there is a whole number of records and every
   * record counts three; the list that counts is the element's first.
   */
  lemma FacesOfAnyKind(rest: Bytes, e: Element, endian: Endian, i: nat, l: nat)
    requires l < |e.properties| && e.properties[l].List? && forall k :: 0 <= k < l ==>
               e.properties[k].Scalar?
    requires KindOf(e.properties[l].countKind).Some? && KindOf(e.properties[l].countKind).value.integer
    requires KindOf(e.properties[l].indexKind).Some? && KindOf(e.properties[l].indexKind).value.integer
    ensures var r := ReadFaces(rest, e, endian);
            var count, index := KindOf(e.properties[l].countKind).value, KindOf(e.properties[l].indexKind).value;
            var size := count.size + 3 * index.size;
            var n := BlockLength(rest, e.count, size);
            && (r == Err(BadSize) <==> n % size != 0)
            && (r.Err? ==> r == Err(BadSize) || r == Err(NotTriangles))
            && (r.Ok? ==> |r.value.0| * size == n && r.value.1 == rest[n..])
            && (r.Ok? && i < |r.value.0| ==>
                  && (i + 1) * size <= n && i * size <= n
                  && Some(r.value.0[i]) == FaceOf(RecordAt(rest[..n], size, i), count, index, endian))
  {
    hide KindOf, Chunks, Faces, FaceOf, FirstList;
    FirstListIs(e.properties, l);
    var count, index := KindOf(e.properties[l].countKind).value, KindOf(e.properties[l].indexKind).value;
    var size := count.size + 3 * index.size;
    var n := BlockLength(rest, e.count, size);
    assert Taken(rest, e.count * size) == n;
    ChunksAre(rest[..n], size, i);
    if n % size == 0 {
      FacesAre(Chunks(rest[..n], size).value, count, index, endian, i);
    }
  }

  lemma {:induction false} FirstListIs(properties: seq<Property>, l: nat)
    requires l < |properties| && properties[l].List? && forall k :: 0 <= k < l ==> properties[k].Scalar?
    ensures FirstList(properties) == Some(properties[l])
  {
    if l > 0 {
      FirstListIs(properties[1..], l - 1);
    }
  }

  /** Wrapping gives the 32-bit integer that differs by a multiple of 2 to the 32. */
  lemma WrapIs(n: int)
    ensures FitsInt32(Wrap32(n)) && (Wrap32(n) - n) % 0x1_0000_0000 == 0
  {
    var q := n / TWO_TO_32;
    assert n == q * TWO_TO_32 + n % TWO_TO_32;
    var e := if 2 * (n % TWO_TO_32) >= TWO_TO_32 then -q - 1 else -q;
    assert Wrap32(n) - n == e * TWO_TO_32;
    MultipleLeaves(e);
  }

  lemma MultipleLeaves(e: int)
    ensures (e * TWO_TO_32) % TWO_TO_32 == 0
  {
  }

  /** The sizes of the kinds, and which are whole numbers, and which of these have a sign. */
  lemma KindsAre(name: string)
    ensures KindOf(name).Some? <==>
            || name == "char" || name == "uchar" || name == "short" || name == "ushort" || name == "int"
               || name == "uint"
            || name == "float" || name == "double" || name == "int8" || name == "uint8" || name == "int16"
            || name == "uint16" || name == "int32" || name == "uint32" || name == "float32" || name == "float64"
    ensures name == "char" || name == "int8" ==> KindOf(name) == Some(Kind(1, true, true))
    ensures name == "uchar" || name == "uint8" ==> KindOf(name) == Some(Kind(1, true, false))
    ensures name == "short" || name == "int16" ==> KindOf(name) == Some(Kind(2, true, true))
    ensures name == "ushort" || name == "uint16" ==> KindOf(name) == Some(Kind(2, true, false))
    ensures name == "int" || name == "int32" ==> KindOf(name) == Some(Kind(4, true, true))
    ensures name == "uint" || name == "uint32" ==> KindOf(name) == Some(Kind(4, true, false))
    ensures name == "float" || name == "float32" ==> KindOf(name) == Some(Kind(4, false, true))
    ensures name == "double" || name == "float64" ==> KindOf(name) == Some(Kind(8, false, true))
  {
  }

  // ----- the bytes that are saved

  lemma {:induction false} ToBytesAt(n: nat, size: nat, k: nat)
    requires k < size
    ensures ToBytes(n, size)[k] == n / Power256(k) % 256
  {
    if k > 0 {
      ToBytesAt(n / 256, size - 1, k - 1);
      DivideTwice(n, Power256(k - 1));
    }
  }

  lemma DivideTwice(n: nat, p: nat)
    requires p >= 1
    ensures n / 256 / p == n / (256 * p)
  {
    var a := n / 256;
    var q, r := a / p, a % p;
    assert n == 256 * a + n % 256 && a == p * q + r;
    assert n == (256 * p) * q + (256 * r + n % 256);
    assert 0 <= 256 * r + n % 256 < 256 * p;
    QuotientIs(n, 256 * p, q, 256 * r + n % 256);
  }

  lemma {:induction false} VertexBytesAt(rows: seq<seq<Word>>, i: nat, j: nat, k: nat)
    requires Triples(rows) && i < |rows| && j < 3 && k < 4
    ensures |VertexBytes(rows, Little)| == 12 * |rows|
    ensures VertexBytes(rows, Little)[12 * i + 4 * j + k] == rows[i][j][k]
  {
    var row, more := rows[0], VertexBytes(rows[1..], Little);
    var x: Bytes, y: Bytes, z: Bytes := row[0], row[1], row[2];
    var first := x + y + z;
    assert VertexBytes(rows, Little) == first + more;
    if |rows| > 1 {
      VertexBytesAt(rows[1..], if i > 0 then i - 1 else 0, j, k);
    }
    if i > 0 {
      assert (first + more)[12 * i + 4 * j + k] == more[12 * (i - 1) + 4 * j + k];
    }
  }

  function FaceRecord(row: seq<int>): Bytes
    requires |row| == 3
  {
    [3] + Int32Bytes(row[0], Little) + Int32Bytes(row[1], Little) + Int32Bytes(row[2], Little)
  }

  lemma FaceRecordAt(row: seq<int>, j: nat, k: nat)
    requires |row| == 3 && j < 3 && k < 4
    ensures |FaceRecord(row)| == 13 && FaceRecord(row)[0] == 3
    ensures FaceRecord(row)[1 + 4 * j + k] == row[j] % 0x1_0000_0000 / Power256(k) % 256
  {
    hide Power256;
    var a, b, c := Int32Bytes(row[0], Little), Int32Bytes(row[1], Little), Int32Bytes(row[2], Little);
    ToBytesAt(row[j] % TWO_TO_32, 4, k);
    assert ([3] + a + b + c)[1 + 4 * j + k] == (if j == 0 then a else if j == 1 then b else c)[k];
  }

  lemma {:induction false} FaceBytesAt(rows: seq<seq<int>>, i: nat, j: nat, k: nat)
    requires Triples(rows) && i < |rows| && j < 3 && k < 4
    ensures |FaceBytes(rows, Little)| == 13 * |rows|
    ensures FaceBytes(rows, Little)[13 * i] == 3
    ensures FaceBytes(rows, Little)[13 * i + 1 + 4 * j + k] == rows[i][j] % 0x1_0000_0000 / Power256(k) % 256
  {
    hide Power256, FaceRecord;
    var first, more := FaceRecord(rows[0]), FaceBytes(rows[1..], Little);
    FaceBytesStep(rows);
    FaceRecordAt(rows[0], j, k);
    if |rows| > 1 {
      FaceBytesAt(rows[1..], if i > 0 then i - 1 else 0, j, k);
    }
    if i > 0 {
      assert (first + more)[13 * i] == more[13 * (i - 1)];
      assert (first + more)[13 * i + 1 + 4 * j + k] == more[13 * (i - 1) + 1 + 4 * j + k];
    }
  }

  lemma FaceBytesStep(rows: seq<seq<int>>)
    requires Triples(rows) && |rows| > 0
    ensures FaceBytes(rows, Little) == FaceRecord(rows[0]) + FaceBytes(rows[1..], Little)
  {
    hide Int32Bytes;
  }

  function Concat(lines: seq<string>): string {
    if |lines| == 0 then "" else lines[0] + Concat(lines[1..])
  }

  lemma {:induction false} ConcatAppend(a: seq<string>, b: seq<string>)
    ensures Concat(a + b) == Concat(a) + Concat(b)
  {
    if |a| == 0 {
      assert a + b == b;
    } else {
      assert (a + b)[1..] == a[1..] + b;
      ConcatAppend(a[1..], b);
    }
  }

  /** A line of three words. */
  function Words(a: string, b: string, c: string): string {
    a + " " + b + " " + c + "\n"
  }

  /** The header that is saved, line by line. */
  function SavedLines(vertices: nat, faces: nat): seq<string> {
    ["ply" + "\n",
     Words("format", "binary_little_endian", "1.0"),
     Words("element", "vertex", Decimal(vertices)),
     Words("property", "float", "x"),
     Words("property", "float", "y"),
     Words("property", "float", "z"),
     Words("element", "face", Decimal(faces)),
     "property" + " " + "list" + " " + "uchar" + " " + "int" + " " + "vertex_indices" + "\n",
     "end_header" + "\n"]
  }

  lemma {:induction false} PropertyLines(properties: seq<Property>, lines: seq<string>)
    requires |lines| == |properties|
    requires forall i :: 0 <= i < |lines| ==> lines[i] == Line(PropertyTokens(properties[i]))
    ensures PropertyText(properties) == Concat(lines)
  {
    hide Line, PropertyTokens;
    if |properties| > 0 {
      PropertyLines(properties[1..], lines[1..]);
    }
  }

  lemma VertexText(n: nat)
    ensures ElementText(VertexElement(n))
            == Concat([Words("element", "vertex", Decimal(n)), Words("property", "float", "x"),
                       Words("property", "float", "y"), Words("property", "float", "z")])
  {
    hide Decimal, Line, Words, Concat, PropertyText;
    ThreeTokens("element", "vertex", Decimal(n));
    ThreeTokens("property", "float", "x");
    ThreeTokens("property", "float", "y");
    ThreeTokens("property", "float", "z");
    var lines := [Words("property", "float", "x"), Words("property", "float", "y"), Words("property", "float", "z")];
    PropertyLines(XYZ, lines);
    var first := Words("element", "vertex", Decimal(n));
    ConcatFirst(first, lines);
    assert [first] + lines == [first, lines[0], lines[1], lines[2]];
  }

  lemma ConcatFirst(line: string, lines: seq<string>)
    ensures Concat([line] + lines) == line + Concat(lines)
  {
    assert ([line] + lines)[1..] == lines;
  }

  lemma FaceText(n: nat)
    ensures ElementText(FaceElement(n))
            == Concat([Words("element", "face", Decimal(n)),
                       "property" + " " + "list" + " " + "uchar" + " " + "int" + " " + "vertex_indices" + "\n"])
  {
    hide Decimal, Line, Words, Concat, PropertyText;
    ThreeTokens("element", "face", Decimal(n));
    FiveTokens("property", "list", "uchar", "int", "vertex_indices");
    var lines := ["property" + " " + "list" + " " + "uchar" + " " + "int" + " " + "vertex_indices" + "\n"];
    PropertyLines(INDICES, lines);
    var first := Words("element", "face", Decimal(n));
    ConcatFirst(first, lines);
    assert [first] + lines == [first, lines[0]];
  }

  lemma HeaderIs(vertices: nat, faces: nat)
    ensures MeshHeader(vertices, faces) == Concat(SavedLines(vertices, faces))
  {
    hide Decimal, Line, ElementText, Concat, Words;
    var v, f := VertexElement(vertices), FaceElement(faces);
    OneToken("ply");
    OneToken("end_header");
    ThreeTokens("format", "binary_little_endian", "1.0");
    VertexText(vertices);
    FaceText(faces);
    TwoElements(v, f);
    var lines := SavedLines(vertices, faces);
    var start, first, second, end := lines[..2], lines[2..6], lines[6..8], lines[8..];
    assert lines == start + (first + second + end);
    assert start == [lines[0], lines[1]] && end == [lines[8]];
    assert first == [lines[2], lines[3], lines[4], lines[5]] && second == [lines[6], lines[7]];
    ConcatAppend(start, first + second + end);
    ConcatAppend(first + second, end);
    ConcatAppend(first, second);
    TwoLines(lines[0], lines[1]);
    OneLine(lines[8]);
    Regrouped(lines[0], lines[1], Concat(first) + Concat(second), lines[8]);
  }

  lemma TwoElements(v: Element, f: Element)
    requires v.count >= 0 && f.count >= 0
    ensures ElementsText([v, f]) == ElementText(v) + ElementText(f)
  {
    hide ElementText;
    var es := [v, f];
    assert es[1..] == [f] && [f][1..] == [];
    assert ElementsText([f]) == ElementText(f);
  }

  lemma TwoLines(a: string, b: string)
    ensures Concat([a, b]) == a + b
  {
    assert [a, b][1..] == [b] && [b][1..] == [];
    assert Concat([b]) == b;
  }

  lemma OneLine(a: string)
    ensures Concat([a]) == a
  {
    assert [a][1..] == [];
  }

  lemma Regrouped(a: string, b: string, c: string, d: string)
    ensures a + (b + (c + d)) == (a + b) + (c + d)
  {
  }

  lemma OneToken(a: string)
    ensures Line([a]) == a + "\n"
  {
  }

  lemma ThreeTokens(a: string, b: string, c: string)
    ensures Line([a, b, c]) == Words(a, b, c)
  {
    assert [a, b, c][1..] == [b, c] && [b, c][1..] == [c];
    assert Join([b, c]) == b + " " + c;
  }

  lemma FiveTokens(a: string, b: string, c: string, d: string, e: string)
    ensures Line([a, b, c, d, e]) == a + " " + b + " " + c + " " + d + " " + e + "\n"
  {
    assert [a, b, c, d, e][1..] == [b, c, d, e] && [b, c, d, e][1..] == [c, d, e];
    assert [c, d, e][1..] == [d, e] && [d, e][1..] == [e];
    assert Join([d, e]) == d + " " + e && Join([c, d, e]) == c + " " + (d + " " + e);
    assert Join([b, c, d, e]) == b + " " + (c + " " + (d + " " + e));
  }

  /** The byte at a place, or -1 past the end. */
  function ByteAt(data: Bytes, i: nat): int {
    if i < |data| then data[i] else -1
  }

  /**
   * A saved file, byte by byte: the header's characters, then the words of the coordinates as they were given,
   * then for each face a three and the bytes of its indices, the least significant first.
   */
  lemma SavedBytes(vertices: Matrix<Word>, faces: Matrix<int>, i: nat, j: nat, k: nat)
    requires vertices.Valid() && faces.Valid() && Save(vertices, faces).Ok? && j < 3 && k < 4
    ensures var data, header := Save(vertices, faces).value, MeshHeader(|vertices.rows|, |faces.rows|);
            |data| == |header| + 12 * |vertices.rows| + 13 * |faces.rows|
              && (i < |header| ==> ByteAt(data, i) == header[i] as int)
    ensures var data, start := Save(vertices, faces).value, |MeshHeader(|vertices.rows|, |faces.rows|)|;
            i < |vertices.rows| ==> ByteAt(data, start + (12 * i + 4 * j + k)) == vertices.rows[i][j][k]
    ensures var data, start :=
            Save(vertices, faces).value, |MeshHeader(|vertices.rows|, |faces.rows|)| + 12 * |vertices.rows|;
            i < |faces.rows| ==>
              && ByteAt(data, start + 13 * i) == 3
              && ByteAt(data, start + (13 * i + 1 + 4 * j + k)) == faces.rows[i][j] % 0x1_0000_0000 / Power256(k) % 256
  {
    hide MeshHeader, VertexBytes, FaceBytes, Power256, Encode;
    var v, f := vertices.rows, faces.rows;
    assert Triples(v) && Triples(f);
    var h, vs, fs := Encode(MeshHeader(|v|, |f|)), VertexBytes(v, Little), FaceBytes(f, Little);
    NoBytes(v, f);
    if |v| > 0 {
      VertexBytesAt(v, if i < |v| then i else 0, j, k);
    }
    if |f| > 0 {
      FaceBytesAt(f, if i < |f| then i else 0, j, k);
    }
    CodeOf(MeshHeader(|v|, |f|), i);
    ThreeParts(h, vs, fs, i, if i < |v| then 12 * i + 4 * j + k else 0, if i < |f| then 13 * i else 0);
    ThreeParts(h, vs, fs, i, 0, if i < |f| then 13 * i + 1 + 4 * j + k else 0);
  }

  lemma CodeOf(s: string, i: nat)
    requires IsAscii(s)
    ensures i < |s| ==> Encode(s)[i] == s[i] as int
  {
  }

  lemma ThreeParts(a: Bytes, b: Bytes, c: Bytes, i: nat, j: nat, k: nat)
    ensures i < |a| ==> (a + b + c)[i] == a[i]
    ensures j < |b| ==> (a + b + c)[|a| + j] == b[j]
    ensures k < |c| ==> (a + b + c)[|a| + |b| + k] == c[k]
  {
  }

  lemma NoBytes(v: seq<seq<Word>>, f: seq<seq<int>>)
    requires Triples(v) && Triples(f)
    ensures |v| == 0 ==> VertexBytes(v, Little) == []
    ensures |f| == 0 ==> FaceBytes(f, Little) == []
  {
  }
}
