/** A map polygon: its on-disk record (the vertex block plus the
    triangle-only padding short) and its Wavefront `.obj` face line. */
module MapPolygon {
  import opened Wrappers
  import opened Bytes
  import opened DataWriter
  import opened DataReader

  const TriSize: nat := 3
  /** Only polygons with this many vertices carry the padding short. */
  const RequiresVertexPadding: nat := TriSize

  /** `padding` is a 16-bit value preserved verbatim; it is zero unless it
      was read from a triangle. */
  datatype Polygon = Polygon(vertices: seq<uint16>, padding: int16)

  predicate HasPadding(vertexCount: nat)
  {
    vertexCount == RequiresVertexPadding
  }

  /** Size in bytes of a polygon record with `vertexCount` vertices. */
  function RecordSize(vertexCount: nat): nat
  {
    2 * vertexCount + (if HasPadding(vertexCount) then 2 else 0)
  }

  // ---- the vertex block (one unsigned 16-bit index per vertex) ----

  function WriteVertices(w: Writer, vertices: seq<uint16>): (w': Writer)
    ensures Index(w') == Index(w) + 2 * |vertices|
    ensures w'.data[..Index(w)] == w.data && w'.endian == w.endian
    decreases |vertices|
  {
    if vertices == [] then w
    else WriteVertices(WriteUnsignedShort(w, vertices[0]), vertices[1..])
  }

  /** The unsigned short stored as vertex `i` of the block at `r`. */
  function VertexAt(r: Reader, i: nat): uint16
    requires r.pos + 2 * i + 2 <= |r.data|
  {
    DecodeUint16(r.data[r.pos + 2 * i..r.pos + 2 * i + 2], r.endian)
  }

  function ReadVertices(r: Reader, count: nat): (res: Result<(seq<uint16>, Reader), ReadError>)
    ensures res.Ok? <==> r.pos + 2 * count <= |r.data|
    ensures res.Ok? ==> |res.value.0| == count && res.value.1 == r.(pos := r.pos + 2 * count)
    ensures res.Ok? ==> forall i :: 0 <= i < count ==> res.value.0[i] == VertexAt(r, i)
    decreases count
  {
    if count == 0 then
      if r.pos <= |r.data| then Ok(([], r)) else Err(EndOfData(r.pos, 0))
    else
      var (first, r1) :- ReadUnsignedShort(r);
      var (rest, r2) :- ReadVertices(r1, count - 1);
      assert forall i :: 0 < i < count ==> VertexAt(r, i) == VertexAt(r1, i - 1);
      Ok(([first] + rest, r2))
  }

  // ---- load / save ----

  function Save(w: Writer, p: Polygon): (w': Writer)
    ensures Index(w') == Index(w) + RecordSize(|p.vertices|)
    ensures w'.data[..Index(w)] == w.data && w'.endian == w.endian
  {
    var w1 := WriteVertices(w, p.vertices);
    if HasPadding(|p.vertices|) then WriteShort(w1, p.padding) else w1
  }

  function Load(r: Reader, vertexCount: nat): (res: Result<(Polygon, Reader), ReadError>)
    ensures res.Ok? <==> r.pos + RecordSize(vertexCount) <= |r.data|
    ensures res.Ok? ==> |res.value.0.vertices| == vertexCount
    ensures res.Ok? ==> res.value.1 == r.(pos := r.pos + RecordSize(vertexCount))
    ensures res.Ok? ==> forall i :: 0 <= i < vertexCount ==> res.value.0.vertices[i] == VertexAt(r, i)
    ensures res.Ok? && HasPadding(vertexCount) ==>
              res.value.0.padding == DecodeInt16(r.data[r.pos + 2 * vertexCount..r.pos + 2 * vertexCount + 2], r.endian)
    ensures res.Ok? && !HasPadding(vertexCount) ==> res.value.0.padding == 0
  {
    var (vertices, r1) :- ReadVertices(r, vertexCount);
    if HasPadding(vertexCount) then
      var (padding, r2) :- ReadShort(r1);
      Ok((Polygon(vertices, padding), r2))
    else
      Ok((Polygon(vertices, 0), r1))
  }

  /** What a load yields for a polygon that was saved: the padding
      survives exactly for triangles. */
  function Reloaded(p: Polygon): Polygon
  {
    if HasPadding(|p.vertices|) then p else p.(padding := 0)
  }

  lemma {:induction false} VerticesRoundTrip(w: Writer, vertices: seq<uint16>, tail: seq<byte>)
    ensures var w' := WriteVertices(w, vertices);
            ReadVertices(Reader(w'.data + tail, Index(w), w.endian), |vertices|)
              == Ok((vertices, Reader(w'.data + tail, Index(w'), w.endian)))
    decreases |vertices|
  {
    if vertices != [] {
      var w1 := WriteUnsignedShort(w, vertices[0]);
      var w' := WriteVertices(w1, vertices[1..]);
      var data := w'.data + tail;
      assert data[..Index(w1)] == w1.data;
      assert data[Index(w)..Index(w) + 2] == w1.data[Index(w)..];
      assert w1.data[Index(w)..] == Int16Bytes(vertices[0], w.endian);
      ReadUnsignedShortAt(data, Index(w), w.endian, vertices[0]);
      VerticesRoundTrip(w1, vertices[1..], tail);
      assert [vertices[0]] + vertices[1..] == vertices;
    }
  }

  /** Saving then loading with the same vertex count reproduces the polygon,
      padding included for triangles, and consumes exactly what was written. */
  lemma {:induction false} LoadSaveRoundTrip(w: Writer, p: Polygon, tail: seq<byte>)
    ensures var w' := Save(w, p);
            Load(Reader(w'.data + tail, Index(w), w.endian), |p.vertices|)
              == Ok((Reloaded(p), Reader(w'.data + tail, Index(w'), w.endian)))
  {
    var w1 := WriteVertices(w, p.vertices);
    var w' := Save(w, p);
    var data := w'.data + tail;
    assert data[..Index(w1)] == w1.data by {
      assert w'.data[..Index(w1)] == w1.data;
    }
    VerticesRoundTrip(w1.(data := w.data), p.vertices, []) by {
      assert w1.(data := w.data) == w;
    }
    VerticesRoundTrip(w, p.vertices, data[Index(w1)..]);
    assert w1.data + data[Index(w1)..] == data;
    if HasPadding(|p.vertices|) {
      assert data[Index(w1)..Index(w1) + 2] == w'.data[Index(w1)..];
      assert w'.data[Index(w1)..] == Int16Bytes(p.padding, w.endian);
      ReadShortAt(data, Index(w1), w.endian, p.padding);
    }
  }

  /** Writing back the vertices a read produced writes exactly the bytes
      that were read. */
  lemma {:induction false} VerticesWriteBack(w: Writer, r: Reader, count: nat, vertices: seq<uint16>, r': Reader)
    requires ReadVertices(r, count) == Ok((vertices, r')) && w.endian == r.endian
    ensures WriteVertices(w, vertices).data == w.data + r.data[r.pos..r'.pos]
    decreases count
  {
    if count == 0 {
      assert w.data + r.data[r.pos..r'.pos] == w.data;
    } else {
      var bs := r.data[r.pos..r.pos + 2];
      var first := DecodeUint16(bs, r.endian);
      var r1 := r.(pos := r.pos + 2);
      assert ReadUnsignedShort(r) == Ok((first, r1));
      var rest := ReadVertices(r1, count - 1).value.0;
      assert vertices == [first] + rest;
      var w1 := WriteUnsignedShort(w, first);
      Uint16BytesOfDecode(bs, r.endian);
      assert w1.data == w.data + bs;
      assert WriteVertices(w, vertices) == WriteVertices(w1, rest) by {
        assert vertices[0] == first && vertices[1..] == rest;
      }
      VerticesWriteBack(w1, r1, count - 1, rest, r');
      SliceJoin(r.data, r.pos, r1.pos, r'.pos);
      AppendAssoc(w.data, bs, r.data[r1.pos..r'.pos]);
    }
  }

  /** Loading then saving writes back exactly the bytes that were loaded,
      the triangle's padding short included: the padding is preserved
      verbatim whatever it holds. */
  lemma SaveLoadedRoundTrip(w: Writer, r: Reader, vertexCount: nat)
    requires Load(r, vertexCount).Ok? && w.endian == r.endian
    ensures var (p, r') := Load(r, vertexCount).value;
            Save(w, p).data == w.data + r.data[r.pos..r'.pos]
  {
    var (p, r') := Load(r, vertexCount).value;
    var (vertices, r1) := ReadVertices(r, vertexCount).value;
    VerticesWriteBack(w, r, vertexCount, vertices, r1);
    var w1 := WriteVertices(w, vertices);
    if HasPadding(vertexCount) {
      var bs := r.data[r1.pos..r1.pos + 2];
      Int16BytesOfDecode(bs, r.endian);
      assert Save(w, p).data == w1.data + bs;
      SliceJoin(r.data, r.pos, r1.pos, r'.pos);
      AppendAssoc(w.data, r.data[r.pos..r1.pos], bs);
    }
  }

  /** The order a polygon is put in a `.obj` file; every base polygon is 0. */
  function OrderId(p: Polygon): (id: int)
    ensures id == 0
  {
    0
  }

  // ---- decimal rendering, as `StringBuilder.append(int)` ----

  function DigitChar(d: nat): (c: char)
    requires d < 10
    ensures '0' <= c <= '9' && c as int - '0' as int == d
  {
    "0123456789"[d]
  }

  function NatToString(n: nat): string
    decreases n
  {
    if n < 10 then [DigitChar(n)] else NatToString(n / 10) + [DigitChar(n % 10)]
  }

  function IntToString(i: int): string
  {
    if i < 0 then "-" + NatToString(-i) else NatToString(i)
  }

  predicate AllDigits(s: string)
  {
    forall i :: 0 <= i < |s| ==> '0' <= s[i] <= '9'
  }

  lemma {:induction false} NatToStringDigits(n: nat)
    ensures |NatToString(n)| >= 1 && AllDigits(NatToString(n))
    decreases n
  {
    if n >= 10 {
      NatToStringDigits(n / 10);
    }
  }

  /** A rendered number never contains the field separators of a face line. */
  lemma IntToStringSeparatorFree(i: int)
    ensures ' ' !in IntToString(i) && '/' !in IntToString(i)
  {
    NatToStringDigits(if i < 0 then -i else i);
  }

  /** Reads a run of decimal digits back into its value. */
  function ParseDecimal(s: string): nat
    requires AllDigits(s)
  {
    if s == [] then 0
    else 10 * ParseDecimal(s[..|s| - 1]) + (s[|s| - 1] as int - '0' as int)
  }

  /** Decimal rendering loses nothing: the digits parse back to the number. */
  lemma {:induction false} DecimalRoundTrip(n: nat)
    ensures AllDigits(NatToString(n)) && ParseDecimal(NatToString(n)) == n
    decreases n
  {
    NatToStringDigits(n);
    if n >= 10 {
      DecimalRoundTrip(n / 10);
      var s := NatToString(n);
      assert s[..|s| - 1] == NatToString(n / 10);
    }
  }

  // ---- the .obj face command ----

  /** One field of a face line: the 1-based vertex number and, when
      textures are shown, the texture index printed after a "/". */
  datatype FaceVertex = FaceVertex(number: int, texture: Option<int32>)

  /** The texture index printed after the `k`-th vertex written (1-based):
      the counter after `k` increments, or 0 when there is no counter. */
  function TextureIndex(counter: Option<int32>, k: nat): int32
  {
    match counter
    case None => 0
    case Some(c) => Wrap32(c + k)
  }

  /** The counter after `n` calls of `incrementAndGet`. */
  function Advance(counter: Option<int32>, n: nat): Option<int32>
  {
    match counter
    case None => None
    case Some(c) => Some(Wrap32(c + n))
  }

  /** Reference definition: the `j`-th field written is the vertex at index
      `n - 1 - j`, with the texture index the counter reaches after `j + 1`
      increments. */
  function FaceFields(vertices: seq<uint16>, showTextures: bool, counter: Option<int32>): (fs: seq<FaceVertex>)
    ensures |fs| == |vertices|
    ensures forall j :: 0 <= j < |fs| ==>
              fs[j] == FaceVertex(vertices[|vertices| - 1 - j] as int + 1,
                                  if showTextures then Some(TextureIndex(counter, j + 1)) else None)
  {
    seq(|vertices|, j requires 0 <= j < |vertices| =>
      FaceVertex(vertices[|vertices| - 1 - j] as int + 1, if showTextures then Some(TextureIndex(counter, j + 1)) else None))
  }

  /** One turn of the `toObjFaceCommand` loop: the field for one vertex,
      and the counter after it. */
  function AppendVertex(vertex: uint16, showTextures: bool, counter: Option<int32>): (FaceVertex, Option<int32>)
  {
    if !showTextures then (FaceVertex(vertex as int + 1, None), counter)
    else match counter
      case None => (FaceVertex(vertex as int + 1, Some(0)), None)
      case Some(c) => (FaceVertex(vertex as int + 1, Some(Wrap32(c + 1))), Some(Wrap32(c + 1)))
  }

  /** The `toObjFaceCommand` loop from index `i` down to 0, appending to
      `fields` and threading the counter. */
  function FaceLoop(vertices: seq<uint16>, i: int, showTextures: bool, fields: seq<FaceVertex>, counter: Option<int32>)
    : (seq<FaceVertex>, Option<int32>)
    requires -1 <= i < |vertices|
    decreases i + 1
  {
    if i < 0 then (fields, counter)
    else
      var step := AppendVertex(vertices[i], showTextures, counter);
      FaceLoop(vertices, i - 1, showTextures, fields + [step.0], step.1)
  }

  /** One more `incrementAndGet` moves the counter to the next texture index. */
  lemma AdvanceStep(c: int32, done: nat)
    ensures Advance(Some(c), done + 1) == Some(Wrap32(Advance(Some(c), done).value + 1))
    ensures TextureIndex(Some(c), done + 1) == Advance(Some(c), done + 1).value
  {
    WrapStep(c + done);
  }

  /** After `n - 1 - i` turns, the loop has written the first fields of the
      reference line and advanced the counter once per field shown; running
      it to the end gives the whole reference line. */
  lemma {:induction false} FaceLoopMatchesReference(vertices: seq<uint16>, i: int, showTextures: bool,
                                                   counter: Option<int32>, fields: seq<FaceVertex>, counterNow: Option<int32>)
    requires -1 <= i < |vertices|
    requires fields == FaceFields(vertices, showTextures, counter)[..|vertices| - 1 - i]
    requires counterNow == if showTextures then Advance(counter, |vertices| - 1 - i) else counter
    ensures FaceLoop(vertices, i, showTextures, fields, counterNow)
         == (FaceFields(vertices, showTextures, counter),
             if showTextures then Advance(counter, |vertices|) else counter)
    decreases i + 1
  {
    var reference := FaceFields(vertices, showTextures, counter);
    var done := |vertices| - 1 - i;
    if i < 0 {
      assert reference[..done] == reference;
      if counter.Some? {
        assert Wrap32(counter.value + 0) == counter.value;
      }
    } else {
      var step := AppendVertex(vertices[i], showTextures, counterNow);
      if showTextures && counter.Some? {
        AdvanceStep(counter.value, done);
      }
      assert step.0 == reference[done];
      assert fields + [step.0] == reference[..done + 1];
      FaceLoopMatchesReference(vertices, i - 1, showTextures, counter, fields + [step.0], step.1);
    }
  }

  // ---- rendering, as `StringBuilder.append` writes it ----

  function RenderVertex(v: FaceVertex): string
  {
    " " + IntToString(v.number) + (if v.texture.Some? then "/" + IntToString(v.texture.value) else "")
  }

  function RenderFields(fields: seq<FaceVertex>): string
  {
    if fields == [] then "" else RenderVertex(fields[0]) + RenderFields(fields[1..])
  }

  function RenderFace(fields: seq<FaceVertex>): string
  {
    "f" + RenderFields(fields)
  }

  /** `toObjFaceCommand`: the face line, and the counter afterwards. The
      line is "f", then each vertex from last to first as its 1-based
      number, each followed by "/k" when textures are shown. */
  function ToObjFaceCommand(p: Polygon, showTextures: bool, counter: Option<int32>): (r: (string, Option<int32>))
    ensures r.0 == RenderFace(FaceFields(p.vertices, showTextures, counter))
    ensures r.1 == if showTextures then Advance(counter, |p.vertices|) else counter
  {
    var n := |p.vertices|;
    FaceLoopMatchesReference(p.vertices, n - 1, showTextures, counter, [], counter);
    var loop := FaceLoop(p.vertices, n - 1, showTextures, [], counter);
    (RenderFace(loop.0), loop.1)
  }

  function Count(s: string, c: char): nat
  {
    if s == [] then 0 else (if s[0] == c then 1 else 0) + Count(s[1..], c)
  }

  lemma {:induction false} CountAppend(a: string, b: string, c: char)
    ensures Count(a + b, c) == Count(a, c) + Count(b, c)
  {
    if a == [] {
      assert a + b == b;
    } else {
      assert (a + b)[1..] == a[1..] + b;
      CountAppend(a[1..], b, c);
    }
  }

  lemma {:induction false} CountAbsent(s: string, c: char)
    requires c !in s
    ensures Count(s, c) == 0
  {
    if s != [] {
      CountAbsent(s[1..], c);
    }
  }

  lemma VertexCounts(v: FaceVertex)
    ensures Count(RenderVertex(v), ' ') == 1
    ensures Count(RenderVertex(v), '/') == if v.texture.Some? then 1 else 0
  {
    var a := IntToString(v.number);
    IntToStringSeparatorFree(v.number);
    CountAbsent(a, ' ');
    CountAbsent(a, '/');
    CountAppend(" ", a, ' ');
    CountAppend(" ", a, '/');
    if v.texture.Some? {
      var b := IntToString(v.texture.value);
      IntToStringSeparatorFree(v.texture.value);
      CountAbsent(b, ' ');
      CountAbsent(b, '/');
      CountAppend("/", b, ' ');
      CountAppend("/", b, '/');
      CountAppend(" " + a, "/" + b, ' ');
      CountAppend(" " + a, "/" + b, '/');
    } else {
      assert RenderVertex(v) == " " + a;
    }
  }

  lemma {:induction false} FieldsCounts(fields: seq<FaceVertex>, showTextures: bool)
    requires forall j :: 0 <= j < |fields| ==> fields[j].texture.Some? == showTextures
    ensures Count(RenderFields(fields), ' ') == |fields|
    ensures Count(RenderFields(fields), '/') == if showTextures then |fields| else 0
  {
    if fields != [] {
      VertexCounts(fields[0]);
      FieldsCounts(fields[1..], showTextures);
      CountAppend(RenderVertex(fields[0]), RenderFields(fields[1..]), ' ');
      CountAppend(RenderVertex(fields[0]), RenderFields(fields[1..]), '/');
    }
  }

  /** The face line starts with "f", has one space-separated field per
      vertex, and has one "/" per field exactly when textures are shown. */
  lemma FaceCommandShape(p: Polygon, showTextures: bool, counter: Option<int32>)
    ensures var command := ToObjFaceCommand(p, showTextures, counter).0;
            && command[0] == 'f'
            && Count(command, ' ') == |p.vertices|
            && Count(command, '/') == (if showTextures then |p.vertices| else 0)
  {
    var fields := FaceFields(p.vertices, showTextures, counter);
    FieldsCounts(fields, showTextures);
    CountAppend("f", RenderFields(fields), ' ');
    CountAppend("f", RenderFields(fields), '/');
  }
}
