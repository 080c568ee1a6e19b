// The memory-mapped matrix file: a fixed header, then one fp16 row per chunk. The map is a byte
// array here; growing replaces it by a longer one with the same beginning.

module Matrix {
  import opened Wrappers
  import opened Records
  import opened Bytes
  import opened Dense

  const MATRIX_FORMAT_VERSION := 1
  const MAGIC: seq<Byte> := [83, 73, 70, 84, 69, 77, 66, 0]
  const MODEL_ID_CAPACITY := 256
  const HEADER_SIZE := 288
  const GROW_BLOCK_ROWS := 1024

  datatype MatrixError =
    | Broken
    | SchemaVersion(expected: nat, found: nat)
    | NotUtf8
    | ModelIdTooLong
    | DimensionMismatch(dims: nat, got: nat)
    | RowOutOfRange(row: RowId, rows: nat)
    | ReadOnly

  datatype MatrixHeader = MatrixHeader(magic: seq<Byte>, formatVersion: nat, dims: nat, rows: nat, modelId: seq<Byte>)

  /** The widths of the header's fields. */
  predicate InWidth(h: MatrixHeader) {
    |h.magic| == 8 && h.formatVersion < U32_LIMIT && h.dims < U32_LIMIT && h.rows < U64_LIMIT && |h.modelId| < U32_LIMIT
  }

  predicate Continuation(b: Byte) {
    0x80 <= b <= 0xBF
  }

  predicate IsUtf8(bs: seq<Byte>)
    decreases |bs|
  {
    || bs == []
    || (bs[0] < 0x80 && IsUtf8(bs[1..]))
    || (0xC2 <= bs[0] <= 0xDF && |bs| >= 2 && Continuation(bs[1]) && IsUtf8(bs[2..]))
    || (0xE0 <= bs[0] <= 0xEF && |bs| >= 3 && Continuation(bs[1]) && Continuation(bs[2])
        && (bs[0] == 0xE0 ==> bs[1] >= 0xA0) && (bs[0] == 0xED ==> bs[1] <= 0x9F) && IsUtf8(bs[3..]))
    || (0xF0 <= bs[0] <= 0xF4 && |bs| >= 4 && Continuation(bs[1]) && Continuation(bs[2]) && Continuation(bs[3])
        && (bs[0] == 0xF0 ==> bs[1] >= 0x90) && (bs[0] == 0xF4 ==> bs[1] <= 0x8F) && IsUtf8(bs[4..]))
  }

  lemma CharThenUtf8(c: char, rest: seq<Byte>)
    requires IsUtf8(rest)
    ensures IsUtf8(Utf8Char(c) + rest)
  {
    var head := Utf8Char(c);
    var bytes := head + rest;
    assert bytes[|head|..] == rest;
    assert forall i | 0 <= i < |head| :: bytes[i] == head[i];
  }

  /** The bytes of a string are accepted as UTF-8. */
  lemma {:induction false} StringIsUtf8(s: string)
    ensures IsUtf8(Utf8(s))
  {
    if s != "" {
      StringIsUtf8(s[1..]);
      CharThenUtf8(s[0], Utf8(s[1..]));
    }
  }

  function Zeros(n: nat): seq<Byte> {
    seq(n, _ => 0)
  }

  /** The header's bytes, field after field, padded with zeros. */
  function HeaderBytes(h: MatrixHeader): (bytes: seq<Byte>)
    requires InWidth(h) && |h.modelId| <= MODEL_ID_CAPACITY
    ensures |bytes| == HEADER_SIZE
  {
    h.magic + ToLittleEndian(h.formatVersion) + ToLittleEndian(h.dims) + ToLittleEndian64(h.rows)
    + ToLittleEndian(|h.modelId|) + h.modelId + Zeros(260 - |h.modelId|)
  }

  function DecodeHeader(bytes: seq<Byte>): Result<MatrixHeader, MatrixError> {
    if |bytes| < HEADER_SIZE || bytes[..8] != MAGIC then Err(Broken)
    else
      var version := FromLittleEndian(bytes[8..12]);
      if version != MATRIX_FORMAT_VERSION then Err(SchemaVersion(MATRIX_FORMAT_VERSION, version))
      else
        var modelLen := FromLittleEndian(bytes[24..28]);
        if modelLen > MODEL_ID_CAPACITY then Err(Broken)
        else if !IsUtf8(bytes[28..28 + modelLen]) then Err(NotUtf8)
        else Ok(MatrixHeader(bytes[..8], version, FromLittleEndian(bytes[12..16]), FromLittleEndian64(bytes[16..24]),
          bytes[28..28 + modelLen]))
  }

  /** A header this version of the program writes. */
  predicate Current(h: MatrixHeader) {
    InWidth(h) && h.magic == MAGIC && h.formatVersion == MATRIX_FORMAT_VERSION
    && |h.modelId| <= MODEL_ID_CAPACITY && IsUtf8(h.modelId)
  }

  lemma HeaderFields(h: MatrixHeader, data: seq<Byte>)
    requires InWidth(h) && |h.modelId| <= MODEL_ID_CAPACITY
    ensures var bytes := HeaderBytes(h) + data;
      && bytes[..8] == h.magic && bytes[8..12] == ToLittleEndian(h.formatVersion) && bytes[12..16] == ToLittleEndian(h.dims)
      && bytes[16..24] == ToLittleEndian64(h.rows) && bytes[24..28] == ToLittleEndian(|h.modelId|)
      && bytes[28..28 + |h.modelId|] == h.modelId
  {
    hide ToLittleEndian, ToLittleEndian64;
  }

  /** Decoding inverts encoding, for every model id that fits its field. */
  lemma HeaderRoundTrip(h: MatrixHeader, data: seq<Byte>)
    requires Current(h)
    ensures DecodeHeader(HeaderBytes(h) + data) == Ok(h)
  {
    hide ToLittleEndian, ToLittleEndian64, FromLittleEndian, FromLittleEndian64, HeaderBytes, IsUtf8;
    HeaderFields(h, data);
    LengthRoundTrip(h.formatVersion);
    LengthRoundTrip(h.dims);
    LengthRoundTrip64(h.rows);
    LengthRoundTrip(|h.modelId|);
  }

  lemma Fields(bytes: seq<Byte>, n: nat)
    requires 28 + n <= |bytes|
    ensures bytes[..28 + n] == bytes[..8] + bytes[8..12] + bytes[12..16] + bytes[16..24] + bytes[24..28] + bytes[28..28 + n]
  {
  }

  /** Decoding accepts only headers this version writes, and what it accepts is encoded back to
      the same bytes, up to the padding behind the model id. */
  lemma HeaderRoundTripBack(bytes: seq<Byte>)
    requires DecodeHeader(bytes).Ok?
    ensures var h := DecodeHeader(bytes).value;
      Current(h) && HeaderBytes(h)[..28 + |h.modelId|] == bytes[..28 + |h.modelId|]
  {
    hide ToLittleEndian, ToLittleEndian64, FromLittleEndian, FromLittleEndian64, HeaderBytes, IsUtf8;
    var h := DecodeHeader(bytes).value;
    var n := |h.modelId|;
    LengthRoundTripBack(bytes[8..12]);
    LengthRoundTripBack(bytes[12..16]);
    LengthRoundTripBack64(bytes[16..24]);
    LengthRoundTripBack(bytes[24..28]);
    HeaderFields(h, []);
    assert HeaderBytes(h) + [] == HeaderBytes(h);
    Fields(HeaderBytes(h), n);
    Fields(bytes, n);
  }

  /** Writes `src` over a part of `dst`. */
  method CopyInto(dst: array<Byte>, at: nat, src: seq<Byte>)
    requires at + |src| <= dst.Length
    modifies dst
    ensures dst[..] == old(dst[..at]) + src + old(dst[at + |src|..])
  {
    forall i | 0 <= i < |src| {
      dst[at + i] := src[i];
    }
  }

  /** Writes the next field of a buffer that is zero from there on. */
  method Lay(buf: array<Byte>, laid: seq<Byte>, field: seq<Byte>)
    requires |laid| + |field| <= buf.Length && buf[..] == laid + Zeros(buf.Length - |laid|)
    modifies buf
    ensures buf[..] == laid + field + Zeros(buf.Length - |laid| - |field|)
  {
    CopyInto(buf, |laid|, field);
    assert old(buf[..|laid|]) == old(buf[..])[..|laid|] == laid;
    assert old(buf[|laid| + |field|..]) == old(buf[..])[|laid| + |field|..] == Zeros(buf.Length - |laid| - |field|);
  }

  /** The header on disk: magic, version, dimensions, rows, length of the model id, the model id
      and zeros up to 288 bytes, the numbers with the least significant byte first. */
  ghost predicate LaidOut(h: MatrixHeader, bytes: seq<Byte>) {
    && |bytes| == 288 && |h.modelId| <= 256
    && bytes[..8] == h.magic
    && Value(bytes[8..12]) == h.formatVersion
    && Value(bytes[12..16]) == h.dims
    && Value(bytes[16..24]) == h.rows
    && Value(bytes[24..28]) == |h.modelId|
    && bytes[28..28 + |h.modelId|] == h.modelId
    && forall i | 28 + |h.modelId| <= i < 288 :: bytes[i] == 0
  }

  lemma HeaderLaidOut(h: MatrixHeader)
    requires InWidth(h) && |h.modelId| <= MODEL_ID_CAPACITY
    ensures LaidOut(h, HeaderBytes(h))
  {
    hide ToLittleEndian, ToLittleEndian64, Value;
    HeaderFields(h, []);
    assert HeaderBytes(h) + [] == HeaderBytes(h);
    ToLittleEndianValue(h.formatVersion);
    ToLittleEndianValue(h.dims);
    ToLittleEndian64Value(h.rows);
    ToLittleEndianValue(|h.modelId|);
  }

  lemma AllLaid(h: MatrixHeader, laid: seq<Byte>)
    requires InWidth(h) && |h.modelId| <= MODEL_ID_CAPACITY
    requires laid == [] + h.magic + ToLittleEndian(h.formatVersion) + ToLittleEndian(h.dims) + ToLittleEndian64(h.rows) + ToLittleEndian(|h.modelId|)
    ensures |laid| == 28 && laid + h.modelId + Zeros(HEADER_SIZE - |laid| - |h.modelId|) == HeaderBytes(h)
  {
    hide ToLittleEndian, ToLittleEndian64;
  }

  method EncodeHeader(h: MatrixHeader) returns (r: Result<seq<Byte>, MatrixError>)
    requires InWidth(h)
    ensures r.Ok? <==> |h.modelId| <= MODEL_ID_CAPACITY
    ensures r.Ok? ==> r.value == HeaderBytes(h) && LaidOut(h, r.value)
    ensures r.Err? ==> r.error == ModelIdTooLong
  {
    hide ToLittleEndian, ToLittleEndian64, LaidOut, HeaderBytes, IsUtf8;
    if |h.modelId| > MODEL_ID_CAPACITY {
      return Err(ModelIdTooLong);
    }
    HeaderLaidOut(h);
    var buf := new Byte[HEADER_SIZE](_ => 0);
    assert buf[..] == [] + Zeros(HEADER_SIZE);
    Lay(buf, [], h.magic);
    var laid := [] + h.magic;
    Lay(buf, laid, ToLittleEndian(h.formatVersion));
    laid := laid + ToLittleEndian(h.formatVersion);
    Lay(buf, laid, ToLittleEndian(h.dims));
    laid := laid + ToLittleEndian(h.dims);
    Lay(buf, laid, ToLittleEndian64(h.rows));
    laid := laid + ToLittleEndian64(h.rows);
    Lay(buf, laid, ToLittleEndian(|h.modelId|));
    laid := laid + ToLittleEndian(|h.modelId|);
    Lay(buf, laid, h.modelId);
    AllLaid(h, laid);
    return Ok(buf[..]);
  }

  // ---------- fp16 values as bytes ----------

  function VectorBytes(v: Vector): (bytes: seq<Byte>)
    ensures |bytes| == 2 * |v|
  {
    seq(2 * |v|, i requires 0 <= i < 2 * |v| => if i % 2 == 0 then v[i / 2] % 0x100 else v[i / 2] / 0x100)
  }

  function HalvesOf(bytes: seq<Byte>): (v: Vector)
    ensures |v| == |bytes| / 2
  {
    seq(|bytes| / 2, i requires 0 <= i < |bytes| / 2 => bytes[2 * i] as int + 0x100 * bytes[2 * i + 1] as int)
  }

  lemma HalvesRoundTrip(v: Vector)
    ensures HalvesOf(VectorBytes(v)) == v
  {
  }

  lemma VectorBytesSlice(v: Vector, a: nat, b: nat)
    requires a <= b <= |v|
    ensures VectorBytes(v)[2 * a..2 * b] == VectorBytes(v[a..b])
  {
  }

  lemma VectorBytesConcat(a: Vector, b: Vector)
    ensures VectorBytes(a + b) == VectorBytes(a) + VectorBytes(b)
  {
  }

  /** Row `i` of the flat matrix. */
  lemma FlattenSlice(vectors: seq<Vector>, dims: nat, i: nat)
    requires AllWidth(vectors, dims) && i < |vectors|
    ensures 0 <= i * dims <= i * dims + dims <= |Flatten(vectors)|
    ensures Flatten(vectors)[i * dims..i * dims + dims] == vectors[i]
  {
    hide Flatten;
    var before, after := Flatten(vectors[..i]), Flatten(vectors[i + 1..]);
    FlattenLength(vectors[..i], dims);
    FlattenConcat(vectors[..i], vectors[i..]);
    FlattenCons(vectors[i], vectors[i + 1..]);
    assert vectors == vectors[..i] + vectors[i..];
    assert vectors[i..] == [vectors[i]] + vectors[i + 1..];
    assert Flatten(vectors) == before + (vectors[i] + after);
    assert |before| == i * dims && |vectors[i]| == dims;
  }

  // ---------- The matrix ----------

  function DataBytes(rows: nat, dims: nat): nat {
    rows * dims * 2
  }

  lemma DataBytesStep(rows: nat, capacity: nat, dims: nat)
    requires rows <= capacity
    ensures DataBytes(rows, dims) <= DataBytes(capacity, dims)
    ensures DataBytes(rows + 1, dims) == DataBytes(rows, dims) + 2 * dims
    ensures rows < capacity ==> DataBytes(rows + 1, dims) <= DataBytes(capacity, dims)
  {
    assert rows * dims <= capacity * dims;
    assert (rows + 1) * dims == rows * dims + dims;
    if rows < capacity {
      assert (rows + 1) * dims <= capacity * dims;
    }
  }

  /** A file whose header announces `|vectors|` rows and whose data begins with them. */
  ghost predicate HoldsRows(file: seq<Byte>, header: MatrixHeader, vectors: seq<Vector>) {
    && Current(header) && header.rows == |vectors| && AllWidth(vectors, header.dims)
    && HEADER_SIZE + DataBytes(header.rows, header.dims) <= |file|
    && file[..HEADER_SIZE] == HeaderBytes(header)
    && file[HEADER_SIZE..HEADER_SIZE + DataBytes(header.rows, header.dims)] == VectorBytes(Flatten(vectors))
  }

  /** Where a value of a row stands in the file: two bytes, the least significant first. */
  lemma ValueOnDisk(file: seq<Byte>, header: MatrixHeader, vectors: seq<Vector>, i: nat, d: nat)
    requires HoldsRows(file, header, vectors) && i < |vectors| && d < header.dims
    ensures var at := 288 + (i * header.dims + d) * 2;
      0 <= at && at + 2 <= |file| && Value(file[at..at + 2]) == vectors[i][d]
  {
    hide HeaderBytes, Flatten, IsUtf8, Current;
    var flat := Flatten(vectors);
    FlattenSlice(vectors, header.dims, i);
    FlattenLength(vectors, header.dims);
    var k := i * header.dims + d;
    assert flat[k] == flat[i * header.dims..i * header.dims + header.dims][d] == vectors[i][d];
    var data := file[HEADER_SIZE..HEADER_SIZE + DataBytes(header.rows, header.dims)];
    assert data[2 * k] == VectorBytes(flat)[2 * k] && data[2 * k + 1] == VectorBytes(flat)[2 * k + 1];
    var at := 288 + k * 2;
    assert file[at] == data[2 * k] && file[at + 1] == data[2 * k + 1];
    assert file[at..at + 2] == [file[at], file[at + 1]];
    assert [file[at], file[at + 1]][1..] == [file[at + 1]] && [file[at + 1]][1..] == [];
    assert Value([file[at + 1]]) == file[at + 1] as int;
  }

  lemma Quotient(n: nat, d: nat)
    requires d > 0
    ensures 0 <= n / d && n / d * d <= n < n / d * d + d
  {
  }

  function CapacityOf(length: nat, dims: nat): nat {
    if dims == 0 || length < HEADER_SIZE then 0
    else
      Quotient(length - HEADER_SIZE, dims * 2);
      (length - HEADER_SIZE) / (dims * 2)
  }

  lemma QuotientBound(n: nat, d: nat, r: nat)
    requires d > 0 && r * d <= n
    ensures r <= n / d
  {
    Quotient(n, d);
    var q := n / d;
    assert (r - (q + 1)) * d == r * d - q * d - d < 0;
  }

  lemma CapacityFits(length: nat, dims: nat, rows: nat)
    requires length >= HEADER_SIZE
    ensures HEADER_SIZE + DataBytes(CapacityOf(length, dims), dims) <= length
    ensures dims > 0 && HEADER_SIZE + DataBytes(rows, dims) <= length ==> rows <= CapacityOf(length, dims)
  {
    if dims > 0 {
      var d := dims * 2;
      var c := (length - HEADER_SIZE) / d;
      Quotient(length - HEADER_SIZE, d);
      assert c * dims * 2 == c * d;
      if HEADER_SIZE + DataBytes(rows, dims) <= length {
        assert rows * dims * 2 == rows * d;
        QuotientBound(length - HEADER_SIZE, d, rows);
      }
    }
  }

  lemma DecodedLength(file: seq<Byte>)
    requires DecodeHeader(file).Ok?
    ensures |file| >= HEADER_SIZE
  {
  }

  lemma ZeroRows(rows: nat, dims: nat)
    ensures dims == 0 ==> DataBytes(rows, dims) == 0
  {
  }

  /** After growing there is room for one more row, even in a matrix without dimensions. */
  lemma GrownFits(rows: nat, capacity: nat, dims: nat)
    requires dims > 0 ==> rows <= capacity
    ensures DataBytes(rows + 1, dims) <= DataBytes(capacity + GROW_BLOCK_ROWS, dims)
  {
    if dims > 0 {
      assert (rows + 1) * dims <= (capacity + GROW_BLOCK_ROWS) * dims;
    }
  }

  lemma GrownHolds(before: seq<Byte>, after: seq<Byte>, header: MatrixHeader, vectors: seq<Vector>)
    requires HoldsRows(before, header, vectors)
    requires HEADER_SIZE + DataBytes(header.rows, header.dims) <= |after|
    requires forall i | 0 <= i < |after| && i < |before| :: after[i] == before[i]
    ensures HoldsRows(after, header, vectors)
  {
    hide HeaderBytes, IsUtf8, VectorBytes, Flatten, DataBytes;
    var end := HEADER_SIZE + DataBytes(header.rows, header.dims);
    assert after[..HEADER_SIZE] == before[..HEADER_SIZE];
    assert after[HEADER_SIZE..end] == before[HEADER_SIZE..end];
  }

  lemma Replaced(head: seq<Byte>, w: seq<Byte>, i: nat, j: nat)
    requires |head| <= i <= j <= |w|
    ensures (head + w[|head|..])[i..j] == w[i..j]
  {
    var after := head + w[|head|..];
    assert forall k | i <= k < j :: after[k] == w[k];
  }

  lemma Inserted(before: seq<Byte>, field: seq<Byte>, at: nat, i: nat)
    requires i <= at && at + |field| <= |before|
    ensures var w := before[..at] + field + before[at + |field|..];
      w[i..at] == before[i..at] && w[at..at + |field|] == field
  {
  }

  lemma FlattenSnoc(vectors: seq<Vector>, vector: Vector)
    ensures Flatten(vectors + [vector]) == Flatten(vectors) + vector
  {
    assert (vectors + [vector])[..|vectors|] == vectors;
  }

  /** The new row's bytes, then the new header. */
  lemma CutHolds(file: seq<Byte>, header: MatrixHeader, vectors: seq<Vector>)
    requires HoldsRows(file, header, vectors)
    ensures HoldsRows(file[..HEADER_SIZE + DataBytes(header.rows, header.dims)], header, vectors)
  {
    hide HeaderBytes, IsUtf8, VectorBytes, Flatten, DataBytes, AllWidth;
    var used := HEADER_SIZE + DataBytes(header.rows, header.dims);
    assert file[..used][..HEADER_SIZE] == file[..HEADER_SIZE];
    assert file[..used][HEADER_SIZE..used] == file[HEADER_SIZE..used];
  }

  lemma AppendHolds(before: seq<Byte>, written: seq<Byte>, after: seq<Byte>, header: MatrixHeader,
                    vectors: seq<Vector>, vector: Vector)
    requires HoldsRows(before, header, vectors) && |vector| == header.dims && header.rows + 1 < U64_LIMIT
    requires var at := HEADER_SIZE + DataBytes(header.rows, header.dims);
      at + 2 * header.dims <= |before| && written == before[..at] + VectorBytes(vector) + before[at + 2 * header.dims..]
    requires after == HeaderBytes(header.(rows := header.rows + 1)) + written[HEADER_SIZE..]
    ensures HoldsRows(after, header.(rows := header.rows + 1), vectors + [vector])
  {
    hide HeaderBytes, IsUtf8, VectorBytes, Flatten, DataBytes;
    var at := HEADER_SIZE + DataBytes(header.rows, header.dims);
    DataBytesStep(header.rows, header.rows, header.dims);
    FlattenSnoc(vectors, vector);
    VectorBytesConcat(Flatten(vectors), vector);
    var head := HeaderBytes(header.(rows := header.rows + 1));
    Replaced(head, written, HEADER_SIZE, at);
    Replaced(head, written, at, at + 2 * header.dims);
    Inserted(before, VectorBytes(vector), at, HEADER_SIZE);
    assert after[HEADER_SIZE..at + 2 * header.dims] == after[HEADER_SIZE..at] + after[at..at + 2 * header.dims];
  }

  lemma SubSlice(file: seq<Byte>, start: nat, length: nat, i: nat, j: nat)
    requires i <= j <= length && start + length <= |file|
    ensures file[start..start + length][i..j] == file[start + i..start + j]
  {
    var part := file[start..start + length];
    assert |part[i..j]| == |file[start + i..start + j]|;
    assert forall k | 0 <= k < j - i :: part[i..j][k] == part[i + k] == file[start + i + k] == file[start + i..start + j][k];
  }

  lemma RowBytes(file: seq<Byte>, header: MatrixHeader, vectors: seq<Vector>, row: RowId)
    requires HoldsRows(file, header, vectors) && row < |vectors|
    ensures var offset := HEADER_SIZE + DataBytes(row, header.dims);
      offset + 2 * header.dims <= |file| && HalvesOf(file[offset..offset + 2 * header.dims]) == vectors[row]
  {
    hide HeaderBytes, IsUtf8, VectorBytes, Flatten, HalvesOf;
    var dims := header.dims;
    var flat := Flatten(vectors);
    DataBytesStep(row, header.rows, dims);
    FlattenSlice(vectors, dims, row);
    FlattenLength(vectors, dims);
    VectorBytesSlice(flat, row * dims, row * dims + dims);
    HalvesRoundTrip(vectors[row]);
    var offset := HEADER_SIZE + DataBytes(row, dims);
    var data := file[HEADER_SIZE..HEADER_SIZE + DataBytes(header.rows, dims)];
    SubSlice(file, HEADER_SIZE, DataBytes(header.rows, dims), 2 * (row * dims), 2 * (row * dims + dims));
  }

  class EmbeddingMatrix {
    var header: MatrixHeader
    var capacityRows: nat
    var bytes: array<Byte>
    var writable: bool

    /** The mapped bytes hold exactly these rows, and the capacity lies inside the map. */
    ghost predicate Stores(vectors: seq<Vector>)
      reads this, bytes
    {
      && HoldsRows(bytes[..], header, vectors)
      && HEADER_SIZE + DataBytes(capacityRows, header.dims) <= bytes.Length
      && (header.dims > 0 ==> header.rows <= capacityRows)
    }

    constructor Mapped(header: MatrixHeader, capacityRows: nat, bytes: array<Byte>, writable: bool)
      ensures this.header == header && this.capacityRows == capacityRows && this.bytes == bytes && this.writable == writable
    {
      this.header, this.capacityRows, this.bytes, this.writable := header, capacityRows, bytes, writable;
    }

    static method Create(dims: nat, modelId: seq<Byte>) returns (r: Result<EmbeddingMatrix, MatrixError>)
      requires dims < U32_LIMIT && |modelId| < U32_LIMIT && IsUtf8(modelId)
      ensures r.Ok? <==> |modelId| <= MODEL_ID_CAPACITY
      ensures r.Ok? ==> fresh(r.value) && fresh(r.value.bytes) && r.value.Stores([]) && r.value.writable
      ensures r.Ok? ==> r.value.header == MatrixHeader(MAGIC, MATRIX_FORMAT_VERSION, dims, 0, modelId)
    {
      hide HeaderBytes, IsUtf8;
      var header := MatrixHeader(MAGIC, MATRIX_FORMAT_VERSION, dims, 0, modelId);
      var encoded := EncodeHeader(header);
      if encoded.Err? {
        return Err(encoded.error);
      }
      var bytes := new Byte[HEADER_SIZE + DataBytes(GROW_BLOCK_ROWS, dims)](_ => 0);
      CopyInto(bytes, 0, encoded.value);
      assert bytes[HEADER_SIZE..HEADER_SIZE] == VectorBytes(Flatten([]));
      var matrix := new EmbeddingMatrix.Mapped(header, GROW_BLOCK_ROWS, bytes, true);
      return Ok(matrix);
    }

    /** Maps a file; only its header is looked at. */
    static method Open(file: seq<Byte>, writable: bool) returns (r: Result<EmbeddingMatrix, MatrixError>)
      ensures r.Ok? <==> DecodeHeader(file).Ok?
      ensures r.Err? ==> r.error == DecodeHeader(file).error
      ensures r.Ok? ==> fresh(r.value) && fresh(r.value.bytes) && r.value.bytes[..] == file
      ensures r.Ok? ==> r.value.header == DecodeHeader(file).value && r.value.writable == writable
      ensures forall header, vectors | HoldsRows(file, header, vectors) :: r.Ok? && r.value.header == header && r.value.Stores(vectors)
    {
      hide HeaderBytes, IsUtf8, DecodeHeader;
      forall header, vectors | HoldsRows(file, header, vectors)
        ensures DecodeHeader(file) == Ok(header)
      {
        HeaderRoundTrip(header, file[HEADER_SIZE..]);
        assert file == HeaderBytes(header) + file[HEADER_SIZE..];
      }
      var decoded := DecodeHeader(file);
      if decoded.Err? {
        return Err(decoded.error);
      }
      DecodedLength(file);
      var header := decoded.value;
      var bytes := new Byte[|file|](i requires 0 <= i < |file| => file[i]);
      assert bytes[..] == file;
      CapacityFits(|file|, header.dims, header.rows);
      var matrix := new EmbeddingMatrix.Mapped(header, CapacityOf(|file|, header.dims), bytes, writable);
      return Ok(matrix);
    }

    /** Maps the file again with room for another block of rows; the bytes that were there stay. */
    method Grow()
      modifies this`bytes, this`capacityRows, this`writable
      ensures fresh(bytes) && writable
      ensures capacityRows == old(capacityRows) + GROW_BLOCK_ROWS
      ensures bytes.Length == HEADER_SIZE + DataBytes(capacityRows, header.dims)
      ensures forall i | 0 <= i < bytes.Length && i < old(bytes.Length) :: bytes[i] == old(bytes[i])
    {
      var newCapacity := capacityRows + GROW_BLOCK_ROWS;
      var before := bytes;
      bytes := new Byte[HEADER_SIZE + DataBytes(newCapacity, header.dims)](i reads before => if 0 <= i < before.Length then before[i] else 0);
      capacityRows := newCapacity;
      writable := true;
    }

    /** Grows a full matrix; otherwise there is room already. */
    method MakeRoom(ghost vectors: seq<Vector>)
      requires Stores(vectors)
      modifies this`bytes, this`capacityRows, this`writable
      ensures Stores(vectors) && HEADER_SIZE + DataBytes(header.rows + 1, header.dims) <= bytes.Length
      ensures header.dims > 0 ==> header.rows < capacityRows
      ensures writable <==> old(writable) || old(header.rows >= capacityRows)
      ensures if old(header.rows >= capacityRows) then fresh(bytes) else bytes == old(bytes) && bytes[..] == old(bytes[..])
    {
      hide HeaderBytes, IsUtf8, VectorBytes, Flatten, DataBytes;
      var dims := header.dims;
      ghost var file := bytes[..];
      if header.rows >= capacityRows {
        DataBytesStep(header.rows, header.rows, dims);
        DataBytesStep(header.rows, header.rows + GROW_BLOCK_ROWS, dims);
        ZeroRows(header.rows, dims);
        GrownFits(header.rows, capacityRows, dims);
        Grow();
        GrownHolds(file, bytes[..], header, vectors);
      } else {
        DataBytesStep(header.rows, capacityRows, dims);
      }
    }

    method WriteHeader()
      requires Current(header) && bytes.Length >= HEADER_SIZE && writable
      modifies bytes
      ensures bytes[..] == HeaderBytes(header) + old(bytes[HEADER_SIZE..])
    {
      hide HeaderBytes, IsUtf8, LaidOut;
      var encoded := EncodeHeader(header);
      CopyInto(bytes, 0, encoded.value);
      assert old(bytes[..0]) == [];
    }

    /** Writes a row where there is room for it, and then the header that counts it. */
    method StoreRow(vector: Vector, ghost vectors: seq<Vector>)
      requires Stores(vectors) && header.rows + 1 < U64_LIMIT && |vector| == header.dims && writable
      requires HEADER_SIZE + DataBytes(header.rows + 1, header.dims) <= bytes.Length
      requires header.dims > 0 ==> header.rows < capacityRows
      modifies this`header, bytes
      ensures Stores(vectors + [vector]) && header == old(header).(rows := old(header.rows) + 1)
    {
      hide HeaderBytes, IsUtf8, VectorBytes, Flatten, DataBytes, AllWidth;
      ghost var before := bytes[..];
      var row := header.rows;
      DataBytesStep(row, row, header.dims);
      var offset := HEADER_SIZE + DataBytes(row, header.dims);
      CopyInto(bytes, offset, VectorBytes(vector));
      ghost var written := bytes[..];
      header := header.(rows := row + 1);
      WriteHeader();
      AppendHolds(before, written, bytes[..], header.(rows := row), vectors, vector);
    }

    method Append(vector: Vector, ghost vectors: seq<Vector>) returns (r: Result<RowId, MatrixError>)
      requires Stores(vectors) && header.rows + 1 < U64_LIMIT
      modifies this, bytes
      ensures bytes == old(bytes) || fresh(bytes)
      ensures r.Ok? <==> |vector| == header.dims && (old(writable) || old(header.rows >= capacityRows))
      ensures r.Ok? ==> r.value == |vectors| && Stores(vectors + [vector]) && writable
      ensures r.Err? ==> Stores(vectors) && bytes == old(bytes) && bytes[..] == old(bytes[..]) && writable == old(writable)
      ensures header.(rows := 0) == old(header).(rows := 0)
    {
      hide HeaderBytes, IsUtf8, VectorBytes, Flatten, DataBytes, AllWidth;
      var dims := header.dims;
      if |vector| != dims {
        return Err(MatrixError.DimensionMismatch(dims, |vector|));
      }
      MakeRoom(vectors);
      DataBytesStep(header.rows, header.rows, dims);
      if !writable {
        return Err(ReadOnly);
      }
      var row := header.rows;
      StoreRow(vector, vectors);
      return Ok(row);
    }

    method Row(row: RowId, ghost vectors: seq<Vector>) returns (r: Result<Vector, MatrixError>)
      requires Stores(vectors)
      ensures r.Ok? <==> row < |vectors|
      ensures r.Ok? ==> r.value == vectors[row]
    {
      hide HeaderBytes, IsUtf8, VectorBytes, Flatten, HalvesOf, DataBytes;
      if row >= header.rows {
        return Err(RowOutOfRange(row, header.rows));
      }
      var dims := header.dims;
      DataBytesStep(row, header.rows, dims);
      var offset := HEADER_SIZE + DataBytes(row, dims);
      RowBytes(bytes[..], header, vectors, row);
      return Ok(HalvesOf(bytes[offset..offset + 2 * dims]));
    }

    method AsSlice(ghost vectors: seq<Vector>) returns (slice: Vector)
      requires Stores(vectors)
      ensures slice == Flatten(vectors)
    {
      hide HeaderBytes, IsUtf8, VectorBytes, Flatten, HalvesOf;
      var n := header.rows * header.dims;
      FlattenLength(vectors, header.dims);
      HalvesRoundTrip(Flatten(vectors));
      if n == 0 {
        return [];
      }
      return HalvesOf(bytes[HEADER_SIZE..HEADER_SIZE + n * 2]);
    }

    /** A fresh file with exactly these rows and no spare capacity. */
    static method CreateCompacted(dims: nat, modelId: seq<Byte>, vectors: seq<Vector>) returns (r: Result<EmbeddingMatrix, MatrixError>)
      requires dims < U32_LIMIT && |modelId| < U32_LIMIT && IsUtf8(modelId) && |vectors| + 1 < U64_LIMIT
      ensures r.Ok? <==> |modelId| <= MODEL_ID_CAPACITY && AllWidth(vectors, dims)
      ensures r.Ok? ==> r.value.Stores(vectors) && r.value.bytes.Length == HEADER_SIZE + DataBytes(|vectors|, dims)
      ensures r.Ok? ==> r.value.header == MatrixHeader(MAGIC, MATRIX_FORMAT_VERSION, dims, |vectors|, modelId)
    {
      hide HeaderBytes, IsUtf8, VectorBytes, Flatten, DataBytes;
      var created := EmbeddingMatrix.Create(dims, modelId);
      if created.Err? {
        return created;
      }
      var matrix := created.value;
      for i := 0 to |vectors|
        invariant fresh(matrix) && fresh(matrix.bytes) && matrix.writable
        invariant matrix.Stores(vectors[..i])
        invariant matrix.header == MatrixHeader(MAGIC, MATRIX_FORMAT_VERSION, dims, i, modelId)
      {
        assert vectors[..i + 1] == vectors[..i] + [vectors[i]];
        var appended := matrix.Append(vectors[i], vectors[..i]);
        if appended.Err? {
          return Err(appended.error);
        }
      }
      assert vectors[..|vectors|] == vectors;
      var used := HEADER_SIZE + DataBytes(matrix.header.rows, dims);
      var before := matrix.bytes;
      var cut := new Byte[used](i requires 0 <= i < used && used <= before.Length reads before => before[i]);
      assert cut[..] == before[..][..used];
      CutHolds(before[..], matrix.header, vectors);
      matrix.bytes := cut;
      matrix.capacityRows := matrix.header.rows;
      return Ok(matrix);
    }
  }

  lemma RowsCounted(file: seq<Byte>, header: MatrixHeader, vectors: seq<Vector>)
    requires HoldsRows(file, header, vectors)
    ensures header.rows == |vectors|
  {
  }

  /** Any run of appends, with growth and reopening wherever they fall: every row read back is
      the vector appended, bit for bit, and the flat slice is their concatenation. */
  method AppendAll(matrix: EmbeddingMatrix, vectors: seq<Vector>, reopenBefore: seq<bool>, ghost held: seq<Vector>) returns (m: EmbeddingMatrix)
    requires matrix.Stores(held) && matrix.writable && |reopenBefore| == |vectors|
    requires AllWidth(vectors, matrix.header.dims) && matrix.header.rows + |vectors| + 1 < U64_LIMIT
    modifies matrix, matrix.bytes
    ensures m.Stores(held + vectors)
  {
    hide HeaderBytes, IsUtf8, VectorBytes, Flatten, DataBytes, HoldsRows;
    m := matrix;
    assert held + vectors[..0] == held;
    for i := 0 to |vectors|
      invariant m.Stores(held + vectors[..i]) && m.writable
      invariant m == matrix || fresh(m)
      invariant m.bytes == old(matrix.bytes) || fresh(m.bytes)
      invariant m.header.dims == old(matrix.header.dims) && m.header.rows == old(matrix.header.rows) + i
    {
      ghost var sofar := held + vectors[..i];
      assert sofar + [vectors[i]] == held + vectors[..i + 1];
      if reopenBefore[i] {
        assert HoldsRows(m.bytes[..], m.header, sofar);
        var mapped := EmbeddingMatrix.Open(m.bytes[..], true);
        m := mapped.value;
      }
      RowsCounted(m.bytes[..], m.header, sofar);
      var appended := m.Append(vectors[i], sofar);
      RowsCounted(m.bytes[..], m.header, sofar + [vectors[i]]);
    }
    assert vectors[..|vectors|] == vectors;
  }
}
