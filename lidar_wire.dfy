/** The messages of the chunked point-cloud path, as the msgpack codec
    delivers them, and the byte layout of point rows. */
module LidarWire {
  import opened WireBytes

  /** One float32 element as its 32-bit pattern. */
  type Word = n: nat | n < 0x1_0000_0000

  /** One point: 3 (XYZ) or 4 (XYZI) elements. */
  type Row = seq<Word>

  /** A JSON document, carried opaquely. */
  type JsonValue = string

  /** `tobytes()` of one element, in the host's little-endian order: the
      producer sends float32 arrays, 4 bytes per element (written as a
      literal throughout, so that the solver sees linear arithmetic). */
  function WordBytes(w: Word): (r: seq<Byte>)
    ensures |r| == 4
  {
    Pow256Widths();
    EncodeLE(w, 4)
  }

  /** `tobytes()` of one row. */
  function RowBytes(row: Row): (r: seq<Byte>)
    ensures |r| == 4 * |row|
  {
    if row == [] then [] else WordBytes(row[0]) + RowBytes(row[1..])
  }

  /** `tobytes()` of a block of rows, row after row. */
  function RowsBytes(rows: seq<Row>): seq<Byte>
  {
    if rows == [] then [] else RowsBytes(rows[..|rows| - 1]) + RowBytes(rows[|rows| - 1])
  }

  /** Serialising two consecutive blocks is serialising their concatenation. */
  lemma {:induction false} RowsBytesAppend(a: seq<Row>, b: seq<Row>)
    ensures RowsBytes(a + b) == RowsBytes(a) + RowsBytes(b)
    decreases |b|
  {
    if b != [] {
      var init := b[..|b| - 1];
      assert (a + b)[..|a + b| - 1] == a + init;
      RowsBytesAppend(a, init);
    } else {
      assert a + b == a;
    }
  }

  /** A block of rows all of width w serialises to w * 4 bytes per row. */
  lemma {:induction false} RowsBytesLength(rows: seq<Row>, w: nat)
    requires forall i :: 0 <= i < |rows| ==> |rows[i]| == w
    ensures |RowsBytes(rows)| == |rows| * (4 * w)
  {
    if rows != [] {
      var n := |rows| - 1;
      var init, last := rows[..n], rows[n];
      assert forall i :: 0 <= i < |init| ==> |init[i]| == w by {
        forall i | 0 <= i < |init| ensures |init[i]| == w {
          assert init[i] == rows[i];
        }
      }
      RowsBytesLength(init, w);
      assert |RowsBytes(rows)| == |RowsBytes(init)| + |RowBytes(last)|;
      assert (n + 1) * (4 * w) == n * (4 * w) + 4 * w;
    }
  }

  /** The byte image of rows of an XYZ or XYZI array splits into whole
      rows. */
  lemma RowsAligned(rows: seq<Row>, w: nat)
    requires w == 3 || w == 4
    requires forall i :: 0 <= i < |rows| ==> |rows[i]| == w
    ensures |RowsBytes(rows)| % (4 * w) == 0
  {
    RowsBytesLength(rows, w);
    if w == 3 {
      assert (|rows| * 12) % 12 == 0;
    } else {
      assert (|rows| * 16) % 16 == 0;
    }
  }

  /** The `frag_info` of a point-cloud chunk; `shape` is (rows, width). */
  datatype FragInfo = FragInfo(totalChunks: int, chunkIndex: int, dtype: string, rows: int, width: int)

  /** A data message: `frag` is None on the JSON path; a field the message
      lacks reads as None (or as no bytes for `pcd_chunk_bytes`). */
  datatype DataMessage = DataMessage(
    frameId: Option<int>,
    timestamp: real,
    sourceFile: string,
    frag: Option<FragInfo>,
    jsonData: Option<JsonValue>,
    pcdChunkBytes: seq<Byte>,
    marker: bool)

  /** What the receiver makes of one datagram. */
  datatype Received = Undecodable | Decoded(msg: DataMessage)

  /** What the producer makes of one acknowledgment on the ack channel. */
  datatype AckMessage = AckUndecodable | Ack(ackFrameId: Option<int>)
}
