/**
 * The realtime diff stream (realtime/realtime.go): the 3-byte edit decoder,
 * the classification of one websocket frame, and the read loop that applies
 * every edit frame to the canvas until the server asks for a resync.
 *
 * Bytes are integers in [0, 256). On such non-negative values the Go
 * operators used by the decoder are exact integer operations:
 * `v & (2^k - 1)` is `v % 2^k`, `v << k` is `v * 2^k`, `v >> k` is `v / 2^k`,
 * and `|` is Canvas.BitOr.
 */
module Realtime {
  import opened Art
  import opened Canvas

  type Byte = b: int | 0 <= b < 256

  /** One pixel patch carried by an edit frame. */
  datatype Edit = Edit(x: int, y: int, color: int)

  /** What the 10 + 10 + 4 bits of a 3-byte group can express. */
  predicate InWireRange(e: Edit) {
    0 <= e.x < 1024 && 0 <= e.y < 1024 && 0 <= e.color < 16
  }

  /**
   * decodeEdit: x = b0 | (b1 & 0x3) << 8, y = b1 >> 2 | (b2 & 0xF) << 6,
   * color = b2 >> 4.
   */
  function DecodeEdit(data: seq<Byte>): (e: Edit)
    requires |data| == 3
    ensures InWireRange(e)
    ensures e.x == data[0] as int + 256 * (data[1] as int % 4)
    ensures e.y == data[1] as int / 4 + 64 * (data[2] as int % 16)
    ensures e.color == data[2] as int / 16
  {
    var xx: int, yx: int, cy: int := data[0], data[1], data[2];
    DisjointOr(xx, yx % 4, 8);
    DisjointOr(yx / 4, cy % 16, 6);
    var x := BitOr(xx, (yx % 4) * 256);
    var y := BitOr(yx / 4, (cy % 16) * 64);
    var color := cy / 16;
    Edit(x, y, color)
  }

  /** Canvas.OrDisjoint, specialised to the shifts the wire format uses. */
  lemma DisjointOr(low: int, high: int, k: nat)
    requires k == 2 || k == 4 || k == 6 || k == 8
    requires 0 <= low < Pow2(k)
    ensures BitOr(low, high * Pow2(k)) == low + high * Pow2(k)
    ensures Pow2(2) == 4 && Pow2(4) == 16 && Pow2(6) == 64 && Pow2(8) == 256
  {
    assert Pow2(2) == 4 && Pow2(4) == 16 && Pow2(6) == 64 && Pow2(8) == 256 by {
      assert Pow2(1) == 2 && Pow2(3) == 8 && Pow2(5) == 32 && Pow2(7) == 128;
    }
    OrDisjoint(low, high, k);
  }

  /** The field arithmetic behind EncodeEdit: splitting x and y and joining them back. */
  lemma SplitJoin(x: int, y: int, c: int)
    requires 0 <= x < 1024 && 0 <= y < 1024 && 0 <= c < 16
    ensures 0 <= x / 256 + 4 * (y % 64) < 256 && 0 <= y / 64 + 16 * c < 256
    ensures x % 256 + 256 * ((x / 256 + 4 * (y % 64)) % 4) == x
    ensures (x / 256 + 4 * (y % 64)) / 4 + 64 * ((y / 64 + 16 * c) % 16) == y
    ensures (y / 64 + 16 * c) / 16 == c
  {
    var b1, b2 := x / 256 + 4 * (y % 64), y / 64 + 16 * c;
    assert b1 % 4 == x / 256 && b1 / 4 == y % 64;
    assert b2 % 16 == y / 64 && b2 / 16 == c;
  }

  /**
   * The inverse of DecodeEdit: pack an edit into its 3-byte group,
   * b0 = x & 0xFF, b1 = (x >> 8) | (y & 0x3F) << 2, b2 = (y >> 6) | color << 4.
   */
  function EncodeEdit(e: Edit): (data: seq<Byte>)
    requires InWireRange(e)
    ensures |data| == 3 && DecodeEdit(data) == e
  {
    DisjointOr(e.x / 256, e.y % 64, 2);
    DisjointOr(e.y / 64, e.color, 4);
    SplitJoin(e.x, e.y, e.color);
    [e.x % 256, BitOr(e.x / 256, (e.y % 64) * 4), BitOr(e.y / 64, e.color * 16)]
  }

  /** The field arithmetic behind EncodeDecode: the fields of a decoded group give back its bytes. */
  lemma JoinSplit(b0: int, b1: int, b2: int)
    requires 0 <= b0 < 256 && 0 <= b1 < 256 && 0 <= b2 < 256
    ensures (b0 + 256 * (b1 % 4)) % 256 == b0
    ensures (b0 + 256 * (b1 % 4)) / 256 == b1 % 4
    ensures (b1 / 4 + 64 * (b2 % 16)) % 64 == b1 / 4
    ensures (b1 / 4 + 64 * (b2 % 16)) / 64 == b2 % 16
    ensures b1 % 4 + 4 * (b1 / 4) == b1 && b2 % 16 + 16 * (b2 / 16) == b2
  {
  }

  /** Every 3-byte group is the encoding of its decoding, so DecodeEdit is a bijection onto InWireRange. */
  lemma EncodeDecode(data: seq<Byte>)
    requires |data| == 3
    ensures EncodeEdit(DecodeEdit(data)) == data
  {
    var b0: int, b1: int, b2: int := data[0], data[1], data[2];
    var e := DecodeEdit(data);
    JoinSplit(b0, b1, b2);
    var xh, yl := e.x / 256, e.y % 64;
    var yh, c := e.y / 64, e.color;
    assert e.x % 256 == b0;
    assert xh == b1 % 4 && yl == b1 / 4;
    assert yh == b2 % 16 && c == b2 / 16;
    DisjointOr(xh, yl, 2);
    DisjointOr(yh, c, 4);
    assert BitOr(xh, yl * 4) == b1;
    assert BitOr(yh, c * 16) == b2;
    assert EncodeEdit(e) == [e.x % 256, BitOr(xh, yl * 4), BitOr(yh, c * 16)];
  }

  /** A worked example: the group 01 04 32 is the edit (1, 129) to colour 3 (Black). */
  lemma DecodeExample()
    ensures DecodeEdit([0x01, 0x04, 0x32]) == Edit(1, 129, Black)
  {
  }

  /** The two text frames that make the server's stream end: "reload" and "refresh". */
  const Reload: seq<Byte> := [0x72, 0x65, 0x6C, 0x6F, 0x61, 0x64]
  const Refresh: seq<Byte> := [0x72, 0x65, 0x66, 0x72, 0x65, 0x73, 0x68]

  predicate IsCommand(message: seq<Byte>) {
    message == Reload || message == Refresh
  }

  /** binary.LittleEndian.Uint32: the unsigned 32-bit value of four bytes, lowest first. */
  function LittleEndianU32(b: seq<Byte>): (v: int)
    requires |b| == 4
    ensures 0 <= v < 0x1_0000_0000
    ensures v % 256 == b[0] && v / 0x100 % 0x100 == b[1]
    ensures v / 0x1_0000 % 0x100 == b[2] && v / 0x100_0000 == b[3]
  {
    var low, high: int := b[0] as int + 0x100 * b[1] as int + 0x1_0000 * b[2] as int, b[3];
    assert 0 <= low < 0x100_0000;
    assert low % 256 == b[0] by {
      assert low == b[0] + 256 * (b[1] as int + 256 * b[2] as int);
    }
    assert (low + 0x100_0000 * high) % 256 == low % 256 by {
      assert low + 0x100_0000 * high == low + 256 * (0x1_0000 * high);
    }
    assert (low + 0x100_0000 * high) / 0x100 == b[1] as int + 0x100 * (b[2] as int + 0x100 * high);
    assert (low + 0x100_0000 * high) / 0x1_0000 == b[2] as int + 0x100 * high;
    low + 0x100_0000 * high
  }

  /** The four bytes, lowest first, of an unsigned 32-bit value: the inverse of LittleEndianU32. */
  function U32Bytes(v: int): (b: seq<Byte>)
    requires 0 <= v < 0x1_0000_0000
    ensures |b| == 4
  {
    [v % 0x100, v / 0x100 % 0x100, v / 0x1_0000 % 0x100, v / 0x100_0000]
  }

  /** Decoding four bytes and encoding the value again gives the same bytes, and the reverse. */
  lemma LittleEndianRoundTrip(b: seq<Byte>, v: int)
    requires |b| == 4 && 0 <= v < 0x1_0000_0000
    ensures U32Bytes(LittleEndianU32(b)) == b
    ensures LittleEndianU32(U32Bytes(v)) == v
  {
    var w := LittleEndianU32(b);
    assert U32Bytes(w) == [b[0], b[1], b[2], b[3]];
    var c := U32Bytes(v);
    var q1, q2 := v / 0x100, v / 0x1_0000;
    assert v == c[0] + 0x100 * q1;
    assert q1 == c[1] + 0x100 * q2;
    assert q2 == c[2] as int + 0x100 * c[3] as int;
  }

  /** How the read loop treats one frame. */
  datatype Frame =
    | ReloadCommand
    | RefreshCommand
    | TooShort
    | Edits(version: int, edits: seq<Edit>)

  /** The edits of the complete 3-byte groups from offset i on; a 1- or 2-byte tail yields none. */
  function EditsFrom(message: seq<Byte>, i: nat): seq<Edit>
    decreases |message| - i
  {
    if i + 3 <= |message| then [DecodeEdit(message[i..i + 3])] + EditsFrom(message, i + 3) else []
  }

  lemma {:induction false} EditsFromShape(message: seq<Byte>, i: nat)
    ensures i <= |message| ==> |EditsFrom(message, i)| == (|message| - i) / 3
    ensures forall k :: 0 <= k < |EditsFrom(message, i)| ==>
      i + 3 * k + 3 <= |message| &&
      EditsFrom(message, i)[k] == DecodeEdit(message[i + 3 * k .. i + 3 * k + 3])
    decreases |message| - i
  {
    if i + 3 <= |message| {
      EditsFromShape(message, i + 3);
      var es := EditsFrom(message, i);
      forall k | 0 <= k < |es|
        ensures i + 3 * k + 3 <= |message| && es[k] == DecodeEdit(message[i + 3 * k .. i + 3 * k + 3])
      {
        if k > 0 {
          assert es[k] == EditsFrom(message, i + 3)[k - 1];
          assert i + 3 + 3 * (k - 1) == i + 3 * k;
        }
      }
    }
  }

  /**
   * The body of the read loop, as a classification: the two commands are
   * recognised before the length check, so the 7-byte "refresh" is never
   * decoded; anything else under 7 bytes is dropped; a longer frame is a
   * little-endian version followed by floor((n - 4) / 3) edits in offset order.
   */
  function ClassifyFrame(message: seq<Byte>): (f: Frame)
    ensures f.ReloadCommand? <==> message == Reload
    ensures f.RefreshCommand? <==> message == Refresh
    ensures f.TooShort? <==> |message| < 7 && message != Reload
    ensures f.Edits? <==> |message| >= 7 && message != Refresh
    ensures f.Edits? ==> f.version == LittleEndianU32(message[..4])
    ensures f.Edits? ==> |f.edits| == (|message| - 4) / 3 >= 1
    ensures f.Edits? ==> forall k :: 0 <= k < |f.edits| ==>
      f.edits[k] == DecodeEdit(message[4 + 3 * k .. 7 + 3 * k])
  {
    if message == Reload then ReloadCommand
    else if message == Refresh then RefreshCommand
    else if |message| >= 7 then
      EditsFromShape(message, 4);
      Edits(LittleEndianU32(message[..4]), EditsFrom(message, 4))
    else TooShort
  }

  /** The canvas after applying edits in order, each tagged with version v. */
  function ApplyEdits(s: CanvasState, v: int, edits: seq<Edit>): CanvasState
    decreases |edits|
  {
    if edits == [] then s
    else ApplyEdits(Patch(s, edits[0].x, edits[0].y, edits[0].color, v), v, edits[1..])
  }

  predicate Touches(e: Edit, x: int, y: int) {
    e.x == x && e.y == y
  }

  /** edits[k] is the last edit of the batch at (x, y). */
  predicate IsLastTouch(edits: seq<Edit>, k: int, x: int, y: int) {
    0 <= k < |edits| && Touches(edits[k], x, y) &&
    forall j :: k < j < |edits| ==> !Touches(edits[j], x, y)
  }

  /**
   * What a batch of edits leaves on the canvas: a coordinate no edit touches
   * keeps its colour, a touched one shows the colour of the last edit that
   * touched it, and a non-empty batch leaves its version behind.
   */
  lemma {:induction false} ApplyEditsEffect(s: CanvasState, v: int, edits: seq<Edit>, x: int, y: int)
    ensures ApplyEdits(s, v, edits).version == if edits == [] then s.version else v
    ensures (forall k :: 0 <= k < |edits| ==> !Touches(edits[k], x, y)) ==>
      ColorAt(ApplyEdits(s, v, edits), x, y) == ColorAt(s, x, y)
    ensures forall k :: IsLastTouch(edits, k, x, y) ==> ColorAt(ApplyEdits(s, v, edits), x, y) == edits[k].color
    decreases |edits|
  {
    if edits != [] {
      var e := edits[0];
      var t := Patch(s, e.x, e.y, e.color, v);
      ApplyEditsEffect(t, v, edits[1..], x, y);
      forall k | IsLastTouch(edits, k, x, y)
        ensures ColorAt(ApplyEdits(s, v, edits), x, y) == edits[k].color
      {
        if k > 0 {
          assert edits[1..][k - 1] == edits[k];
          forall j | k - 1 < j < |edits| - 1 ensures !Touches(edits[1..][j], x, y) {
            assert edits[1..][j] == edits[j + 1];
          }
        } else {
          forall j | 0 <= j < |edits| - 1 ensures !Touches(edits[1..][j], x, y) {
            assert edits[1..][j] == edits[j + 1];
          }
        }
      }
      if forall k :: 0 <= k < |edits| ==> !Touches(edits[k], x, y) {
        forall j | 0 <= j < |edits| - 1 ensures !Touches(edits[1..][j], x, y) {
          assert edits[1..][j] == edits[j + 1];
        }
      }
    }
  }

  /** The canvas after one frame: only an edit frame changes it. */
  function ApplyFrame(s: CanvasState, message: seq<Byte>): CanvasState {
    match ClassifyFrame(message)
    case Edits(v, edits) => ApplyEdits(s, v, edits)
    case _ => s
  }

  /** The canvas after a run of frames, in arrival order. */
  function ApplyStream(s: CanvasState, messages: seq<seq<Byte>>): CanvasState
    decreases |messages|
  {
    if messages == [] then s else ApplyStream(ApplyFrame(s, messages[0]), messages[1..])
  }

  lemma {:induction false} ApplyStreamSnoc(s: CanvasState, messages: seq<seq<Byte>>, m: seq<Byte>)
    ensures ApplyStream(s, messages + [m]) == ApplyFrame(ApplyStream(s, messages), m)
    decreases |messages|
  {
    if messages != [] {
      assert (messages + [m])[1..] == messages[1..] + [m];
      ApplyStreamSnoc(ApplyFrame(s, messages[0]), messages[1..], m);
    }
  }

  /**
   * One iteration of the read loop: classify the frame and, for an edit
   * frame, apply each complete group to the canvas in offset order with the
   * frame's version.
   */
  method HandleMessage(image: Image, message: seq<Byte>) returns (f: Frame)
    modifies image
    ensures f == ClassifyFrame(message)
    ensures image.State() == ApplyFrame(old(image.State()), message)
  {
    if message == Reload {
      return ReloadCommand;
    }
    if message == Refresh {
      return RefreshCommand;
    }
    if |message| >= 7 {
      var version := LittleEndianU32(message[0..4]);
      assert message[0..4] == message[..4];
      ghost var target := ApplyEdits(old(image.State()), version, EditsFrom(message, 4));
      var i := 4;
      while i < |message|
        invariant 4 <= i
        invariant ApplyEdits(image.State(), version, EditsFrom(message, i)) == target
        decreases |message| - i
      {
        if |message| >= i + 3 {
          var e := DecodeEdit(message[i..i + 3]);
          image.UpdatePixel(e.x, e.y, e.color, version);
        }
        i := i + 3;
      }
      return Edits(version, EditsFrom(message, 4));
    }
    return TooShort;
  }

  /**
   * The read loop of Realtime over the frames the connection delivers:
   * frames are handled in order until a "reload" or "refresh" command, which
   * ends the stream (`resync`); running out of frames stands for a read error,
   * which ends it too. Returns how many frames were consumed.
   */
  method ReadLoop(image: Image, messages: seq<seq<Byte>>) returns (consumed: nat, resync: bool)
    modifies image
    ensures consumed <= |messages|
    ensures resync ==> consumed > 0 && IsCommand(messages[consumed - 1])
    ensures !resync ==> consumed == |messages|
    ensures forall k :: 0 <= k < consumed && (k < consumed - 1 || !resync) ==> !IsCommand(messages[k])
    ensures image.State() == ApplyStream(old(image.State()), messages[..consumed])
  {
    consumed, resync := 0, false;
    while consumed < |messages|
      invariant consumed <= |messages|
      invariant forall k :: 0 <= k < consumed ==> !IsCommand(messages[k])
      invariant image.State() == ApplyStream(old(image.State()), messages[..consumed])
    {
      var f := HandleMessage(image, messages[consumed]);
      ApplyStreamSnoc(old(image.State()), messages[..consumed], messages[consumed]);
      assert messages[..consumed + 1] == messages[..consumed] + [messages[consumed]];
      consumed := consumed + 1;
      if f.ReloadCommand? || f.RefreshCommand? {
        resync := true;
        return;
      }
    }
  }
}
