/** PUT with a Content-Range (`putrange.go`): replace bytes in place, or append at the end. */
module RangePut {
  import opened Wrappers
  import opened Paths
  import opened Driver
  import opened ContentRange
  import opened TreeOps

  /** What a handler answers: a status of its own, a driver error passed on, or a 207. */
  datatype Reply = Status(code: int) | Failed(error: Error) | Multistatus(rows: seq<Row>)

  /** A request body: the bytes that arrive, and whether the connection then breaks. */
  datatype Body = Body(bytes: seq<Byte>, broken: bool)

  datatype ReadError = TooLarge | Broken

  /** io.ReadAll over a LimitReader of `limit` over a MaxBytesReader of `maxBody`. */
  function ReadBody(body: Body, maxBody: nat, limit: int): Result<seq<Byte>, ReadError> {
    if limit <= 0 then Ok([])
    else if limit <= |body.bytes| && limit <= maxBody then Ok(body.bytes[..limit])
    else if |body.bytes| > maxBody then Err(TooLarge)
    else if body.broken then Err(Broken)
    else Ok(body.bytes)
  }

  /** The range lies inside the file, or starts exactly at its end. */
  predicate Fits(size: nat, cr: ContentRange) {
    cr.start == size || cr.end < size
  }

  /**
   The file after `body` is put at `start`, when it reported `size` bytes; a file that holds
   fewer is first filled up with zeros if the bytes go at its end.
   */
  function Patched(data: seq<Byte>, size: nat, start: nat, body: seq<Byte>): seq<Byte>
    requires start == size || start + |body| <= |data|
  {
    if start == size then Resized(data, size) + body else Spliced(data, body, start)
  }

  /** What a failed write may leave when every shrink-back it needed worked. */
  predicate FailedEffect(data: seq<Byte>, size: nat, start: nat, body: seq<Byte>, after: seq<Byte>) {
    if start == size
    then after == data || after == Resized(data, size) || after == Resized(data, size) + body
    else PartlySpliced(data, body, start, after)
  }

  /** What is left when the shrink-back failed too: the grown file, zeros where the body is not. */
  predicate Grown(data: seq<Byte>, size: nat, start: nat, body: seq<Byte>, after: seq<Byte>) {
    start == size && PartlySpliced(Resized(data, size + |body|), body, start, after)
  }

  /** The one file a range PUT touches, by how it ended. */
  predicate FileEffect(data: seq<Byte>, size: nat, start: nat, body: seq<Byte>, after: seq<Byte>,
                       done: bool, stuck: bool) {
    if done then !stuck && (start == size || start + |body| <= |data|) && after == Patched(data, size, start, body)
    else if stuck then Grown(data, size, start, body, after)
    else FailedEffect(data, size, start, body, after)
  }

  /** The whole tree: nothing at all, or the one file and only when the range fits and its bytes came. */
  predicate RangeEffect(before: Tree, after: Tree, p: Path, cr: ContentRange, body: seq<Byte>, size: nat,
                        reply: Reply, stuck: bool) {
    || (after == before && reply != Status(204) && !stuck)
    || (&& (reply == Status(204) || reply.Failed?)
        && IsFileAt(before, p) && IsFileAt(after, p) && after == before[p := after[p]]
        && Fits(size, cr) && 0 <= cr.start && 0 < cr.end - cr.start + 1 <= |body|
        && FileEffect(before[p].data, size, cr.start, body[..cr.end - cr.start + 1], after[p].data,
                      reply == Status(204), stuck))
  }

  /** With no write that failed, the file is as it was or complete; a failed append is taken back. */
  predicate WriteEffect(data: seq<Byte>, size: nat, start: nat, body: seq<Byte>, after: seq<Byte>,
                        written: bool, stuck: bool) {
    if written
    then after == data || ((start == size || start + |body| <= |data|) && after == Patched(data, size, start, body))
    else start == size && !stuck ==> after == Resized(data, size)
  }

  /** An answer, but for what a driver chooses to say. */
  datatype Answer = Exactly(code: int) | Missing | Trouble | Partly

  predicate Gives(reply: Reply, answer: Answer) {
    match answer
    case Exactly(code) => reply == Status(code)
    case Missing => reply == Failed(NotFound)
    case Trouble => reply.Failed?
    case Partly => reply.Multistatus?
  }

  /** The answer to a range PUT when nothing fails, in the order the causes are looked at. */
  function RangeAnswer(t: Tree, p: Path, cr: ContentRange, body: Body, maxBody: nat, opens: bool, inPlace: bool)
    : Answer
  {
    var count := cr.end - cr.start + 1;
    if p !in t then Exactly(409)
    else if t[p].Dir? then Exactly(405)
    else if !opens || !inPlace then Exactly(501)
    else if cr.start != |t[p].data| && |t[p].data| <= cr.end then Exactly(416)
    else if cr.start == 0 && cr.end == 0x7fff_ffff_ffff_ffff then Exactly(400)
    else if count <= |body.bytes| && count <= maxBody then
      // An append that would end past the largest size cannot be grown to.
      if cr.start == |t[p].data| && cr.end == 0x7fff_ffff_ffff_ffff then Trouble else Exactly(204)
    else if maxBody < |body.bytes| then Exactly(413)
    else Exactly(400)
  }

  /** `body` in the file at `start`: at its end, or over the bytes there. */
  function InPlace(data: seq<Byte>, start: nat, body: seq<Byte>): seq<Byte> {
    if start == |data| then data + body
    else seq(|data|, i requires 0 <= i < |data| => if start <= i < start + |body| then body[i - start] else data[i])
  }

  lemma PatchedIsInPlace(data: seq<Byte>, start: nat, body: seq<Byte>)
    requires start == |data| || start + |body| <= |data|
    ensures Patched(data, |data|, start, body) == InPlace(data, start, body)
  {
    assert Resized(data, |data|) == data;
  }

  predicate Satisfiable(t: Tree, p: Path, cr: ContentRange, body: Body, maxBody: nat) {
    && IsFileAt(t, p) && Fits(|t[p].data|, cr)
    && 0 < cr.end - cr.start + 1 <= MAX_INT64
    && cr.end - cr.start + 1 <= |body.bytes| && cr.end - cr.start + 1 <= maxBody
    && (cr.start == |t[p].data| ==> cr.end < MAX_INT64)
  }

  /**
   `size` is what the opened file reported, and `stuck` says that a needed shrink-back failed;
   the server does not look.  Nothing else writes the file between the two times the driver is
   held.
   */
  method ServePutRange(fs: FileSystem, p: Path, cr: ContentRange, body: Body, maxBody: nat)
    returns (reply: Reply, ghost stuck: bool, ghost size: nat)
    requires 0 <= cr.start <= cr.end <= MAX_INT64
    modifies fs
    ensures RangeEffect(old(fs.nodes), fs.nodes, p, cr, body.bytes, size, reply, stuck)
    ensures IsFileAt(old(fs.nodes), p) ==> |old(fs.nodes)[p].data| <= size
    ensures IsFileAt(old(fs.nodes), p) && (fs.exactSizes || fs.steady) ==> size == |old(fs.nodes)[p].data|
    // The bytes are synced before success is reported.
    ensures reply == Status(204) ==> p !in fs.unsynced
    ensures old(fs.uncut) <= fs.uncut && (stuck <==> fs.uncut == old(fs.uncut) + [(p, size)])
    // A failed write while appending leaves the old bytes, unless the cut back failed too.
    ensures fs.unwritten == old(fs.unwritten) || (reply.Failed? && fs.unwritten == old(fs.unwritten) + [(p, cr.start)])
    ensures fs.nodes != old(fs.nodes) ==>
              WriteEffect(old(fs.nodes)[p].data, size, cr.start, body.bytes[..cr.end - cr.start + 1], fs.nodes[p].data,
                          fs.unwritten == old(fs.unwritten), stuck)
    ensures fs.unwritten != old(fs.unwritten) && cr.start == size && !stuck ==>
              (IsFileAt(old(fs.nodes), p) && size == |old(fs.nodes)[p].data| ==> fs.nodes == old(fs.nodes))
    ensures fs.steady ==> !stuck && (reply != Status(204) ==> fs.nodes == old(fs.nodes))
    ensures !reply.Multistatus?
    ensures reply.Status? ==> reply.code in {204, 400, 405, 409, 413, 416, 501}
    ensures reply == Status(416) ==> IsFileAt(old(fs.nodes), p) && !Fits(size, cr)
    ensures reply == Status(405) ==> IsDirAt(old(fs.nodes), p)
    ensures reply == Status(409) ==> p !in old(fs.nodes)
    ensures reply == Status(501) ==> !fs.opens || !fs.writesInPlace
    ensures reply == Status(413) ==> maxBody < |body.bytes| && maxBody < cr.end - cr.start + 1
    ensures reply == Status(400) ==> |body.bytes| < cr.end - cr.start + 1 || cr == ContentRange(0, MAX_INT64)
    ensures reply == Status(204) && size == |old(fs.nodes)[p].data| ==>
              RangeAnswer(old(fs.nodes), p, cr, body, maxBody, fs.opens, fs.writesInPlace) == Exactly(204)
    ensures fs.steady ==>
              Gives(reply, RangeAnswer(old(fs.nodes), p, cr, body, maxBody, fs.opens, fs.writesInPlace))
    ensures fs.steady ==>
              (reply == Status(204) <==>
                 fs.opens && fs.writesInPlace && Satisfiable(old(fs.nodes), p, cr, body, maxBody))
  {
    stuck := false;
    size := if IsFileAt(fs.nodes, p) then |fs.nodes[p].data| else 0;
    LengthIsExact(cr);
    var info := Lookup(fs, p);
    if info.Err? {
      return if info.error.NotFound? then Status(409) else Failed(info.error), false, size;
    }
    if info.value.isDir {
      return Status(405), false, size;
    }
    if !fs.opens {
      return Status(501), false, size;
    }
    var file := fs.OpenFile(p);
    match file {
      case OpenFailed(error) => return Failed(error), false, size;
      case NilFile => return Failed(Other(500)), false, size;
      case Opened(writable, reported) =>
        size := reported;
        if !writable {
          return Status(501), false, size;
        }
        var appending := cr.start == reported;
        if cr.end >= reported && !appending {
          return Status(416), false, size;
        }
        var read := ReadBody(body, maxBody, Length(cr));
        if read.Err? {
          return if read.error.TooLarge? then Status(413) else Status(400), false, size;
        }
        var bytes := read.value;
        if |bytes| != Length(cr) {
          return Status(400), false, size;
        }
        assert bytes == body.bytes[..cr.end - cr.start + 1];
        var err;
        ghost var data := fs.nodes[p].data;
        err, stuck := Store(fs, p, cr, bytes, reported, appending);
        assert size == |data| ==> Resized(data, size) == data;
        reply := if err.Some? then Failed(err.value) else Status(204);
    }
  }

  /** The second hold of the driver: grow, write, shrink back if the write failed, sync, close. */
  method Store(fs: FileSystem, p: Path, cr: ContentRange, bytes: seq<Byte>, size: nat, appending: bool)
    returns (err: Option<Error>, ghost stuck: bool)
    requires 0 <= cr.start <= cr.end <= MAX_INT64 && |bytes| == cr.end - cr.start + 1
    requires IsFileAt(fs.nodes, p) && |fs.nodes[p].data| <= size
    requires Fits(size, cr) && appending == (cr.start == size)
    modifies fs
    ensures IsFileAt(fs.nodes, p) && fs.nodes == old(fs.nodes)[p := fs.nodes[p]]
    ensures FileEffect(old(fs.nodes)[p].data, size, cr.start, bytes, fs.nodes[p].data, err.None?, stuck)
    ensures err.None? ==> p !in fs.unsynced
    ensures fs.unwritten == old(fs.unwritten) ||
            (err.Some? && fs.unwritten == old(fs.unwritten) + [(p, cr.start)])
    ensures WriteEffect(old(fs.nodes)[p].data, size, cr.start, bytes, fs.nodes[p].data,
                        fs.unwritten == old(fs.unwritten), stuck)
    // Stuck is a failed cut back to the size before; the growth alone may fail harmlessly.
    ensures old(fs.uncut) <= fs.uncut && (stuck <==> fs.uncut == old(fs.uncut) + [(p, size)])
    ensures fs.steady ==> !stuck
    ensures err.None? && appending ==> cr.end < MAX_INT64
    ensures fs.steady && size == |old(fs.nodes)[p].data| ==> (err.None? <==> (appending ==> cr.end < MAX_INT64))
    ensures fs.steady && size == |old(fs.nodes)[p].data| && err.Some? ==> fs.nodes == old(fs.nodes)
  {
    hide Resized, Spliced, PartlySpliced;
    ghost var data := fs.nodes[p].data;
    SameSizeResized(data);
    if appending {
      AppendedWhole(data, size, bytes);
    }
    stuck := false;
    err := None;
    if appending {
      var grown := Wrap64(cr.end + 1);
      if grown < 0 {
        err := Some(Other(500));
      } else {
        err := fs.Truncate(p, grown);
        assert err.Some? ==> fs.uncut[|old(fs.uncut)|] == (p, cr.end + 1) != (p, size);
      }
    }
    if err.None? {
      SizeResized(data, size + |bytes|);
      err := fs.WriteAt(p, bytes, cr.start);
      if err.Some? && appending {
        CutBack(data, size, bytes, fs.nodes[p].data);
        var back := fs.Truncate(p, size);
        stuck := back.Some?;
      }
      if err.None? && !appending {
        WholeIsPart(data, bytes, cr.start);
      }
    }
    if err.None? {
      err := fs.Sync(p);
    }
    var closed := fs.Close();
    if err.None? {
      err := closed;
    }
  }

  lemma SizeResized(data: seq<Byte>, size: nat)
    ensures |Resized(data, size)| == size
  {
  }

  lemma SameSizeResized(data: seq<Byte>)
    ensures Resized(data, |data|) == data
  {
  }

  lemma WholeIsPart(data: seq<Byte>, body: seq<Byte>, off: nat)
    requires off + |body| <= |data|
    ensures PartlySpliced(data, body, off, Spliced(data, body, off))
  {
  }

  /** Grown, then written at the old end: the bytes before, zeros up to that end, and the body. */
  lemma AppendedWhole(data: seq<Byte>, size: nat, body: seq<Byte>)
    requires |data| <= size
    ensures |Resized(data, size + |body|)| == size + |body|
    ensures Spliced(Resized(data, size + |body|), body, size) == Resized(data, size) + body
  {
    assert Resized(data, size + |body|)[..size] == Resized(data, size);
  }

  /** Grown, partly written at the old end, and cut back: nothing of the write is left. */
  lemma CutBack(data: seq<Byte>, size: nat, body: seq<Byte>, after: seq<Byte>)
    requires |data| <= size && PartlySpliced(Resized(data, size + |body|), body, size, after)
    ensures Resized(after, size) == Resized(data, size)
  {
    assert Resized(data, size + |body|)[..size] == Resized(data, size);
  }

  // -------------------------------------------------------------------------
  // Uploads in pieces
  // -------------------------------------------------------------------------

  function Concat(pieces: seq<seq<Byte>>): seq<Byte> {
    if pieces == [] then [] else Concat(pieces[..|pieces| - 1]) + pieces[|pieces| - 1]
  }

  /** Where piece `k` begins. */
  function StartOf(pieces: seq<seq<Byte>>, k: nat): nat
    requires k <= |pieces|
  {
    |Concat(pieces[..k])|
  }

  predicate NoneEmpty(pieces: seq<seq<Byte>>) {
    forall piece | piece in pieces :: piece != []
  }

  lemma {:induction false} ConcatSlice(pieces: seq<seq<Byte>>, have: nat, k: nat)
    requires k < have <= |pieces|
    ensures StartOf(pieces, k) + |pieces[k]| <= StartOf(pieces, have)
    ensures Concat(pieces[..have])[StartOf(pieces, k)..][..|pieces[k]|] == pieces[k]
  {
    var upto := pieces[..have];
    assert upto[..have - 1] == pieces[..have - 1];
    if k == have - 1 {
      assert Concat(upto) == Concat(pieces[..k]) + pieces[k];
    } else {
      ConcatSlice(pieces, have - 1, k);
      var shorter, longer := Concat(pieces[..have - 1]), Concat(upto);
      var at := StartOf(pieces, k);
      assert longer == shorter + pieces[have - 1];
      assert longer[at..][..|pieces[k]|] == shorter[at..][..|pieces[k]|];
    }
  }

  lemma NextStart(pieces: seq<seq<Byte>>, k: nat)
    requires k < |pieces|
    ensures StartOf(pieces, k + 1) == StartOf(pieces, k) + |pieces[k]|
  {
    assert pieces[..k + 1][..k] == pieces[..k];
  }

  /** Piece `k` in the whole upload, byte by byte. */
  lemma PieceInWhole(pieces: seq<seq<Byte>>, k: nat)
    requires k < |pieces|
    ensures StartOf(pieces, k) + |pieces[k]| == StartOf(pieces, k + 1) <= |Concat(pieces)|
    ensures forall i | StartOf(pieces, k) <= i < StartOf(pieces, k + 1) ::
              Concat(pieces)[i] == pieces[k][i - StartOf(pieces, k)]
  {
    hide Concat;
    NextStart(pieces, k);
    assert pieces[..|pieces|] == pieces;
    ConcatSlice(pieces, |pieces|, k);
    var whole, at := Concat(pieces), StartOf(pieces, k);
    forall i | at <= i < StartOf(pieces, k + 1)
      ensures whole[i] == pieces[k][i - at]
    {
      assert whole[at..][..|pieces[k]|][i - at] == whole[i];
    }
  }

  lemma {:induction false} StartsGrow(pieces: seq<seq<Byte>>, have: nat, k: nat)
    requires have < k <= |pieces| && NoneEmpty(pieces)
    ensures StartOf(pieces, have) < StartOf(pieces, k)
  {
    PieceInWhole(pieces, k - 1);
    assert pieces[k - 1] in pieces;
    if have < k - 1 {
      StartsGrow(pieces, have, k - 1);
    }
  }

  lemma {:induction false} ConcatPrefix(pieces: seq<seq<Byte>>, have: nat)
    requires have <= |pieces|
    ensures Concat(pieces[..have]) <= Concat(pieces)
    decreases |pieces| - have
  {
    if have < |pieces| {
      ConcatPrefix(pieces, have + 1);
      assert pieces[..have + 1][..have] == pieces[..have];
    } else {
      assert pieces[..have] == pieces;
    }
  }

  /** One request of an upload: which piece it announces, and what arrives of it before the connection ends. */
  datatype Send = Send(piece: nat, arrives: nat, broken: bool)

  /** What one turn at piece `k` does to the file. */
  predicate Turn(pieces: seq<seq<Byte>>, k: nat, before: seq<Byte>, after: seq<Byte>, acknowledged: bool, stuck: bool) {
    k < |pieces| && FileEffect(before, |before|, StartOf(pieces, k), pieces[k], after, acknowledged, stuck)
  }

  /** As long as the first `have` pieces, and every byte is the client's byte for that place, or zero. */
  predicate Blurred(pieces: seq<seq<Byte>>, have: nat, data: seq<Byte>) {
    && have <= |pieces| && |data| == StartOf(pieces, have) <= |Concat(pieces)|
    && forall i | 0 <= i < |data| :: data[i] == Concat(pieces)[i] || data[i] == 0
  }

  /** Piece `k` stands in the file, whole and in its place. */
  predicate Stored(pieces: seq<seq<Byte>>, k: nat, data: seq<Byte>) {
    && k < |pieces| && StartOf(pieces, k + 1) <= |data| && StartOf(pieces, k + 1) <= |Concat(pieces)|
    && forall i | StartOf(pieces, k) <= i < StartOf(pieces, k + 1) :: data[i] == Concat(pieces)[i]
  }

  lemma PlaceOf(pieces: seq<seq<Byte>>, have: nat, k: nat, data: seq<Byte>)
    requires NoneEmpty(pieces) && Blurred(pieces, have, data) && k < |pieces|
    ensures k < have ==> StartOf(pieces, k) + |pieces[k]| <= |data|
    ensures k == have ==> StartOf(pieces, k) == |data|
    ensures have < k ==> |data| < StartOf(pieces, k)
  {
    if k < have {
      ConcatSlice(pieces, have, k);
    } else if have < k {
      StartsGrow(pieces, have, k);
    }
  }

  /** A turn never replaces a byte but by the client's, and grows the file by its own piece or not at all. */
  lemma TurnBytes(pieces: seq<seq<Byte>>, have: nat, k: nat, before: seq<Byte>, after: seq<Byte>,
                  acknowledged: bool, stuck: bool)
    requires NoneEmpty(pieces) && Blurred(pieces, have, before)
    requires Turn(pieces, k, before, after, acknowledged, stuck)
    ensures |after| == |before| || (k == have && |after| == StartOf(pieces, k + 1) <= |Concat(pieces)|)
    ensures forall i | 0 <= i < |before| :: i < |after| && (after[i] == before[i] || after[i] == Concat(pieces)[i])
    ensures forall i | |before| <= i < |after| :: after[i] == Concat(pieces)[i] || (stuck && after[i] == 0)
    ensures acknowledged ==> k <= have && Stored(pieces, k, after)
  {
    hide Concat;
    PieceInWhole(pieces, k);
    PlaceOf(pieces, have, k, before);
    assert pieces[k] in pieces;
    var start, body := StartOf(pieces, k), pieces[k];
    if start == |before| {
      assert Resized(before, start) == before;
    } else {
      assert PartlySpliced(before, body, start, after);
    }
  }

  /**
   One turn, whatever piece and whatever outcome: the file stays as long as a whole number of
   pieces, with the client's bytes or zeros; stored pieces stay stored; an acknowledged one is
   stored; and no zeros come in unless a shrink-back failed.
   */
  lemma TurnKeepsPieces(pieces: seq<seq<Byte>>, have: nat, k: nat, before: seq<Byte>, after: seq<Byte>,
                        acknowledged: bool, stuck: bool)
    returns (now: nat)
    requires NoneEmpty(pieces) && Blurred(pieces, have, before)
    requires Turn(pieces, k, before, after, acknowledged, stuck)
    ensures Blurred(pieces, now, after) && have <= now <= |pieces|
    ensures acknowledged ==> k < now && Stored(pieces, k, after)
    ensures forall j | Stored(pieces, j, before) :: Stored(pieces, j, after)
    ensures !stuck && before == Concat(pieces[..have]) ==> after == Concat(pieces[..now])
  {
    TurnBytes(pieces, have, k, before, after, acknowledged, stuck);
    now := if |after| == |before| then have else have + 1;
    ConcatPrefix(pieces, have);
    ConcatPrefix(pieces, now);
    if acknowledged && now <= k {
      StartsGrow(pieces, have, k + 1);
    }
    if !stuck && before == Concat(pieces[..have]) {
      assert after == Concat(pieces)[..|after|];
    }
  }

  lemma {:induction false} AllStored(pieces: seq<seq<Byte>>, data: seq<Byte>, k: nat)
    requires k <= |pieces|
    requires forall j: nat | j < k :: Stored(pieces, j, data)
    ensures StartOf(pieces, k) <= |data| && StartOf(pieces, k) <= |Concat(pieces)|
    ensures forall i | 0 <= i < StartOf(pieces, k) :: data[i] == Concat(pieces)[i]
  {
    if k > 0 {
      AllStored(pieces, data, k - 1);
      assert Stored(pieces, k - 1, data);
    }
  }

  /** The turn sent its piece whole and the body limit let it in. */
  predicate Whole(pieces: seq<seq<Byte>>, send: Send, maxBody: nat) {
    send.piece < |pieces| && send.arrives == |pieces[send.piece]| <= maxBody
  }

  predicate AllWhole(pieces: seq<seq<Byte>>, sends: seq<Send>, maxBody: nat) {
    forall send | send in sends :: Whole(pieces, send, maxBody)
  }

  predicate Sendable(pieces: seq<seq<Byte>>, send: Send) {
    send.piece < |pieces| && send.arrives <= |pieces[send.piece]|
  }

  /** One turn of the upload: the header as the client prints it, and what came of the body. */
  method UploadTurn(fs: FileSystem, p: Path, pieces: seq<seq<Byte>>, send: Send, maxBody: nat, ghost have: nat)
    returns (acknowledged: bool, ghost now: nat, ghost stuck: bool)
    requires fs.exactSizes && IsFileAt(fs.nodes, p) && Blurred(pieces, have, fs.nodes[p].data)
    requires NoneEmpty(pieces) && |Concat(pieces)| <= MAX_INT64 && Sendable(pieces, send)
    modifies fs
    ensures IsFileAt(fs.nodes, p) && fs.nodes == old(fs.nodes)[p := fs.nodes[p]]
    ensures Turn(pieces, send.piece, old(fs.nodes)[p].data, fs.nodes[p].data, acknowledged, stuck)
    ensures Blurred(pieces, now, fs.nodes[p].data) && have <= now <= |pieces|
    ensures acknowledged ==> send.piece < now && Stored(pieces, send.piece, fs.nodes[p].data)
    ensures forall j | Stored(pieces, j, old(fs.nodes)[p].data) :: Stored(pieces, j, fs.nodes[p].data)
    ensures !stuck && old(fs.nodes)[p].data == Concat(pieces[..have]) ==> fs.nodes[p].data == Concat(pieces[..now])
    ensures old(fs.uncut) <= fs.uncut && (stuck <==> fs.uncut == old(fs.uncut) + [(p, |old(fs.nodes)[p].data|)])
    ensures fs.steady ==> !stuck
    ensures fs.steady && fs.opens && fs.writesInPlace && Whole(pieces, send, maxBody) ==>
              (acknowledged <==> send.piece <= have)
  {
    hide PrintContentRange, ParseContentRange, Blurred, Stored, Concat, FileEffect;
    var k := send.piece;
    ghost var before := fs.nodes[p].data;
    assert pieces[k] in pieces;
    PieceInWhole(pieces, k);
    PlaceOf(pieces, have, k, before);
    var start := |Concat(pieces[..k])|;
    var end := start + |pieces[k]| - 1;
    PrintedIsAccepted(start, end, None);
    var cr := ParseContentRange(PrintContentRange(start, end, None));
    var reply;
    ghost var size;
    reply, stuck, size := ServePutRange(fs, p, cr.value, Body(pieces[k][..send.arrives], send.broken), maxBody);
    acknowledged := reply == Status(204);
    assert pieces[k][..|pieces[k]|] == pieces[k];
    UnchangedTurn(before, start, pieces[k]);
    now := TurnKeepsPieces(pieces, have, k, before, fs.nodes[p].data, acknowledged, stuck);
  }

  lemma UnchangedTurn(data: seq<Byte>, start: nat, body: seq<Byte>)
    ensures FileEffect(data, |data|, start, body, data, false, false)
  {
  }

  /** Some turn sent this piece and was answered 204. */
  predicate Arrived(sends: seq<Send>, acknowledged: seq<bool>, k: nat) {
    exists i :: 0 <= i < |sends| && i < |acknowledged| && sends[i].piece == k && acknowledged[i]
  }

  lemma UploadComplete(pieces: seq<seq<Byte>>, sends: seq<Send>, acknowledged: seq<bool>, have: nat, data: seq<Byte>)
    requires Blurred(pieces, have, data) && |acknowledged| == |sends|
    requires forall i | 0 <= i < |sends| && acknowledged[i] :: Stored(pieces, sends[i].piece, data)
    requires forall k: nat | k < |pieces| :: Arrived(sends, acknowledged, k)
    ensures data == Concat(pieces)
  {
    hide Concat;
    forall k: nat | k < |pieces|
      ensures Stored(pieces, k, data)
    {
      assert Arrived(sends, acknowledged, k);
    }
    AllStored(pieces, data, |pieces|);
    assert pieces[..|pieces|] == pieces;
  }

  predicate SentBefore(sends: seq<Send>, i: nat, k: nat) {
    exists j :: 0 <= j < i && j < |sends| && sends[j].piece == k
  }

  /** No piece is sent before the one in front of it; any may be sent again. */
  predicate InSequence(sends: seq<Send>) {
    forall i | 0 <= i < |sends| :: sends[i].piece == 0 || SentBefore(sends, i, sends[i].piece - 1)
  }

  /** Every turn of an upload, told from the file before it and after it. */
  predicate UploadTrace(pieces: seq<seq<Byte>>, sends: seq<Send>, files: seq<seq<Byte>>,
                        acknowledged: seq<bool>, stuck: seq<bool>) {
    && |files| == |sends| + 1 && |acknowledged| == |stuck| == |sends|
    && forall i | 0 <= i < |sends| ::
         Turn(pieces, sends[i].piece, files[i], files[i + 1], acknowledged[i], stuck[i])
  }

  lemma TraceMore(pieces: seq<seq<Byte>>, sends: seq<Send>, files: seq<seq<Byte>>, acknowledged: seq<bool>,
                  stuck: seq<bool>, send: Send, after: seq<Byte>, acked: bool, stays: bool)
    requires UploadTrace(pieces, sends, files, acknowledged, stuck)
    requires Turn(pieces, send.piece, files[|sends|], after, acked, stays)
    ensures UploadTrace(pieces, sends + [send], files + [after], acknowledged + [acked], stuck + [stays])
  {
  }

  lemma NextInSequence(sends: seq<Send>, acknowledged: seq<bool>, have: nat)
    requires InSequence(sends) && |acknowledged| < |sends| && false !in acknowledged
    requires forall j | 0 <= j < |acknowledged| && acknowledged[j] :: sends[j].piece < have
    ensures sends[|acknowledged|].piece <= have
  {
    var i := |acknowledged|;
    if sends[i].piece > 0 {
      assert SentBefore(sends, i, sends[i].piece - 1);
      var j :| 0 <= j < i && sends[j].piece == sends[i].piece - 1;
      assert acknowledged[j] in acknowledged;
    }
  }

  /**
   A client uploads a file piece by piece, sending any piece in any turn, repeating what it likes
   and perhaps losing the connection midway.  Whatever fails, every piece acknowledged stands in
   the file at the end, every other byte is the client's or zero, and once all pieces have been
   acknowledged the file is the upload.  Zeros are there only when a shrink-back failed.  On a
   steady driver none fails, and pieces sent whole and in order are all acknowledged.
   */
  method Upload(fs: FileSystem, p: Path, pieces: seq<seq<Byte>>, sends: seq<Send>, maxBody: nat)
    returns (acknowledged: seq<bool>, ghost have: nat, ghost files: seq<seq<Byte>>, ghost stuck: seq<bool>)
    requires fs.exactSizes && IsFileAt(fs.nodes, p) && fs.nodes[p].data == []
    requires NoneEmpty(pieces) && |Concat(pieces)| <= MAX_INT64
    requires forall send | send in sends :: Sendable(pieces, send)
    modifies fs
    ensures IsFileAt(fs.nodes, p) && fs.nodes == old(fs.nodes)[p := fs.nodes[p]]
    ensures UploadTrace(pieces, sends, files, acknowledged, stuck)
    ensures files[0] == [] && files[|sends|] == fs.nodes[p].data
    ensures Blurred(pieces, have, fs.nodes[p].data)
    ensures forall i | 0 <= i < |sends| && acknowledged[i] :: Stored(pieces, sends[i].piece, fs.nodes[p].data)
    ensures (forall k: nat | k < |pieces| :: Arrived(sends, acknowledged, k)) ==> fs.nodes[p].data == Concat(pieces)
    ensures true !in stuck ==> fs.nodes[p].data == Concat(pieces[..have])
    ensures old(fs.uncut) <= fs.uncut && (fs.uncut == old(fs.uncut) ==> true !in stuck)
    ensures fs.steady ==> true !in stuck
    ensures fs.steady && fs.opens && fs.writesInPlace && InSequence(sends) && AllWhole(pieces, sends, maxBody) ==>
              false !in acknowledged
  {
    hide Blurred, Stored, Turn, Whole, Concat, InSequence, UploadTrace;
    acknowledged, have, files, stuck := [], 0, [[]], [];
    NothingUploaded(pieces);
    assert sends[..0] == [];
    for i := 0 to |sends|
      invariant IsFileAt(fs.nodes, p) && fs.nodes == old(fs.nodes)[p := fs.nodes[p]]
      invariant UploadTrace(pieces, sends[..i], files, acknowledged, stuck)
      invariant |files| == i + 1 && |acknowledged| == |stuck| == i
      invariant files[0] == [] && files[i] == fs.nodes[p].data
      invariant have <= |pieces| && Blurred(pieces, have, fs.nodes[p].data)
      invariant forall j | 0 <= j < i && acknowledged[j] :: Stored(pieces, sends[j].piece, fs.nodes[p].data)
      invariant forall j | 0 <= j < i && acknowledged[j] :: sends[j].piece < have
      invariant true !in stuck ==> fs.nodes[p].data == Concat(pieces[..have])
      invariant old(fs.uncut) <= fs.uncut && (fs.uncut == old(fs.uncut) ==> true !in stuck)
      invariant fs.steady ==> true !in stuck
      invariant fs.steady && fs.opens && fs.writesInPlace && InSequence(sends) && AllWhole(pieces, sends, maxBody) ==>
                  false !in acknowledged
    {
      assert sends[i] in sends;
      ghost var before := have;
      var acked;
      ghost var stays;
      acked, have, stays := UploadTurn(fs, p, pieces, sends[i], maxBody, before);
      TraceMore(pieces, sends[..i], files, acknowledged, stuck, sends[i], fs.nodes[p].data, acked, stays);
      if InSequence(sends) && false !in acknowledged {
        NextInSequence(sends, acknowledged, before);
      }
      acknowledged, files, stuck := acknowledged + [acked], files + [fs.nodes[p].data], stuck + [stays];
      assert sends[..i + 1] == sends[..i] + [sends[i]];
    }
    assert sends[..|sends|] == sends;
    if forall k: nat | k < |pieces| :: Arrived(sends, acknowledged, k) {
      UploadComplete(pieces, sends, acknowledged, have, fs.nodes[p].data);
    }
  }

  lemma NothingUploaded(pieces: seq<seq<Byte>>)
    ensures Blurred(pieces, 0, []) && Concat(pieces[..0]) == []
    ensures UploadTrace(pieces, [], [[]], [], [])
  {
    assert pieces[..0] == [];
  }
}
