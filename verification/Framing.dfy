/** Stream framing of a listener session: `receiveTCP` and `frame` of internal/protocolruntime/listeners.go.

    A protocol package decides how much of the buffered bytes is a frame. When the cuts that TCP makes in the stream do
    not matter is the subject of `FramingCuts`. */
module Framing {
  import opened Common

  const MAX_BUFFER: nat := 65_536
  const CHUNK: nat := 16_384

  /** The part of a session that frames change; `partial` is kept by the receive loop. */
  datatype Session = Session(deviceID: string, state: seq<byte>)

  /** The answer of a protocol package to an ingress request. */
  datatype Response =
    | WorkerError
    | NeedMore(consumed: int)
    | Complete(consumed: int, deviceID: string, replyIsHex: bool, state: seq<byte>)

  /** `ingress` is the package; `accept` stands for registering the device, ingesting the frame and sending the
      reply. */
  datatype Package = Package(
    ingress: (Session, seq<byte>) -> Response,
    accept: (Session, seq<byte>, string) -> bool,
    profileDevice: string)

  datatype Framed = Rejected | Incomplete | Consumed(count: nat, session: Session)

  /** One call of `frame` on a TCP session that is neither closed nor replaced. */
  function FrameOf(pkg: Package, s: Session, data: seq<byte>): (f: Framed)
    ensures f.Consumed? ==> 0 < f.count <= |data|
    ensures f.Incomplete? ==> |data| < MAX_BUFFER
  {
    match pkg.ingress(s, data)
    case WorkerError => Rejected
    case NeedMore(consumed) => if consumed != 0 || |data| >= MAX_BUFFER then Rejected else Incomplete
    case Complete(consumed, id, replyIsHex, state) =>
      if consumed <= 0 || consumed > |data| || !replyIsHex then Rejected
      else
        var deviceID := if id != "" then id else if s.deviceID != "" then s.deviceID else pkg.profileDevice;
        if s.deviceID != "" && deviceID != s.deviceID then Rejected
        else if !pkg.accept(s, data[..consumed], deviceID) then Rejected
        else Consumed(consumed, Session(deviceID, state))
  }

  /** What a stream of bytes comes to: the frames taken off it, the session after them, and the bytes left over, or
      nothing left over because the session was closed on an error. */
  datatype Outcome = Outcome(frames: seq<seq<byte>>, session: Session, left: Option<seq<byte>>)

  /** The reference: framing as if the bytes so far had all arrived at once. */
  function Fed(pkg: Package, s: Session, stream: seq<byte>): Outcome
    decreases |stream|
  {
    if stream == [] then Outcome([], s, Some([]))
    else
      match FrameOf(pkg, s, Window(stream))
      case Rejected => Outcome([], s, None)
      case Incomplete => Outcome([], s, Some(stream))
      case Consumed(n, t) => Prepend([stream[..n]], Fed(pkg, t, stream[n..]))
  }

  function Window(stream: seq<byte>): seq<byte> {
    if |stream| <= MAX_BUFFER then stream else stream[..MAX_BUFFER]
  }

  function Prepend(frames: seq<seq<byte>>, r: Outcome): Outcome {
    r.(frames := frames + r.frames)
  }

  /** The package never changes an answer when bytes are appended, other than asking for more. */
  ghost predicate Unchanging(pkg: Package) {
    forall s, data, more: seq<byte> {:trigger pkg.ingress(s, data + more), pkg.ingress(s, data)} ::
      data != [] && !pkg.ingress(s, data).NeedMore? ==> pkg.ingress(s, data + more) == pkg.ingress(s, data)
  }

  /** What the session rejects it still rejects when more bytes have arrived. */
  ghost predicate StaysRejected(pkg: Package) {
    forall s, data, more: seq<byte> {:trigger FrameOf(pkg, s, data + more), FrameOf(pkg, s, data)} ::
      data != [] && |data + more| <= MAX_BUFFER && FrameOf(pkg, s, data).Rejected? ==>
      FrameOf(pkg, s, data + more).Rejected?
  }

  ghost predicate Stable(pkg: Package) {
    Unchanging(pkg) && StaysRejected(pkg)
  }

  /** What a sequence of reads comes to: after each one, frames are taken off the bytes buffered so far. */
  function Received(pkg: Package, s: Session, parts: seq<seq<byte>>): Outcome
    decreases |parts|
  {
    if parts == [] then Outcome([], s, Some([]))
    else
      var r := Received(pkg, s, parts[..|parts| - 1]);
      if r.left.None? then r
      else Prepend(r.frames, Fed(pkg, r.session, r.left.value + parts[|parts| - 1]))
  }

  /** As long as the session lives, a read brings between one byte and what a chunk and the buffer have room for. */
  predicate Legal(pkg: Package, s: Session, parts: seq<seq<byte>>)
    decreases |parts|
  {
    parts == []
    || (var before, last := parts[..|parts| - 1], parts[|parts| - 1];
        var r := Received(pkg, s, before);
        && Legal(pkg, s, before)
        && (r.left.Some? ==> 0 < |last| <= CHUNK && |r.left.value + last| <= MAX_BUFFER))
  }

  /** The receive loop. `stream` is what the peer sends; `sizes[i]` is how many bytes the i-th read finds ready. For every
      package the buffer is bounded and the loop does what its reads come to; for a stable one the cuts between the reads
      do not show. */
  method ReceiveTcp(pkg: Package, start: Session, stream: seq<byte>, sizes: seq<nat>)
    returns (frames: seq<seq<byte>>, session: Session, buffer: seq<byte>, partial: bool, failed: bool, got: nat,
             ghost parts: seq<seq<byte>>)
    ensures got <= |stream| && |buffer| <= MAX_BUFFER
    ensures Joined(parts) == stream[..got] && Legal(pkg, start, parts)
    ensures Outcome(frames, session, if failed then None else Some(buffer)) == Received(pkg, start, parts)
    ensures
      Stable(pkg) ==>
      Outcome(frames, session, if failed then None else Some(buffer)) == Fed(pkg, start, stream[..got])
    ensures !failed ==> (partial <==> buffer != []) && |buffer| < MAX_BUFFER
  {
    hide Stable, FrameOf, Fed, Joined;
    frames, session, buffer, partial, failed, got, parts := [], start, [], false, false, 0, [];
    NothingFed(pkg, start);
    NothingJoined();
    for i := 0 to |sizes|
      invariant got <= |stream| && |buffer| < MAX_BUFFER && !failed && (partial <==> buffer != [])
      invariant Joined(parts) == stream[..got] && Legal(pkg, start, parts)
      invariant Outcome(frames, session, Some(buffer)) == Received(pkg, start, parts)
      invariant Stable(pkg) ==> Outcome(frames, session, Some(buffer)) == Fed(pkg, start, stream[..got])
    {
      var n := Min(Min(sizes[i], |stream| - got), Min(CHUNK, MAX_BUFFER - |buffer|));
      if n > 0 {
        if |buffer| + n > MAX_BUFFER {
          failed := true;
          return;
        }
        ghost var part := stream[got..got + n];
        StableFedAppend(pkg, start, stream[..got], part);
        JoinedMore(parts, part);
        OneMoreRead(pkg, start, parts, part);
        assert stream[..got] + part == stream[..got + n];
        parts := parts + [part];
        buffer, got := buffer + stream[got..got + n], got + n;
        frames, session, buffer, partial, failed := TakeFrames(pkg, frames, session, buffer, partial);
        if failed {
          return;
        }
      }
    }
  }

  lemma NothingJoined()
    ensures Joined([]) == []
  {
  }

  lemma {:induction false} JoinedMore(parts: seq<seq<byte>>, part: seq<byte>)
    ensures Joined(parts + [part]) == Joined(parts) + part
    decreases |parts|
  {
    if parts == [] {
      assert [part][1..] == [];
    } else {
      JoinedMore(parts[1..], part);
      assert (parts + [part])[1..] == parts[1..] + [part];
    }
  }

  /** What one more read comes to, and when it is legal. */
  lemma OneMoreRead(pkg: Package, s: Session, parts: seq<seq<byte>>, part: seq<byte>)
    ensures
      var r := Received(pkg, s, parts);
      && Received(pkg, s, parts + [part]) ==
         (if r.left.None? then r else Prepend(r.frames, Fed(pkg, r.session, r.left.value + part)))
      && (Legal(pkg, s, parts + [part]) <==>
          Legal(pkg, s, parts) && (r.left.Some? ==> 0 < |part| <= CHUNK && |r.left.value + part| <= MAX_BUFFER))
  {
    assert (parts + [part])[..|parts|] == parts;
  }

  lemma StableFedAppend(pkg: Package, s: Session, stream: seq<byte>, more: seq<byte>)
    ensures
      Stable(pkg) ==>
        var r, all := Fed(pkg, s, stream), Fed(pkg, s, stream + more);
        all == if r.left.None? then r else Prepend(r.frames, Fed(pkg, r.session, r.left.value + more))
  {
    if Stable(pkg) {
      FedAppend(pkg, s, stream, more);
    }
  }

  /** The inner loop: frames are taken off the buffer until more bytes are needed or one is rejected. */
  method TakeFrames(pkg: Package, before: seq<seq<byte>>, start: Session, bytes: seq<byte>, wasPartial: bool)
    returns (frames: seq<seq<byte>>, session: Session, buffer: seq<byte>, partial: bool, failed: bool)
    requires 0 < |bytes| <= MAX_BUFFER
    ensures Outcome(frames, session, if failed then None else Some(buffer)) ==
            Prepend(before, Fed(pkg, start, bytes))
    ensures |buffer| <= MAX_BUFFER && (!failed ==> (partial <==> buffer != []) && |buffer| < MAX_BUFFER)
  {
    hide FrameOf;
    frames, session, buffer, partial, failed := before, start, bytes, wasPartial, false;
    while buffer != []
      invariant |buffer| <= MAX_BUFFER && (buffer == [] ==> !partial)
      invariant Prepend(frames, Fed(pkg, session, buffer)) == Prepend(before, Fed(pkg, start, bytes))
      decreases |buffer|
    {
      var f := FrameOf(pkg, session, buffer);
      if f.Rejected? {
        failed := true;
        break;
      }
      if f.Incomplete? {
        partial := true;
        break;
      }
      PrependTwice(frames, [buffer[..f.count]], Fed(pkg, f.session, buffer[f.count..]));
      frames := frames + [buffer[..f.count]];
      session, buffer, partial := f.session, buffer[f.count..], false;
    }
    assert frames + [] == frames;
  }

  lemma NothingFed(pkg: Package, s: Session)
    ensures Fed(pkg, s, []) == Outcome([], s, Some([]))
  {
  }

  function Min(a: nat, b: nat): nat {
    if a <= b then a else b
  }

  lemma PrependTwice(a: seq<seq<byte>>, b: seq<seq<byte>>, r: Outcome)
    ensures Prepend(a, Prepend(b, r)) == Prepend(a + b, r)
  {
  }

  lemma FrameIsStable(pkg: Package, s: Session, data: seq<byte>, more: seq<byte>)
    requires Unchanging(pkg) && data != [] && |data + more| <= MAX_BUFFER
    requires StaysRejected(pkg) || !FrameOf(pkg, s, data).Rejected?
    ensures !FrameOf(pkg, s, data).Incomplete? ==> FrameOf(pkg, s, data + more) == FrameOf(pkg, s, data)
  {
    var r := pkg.ingress(s, data);
    if FrameOf(pkg, s, data).Rejected? {
      assert FrameOf(pkg, s, data + more).Rejected?;
    } else if r.Complete? {
      assert pkg.ingress(s, data + more) == r;
      assert (data + more)[..r.consumed] == data[..r.consumed];
    }
  }

  /** More bytes only continue where framing stopped. */
  lemma {:induction false} FedAppend(pkg: Package, s: Session, stream: seq<byte>, more: seq<byte>)
    requires Unchanging(pkg) && (StaysRejected(pkg) || Fed(pkg, s, stream).left.Some?)
    ensures var r, all := Fed(pkg, s, stream), Fed(pkg, s, stream + more);
            all == if r.left.None? then r else Prepend(r.frames, Fed(pkg, r.session, r.left.value + more))
    decreases |stream|
  {
    if stream == [] {
      assert stream + more == more;
      PrependNothing(Fed(pkg, s, more));
    } else {
      var f := FrameOf(pkg, s, Window(stream));
      if f.Incomplete? {
        PrependNothing(Fed(pkg, s, stream + more));
      } else {
        WindowGrows(stream, more);
        var extra := Window(stream + more)[|Window(stream)|..];
        FrameIsStable(pkg, s, Window(stream), extra);
        assert extra == [] ==> Window(stream + more) == Window(stream);
        assert FrameOf(pkg, s, Window(stream + more)) == f && stream + more != [];
        hide FrameOf, Window, Unchanging, StaysRejected;
        if f.Consumed? {
          FedAppend(pkg, f.session, stream[f.count..], more);
          assert (stream + more)[f.count..] == stream[f.count..] + more;
          assert (stream + more)[..f.count] == stream[..f.count];
          var r := Fed(pkg, f.session, stream[f.count..]);
          if r.left.Some? {
            PrependTwice([stream[..f.count]], r.frames, Fed(pkg, r.session, r.left.value + more));
          }
        }
      }
    }
  }

  lemma PrependNothing(r: Outcome)
    ensures Prepend([], r) == r
  {
  }

  lemma WindowGrows(stream: seq<byte>, more: seq<byte>)
    ensures |Window(stream)| <= |Window(stream + more)| <= MAX_BUFFER
    ensures Window(stream + more) == Window(stream) + Window(stream + more)[|Window(stream)|..]
  {
  }

  /** Framing a part of a stream as if it had arrived at once ends with an error only where framing the whole does. */
  ghost predicate ErrorsAreFinal(pkg: Package) {
    forall s, stream: seq<byte>, got: nat ::
      got <= |stream| && Fed(pkg, s, stream[..got]).left.None? ==> Fed(pkg, s, stream[..got]) == Fed(pkg, s, stream)
  }

  /** For a package with unchanging answers, parts of every length may be framed on their own if and only if what the
      session rejects stays rejected. */
  lemma ErrorsAreFinalExactlyWhen(pkg: Package)
    requires Unchanging(pkg)
    ensures ErrorsAreFinal(pkg) <==> StaysRejected(pkg)
  {
    if StaysRejected(pkg) {
      forall s, stream: seq<byte>, got: nat | got <= |stream| && Fed(pkg, s, stream[..got]).left.None?
        ensures Fed(pkg, s, stream[..got]) == Fed(pkg, s, stream)
      {
        PrefixDecides(pkg, s, stream, got);
      }
    }
    if ErrorsAreFinal(pkg) {
      forall s, data, more: seq<byte> | data != [] && |data + more| <= MAX_BUFFER && FrameOf(pkg, s, data).Rejected?
        ensures FrameOf(pkg, s, data + more).Rejected?
      {
        RejectionFollows(pkg, s, data, more);
      }
    }
  }

  lemma RejectionFollows(pkg: Package, s: Session, data: seq<byte>, more: seq<byte>)
    requires ErrorsAreFinal(pkg)
    requires data != [] && |data + more| <= MAX_BUFFER && FrameOf(pkg, s, data).Rejected?
    ensures FrameOf(pkg, s, data + more).Rejected?
  {
    var stream := data + more;
    assert stream[..|data|] == data;
    assert Fed(pkg, s, data) == Outcome([], s, None);
    assert Fed(pkg, s, stream) == Outcome([], s, None);
  }

  /** Two ways of cutting one stream, each read to its end or to a failure, come to the same frames, the same session,
      the same leftover bytes and the same error. */
  lemma ChunkingDoesNotMatter(pkg: Package, start: Session, stream: seq<byte>, got: nat, other: nat)
    requires Stable(pkg) && got <= |stream| && other <= |stream|
    requires got == |stream| || Fed(pkg, start, stream[..got]).left.None?
    requires other == |stream| || Fed(pkg, start, stream[..other]).left.None?
    ensures Fed(pkg, start, stream[..got]) == Fed(pkg, start, stream[..other]) == Fed(pkg, start, stream)
  {
    PrefixDecides(pkg, start, stream, got);
    PrefixDecides(pkg, start, stream, other);
  }

  lemma PrefixDecides(pkg: Package, start: Session, stream: seq<byte>, got: nat)
    requires Stable(pkg) && got <= |stream|
    requires got == |stream| || Fed(pkg, start, stream[..got]).left.None?
    ensures Fed(pkg, start, stream[..got]) == Fed(pkg, start, stream)
  {
    hide Fed, Unchanging, StaysRejected;
    if got == |stream| {
      assert stream[..got] == stream;
    } else {
      FedAppend(pkg, start, stream[..got], stream[got..]);
      assert stream[..got] + stream[got..] == stream;
    }
  }

  lemma ShortWindow(stream: seq<byte>)
    ensures |Window(stream)| <= |stream|
  {
  }

  /** No byte is lost, duplicated or reordered: the frames and the leftover are the stream. */
  lemma {:induction false} FramesAreTheStream(pkg: Package, s: Session, stream: seq<byte>)
    ensures var r := Fed(pkg, s, stream);
            && Joined(r.frames) <= stream && (forall f :: f in r.frames ==> f != [])
            && (r.left.Some? ==> stream == Joined(r.frames) + r.left.value)
    decreases |stream|
  {
    hide FrameOf, Window;
    if stream != [] {
      var f := FrameOf(pkg, s, Window(stream));
      if f.Consumed? {
        assert f.count <= |stream| by { ShortWindow(stream); }
        var rest := Fed(pkg, f.session, stream[f.count..]);
        FramesAreTheStream(pkg, f.session, stream[f.count..]);
        var r := Fed(pkg, s, stream);
        assert r.frames == [stream[..f.count]] + rest.frames && r.frames[1..] == rest.frames;
        assert stream == stream[..f.count] + stream[f.count..];
      }
    }
  }

  /** Unchanging answers alone are not enough: a package that answers "two bytes" before it has seen them gets the
      session closed when the two bytes arrive separately. */
  lemma ClaimingUnseenBytesBreaksChunking(s: Session)
    ensures var pkg := Package((_, _) => Complete(2, "d", true, []), (_, _, _) => true, "");
            && Unchanging(pkg) && !StaysRejected(pkg)
            && Fed(pkg, s.(deviceID := ""), [1]).left.None?
            && Fed(pkg, s.(deviceID := ""), [1, 2]) == Outcome([[1, 2]], Session("d", []), Some([]))
  {
    var pkg := Package((_, _) => Complete(2, "d", true, []), (_, _, _) => true, "");
    var two: seq<byte> := [1, 2];
    assert two[..2] == two && two[2..] == [];
    assert FrameOf(pkg, s.(deviceID := ""), two) == Consumed(2, Session("d", []));
    var one: seq<byte> := [1];
    assert one + [2] == two && FrameOf(pkg, s.(deviceID := ""), one).Rejected?;
    assert Fed(pkg, Session("d", []), []) == Outcome([], Session("d", []), Some([]));
    assert [two] + [] == [two];
  }
}
